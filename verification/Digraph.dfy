/** Directed graphs on the dense nodes `0..len`, with the reachability vocabulary that the
    graph algorithms are specified by. */
module Digraph {
  import opened Sorting

  type Adjacency = seq<seq<nat>>

  /** Every successor is a node. */
  ghost predicate InRange(g: Adjacency) {
    forall u, j :: 0 <= u < |g| && 0 <= j < |g[u]| ==> g[u][j] < |g|
  }

  /** What `finish` establishes: sorted, de-duplicated successor lists. */
  ghost predicate Finished(g: Adjacency) {
    && InRange(g)
    && forall u :: 0 <= u < |g| ==> StrictlySorted(g[u])
  }

  ghost function Below(n: nat): (r: set<nat>)
    ensures forall x: nat :: x in r <==> x < n
    ensures |r| == n
  {
    if n == 0 then {} else Below(n - 1) + {n - 1}
  }

  predicate Edge(g: Adjacency, u: nat, v: nat) {
    u < |g| && v in g[u]
  }

  ghost predicate IsWalk(g: Adjacency, p: seq<nat>) {
    && |p| >= 1
    && p[0] < |g|
    && forall i :: 0 <= i < |p| - 1 ==> Edge(g, p[i], p[i + 1])
  }

  ghost predicate WalkFrom(g: Adjacency, p: seq<nat>, u: nat, v: nat) {
    IsWalk(g, p) && p[0] == u && p[|p| - 1] == v
  }

  ghost predicate Reaches(g: Adjacency, u: nat, v: nat) {
    exists p :: WalkFrom(g, p, u, v)
  }

  ghost predicate Mutual(g: Adjacency, u: nat, v: nat) {
    Reaches(g, u, v) && Reaches(g, v, u)
  }

  lemma ReachesSelf(g: Adjacency, u: nat)
    requires u < |g|
    ensures Reaches(g, u, u)
  {
    assert WalkFrom(g, [u], u, u);
  }

  lemma EdgeReaches(g: Adjacency, u: nat, v: nat)
    requires Edge(g, u, v)
    ensures Reaches(g, u, v)
  {
    assert WalkFrom(g, [u, v], u, v);
  }

  lemma WalksJoin(g: Adjacency, p: seq<nat>, q: seq<nat>, u: nat, v: nat, w: nat)
    requires WalkFrom(g, p, u, v) && WalkFrom(g, q, v, w)
    ensures WalkFrom(g, p + q[1..], u, w)
  {
    var r := p + q[1..];
    forall i | 0 <= i < |r| - 1 ensures Edge(g, r[i], r[i + 1]) {
      if i < |p| - 1 {
        assert Edge(g, p[i], p[i + 1]);
      } else {
        var k := i - (|p| - 1);
        assert Edge(g, q[k], q[k + 1]);
      }
    }
  }

  lemma ReachesTransitive(g: Adjacency, u: nat, v: nat, w: nat)
    requires Reaches(g, u, v) && Reaches(g, v, w)
    ensures Reaches(g, u, w)
  {
    var p :| WalkFrom(g, p, u, v);
    var q :| WalkFrom(g, q, v, w);
    WalksJoin(g, p, q, u, v, w);
  }

  lemma ReachesByEdge(g: Adjacency, u: nat, v: nat, w: nat)
    requires Reaches(g, u, v) && Edge(g, v, w)
    ensures Reaches(g, u, w)
  {
    EdgeReaches(g, v, w);
    ReachesTransitive(g, u, v, w);
  }

  lemma {:induction false} WalkInRange(g: Adjacency, p: seq<nat>)
    requires InRange(g) && IsWalk(g, p)
    ensures forall i :: 0 <= i < |p| ==> p[i] < |g|
  {
    forall i | 0 <= i < |p| ensures p[i] < |g| {
      if i > 0 {
        assert Edge(g, p[i - 1], p[i - 1 + 1]);
      }
    }
  }

  ghost predicate ClosedUnderEdges(g: Adjacency, s: set<nat>) {
    forall u, v :: u in s && Edge(g, u, v) ==> v in s
  }

  lemma {:induction false} WalkStaysIn(g: Adjacency, s: set<nat>, p: seq<nat>)
    requires IsWalk(g, p) && p[0] in s && ClosedUnderEdges(g, s)
    ensures p[|p| - 1] in s
    decreases |p|
  {
    if |p| > 1 {
      var q := p[..|p| - 1];
      assert IsWalk(g, q) by {
        forall i | 0 <= i < |q| - 1 ensures Edge(g, q[i], q[i + 1]) {
          assert Edge(g, p[i], p[i + 1]);
        }
      }
      WalkStaysIn(g, s, q);
      var k := |p| - 2;
      assert Edge(g, p[k], p[k + 1]);
    }
  }

  /** A set closed under edges contains everything its members reach. */
  lemma ReachStaysIn(g: Adjacency, s: set<nat>, u: nat, v: nat)
    requires ClosedUnderEdges(g, s) && u in s && Reaches(g, u, v)
    ensures v in s
  {
    var p :| WalkFrom(g, p, u, v);
    WalkStaysIn(g, s, p);
  }

  /** The graph under construction: edges are appended, then `Finish` puts every successor
      list in canonical form. */
  class Graph {
    var adjacency: Adjacency

    ghost predicate Valid()
      reads this
    {
      InRange(adjacency)
    }

    constructor (len: nat)
      ensures Valid() && |adjacency| == len
      ensures forall u, v :: !Edge(adjacency, u, v)
    {
      adjacency := seq(len, _ => []);
    }

    /** Edges with an end outside the graph are ignored. */
    method AddEdge(from: nat, to: nat)
      requires Valid()
      modifies this
      ensures Valid() && |adjacency| == |old(adjacency)|
      ensures forall u, v :: Edge(adjacency, u, v) <==>
                Edge(old(adjacency), u, v) || (u == from && v == to && from < |adjacency| && to < |adjacency|)
    {
      if from < |adjacency| && to < |adjacency| {
        adjacency := adjacency[from := adjacency[from] + [to]];
      }
    }

    method Finish()
      requires Valid()
      modifies this
      ensures Finished(adjacency) && |adjacency| == |old(adjacency)|
      ensures forall u, v :: Edge(adjacency, u, v) <==> Edge(old(adjacency), u, v)
    {
      var i := 0;
      while i < |adjacency|
        invariant i <= |adjacency| == |old(adjacency)|
        invariant forall u :: 0 <= u < i ==> StrictlySorted(adjacency[u])
        invariant forall u :: 0 <= u < i ==> forall v :: v in adjacency[u] <==> v in old(adjacency)[u]
        invariant forall u :: i <= u < |adjacency| ==> adjacency[u] == old(adjacency)[u]
      {
        CanonicalList(adjacency[i]);
        adjacency := adjacency[i := Dedup(Sort(adjacency[i], LeNat))];
        i := i + 1;
      }
      forall u, j | 0 <= u < |adjacency| && 0 <= j < |adjacency[u]| ensures adjacency[u][j] < |adjacency| {
        assert adjacency[u][j] in old(adjacency)[u];
      }
    }
  }

  lemma CanonicalList(s: seq<nat>)
    ensures var r := Dedup(Sort(s, LeNat));
      StrictlySorted(r) && forall v :: v in r <==> v in s
  {
    SortSorted(s, LeNat);
    SameMembers(s, Sort(s, LeNat));
    DedupSorted(Sort(s, LeNat));
  }
}
