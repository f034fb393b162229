/** Layers of the condensation: the longest chain of dependencies below each node, counting only
    the steps that leave a strongly connected component. */
module Layers {
  import opened Basics
  import opened Sorting
  import opened Digraph
  import opened TarjanInvariant
  import opened Tarjan

  // --------------------------------------------------------------- what a layer is

  ghost function Crossings(g: Adjacency, p: seq<nat>): nat {
    if |p| < 2 then 0
    else (if Mutual(g, p[0], p[1]) then 0 else 1) + Crossings(g, p[1..])
  }

  ghost predicate HasChain(g: Adjacency, u: nat, k: nat) {
    exists p :: IsWalk(g, p) && p[0] == u && Crossings(g, p) == k
  }

  /** `k` is the most components any walk from `u` leaves, and some walk leaves that many. */
  ghost predicate IsLayer(g: Adjacency, u: nat, k: nat) {
    && HasChain(g, u, k)
    && (forall p :: IsWalk(g, p) && p[0] == u ==> Crossings(g, p) <= k)
  }

  // ------------------------------------------------- from steps to whole walks

  ghost predicate Flat(g: Adjacency, layer: seq<nat>) {
    forall u, v :: 0 <= u < |layer| && 0 <= v < |layer| && Mutual(g, u, v) ==> layer[u] == layer[v]
  }

  ghost predicate Descends(g: Adjacency, layer: seq<nat>) {
    forall u, v :: 0 <= u < |layer| && 0 <= v < |layer| && Edge(g, u, v) && !Mutual(g, u, v) ==>
      layer[v] < layer[u]
  }

  ghost predicate Supports(g: Adjacency, layer: seq<nat>, u: nat, w: nat, v: nat)
    requires u < |layer|
  {
    Mutual(g, u, w) && Edge(g, w, v) && !Mutual(g, w, v) && v < |layer| && layer[u] == layer[v] + 1
  }

  ghost predicate Supported(g: Adjacency, layer: seq<nat>, u: nat)
    requires u < |layer|
  {
    layer[u] == 0 || exists w: nat, v: nat :: Supports(g, layer, u, w, v)
  }

  lemma {:induction false} NoWalkHigher(g: Adjacency, layer: seq<nat>, p: seq<nat>)
    requires InRange(g) && |layer| == |g| && Flat(g, layer) && Descends(g, layer) && IsWalk(g, p)
    ensures Crossings(g, p) <= layer[p[0]]
    decreases |p|
  {
    if |p| >= 2 {
      assert Edge(g, p[0], p[0 + 1]);
      var q := p[1..];
      assert IsWalk(g, q) by {
        forall i | 0 <= i < |q| - 1 ensures Edge(g, q[i], q[i + 1]) {
          assert Edge(g, p[i + 1], p[i + 1 + 1]);
        }
      }
      NoWalkHigher(g, layer, q);
    }
  }

  /** A walk inside one component crosses nothing, and can be put in front of any other. */
  lemma {:induction false} InnerWalk(g: Adjacency, p: seq<nat>, q: seq<nat>)
    requires IsWalk(g, p) && IsWalk(g, q) && p[|p| - 1] == q[0]
    requires Mutual(g, p[0], q[0])
    ensures IsWalk(g, p + q[1..]) && Crossings(g, p + q[1..]) == Crossings(g, q)
    decreases |p|
  {
    WalksJoin(g, p, q, p[0], q[0], q[|q| - 1]);
    if |p| == 1 {
      assert p + q[1..] == q;
    } else {
      var r := p[1..];
      assert Edge(g, p[0], p[0 + 1]);
      assert WalkFrom(g, r, p[1], q[0]) by {
        forall i | 0 <= i < |r| - 1 ensures Edge(g, r[i], r[i + 1]) {
          assert Edge(g, p[i + 1], p[i + 1 + 1]);
        }
      }
      assert Reaches(g, p[1], q[0]);
      EdgeReaches(g, p[0], p[1]);
      ReachesTransitive(g, q[0], p[0], p[1]);
      ReachesTransitive(g, p[1], q[0], p[0]);
      InnerWalk(g, r, q);
      assert (p + q[1..])[1..] == r + q[1..];
    }
  }

  lemma {:induction false} ChainExists(g: Adjacency, layer: seq<nat>, u: nat)
    requires InRange(g) && |layer| == |g| && u < |g|
    requires forall v :: 0 <= v < |g| ==> Supported(g, layer, v)
    ensures HasChain(g, u, layer[u])
    decreases layer[u]
  {
    if layer[u] == 0 {
      assert IsWalk(g, [u]) && Crossings(g, [u]) == 0;
    } else {
      assert Supported(g, layer, u);
      var w: nat, v: nat :| Supports(g, layer, u, w, v);
      ChainExists(g, layer, v);
      var q :| IsWalk(g, q) && q[0] == v && Crossings(g, q) == layer[v];
      var q' := [w] + q;
      assert IsWalk(g, q') by {
        forall i | 0 <= i < |q'| - 1 ensures Edge(g, q'[i], q'[i + 1]) {
          assert i > 0 ==> Edge(g, q[i - 1], q[i - 1 + 1]);
        }
      }
      assert q'[1..] == q;
      var p :| WalkFrom(g, p, u, w);
      InnerWalk(g, p, q');
    }
  }

  lemma LayersAreLongest(g: Adjacency, layer: seq<nat>)
    requires InRange(g) && |layer| == |g| && Flat(g, layer) && Descends(g, layer)
    requires forall v :: 0 <= v < |g| ==> Supported(g, layer, v)
    ensures forall u :: 0 <= u < |g| ==> IsLayer(g, u, layer[u])
  {
    forall u | 0 <= u < |g| ensures IsLayer(g, u, layer[u]) {
      ChainExists(g, layer, u);
      forall p | IsWalk(g, p) && p[0] == u ensures Crossings(g, p) <= layer[u] {
        NoWalkHigher(g, layer, p);
      }
    }
  }

  // ----------------------------------------------------------- the condensation

  /** `of[v]` is the index of the component holding `v`. */
  ghost predicate Indexes(g: Adjacency, cs: seq<seq<nat>>, of: seq<nat>) {
    && |of| == |g|
    && (forall v :: 0 <= v < |g| ==> of[v] < |cs| && v in cs[of[v]])
  }

  lemma ComponentIsUnique(g: Adjacency, cs: seq<seq<nat>>, i: nat, j: nat, v: nat)
    requires AreComponents(g, cs) && i < |cs| && j < |cs| && v in cs[i] && v in cs[j]
    ensures i == j
  {
    SameClass(g, cs[i], cs[j], v);
  }

  lemma SameClass(g: Adjacency, c: seq<nat>, d: seq<nat>, v: nat)
    requires IsComponent(g, c) && IsComponent(g, d) && v in c && v in d
    ensures First(c) == First(d)
  {
    forall x ensures x in c <==> x in d {
      assert x in c <==> Mutual(g, v, x);
      assert x in d <==> Mutual(g, v, x);
    }
    assert c[0] in d && d[0] in c;
  }

  lemma SameIndexIsMutual(g: Adjacency, cs: seq<seq<nat>>, of: seq<nat>, u: nat, v: nat)
    requires AreComponents(g, cs) && Indexes(g, cs, of) && u < |g| && v < |g|
    ensures of[u] == of[v] <==> Mutual(g, u, v)
  {
    assert IsComponent(g, cs[of[u]]);
    if Mutual(g, u, v) {
      assert v in cs[of[u]];
      ComponentIsUnique(g, cs, of[u], of[v], v);
    }
  }

  method ComponentOf(g: Adjacency, cs: seq<seq<nat>>) returns (of: seq<nat>)
    requires AreComponents(g, cs)
    ensures Indexes(g, cs, of)
  {
    var componentOf := new nat[|g|](_ => 0);
    hide AreComponents;
    var index := 0;
    while index < |cs|
      invariant index <= |cs|
      invariant forall i, v :: 0 <= i < index && v in cs[i] ==> v < |g| && componentOf[v] == i
    {
      var component := cs[index];
      ComponentFacts(g, cs, index);
      var j := 0;
      while j < |component|
        invariant j <= |component|
        invariant forall i, v :: 0 <= i < index && v in cs[i] ==> v < |g| && componentOf[v] == i
        invariant forall k :: 0 <= k < j ==> component[k] < |g| && componentOf[component[k]] == index
      {
        assert component[j] in cs[index];
        componentOf[component[j]] := index;
        j := j + 1;
      }
      index := index + 1;
    }
    of := componentOf[..];
    forall v | 0 <= v < |g| ensures of[v] < |cs| && v in cs[of[v]] {
      CoversAll(g, cs, v);
      var i :| 0 <= i < |cs| && v in cs[i];
      assert componentOf[v] == i;
    }
  }

  lemma CoversAll(g: Adjacency, cs: seq<seq<nat>>, v: nat)
    requires AreComponents(g, cs) && v < |g|
    ensures exists i :: 0 <= i < |cs| && v in cs[i]
  {
    assert HasComponent(cs, v);
  }

  lemma ComponentFacts(g: Adjacency, cs: seq<seq<nat>>, index: nat)
    requires AreComponents(g, cs) && index < |cs|
    ensures forall v :: v in cs[index] ==> v < |g|
    ensures forall i, v :: 0 <= i < |cs| && i != index && v in cs[i] ==> v !in cs[index]
  {
    assert IsComponent(g, cs[index]);
    forall i, v | 0 <= i < |cs| && i != index && v in cs[i] ensures v !in cs[index] {
      if v in cs[index] {
        ComponentIsUnique(g, cs, i, index, v);
      }
    }
  }

  /** An edge leads from component `a` to another component `b`. */
  ghost predicate CrossEdge(g: Adjacency, of: seq<nat>, a: nat, b: nat, u: nat, k: nat)
    requires InRange(g) && |of| == |g|
  {
    a != b && u < |g| && k < |g[u]| && of[u] == a && of[g[u][k]] == b
  }

  ghost predicate Crosses(g: Adjacency, of: seq<nat>, a: nat, b: nat, u1: nat, k1: nat)
    requires InRange(g) && |of| == |g|
  {
    exists u: nat, k: nat :: CrossEdge(g, of, a, b, u, k) && (u < u1 || (u == u1 && k < k1))
  }

  /** The edges of the condensation examined so far, each listed once. */
  ghost predicate Outgoing(g: Adjacency, of: seq<nat>, out: seq<seq<nat>>, u1: nat, k1: nat)
    requires InRange(g) && |of| == |g|
  {
    && (forall a :: 0 <= a < |out| ==> NoDuplicates(out[a]))
    && (forall a: nat, b: nat {:trigger b in out[a]} :: a < |out| ==> (b in out[a] <==> Crosses(g, of, a, b, u1, k1)))
  }

  lemma CrossesNext(g: Adjacency, of: seq<nat>, a: nat, b: nat, u: nat, k: nat)
    requires InRange(g) && |of| == |g| && u < |g| && k < |g[u]|
    ensures Crosses(g, of, a, b, u, k + 1) <==>
              Crosses(g, of, a, b, u, k) || (of[u] == a && of[g[u][k]] == b && a != b)
  {
    if of[u] == a && of[g[u][k]] == b && a != b {
      assert CrossEdge(g, of, a, b, u, k);
    }
  }

  lemma CrossesNextNode(g: Adjacency, of: seq<nat>, a: nat, b: nat, u: nat)
    requires InRange(g) && |of| == |g| && u < |g|
    ensures Crosses(g, of, a, b, u + 1, 0) <==> Crosses(g, of, a, b, u, |g[u]|)
  {
  }

  method BuildOutgoing(g: Adjacency, of: seq<nat>, count: nat) returns (out: seq<seq<nat>>)
    requires InRange(g) && |of| == |g| && forall v :: 0 <= v < |g| ==> of[v] < count
    ensures |out| == count && Outgoing(g, of, out, |g|, 0)
  {
    out := seq(count, _ => []);
    var node := 0;
    while node < |g|
      invariant node <= |g| && |out| == count && Outgoing(g, of, out, node, 0)
    {
      var k := 0;
      while k < |g[node]|
        invariant k <= |g[node]| && |out| == count && Outgoing(g, of, out, node, k)
      {
        out := RecordEdge(g, of, out, node, k);
        k := k + 1;
      }
      forall a: nat, b: nat | a < |out|
        ensures Crosses(g, of, a, b, node + 1, 0) <==> Crosses(g, of, a, b, node, k)
      {
        CrossesNextNode(g, of, a, b, node);
      }
      node := node + 1;
    }
  }

  method RecordEdge(g: Adjacency, of: seq<nat>, out: seq<seq<nat>>, node: nat, k: nat) returns (out': seq<seq<nat>>)
    requires InRange(g) && |of| == |g| && node < |g| && k < |g[node]|
    requires forall v :: 0 <= v < |g| ==> of[v] < |out|
    requires Outgoing(g, of, out, node, k)
    ensures |out'| == |out| && Outgoing(g, of, out', node, k + 1)
  {
    out' := out;
    var a, b := of[node], of[g[node][k]];
    if a != b && b !in out[a] {
      out' := out[a := out[a] + [b]];
    }
    forall x: nat, y: nat | x < |out'| ensures y in out'[x] <==> Crosses(g, of, x, y, node, k + 1) {
      CrossesNext(g, of, x, y, node, k);
    }
  }

  ghost predicate Reversed(out: seq<seq<nat>>, rev: seq<seq<nat>>, from: nat) {
    && |rev| == |out|
    && (forall b :: 0 <= b < |rev| ==> NoDuplicates(rev[b]))
    && (forall a: nat, b: nat {:trigger a in rev[b]} :: b < |rev| ==>
          (a in rev[b] <==> a < from && a < |out| && b in out[a]))
  }

  method BuildReverse(out: seq<seq<nat>>) returns (rev: seq<seq<nat>>)
    requires forall a :: 0 <= a < |out| ==> NoDuplicates(out[a])
    requires forall a, j :: 0 <= a < |out| && 0 <= j < |out[a]| ==> out[a][j] < |out|
    ensures Reversed(out, rev, |out|)
  {
    rev := seq(|out|, _ => []);
    var from := 0;
    while from < |out|
      invariant from <= |out| && Reversed(out, rev, from)
    {
      var targets := out[from];
      var j := 0;
      while j < |targets|
        invariant j <= |targets| && |rev| == |out|
        invariant forall b :: 0 <= b < |rev| ==> NoDuplicates(rev[b])
        invariant forall a: nat, b: nat {:trigger a in rev[b]} :: b < |rev| ==>
          (a in rev[b] <==> (a < from && b in out[a]) || (a == from && b in targets[..j]))
      {
        var to := targets[j];
        assert targets[..j + 1] == targets[..j] + [to];
        assert to !in targets[..j];
        assert from !in rev[to];
        rev := rev[to := rev[to] + [from]];
        j := j + 1;
      }
      assert targets[..j] == targets;
      from := from + 1;
    }
  }

  // ------------------------------------------------------------- draining the queue

  /** How many of the listed components are not processed. */
  ghost function Waiting(targets: seq<nat>, done: set<nat>): nat {
    if targets == [] then 0
    else (if targets[0] in done then 0 else 1) + Waiting(targets[1..], done)
  }

  lemma {:induction false} WaitingDrops(targets: seq<nat>, done: set<nat>, c: nat)
    requires NoDuplicates(targets) && c !in done
    ensures Waiting(targets, done) == Waiting(targets, done + {c}) + (if c in targets then 1 else 0)
  {
    if targets != [] {
      var rest := targets[1..];
      WaitingDrops(rest, done, c);
      assert targets == [targets[0]] + rest;
      assert targets[0] == c ==> c !in rest;
    }
  }

  lemma {:induction false} NoneWaiting(targets: seq<nat>, done: set<nat>)
    ensures Waiting(targets, done) == 0 <==> (forall b :: b in targets ==> b in done)
  {
    if targets != [] {
      NoneWaiting(targets[1..], done);
      assert targets == [targets[0]] + targets[1..];
    }
  }

  lemma {:induction false} AllWaiting(targets: seq<nat>)
    ensures Waiting(targets, {}) == |targets|
  {
    if targets != [] {
      AllWaiting(targets[1..]);
    }
  }

  datatype Drain = Drain(left: seq<nat>, layer: seq<nat>, queue: seq<nat>, done: set<nat>)

  /** A component's counter says how many of its targets are unprocessed, it is queued once that
      is none, and what is processed has only processed targets. */
  ghost predicate Counted(out: seq<seq<nat>>, s: Drain) {
    && |s.left| == |s.layer| == |out|
    && (forall c :: 0 <= c < |out| ==> s.left[c] == Waiting(out[c], s.done))
    && NoDuplicates(s.queue)
    && (forall c :: c in s.queue ==> c < |out| && c !in s.done)
    && (forall c :: 0 <= c < |out| ==> (s.left[c] == 0 <==> c in s.queue || c in s.done))
  }

  ghost predicate Attains(out: seq<seq<nat>>, s: Drain, c: nat, d: nat)
    requires |s.layer| == |out|
  {
    c < |out| && d in out[c] && d in s.done && d < |out| && s.layer[c] == s.layer[d] + 1
  }

  ghost predicate Attained(out: seq<seq<nat>>, s: Drain, c: nat)
    requires |s.layer| == |out| && c < |out|
  {
    s.layer[c] == 0 || exists d: nat :: Attains(out, s, c, d)
  }

  /** A component's layer is one above the highest of its processed targets. */
  ghost predicate Raised(out: seq<seq<nat>>, s: Drain)
    requires |s.layer| == |out|
  {
    && (forall c, d :: 0 <= c < |out| && d in out[c] && d in s.done && d < |out| ==> s.layer[d] < s.layer[c])
    && (forall c {:trigger Attained(out, s, c)} :: 0 <= c < |out| ==> Attained(out, s, c))
  }

  ghost predicate DrainInv(out: seq<seq<nat>>, s: Drain) {
    Counted(out, s) && Raised(out, s)
  }

  /** What processing the first of the queue does to the counters and the layers. */
  ghost predicate Processes(out: seq<seq<nat>>, rev: seq<seq<nat>>, s: Drain, t: Drain)
    requires s.queue != [] && s.queue[0] < |rev|
    requires |s.left| == |s.layer| == |t.left| == |t.layer| == |rev| == |out|
  {
    var c := s.queue[0];
    && t.done == s.done + {c}
    && (forall d :: 0 <= d < |out| ==>
          && t.left[d] + (if d in rev[c] then 1 else 0) == s.left[d]
          && t.layer[d] == (if d in rev[c] then Max(s.layer[d], s.layer[c] + 1) else s.layer[d]))
    && NoDuplicates(t.queue)
    && (forall d :: d in t.queue <==> d in s.queue[1..] || (d in rev[c] && d < |out| && t.left[d] == 0))
  }

  ghost predicate MayProcess(out: seq<seq<nat>>, rev: seq<seq<nat>>, s: Drain, t: Drain) {
    && Reversed(out, rev, |out|) && (forall a :: 0 <= a < |out| ==> NoDuplicates(out[a]))
    && (forall a :: 0 <= a < |out| ==> a !in out[a])
    && Counted(out, s) && s.queue != [] && s.queue[0] < |rev|
    && |t.left| == |t.layer| == |out|
    && Processes(out, rev, s, t)
  }

  lemma ProcessCounted(out: seq<seq<nat>>, rev: seq<seq<nat>>, s: Drain, t: Drain)
    requires MayProcess(out, rev, s, t)
    ensures Counted(out, t)
  {
    var c := s.queue[0];
    forall d | 0 <= d < |out| ensures t.left[d] == Waiting(out[d], t.done) {
      WaitingDrops(out[d], s.done, c);
    }
    assert s.queue == [c] + s.queue[1..];
  }

  lemma DoneIsFixed(out: seq<seq<nat>>, rev: seq<seq<nat>>, s: Drain, t: Drain, d: nat)
    requires MayProcess(out, rev, s, t) && d < |out| && (d in s.done || d == s.queue[0])
    ensures t.layer[d] == s.layer[d]
  {
    var c := s.queue[0];
    assert c in s.queue;
    if d in s.done {
      NoneWaiting(out[d], s.done);
      assert c !in out[d];
    }
  }

  lemma ProcessRaised(out: seq<seq<nat>>, rev: seq<seq<nat>>, s: Drain, t: Drain)
    requires MayProcess(out, rev, s, t) && Raised(out, s)
    ensures Raised(out, t)
  {
    var c := s.queue[0];
    forall d | 0 <= d < |out| && (d in s.done || d == c) ensures t.layer[d] == s.layer[d] {
      DoneIsFixed(out, rev, s, t, d);
    }
    hide Counted;
    forall b | 0 <= b < |out| ensures Attained(out, t, b) {
      assert Attained(out, s, b);
      if t.layer[b] == s.layer[b] {
        if s.layer[b] != 0 {
          var d: nat :| Attains(out, s, b, d);
          assert Attains(out, t, b, d);
        }
      } else {
        assert Attains(out, t, b, c);
      }
    }
  }

  lemma ProcessKeeps(out: seq<seq<nat>>, rev: seq<seq<nat>>, s: Drain, t: Drain)
    requires MayProcess(out, rev, s, t) && Raised(out, s)
    ensures DrainInv(out, t)
  {
    hide Counted, Raised, Processes;
    ProcessCounted(out, rev, s, t);
    ProcessRaised(out, rev, s, t);
  }

  /** No counter underflows: a component waits at least for the one being processed. */
  lemma NoUnderflow(out: seq<seq<nat>>, rev: seq<seq<nat>>, s: Drain, d: nat)
    requires Counted(out, s) && Reversed(out, rev, |out|) && s.queue != [] && s.queue[0] < |rev|
    requires d in rev[s.queue[0]]
    ensures d < |out| && s.left[d] >= 1
  {
    assert s.queue[0] in s.queue;
    NoneWaiting(out[d], s.done);
  }

  /** Processes the first of the queue: every component that depends on it is raised above it. */
  method Process(ghost out: seq<seq<nat>>, rev: seq<seq<nat>>, left: array<nat>, layer: array<nat>,
                 queue: seq<nat>, ghost s: Drain)
    returns (queue': seq<nat>, ghost s': Drain)
    requires left != layer && Reversed(out, rev, |out|) && DrainInv(out, s)
    requires forall a :: 0 <= a < |out| ==> NoDuplicates(out[a]) && a !in out[a]
    requires queue != [] && queue == s.queue && left[..] == s.left && layer[..] == s.layer
    modifies left, layer
    ensures DrainInv(out, s') && queue' == s'.queue && left[..] == s'.left && layer[..] == s'.layer
    ensures s'.done == s.done + {queue[0]} && queue[0] < |out| && queue[0] !in s.done
  {
    hide Raised, Attained;
    var c := queue[0];
    assert c in s.queue;
    queue' := queue[1..];
    assert queue == [c] + queue';
    var dependents := rev[c];
    var j := 0;
    while j < |dependents|
      invariant j <= |dependents|
      invariant forall d :: 0 <= d < |out| ==>
                  && left[d] + (if d in dependents[..j] then 1 else 0) == s.left[d]
                  && layer[d] == (if d in dependents[..j] then Max(s.layer[d], s.layer[c] + 1) else s.layer[d])
      invariant NoDuplicates(queue')
      invariant forall d :: d in queue' <==> d in s.queue[1..] || (d in dependents[..j] && d < |out| && left[d] == 0)
    {
      var d := dependents[j];
      assert dependents[..j + 1] == dependents[..j] + [d];
      assert d in rev[c] && d !in dependents[..j];
      NoUnderflow(out, rev, s, d);
      layer[d] := Max(layer[d], layer[c] + 1);
      left[d] := left[d] - 1;
      if left[d] == 0 {
        queue' := queue' + [d];
      }
      j := j + 1;
    }
    assert dependents[..j] == dependents;
    s' := Drain(left[..], layer[..], queue', s.done + {c});
    ProcessKeeps(out, rev, s, s');
  }

  // ------------------------------------------------------- everything is processed

  ghost function ReachSet(g: Adjacency, u: nat): set<nat> {
    set v | 0 <= v < |g| && Reaches(g, u, v)
  }

  ghost predicate Condensed(g: Adjacency, cs: seq<seq<nat>>, of: seq<nat>, out: seq<seq<nat>>) {
    && InRange(g) && AreComponents(g, cs) && Indexes(g, cs, of)
    && |out| == |cs| && Outgoing(g, of, out, |g|, 0)
  }

  lemma TargetEdge(g: Adjacency, cs: seq<seq<nat>>, of: seq<nat>, out: seq<seq<nat>>, a: nat, b: nat)
    returns (u: nat, v: nat)
    requires Condensed(g, cs, of, out) && a < |out| && b in out[a]
    ensures u < |g| && v < |g| && Edge(g, u, v) && of[u] == a && of[v] == b && a != b
  {
    hide AreComponents;
    assert Crosses(g, of, a, b, |g|, 0);
    var w: nat, k: nat :| CrossEdge(g, of, a, b, w, k);
    u, v := w, g[w][k];
  }

  lemma EdgeTarget(g: Adjacency, cs: seq<seq<nat>>, of: seq<nat>, out: seq<seq<nat>>, u: nat, v: nat)
    requires Condensed(g, cs, of, out) && u < |g| && Edge(g, u, v) && v < |g| && of[u] != of[v]
    ensures of[u] < |out| && of[v] in out[of[u]]
  {
    hide AreComponents;
    var k :| 0 <= k < |g[u]| && g[u][k] == v;
    assert CrossEdge(g, of, of[u], of[v], u, k);
    assert Crosses(g, of, of[u], of[v], |g|, 0);
  }

  /** A step to another component leaves something behind for good. */
  lemma ReachShrinks(g: Adjacency, cs: seq<seq<nat>>, of: seq<nat>, u: nat, v: nat)
    requires InRange(g) && AreComponents(g, cs) && Indexes(g, cs, of)
    requires u < |g| && v < |g| && Edge(g, u, v) && of[u] != of[v]
    ensures ReachSet(g, v) < ReachSet(g, u)
  {
    SameIndexIsMutual(g, cs, of, u, v);
    EdgeReaches(g, u, v);
    forall w | w in ReachSet(g, v) ensures w in ReachSet(g, u) {
      ReachesTransitive(g, u, v, w);
    }
    ReachesSelf(g, u);
    assert u in ReachSet(g, u) && u !in ReachSet(g, v);
  }

  lemma MutualSameReach(g: Adjacency, u: nat, v: nat)
    requires Mutual(g, u, v)
    ensures ReachSet(g, u) == ReachSet(g, v)
  {
    forall w ensures w in ReachSet(g, u) <==> w in ReachSet(g, v) {
      if Reaches(g, u, w) { ReachesTransitive(g, v, u, w); }
      if Reaches(g, v, w) { ReachesTransitive(g, u, v, w); }
    }
  }

  lemma SubsetSmaller<T>(a: set<T>, b: set<T>)
    requires a < b
    ensures |a| < |b|
  {
    assert b == a + (b - a);
    assert b - a != {};
  }

  /** With the queue empty no component is left out: an unprocessed one would wait for another
      that reaches strictly less. */
  lemma {:induction false} AllDrained(g: Adjacency, cs: seq<seq<nat>>, of: seq<nat>, out: seq<seq<nat>>, s: Drain,
                                      u: nat)
    requires Condensed(g, cs, of, out) && Counted(out, s) && s.queue == [] && u < |g| && of[u] < |out|
    ensures of[u] in s.done
    decreases |ReachSet(g, u)|
  {
    var a := of[u];
    forall b | b in out[a] ensures b in s.done {
      var w, v := TargetEdge(g, cs, of, out, a, b);
      SameIndexIsMutual(g, cs, of, u, w);
      MutualSameReach(g, u, w);
      ReachShrinks(g, cs, of, w, v);
      SubsetSmaller(ReachSet(g, v), ReachSet(g, u));
      AllDrained(g, cs, of, out, s, v);
    }
    NoneWaiting(out[a], s.done);
  }

  lemma DrainedIsLayered(g: Adjacency, cs: seq<seq<nat>>, of: seq<nat>, out: seq<seq<nat>>, s: Drain, layer: seq<nat>)
    requires Condensed(g, cs, of, out) && DrainInv(out, s) && s.queue == []
    requires |layer| == |g| && forall v :: 0 <= v < |g| ==> of[v] < |s.layer| && layer[v] == s.layer[of[v]]
    ensures forall u :: 0 <= u < |g| ==> IsLayer(g, u, layer[u])
  {
    forall v | 0 <= v < |g| ensures of[v] in s.done {
      AllDrained(g, cs, of, out, s, v);
    }
    hide AreComponents, Indexes, Outgoing, Counted, IsLayer;
    forall u, v | 0 <= u < |g| && 0 <= v < |g| && Mutual(g, u, v) ensures layer[u] == layer[v] {
      SameIndexIsMutual(g, cs, of, u, v);
    }
    forall u, v | 0 <= u < |g| && 0 <= v < |g| && Edge(g, u, v) && !Mutual(g, u, v) ensures layer[v] < layer[u] {
      SameIndexIsMutual(g, cs, of, u, v);
      EdgeTarget(g, cs, of, out, u, v);
    }
    forall u | 0 <= u < |g| ensures Supported(g, layer, u) {
      DrainedSupports(g, cs, of, out, s, layer, u);
    }
    LayersAreLongest(g, layer);
  }

  lemma DrainedSupports(g: Adjacency, cs: seq<seq<nat>>, of: seq<nat>, out: seq<seq<nat>>, s: Drain, layer: seq<nat>,
                        u: nat)
    requires Condensed(g, cs, of, out) && |s.layer| == |out| && Raised(out, s)
    requires |layer| == |g| && |of| == |g| && forall v :: 0 <= v < |g| ==>
      of[v] < |s.layer| && layer[v] == s.layer[of[v]]
    requires u < |g|
    ensures Supported(g, layer, u)
  {
    assert Attained(out, s, of[u]);
    if layer[u] != 0 {
      var d: nat :| Attains(out, s, of[u], d);
      var w, v := TargetEdge(g, cs, of, out, of[u], d);
      SameIndexIsMutual(g, cs, of, u, w);
      SameIndexIsMutual(g, cs, of, w, v);
      assert Supports(g, layer, u, w, v);
    }
  }

  lemma OutgoingFacts(g: Adjacency, cs: seq<seq<nat>>, of: seq<nat>, out: seq<seq<nat>>)
    requires Condensed(g, cs, of, out)
    ensures forall a :: 0 <= a < |out| ==> NoDuplicates(out[a]) && a !in out[a]
    ensures forall a, j :: 0 <= a < |out| && 0 <= j < |out[a]| ==> out[a][j] < |out|
  {
    forall a, b: nat | 0 <= a < |out| && b in out[a] ensures b < |out| && a != b {
      var u, v := TargetEdge(g, cs, of, out, a, b);
    }
    forall a, j | 0 <= a < |out| && 0 <= j < |out[a]| ensures out[a][j] < |out| {
      assert out[a][j] in out[a];
    }
  }

  /** The components that wait for nothing, in order. */
  method InitialQueue(ghost out: seq<seq<nat>>, left: seq<nat>) returns (queue: seq<nat>)
    requires |left| == |out| && forall c :: 0 <= c < |out| ==> left[c] == |out[c]|
    ensures Counted(out, Drain(left, seq(|out|, _ => 0), queue, {}))
  {
    queue := [];
    var c := 0;
    while c < |left|
      invariant c <= |left| && StrictlySorted(queue)
      invariant forall d: nat :: d in queue <==> d < c && left[d] == 0
    {
      if left[c] == 0 {
        assert forall i :: 0 <= i < |queue| ==> queue[i] in queue;
        queue := queue + [c];
      }
      c := c + 1;
    }
    forall d | 0 <= d < |out| ensures left[d] == Waiting(out[d], {}) {
      AllWaiting(out[d]);
    }
  }

  /** The layer of every node, given the strongly connected components. */
  method Layers(g: Adjacency, components: seq<seq<nat>>) returns (layers: seq<nat>)
    requires InRange(g) && AreComponents(g, components)
    ensures |layers| == |g| && forall u :: 0 <= u < |g| ==> IsLayer(g, u, layers[u])
  {
    hide AreComponents, IsLayer, Counted, Raised, Outgoing;
    var of := ComponentOf(g, components);
    var count := |components|;
    var out := BuildOutgoing(g, of, count);
    OutgoingFacts(g, components, of, out);
    var rev := BuildReverse(out);
    var left := new nat[count](c requires 0 <= c < |out| => |out[c]|);
    var layer := new nat[count](_ => 0);
    var queue := InitialQueue(out, left[..]);
    ghost var s := Drain(left[..], layer[..], queue, {});
    assert layer[..] == seq(|out|, _ => 0);
    StartRaised(out, s);
    ghost var all := Below(count);
    while queue != []
      invariant DrainInv(out, s) && queue == s.queue && left[..] == s.left && layer[..] == s.layer
      invariant s.done <= all
      decreases all - s.done
    {
      queue, s := Process(out, rev, left, layer, queue, s);
    }
    layers := seq(|g|, v requires 0 <= v < |g| && of[v] < layer.Length reads layer => layer[of[v]]);
    DrainedIsLayered(g, components, of, out, s, layers);
  }

  lemma StartRaised(out: seq<seq<nat>>, s: Drain)
    requires s.done == {} && |s.layer| == |out| && forall c :: 0 <= c < |out| ==> s.layer[c] == 0
    ensures Raised(out, s)
  {
  }
}
