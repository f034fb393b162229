/** Sets of walks, their sizes, and the two ways of counting them step by step. */
module WalkCounts {
  import opened Digraph
  import opened Sums

  ghost function Prefixed(u: nat, s: set<seq<nat>>): set<seq<nat>> {
    set p | p in s :: [u] + p
  }

  /** Prefixes every walk from a successor of `u` below `m` with `u`. */
  ghost function Extended(g: Adjacency, u: nat, v: nat, k: nat, m: nat): set<seq<nat>>
    decreases k, 1, m
  {
    if m == 0 then {}
    else
      Extended(g, u, v, k, m - 1)
      + (if Edge(g, u, m - 1) then Prefixed(u, Walks(g, m - 1, v, k)) else {})
  }

  /** The walks of `k` edges from `u` to `v`. */
  ghost function Walks(g: Adjacency, u: nat, v: nat, k: nat): set<seq<nat>>
    decreases k, 0
  {
    if u >= |g| then {}
    else if k == 0 then (if u == v then {[u]} else {})
    else Extended(g, u, v, k - 1, |g|)
  }

  lemma {:induction false} InExtended(g: Adjacency, u: nat, v: nat, k: nat, m: nat, p: seq<nat>)
    ensures p in Extended(g, u, v, k, m) <==>
              |p| >= 2 && p[0] == u && p[1] < m && Edge(g, u, p[1]) && p[1..] in Walks(g, p[1], v, k)
    decreases k, 1, m
  {
    if m > 0 {
      InExtended(g, u, v, k, m - 1, p);
      WalksStart(g, m - 1, v, k);
      var last := Prefixed(u, Walks(g, m - 1, v, k));
      if p in last {
        var q :| q in Walks(g, m - 1, v, k) && p == [u] + q;
        assert p[1..] == q;
      }
      if |p| >= 2 && p[0] == u && p[1] == m - 1 && p[1..] in Walks(g, p[1], v, k) {
        assert p == [u] + p[1..];
        assert p in last;
      }
    }
  }

  lemma {:induction false} WalksStart(g: Adjacency, u: nat, v: nat, k: nat)
    ensures forall p :: p in Walks(g, u, v, k) ==> |p| == k + 1 && p[0] == u
    decreases k, 0
  {
    if u < |g| && k > 0 {
      forall p | p in Walks(g, u, v, k) ensures |p| == k + 1 && p[0] == u {
        InExtended(g, u, v, k - 1, |g|, p);
        WalksStart(g, p[1], v, k - 1);
      }
    }
  }

  /** The recursive set is the set of walks of that length. */
  lemma {:induction false} WalksAreWalks(g: Adjacency, u: nat, v: nat, k: nat, p: seq<nat>)
    requires InRange(g)
    ensures p in Walks(g, u, v, k) <==> WalkFrom(g, p, u, v) && |p| == k + 1
    decreases k
  {
    if u < |g| {
      if k == 0 {
        if WalkFrom(g, p, u, v) && |p| == 1 {
          assert p == [u];
        }
      } else {
        InExtended(g, u, v, k - 1, |g|, p);
        if |p| >= 2 {
          WalksAreWalks(g, p[1], v, k - 1, p[1..]);
          FirstStep(g, p, u, v);
        }
      }
    }
  }

  lemma FirstStep(g: Adjacency, p: seq<nat>, u: nat, v: nat)
    requires InRange(g) && |p| >= 2
    ensures WalkFrom(g, p, u, v) <==> p[0] == u && Edge(g, u, p[1]) && p[1] < |g| && WalkFrom(g, p[1..], p[1], v)
  {
    var q := p[1..];
    if WalkFrom(g, p, u, v) {
      assert Edge(g, p[0], p[0 + 1]);
      forall i | 0 <= i < |q| - 1 ensures Edge(g, q[i], q[i + 1]) {
        assert Edge(g, p[i + 1], p[i + 1 + 1]);
      }
    }
    if p[0] == u && Edge(g, u, p[1]) && WalkFrom(g, q, p[1], v) {
      forall i | 0 <= i < |p| - 1 ensures Edge(g, p[i], p[i + 1]) {
        assert i > 0 ==> Edge(g, q[i - 1], q[i - 1 + 1]);
      }
    }
  }

  // -------------------------------------------------------------------- counting

  /** How many walks of `k` edges lead from `u` to `v`. */
  ghost function Count(g: Adjacency, u: nat, v: nat, k: nat): real {
    |Walks(g, u, v, k)| as real
  }

  ghost function If(b: bool, x: real): real { if b then x else 0.0 }

  lemma PrefixSize(u: nat, s: set<seq<nat>>)
    ensures |Prefixed(u, s)| == |s|
    decreases s
  {
    if s != {} {
      var q :| q in s;
      PrefixSize(u, s - {q});
      forall p | p in s - {q} ensures [u] + p != [u] + q {
        assert ([u] + p)[1..] == p && ([u] + q)[1..] == q;
      }
      assert Prefixed(u, s) == Prefixed(u, s - {q}) + {[u] + q};
    }
  }

  ghost function Tails(s: set<seq<nat>>, w: nat): set<seq<nat>> {
    set p | p in s && |p| >= 2 && p[1] == w :: p[1..]
  }

  lemma DisjointSize<T>(a: set<T>, b: set<T>)
    requires a !! b
    ensures |a + b| == |a| + |b|
  {
  }

  ghost function StepsBelow(s: set<seq<nat>>, m: nat): set<seq<nat>> {
    set p | p in s && |p| >= 2 && p[1] < m
  }

  lemma StepsBelowNext(s: set<seq<nat>>, u: nat, m: nat)
    requires forall p :: p in s ==> |p| >= 2 && p[0] == u
    ensures |StepsBelow(s, m + 1)| == |StepsBelow(s, m)| + |Tails(s, m)|
  {
    var last := Prefixed(u, Tails(s, m));
    forall p ensures p in StepsBelow(s, m + 1) <==> p in StepsBelow(s, m) + last {
      LastPart(s, u, m, p);
    }
    forall p | p in StepsBelow(s, m) ensures p !in last {
      LastPart(s, u, m, p);
    }
    PrefixSize(u, Tails(s, m));
    DisjointSize(StepsBelow(s, m), last);
    assert StepsBelow(s, m + 1) == StepsBelow(s, m) + last;
  }

  lemma {:induction false} CountBelow(s: set<seq<nat>>, u: nat, m: nat)
    requires forall p :: p in s ==> |p| >= 2 && p[0] == u
    ensures |StepsBelow(s, m)| as real == Sum(m, (w: nat) => |Tails(s, w)| as real)
  {
    if m == 0 {
      assert StepsBelow(s, m) == {};
    } else {
      CountBelow(s, u, m - 1);
      StepsBelowNext(s, u, m - 1);
    }
  }

  /** Walks from one node are counted by their second nodes. */
  lemma SplitByFirst(s: set<seq<nat>>, u: nat, n: nat)
    requires forall p :: p in s ==> |p| >= 2 && p[0] == u && p[1] < n
    ensures |s| as real == Sum(n, (w: nat) => |Tails(s, w)| as real)
  {
    CountBelow(s, u, n);
    assert StepsBelow(s, n) == s;
  }

  lemma LastPart(s: set<seq<nat>>, u: nat, m: nat, p: seq<nat>)
    requires forall q :: q in s ==> |q| >= 2 && q[0] == u
    ensures p in Prefixed(u, Tails(s, m)) <==> p in s && p[1] == m
  {
    var last := Prefixed(u, Tails(s, m));
    if p in s && p[1] == m {
      assert p[1..] in Tails(s, m) && p == [u] + p[1..];
    }
    if p in last {
      var q :| q in Tails(s, m) && p == [u] + q;
      var r :| r in s && |r| >= 2 && r[1] == m && r[1..] == q;
      assert r == p;
    }
  }

  lemma TailsOfWalks(g: Adjacency, u: nat, v: nat, k: nat, w: nat)
    requires InRange(g) && u < |g|
    ensures Tails(Walks(g, u, v, k + 1), w) == if Edge(g, u, w) then Walks(g, w, v, k) else {}
  {
    var s := Walks(g, u, v, k + 1);
    var r := if Edge(g, u, w) then Walks(g, w, v, k) else {};
    forall q ensures q in Tails(s, w) <==> q in r {
      InExtended(g, u, v, k, |g|, [u] + q);
      WalksStart(g, w, v, k);
      assert ([u] + q)[1..] == q;
      if q in Tails(s, w) {
        var p :| p in s && |p| >= 2 && p[1] == w && p[1..] == q;
        InExtended(g, u, v, k, |g|, p);
      }
      if q in r {
        var j :| 0 <= j < |g[u]| && g[u][j] == w;
        assert [u] + q in s;
      }
    }
  }

  /** Counting by the first step. */
  lemma CountFirst(g: Adjacency, u: nat, v: nat, k: nat)
    requires InRange(g) && u < |g|
    ensures Count(g, u, v, k + 1) == Sum(|g|, (w: nat) => If(Edge(g, u, w), Count(g, w, v, k)))
  {
    var s := Walks(g, u, v, k + 1);
    forall p | p in s ensures |p| >= 2 && p[0] == u && p[1] < |g| {
      InExtended(g, u, v, k, |g|, p);
    }
    SplitByFirst(s, u, |g|);
    forall w: nat | w < |g| ensures |Tails(s, w)| as real == If(Edge(g, u, w), Count(g, w, v, k)) {
      TailsOfWalks(g, u, v, k, w);
    }
    SumSame(|g|, (w: nat) => |Tails(s, w)| as real, (w: nat) => If(Edge(g, u, w), Count(g, w, v, k)));
  }

  lemma CountZero(g: Adjacency, u: nat, v: nat)
    requires u < |g|
    ensures Count(g, u, v, 0) == if u == v then 1.0 else 0.0
  {
  }

  /** Counting by the last step. */
  lemma {:induction false} CountLast(g: Adjacency, u: nat, v: nat, k: nat)
    requires InRange(g) && u < |g| && v < |g|
    ensures Count(g, u, v, k + 1) == Sum(|g|, (w: nat) => If(Edge(g, w, v), Count(g, u, w, k)))
    decreases k
  {
    hide Count;
    var n := |g|;
    CountFirst(g, u, v, k);
    if k == 0 {
      forall w: nat | w < n ensures Count(g, w, v, 0) == If(w == v, 1.0) && Count(g, u, w, 0) == If(w == u, 1.0) {
        CountZero(g, w, v);
        CountZero(g, u, w);
      }
      SumSingle(n, (w: nat) => If(Edge(g, u, w), Count(g, w, v, 0)), v);
      SumSingle(n, (w: nat) => If(Edge(g, w, v), Count(g, u, w, 0)), u);
    } else {
      CountBoth(g, u, v, k);
    }
  }

  lemma {:induction false} CountBoth(g: Adjacency, u: nat, v: nat, k: nat)
    requires InRange(g) && u < |g| && v < |g| && k > 0
    ensures Sum(|g|, (w: nat) => If(Edge(g, u, w), Count(g, w, v, k)))
         == Sum(|g|, (x: nat) => If(Edge(g, x, v), Count(g, u, x, k)))
    decreases k, 0
  {
    hide Count;
    var n := |g|;
    var f := (w: nat, x: nat) => If(Edge(g, u, w) && Edge(g, x, v), Count(g, w, x, k - 1));
    forall w: nat | w < n ensures If(Edge(g, u, w), Count(g, w, v, k)) == Sum(n, (x: nat) => f(w, x)) {
      CountLast(g, w, v, k - 1);
      var h := (x: nat) => If(Edge(g, x, v), Count(g, w, x, k - 1));
      if Edge(g, u, w) {
        SumSame(n, h, (x: nat) => f(w, x));
      } else {
        SumZero(n, (x: nat) => f(w, x));
      }
    }
    forall x: nat | x < n ensures If(Edge(g, x, v), Count(g, u, x, k)) == Sum(n, (w: nat) => f(w, x)) {
      CountFirst(g, u, x, k - 1);
      var h := (w: nat) => If(Edge(g, u, w), Count(g, w, x, k - 1));
      if Edge(g, x, v) {
        SumSame(n, h, (w: nat) => f(w, x));
      } else {
        SumZero(n, (w: nat) => f(w, x));
      }
    }
    SumSame(n, (w: nat) => If(Edge(g, u, w), Count(g, w, v, k)), (w: nat) => Sum(n, (x: nat) => f(w, x)));
    SumSame(n, (x: nat) => If(Edge(g, x, v), Count(g, u, x, k)), (x: nat) => Sum(n, (w: nat) => f(w, x)));
    SumSwap(n, n, f);
  }

  // ------------------------------------------------------- walks through a node

  /** The walks of `k` edges from `s` to `t` whose `i`th node is `v`. */
  ghost function Through(g: Adjacency, s: nat, t: nat, k: nat, v: nat, i: nat): set<seq<nat>> {
    set p | p in Walks(g, s, t, k) && i < |p| && p[i] == v
  }

  /** They are counted by cutting them at `v`. */
  lemma {:induction false} CountThrough(g: Adjacency, s: nat, t: nat, v: nat, i: nat, j: nat)
    requires InRange(g) && s < |g| && v < |g|
    ensures |Through(g, s, t, i + j, v, i)| as real == Count(g, s, v, i) * Count(g, v, t, j)
    decreases i
  {
    WalksStart(g, s, t, i + j);
    if i == 0 {
      CountZero(g, s, v);
      assert Through(g, s, t, i + j, v, i) == if s == v then Walks(g, s, t, j) else {};
    } else {
      CountThroughStep(g, s, t, v, i, j);
    }
  }

  lemma {:induction false} CountThroughStep(g: Adjacency, s: nat, t: nat, v: nat, i: nat, j: nat)
    requires InRange(g) && s < |g| && v < |g| && i > 0
    ensures |Through(g, s, t, i + j, v, i)| as real == Count(g, s, v, i) * Count(g, v, t, j)
    decreases i, 0
  {
    hide Count, Through;
    var n, b := |g|, Count(g, v, t, j);
    var a := Through(g, s, t, i + j, v, i);
    SplitThrough(g, s, t, i + j - 1, v, i);
    CountFirst(g, s, v, i - 1);
    var h := (w: nat) => If(Edge(g, s, w), Count(g, w, v, i - 1));
    var tails := (w: nat) => |Tails(a, w)| as real;
    forall w: nat | w < n ensures tails(w) == b * h(w) {
      CountThrough(g, w, t, v, i - 1, j);
      TailsOfThrough(g, s, t, i + j - 1, v, i, w);
    }
    ScaledSum(n, b, h, tails, |a| as real, Count(g, s, v, i));
  }

  lemma ScaledSum(n: nat, b: real, h: nat -> real, f: nat -> real, total: real, c: real)
    requires forall w: nat :: w < n ==> f(w) == b * h(w)
    requires total == Sum(n, f) && c == Sum(n, h)
    ensures total == c * b
  {
    SumSame(n, f, (w: nat) => b * h(w));
    SumScale(n, b, h);
  }

  lemma SplitThrough(g: Adjacency, s: nat, t: nat, k: nat, v: nat, i: nat)
    requires s < |g|
    ensures var a := Through(g, s, t, k + 1, v, i);
      |a| as real == Sum(|g|, (w: nat) => |Tails(a, w)| as real)
  {
    var a := Through(g, s, t, k + 1, v, i);
    forall p | p in a ensures |p| >= 2 && p[0] == s && p[1] < |g| {
      InExtended(g, s, t, k, |g|, p);
    }
    SplitByFirst(a, s, |g|);
  }

  lemma TailsOfThrough(g: Adjacency, s: nat, t: nat, k: nat, v: nat, i: nat, w: nat)
    requires InRange(g) && s < |g| && i > 0
    ensures Tails(Through(g, s, t, k + 1, v, i), w) == if Edge(g, s, w) then Through(g, w, t, k, v, i - 1) else {}
  {
    TailsOfWalks(g, s, t, k, w);
    var a := Through(g, s, t, k + 1, v, i);
    var r := if Edge(g, s, w) then Through(g, w, t, k, v, i - 1) else {};
    forall q ensures q in Tails(a, w) <==> q in r {
      if q in Tails(a, w) {
        var p :| p in a && |p| >= 2 && p[1] == w && p[1..] == q;
        assert q in Tails(Walks(g, s, t, k + 1), w);
        assert q[i - 1] == p[i];
      }
      if q in r {
        assert q in Tails(Walks(g, s, t, k + 1), w);
        var p :| p in Walks(g, s, t, k + 1) && |p| >= 2 && p[1] == w && p[1..] == q;
        assert p[i] == q[i - 1];
        assert p in a;
      }
    }
  }
}
