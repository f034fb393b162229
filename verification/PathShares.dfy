/** What betweenness centrality means, in terms of sets of shortest paths, and the recurrence by
    which dependencies on one source add up. */
module PathShares {
  import opened Basics
  import opened Digraph
  import opened Sums
  import opened WalkCounts

  ghost predicate IsDist(g: Adjacency, s: nat, t: nat, d: nat) {
    Walks(g, s, t, d) != {} && forall k: nat :: k < d ==> Walks(g, s, t, k) == {}
  }

  /** The fraction of the shortest paths from `s` to `t` that visit `v`; zero when there are none. */
  ghost function PairShare(g: Adjacency, s: nat, t: nat, v: nat): real {
    if exists d: nat :: IsDist(g, s, t, d) then
      var d: nat :| IsDist(g, s, t, d);
      |Visiting(g, s, t, d, v)| as real / |Walks(g, s, t, d)| as real
    else 0.0
  }

  ghost function Visiting(g: Adjacency, s: nat, t: nat, d: nat, v: nat): set<seq<nat>> {
    set p | p in Walks(g, s, t, d) && v in p
  }

  /** How much of the paths from `s` to all other nodes depends on `v`. */
  ghost function Dependency(g: Adjacency, s: nat, v: nat): real {
    Sum(|g|, (t: nat) => If(t != s && t != v, PairShare(g, s, t, v)))
  }

  ghost function Centrality(g: Adjacency, v: nat): real {
    Sum(|g|, (s: nat) => If(s != v, Dependency(g, s, v)))
  }

  // ---------------------------------------------------------------- bounds

  lemma ShareBounds(g: Adjacency, s: nat, t: nat, v: nat)
    ensures 0.0 <= PairShare(g, s, t, v) <= 1.0
  {
    if exists d: nat :: IsDist(g, s, t, d) {
      var d: nat :| IsDist(g, s, t, d)
        && PairShare(g, s, t, v) == |Visiting(g, s, t, d, v)| as real / |Walks(g, s, t, d)| as real;
      SubsetSize(Visiting(g, s, t, d, v), Walks(g, s, t, d));
      FractionBounds(|Visiting(g, s, t, d, v)| as real, |Walks(g, s, t, d)| as real);
    }
  }

  lemma FractionBounds(a: real, b: real)
    requires 0.0 <= a <= b && 0.0 < b
    ensures 0.0 <= a / b <= 1.0
  {
  }

  lemma {:induction false} SumOfOnes(n: nat)
    ensures Sum(n, (i: nat) => 1.0) == n as real
  {
    if n > 0 {
      SumOfOnes(n - 1);
    }
  }

  /** A sum of fractions with two of them missing. */
  lemma SumMissingTwo(n: nat, f: nat -> real, a: nat, b: nat)
    requires a < n && b < n && a != b && f(a) == 0.0 && f(b) == 0.0
    requires forall i: nat :: i < n ==> f(i) <= 1.0
    ensures Sum(n, f) <= (n - 2) as real
  {
    var one := (i: nat) => 1.0;
    var but := (i: nat) => if i == a then 0.0 else 1.0;
    var both := (i: nat) => if i == a || i == b then 0.0 else 1.0;
    SumOfOnes(n);
    SumChange(n, one, but, a);
    SumChange(n, but, both, b);
    SumAtMost(n, f, both);
  }

  lemma DependencyBounds(g: Adjacency, s: nat, v: nat)
    requires s < |g| && v < |g| && s != v
    ensures 0.0 <= Dependency(g, s, v) <= (|g| - 2) as real
  {
    var f := (t: nat) => If(t != s && t != v, PairShare(g, s, t, v));
    forall t: nat ensures 0.0 <= f(t) <= 1.0 { ShareBounds(g, s, t, v); }
    SumMissingTwo(|g|, f, s, v);
    SumNotNegative(|g|, f);
  }

  lemma {:induction false} SumNotNegative(n: nat, f: nat -> real)
    requires forall i: nat :: i < n ==> 0.0 <= f(i)
    ensures 0.0 <= Sum(n, f)
  {
    if n > 0 {
      SumNotNegative(n - 1, f);
    }
  }

  lemma CentralityBounds(g: Adjacency, v: nat)
    requires v < |g| && |g| >= 2
    ensures 0.0 <= Centrality(g, v) <= ((|g| - 1) * (|g| - 2)) as real
  {
    var n := |g|;
    var f := (s: nat) => If(s != v, Dependency(g, s, v));
    forall s: nat | s < n && s != v ensures 0.0 <= Dependency(g, s, v) <= (n - 2) as real {
      DependencyBounds(g, s, v);
    }
    hide Dependency;
    SumOfOthers(n, v, f, (n - 2) as real);
    assert (n - 2) as real * (n - 1) as real == ((n - 1) * (n - 2)) as real;
  }

  /** A sum of terms between zero and `top` of which one is zero. */
  lemma SumOfOthers(n: nat, v: nat, f: nat -> real, top: real)
    requires v < n && f(v) == 0.0 && forall s: nat :: s < n && s != v ==> 0.0 <= f(s) <= top
    ensures 0.0 <= Sum(n, f) <= top * (n - 1) as real
  {
    var one, all := (s: nat) => 1.0, (s: nat) => top * 1.0;
    var others := (s: nat) => if s == v then 0.0 else top * 1.0;
    SumOfOnes(n);
    SumScale(n, top, one);
    SumSame(n, (s: nat) => top * one(s), all);
    SumChange(n, all, others, v);
    SumAtMost(n, f, others);
    SumZero(n, (s: nat) => 0.0);
    SumAtMost(n, (s: nat) => 0.0, f);
  }

  // ----------------------------------------------------------- known distances

  /** `dist` holds the distances from `s`, negative where there is no path. */
  ghost predicate Dists(g: Adjacency, s: nat, dist: seq<int>) {
    && InRange(g) && s < |g| && |dist| == |g|
    && (forall v :: 0 <= v < |g| && 0 <= dist[v] ==> IsDist(g, s, v, dist[v]))
    && (forall v, k: nat {:trigger Walks(g, s, v, k)} :: 0 <= v < |g| && dist[v] < 0 ==> Walks(g, s, v, k) == {})
  }

  lemma DistUnique(g: Adjacency, s: nat, t: nat, d: nat, e: nat)
    requires IsDist(g, s, t, d) && IsDist(g, s, t, e)
    ensures d == e
  {
    assert d >= e && e >= d;
  }

  lemma WalkSomewhere(g: Adjacency, s: nat, dist: seq<int>, t: nat, k: nat)
    requires Dists(g, s, dist) && t < |g| && Walks(g, s, t, k) != {}
    ensures 0 <= dist[t] <= k
  {
    assert 0 <= dist[t];
    assert IsDist(g, s, t, dist[t]);
  }

  lemma JoinWalks(g: Adjacency, s: nat, v: nat, t: nat, i: nat, j: nat)
    requires InRange(g) && Walks(g, s, v, i) != {} && Walks(g, v, t, j) != {}
    ensures Walks(g, s, t, i + j) != {}
  {
    var p :| p in Walks(g, s, v, i);
    var q :| q in Walks(g, v, t, j);
    WalksAreWalks(g, s, v, i, p);
    WalksAreWalks(g, v, t, j, q);
    WalksJoin(g, p, q, s, v, t);
    WalksAreWalks(g, s, t, i + j, p + q[1..]);
  }

  lemma Triangle(g: Adjacency, s: nat, dist: seq<int>, v: nat, t: nat, k: nat)
    requires Dists(g, s, dist) && v < |g| && t < |g| && 0 <= dist[v] && Walks(g, v, t, k) != {}
    ensures 0 <= dist[t] <= dist[v] + k
  {
    assert IsDist(g, s, v, dist[v]);
    JoinWalks(g, s, v, t, dist[v], k);
    WalkSomewhere(g, s, dist, t, dist[v] + k);
  }

  lemma SourceDist(g: Adjacency, s: nat, dist: seq<int>)
    requires Dists(g, s, dist)
    ensures dist[s] == 0
  {
    assert Walks(g, s, s, 0) == {[s]};
    WalkSomewhere(g, s, dist, s, 0);
  }

  // ------------------------------------------------------------ shares by counting

  /** Number of shortest paths to `v`. */
  ghost function Sigma(g: Adjacency, s: nat, dist: seq<int>, v: nat): real {
    if v < |dist| && 0 <= dist[v] then Count(g, s, v, dist[v]) else 0.0
  }

  lemma SigmaPositive(g: Adjacency, s: nat, dist: seq<int>, v: nat)
    requires Dists(g, s, dist) && v < |g| && 0 <= dist[v]
    ensures Sigma(g, s, dist, v) > 0.0
  {
    assert IsDist(g, s, v, dist[v]);
  }

  /** What `t` contributes to `v`, per shortest path to `v`. */
  ghost function Ratio(g: Adjacency, s: nat, dist: seq<int>, v: nat, t: nat): real {
    if v < |dist| && t < |dist| && 0 <= dist[v] <= dist[t] && Sigma(g, s, dist, t) > 0.0 then
      Count(g, v, t, dist[t] - dist[v]) / Sigma(g, s, dist, t)
    else 0.0
  }

  /** On a shortest path a node stands at its distance. */
  lemma VisitPosition(g: Adjacency, s: nat, dist: seq<int>, t: nat, v: nat, p: seq<nat>, i: nat)
    requires Dists(g, s, dist) && t < |g| && 0 <= dist[t]
    requires p in Walks(g, s, t, dist[t]) && i < |p| && p[i] == v
    ensures v < |g| && dist[v] == i
  {
    WalksAreWalks(g, s, t, dist[t], p);
    WalkInRange(g, p);
    var head, tail := p[..i + 1], p[i..];
    assert WalkFrom(g, head, s, v) by {
      forall k | 0 <= k < |head| - 1 ensures Edge(g, head[k], head[k + 1]) {
        assert Edge(g, p[k], p[k + 1]);
      }
    }
    assert WalkFrom(g, tail, v, t) by {
      forall k | 0 <= k < |tail| - 1 ensures Edge(g, tail[k], tail[k + 1]) {
        assert Edge(g, p[i + k], p[i + k + 1]);
      }
    }
    WalksAreWalks(g, s, v, i, head);
    WalksAreWalks(g, v, t, dist[t] - i, tail);
    WalkSomewhere(g, s, dist, v, i);
    Triangle(g, s, dist, v, t, dist[t] - i);
  }

  lemma VisitingIsThrough(g: Adjacency, s: nat, dist: seq<int>, t: nat, v: nat)
    requires Dists(g, s, dist) && t < |g| && v < |g| && 0 <= dist[t]
    ensures Visiting(g, s, t, dist[t], v) ==
              if 0 <= dist[v] <= dist[t] then Through(g, s, t, dist[t], v, dist[v]) else {}
  {
    WalksStart(g, s, t, dist[t]);
    forall p | p in Visiting(g, s, t, dist[t], v) ensures 0 <= dist[v] < |p| && p[dist[v]] == v {
      var i :| 0 <= i < |p| && p[i] == v;
      VisitPosition(g, s, dist, t, v, p, i);
    }
  }

  lemma ShareAtDist(g: Adjacency, s: nat, dist: seq<int>, t: nat, v: nat)
    requires Dists(g, s, dist) && t < |g|
    ensures 0 <= dist[t] ==> |Walks(g, s, t, dist[t])| > 0
    ensures 0 <= dist[t] ==>
      PairShare(g, s, t, v) == |Visiting(g, s, t, dist[t], v)| as real / |Walks(g, s, t, dist[t])| as real
    ensures dist[t] < 0 ==> PairShare(g, s, t, v) == 0.0
  {
    if 0 <= dist[t] {
      assert IsDist(g, s, t, dist[t]);
      var d: nat :| IsDist(g, s, t, d)
        && PairShare(g, s, t, v) == |Visiting(g, s, t, d, v)| as real / |Walks(g, s, t, d)| as real;
      DistUnique(g, s, t, d, dist[t]);
    } else {
      assert forall d: nat :: !IsDist(g, s, t, d);
    }
  }

  /** The share of a pair, from the counts on both sides of the node. */
  lemma ShareByCounts(g: Adjacency, s: nat, dist: seq<int>, t: nat, v: nat)
    requires Dists(g, s, dist) && t < |g| && v < |g|
    ensures PairShare(g, s, t, v) == Sigma(g, s, dist, v) * Ratio(g, s, dist, v, t)
  {
    hide PairShare, Through, Visiting, Walks;
    ShareAtDist(g, s, dist, t, v);
    if 0 <= dist[t] {
      VisitingIsThrough(g, s, dist, t, v);
      SigmaPositive(g, s, dist, t);
      if 0 <= dist[v] <= dist[t] {
        CountThrough(g, s, t, v, dist[v], dist[t] - dist[v]);
        ProductOverQuotient(Sigma(g, s, dist, v), Count(g, v, t, dist[t] - dist[v]), Sigma(g, s, dist, t));
      }
    }
  }

  lemma ProductOverQuotient(a: real, b: real, c: real)
    requires c > 0.0
    ensures a * b / c == a * (b / c)
  {
  }

  // ------------------------------------------------------------------ the recurrence

  /** `v` precedes `w` on a shortest path. */
  predicate IsPred(g: Adjacency, dist: seq<int>, v: nat, w: nat) {
    v < |dist| && w < |dist| && 0 <= dist[v] && Edge(g, v, w) && dist[w] == dist[v] + 1
  }

  /** A successor at the wrong level starts no walk that is short enough. */
  lemma WrongLevel(g: Adjacency, s: nat, dist: seq<int>, v: nat, w: nat, t: nat)
    requires Dists(g, s, dist) && v < |g| && w < |g| && t < |g|
    requires 0 <= dist[v] < dist[t] && Edge(g, v, w) && !IsPred(g, dist, v, w)
    ensures Count(g, w, t, dist[t] - dist[v] - 1) == 0.0
  {
    var k := dist[t] - dist[v] - 1;
    assert Walks(g, v, w, 1) != {} by {
      assert WalkFrom(g, [v, w], v, w);
      WalksAreWalks(g, v, w, 1, [v, w]);
    }
    Triangle(g, s, dist, v, w, 1);
    if Walks(g, w, t, k) != {} {
      Triangle(g, s, dist, w, t, k);
    }
  }

  ghost function NextRatio(g: Adjacency, s: nat, dist: seq<int>, v: nat, t: nat, w: nat): real {
    If(IsPred(g, dist, v, w), Ratio(g, s, dist, w, t))
  }

  /** Beyond its own level, what a node receives from `t` comes through its successors. */
  lemma RatioStep(g: Adjacency, s: nat, dist: seq<int>, v: nat, t: nat)
    requires Dists(g, s, dist) && v < |g| && t < |g| && 0 <= dist[v]
    ensures Ratio(g, s, dist, v, t)
         == If(t == v, 1.0 / Sigma(g, s, dist, v)) + Sum(|g|, (w: nat) => NextRatio(g, s, dist, v, t, w))
  {
    var n := |g|;
    SigmaPositive(g, s, dist, v);
    if dist[v] < dist[t] {
      FartherRatio(g, s, dist, v, t);
    } else {
      SumZero(n, (w: nat) => NextRatio(g, s, dist, v, t, w));
      if dist[v] == dist[t] {
        CountZero(g, v, t);
        SigmaPositive(g, s, dist, t);
      }
    }
  }

  lemma FartherRatio(g: Adjacency, s: nat, dist: seq<int>, v: nat, t: nat)
    requires Dists(g, s, dist) && v < |g| && t < |g| && 0 <= dist[v] < dist[t]
    ensures Ratio(g, s, dist, v, t) == Sum(|g|, (w: nat) => NextRatio(g, s, dist, v, t, w))
  {
    hide Count;
    var n, k := |g|, dist[t] - dist[v] - 1;
    var sigma := Sigma(g, s, dist, t);
    SigmaPositive(g, s, dist, t);
    CountFirst(g, v, t, k);
    var h := (w: nat) => If(Edge(g, v, w), Count(g, w, t, k));
    var f := (w: nat) => NextRatio(g, s, dist, v, t, w);
    forall w: nat | w < n ensures f(w) == (1.0 / sigma) * h(w) {
      if Edge(g, v, w) && !IsPred(g, dist, v, w) {
        WrongLevel(g, s, dist, v, w, t);
      }
    }
    ScaledSum(n, 1.0 / sigma, h, f, Sum(n, f), Sum(n, h));
  }

  ghost function Total(g: Adjacency, s: nat, dist: seq<int>, v: nat): real {
    Sum(|g|, (t: nat) => Ratio(g, s, dist, v, t))
  }

  ghost function NextTotal(g: Adjacency, s: nat, dist: seq<int>, v: nat, t: nat): real {
    Sum(|g|, (w: nat) => NextRatio(g, s, dist, v, t, w))
  }

  lemma NextTotals(g: Adjacency, s: nat, dist: seq<int>, v: nat)
    ensures Sum(|g|, (t: nat) => NextTotal(g, s, dist, v, t))
         == Sum(|g|, (w: nat) => If(IsPred(g, dist, v, w), Total(g, s, dist, w)))
  {
    var n := |g|;
    var grid := (t: nat, w: nat) => NextRatio(g, s, dist, v, t, w);
    var rows := (t: nat) => Sum(n, (w: nat) => grid(t, w));
    var cols := (w: nat) => Sum(n, (t: nat) => grid(t, w));
    var nexts := (t: nat) => NextTotal(g, s, dist, v, t);
    var totals := (w: nat) => If(IsPred(g, dist, v, w), Total(g, s, dist, w));
    forall t: nat | t < n ensures nexts(t) == rows(t) {
      SumSame(n, (w: nat) => NextRatio(g, s, dist, v, t, w), (w: nat) => grid(t, w));
    }
    SumSame(n, nexts, rows);
    SumSwap(n, n, grid);
    forall w: nat | w < n ensures cols(w) == totals(w) {
      SumSame(n, (t: nat) => grid(t, w), (t: nat) => NextRatio(g, s, dist, v, t, w));
      ColumnTotal(g, s, dist, v, w);
    }
    SumSame(n, cols, totals);
  }

  lemma TotalStep(g: Adjacency, s: nat, dist: seq<int>, v: nat)
    requires Dists(g, s, dist) && v < |g| && 0 <= dist[v]
    ensures Total(g, s, dist, v)
         == 1.0 / Sigma(g, s, dist, v) + Sum(|g|, (w: nat) => If(IsPred(g, dist, v, w), Total(g, s, dist, w)))
  {
    SigmaNonZero(g, s, dist, v);
    var n, inverse := |g|, 1.0 / Sigma(g, s, dist, v);
    var own := (t: nat) => If(t == v, inverse);
    var next := (t: nat) => NextTotal(g, s, dist, v, t);
    var ratios, both := (t: nat) => Ratio(g, s, dist, v, t), (t: nat) => own(t) + next(t);
    forall t: nat | t < n ensures ratios(t) == both(t) {
      RatioStep(g, s, dist, v, t);
    }
    SumSame(n, ratios, both);
    assert Total(g, s, dist, v) == Sum(n, ratios);
    SumAdd(n, own, next);
    SumOwn(n, v, inverse, own);
    NextTotals(g, s, dist, v);
  }

  lemma SumOwn(n: nat, v: nat, a: real, f: nat -> real)
    requires v < n && forall t: nat :: t < n ==> f(t) == If(t == v, a)
    ensures Sum(n, f) == a
  {
    SumSingle(n, f, v);
  }

  lemma SigmaNonZero(g: Adjacency, s: nat, dist: seq<int>, v: nat)
    requires Dists(g, s, dist) && v < |g| && 0 <= dist[v]
    ensures Sigma(g, s, dist, v) != 0.0
  {
    SigmaPositive(g, s, dist, v);
  }

  lemma ColumnTotal(g: Adjacency, s: nat, dist: seq<int>, v: nat, w: nat)
    ensures Sum(|g|, (t: nat) => NextRatio(g, s, dist, v, t, w))
         == If(IsPred(g, dist, v, w), Total(g, s, dist, w))
  {
    var f := (t: nat) => NextRatio(g, s, dist, v, t, w);
    if IsPred(g, dist, v, w) {
      SumSame(|g|, f, (t: nat) => Ratio(g, s, dist, w, t));
    } else {
      SumZero(|g|, f);
    }
  }

  /** The dependency of the source's paths on `v`, in closed form. */
  ghost function Dep(g: Adjacency, s: nat, dist: seq<int>, v: nat): real {
    Sigma(g, s, dist, v) * Total(g, s, dist, v) - 1.0
  }

  ghost function DepTerm(g: Adjacency, s: nat, dist: seq<int>, v: nat, w: nat): real {
    if IsPred(g, dist, v, w) && Sigma(g, s, dist, w) > 0.0 then
      Sigma(g, s, dist, v) / Sigma(g, s, dist, w) * (1.0 + Dep(g, s, dist, w))
    else 0.0
  }

  lemma TermByTotal(g: Adjacency, s: nat, dist: seq<int>, v: nat, w: nat)
    requires Dists(g, s, dist) && w < |g|
    ensures DepTerm(g, s, dist, v, w) == Sigma(g, s, dist, v) * If(IsPred(g, dist, v, w), Total(g, s, dist, w))
  {
    if IsPred(g, dist, v, w) {
      SigmaPositive(g, s, dist, w);
      CancelQuotient(Sigma(g, s, dist, v), Sigma(g, s, dist, w), Total(g, s, dist, w));
    }
  }

  lemma CancelQuotient(a: real, b: real, c: real)
    requires b > 0.0
    ensures a / b * (b * c) == a * c
  {
    assert a / b * b == a;
  }

  /** The accumulation rule: a node's dependency is the sum of its shares of its successors'. */
  lemma DepRecurrence(g: Adjacency, s: nat, dist: seq<int>, v: nat)
    requires Dists(g, s, dist) && v < |g| && 0 <= dist[v]
    ensures Dep(g, s, dist, v) == Sum(|g|, (w: nat) => DepTerm(g, s, dist, v, w))
  {
    var n, sigma := |g|, Sigma(g, s, dist, v);
    SigmaPositive(g, s, dist, v);
    TotalStep(g, s, dist, v);
    var h := (w: nat) => If(IsPred(g, dist, v, w), Total(g, s, dist, w));
    var f := (w: nat) => DepTerm(g, s, dist, v, w);
    forall w: nat | w < n ensures f(w) == sigma * h(w) {
      TermByTotal(g, s, dist, v, w);
    }
    ScaledSum(n, sigma, h, f, Sum(n, f), Sum(n, h));
    CancelOne(sigma, Sum(n, h));
  }

  lemma CancelOne(a: real, b: real)
    requires a > 0.0
    ensures a * (1.0 / a + b) - 1.0 == b * a
  {
  }

  lemma ShareTerm(g: Adjacency, s: nat, dist: seq<int>, v: nat, t: nat)
    requires Dists(g, s, dist) && v < |g| && v != s && t < |g|
    ensures If(t != s && t != v, PairShare(g, s, t, v))
         == if t == v then 0.0 else Sigma(g, s, dist, v) * Ratio(g, s, dist, v, t)
  {
    SourceRatio(g, s, dist, v);
    ShareByCounts(g, s, dist, t, v);
  }

  lemma OwnRatio(g: Adjacency, s: nat, dist: seq<int>, v: nat)
    requires Dists(g, s, dist) && v < |g|
    ensures 0 <= dist[v] ==> Sigma(g, s, dist, v) * Ratio(g, s, dist, v, v) == 1.0
    ensures dist[v] < 0 ==> Sigma(g, s, dist, v) == 0.0
  {
    if 0 <= dist[v] {
      SigmaPositive(g, s, dist, v);
      CountZero(g, v, v);
    }
  }

  /** The closed form is the sum of the pair shares. */
  lemma DepIsDependency(g: Adjacency, s: nat, dist: seq<int>, v: nat)
    requires Dists(g, s, dist) && v < |g| && v != s
    ensures Dependency(g, s, v) == if 0 <= dist[v] then Dep(g, s, dist, v) else 0.0
  {
    hide PairShare, Sigma, Ratio;
    var n, sigma := |g|, Sigma(g, s, dist, v);
    var ratios := (t: nat) => Ratio(g, s, dist, v, t);
    var shares := (t: nat) => If(t != s && t != v, PairShare(g, s, t, v));
    var all := (t: nat) => sigma * ratios(t);
    forall t: nat | t < n ensures shares(t) == if t == v then 0.0 else all(t) {
      ShareTerm(g, s, dist, v, t);
    }
    OwnRatio(g, s, dist, v);
    SumScale(n, sigma, ratios);
    SumChange(n, all, shares, v);
  }

  lemma SourceRatio(g: Adjacency, s: nat, dist: seq<int>, v: nat)
    requires Dists(g, s, dist) && v < |g| && v != s
    ensures Ratio(g, s, dist, v, s) == 0.0
  {
    SourceDist(g, s, dist);
    if dist[v] == 0 {
      CountZero(g, v, s);
    }
  }
}
