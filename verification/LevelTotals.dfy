/** Dependency is conserved from level to level: the nodes of one distance share among them one unit for
    every node reached strictly beyond. */
module LevelTotals {
  import opened Digraph
  import opened Sums
  import opened WalkCounts
  import opened PathShares

  /** Walks that pass `v` after `i` steps and `w` after `j` more, one step before `t`. */
  ghost function Passing(g: Adjacency, s: nat, t: nat, i: nat, j: nat, w: nat, v: nat): real {
    if Edge(g, w, t) then Count(g, s, v, i) * Count(g, v, w, j) else 0.0
  }

  ghost function Meeting(g: Adjacency, s: nat, t: nat, i: nat, j: nat, v: nat): real {
    Count(g, s, v, i) * Count(g, v, t, j)
  }

  /** Walks split at a position, at any node. */
  lemma {:induction false} CountSplit(g: Adjacency, s: nat, t: nat, i: nat, j: nat)
    requires InRange(g) && s < |g| && t < |g|
    ensures Count(g, s, t, i + j) == Sum(|g|, (v: nat) => Meeting(g, s, t, i, j, v))
    decreases j, 0
  {
    var n := |g|;
    var f := (v: nat) => Meeting(g, s, t, i, j, v);
    if j == 0 {
      forall v: nat | v < n ensures f(v) == if v == t then Count(g, s, v, i) else 0.0 {
        CountZero(g, v, t);
      }
      SumSingle(n, f, t);
    } else {
      hide Count, Passing, Meeting;
      CountLast(g, s, t, i + j - 1);
      assert i + j - 1 + 1 == i + j && i + (j - 1) == i + j - 1;
      var last := (w: nat) => If(Edge(g, w, t), Count(g, s, w, i + j - 1));
      var pairs := (w: nat, v: nat) => Passing(g, s, t, i, j - 1, w, v);
      forall w: nat | w < n ensures last(w) == Sum(n, (v: nat) => pairs(w, v)) {
        LastSplit(g, s, t, i, j - 1, w);
        SumSame(n, (v: nat) => pairs(w, v), (v: nat) => Passing(g, s, t, i, j - 1, w, v));
      }
      SumSame(n, last, (w: nat) => Sum(n, (v: nat) => pairs(w, v)));
      SumSwap(n, n, pairs);
      forall v: nat | v < n ensures f(v) == Sum(n, (w: nat) => pairs(w, v)) {
        FirstFactor(g, s, t, i, j - 1, v);
        SumSame(n, (w: nat) => pairs(w, v), (w: nat) => Passing(g, s, t, i, j - 1, w, v));
      }
      SumSame(n, (v: nat) => Sum(n, (w: nat) => pairs(w, v)), f);
    }
  }

  lemma {:induction false} LastSplit(g: Adjacency, s: nat, t: nat, i: nat, j: nat, w: nat)
    requires InRange(g) && s < |g| && t < |g| && w < |g|
    ensures If(Edge(g, w, t), Count(g, s, w, i + j)) == Sum(|g|, (v: nat) => Passing(g, s, t, i, j, w, v))
    decreases j, 1
  {
    var f := (v: nat) => Passing(g, s, t, i, j, w, v);
    if Edge(g, w, t) {
      CountSplit(g, s, w, i, j);
      SumSame(|g|, f, (v: nat) => Meeting(g, s, w, i, j, v));
    } else {
      SumZero(|g|, f);
    }
  }

  lemma FirstFactor(g: Adjacency, s: nat, t: nat, i: nat, j: nat, v: nat)
    requires InRange(g) && s < |g| && t < |g| && v < |g|
    ensures Meeting(g, s, t, i, j + 1, v) == Sum(|g|, (w: nat) => Passing(g, s, t, i, j, w, v))
  {
    CountLast(g, v, t, j);
    var h := (w: nat) => If(Edge(g, w, t), Count(g, v, w, j));
    var f := (w: nat) => Passing(g, s, t, i, j, w, v);
    ScaledSum(|g|, Count(g, s, v, i), h, f, Sum(|g|, f), Sum(|g|, h));
  }

  // ------------------------------------------------------------- one level of one target

  ghost function LevelShare(g: Adjacency, s: nat, dist: seq<int>, t: nat, d: nat, v: nat): real {
    if v < |dist| && dist[v] == d then Sigma(g, s, dist, v) * Ratio(g, s, dist, v, t) else 0.0
  }

  lemma ShareIsProduct(g: Adjacency, s: nat, dist: seq<int>, t: nat, d: nat, v: nat)
    requires Dists(g, s, dist) && t < |g| && v < |g| && d <= dist[t]
    ensures Sigma(g, s, dist, t) > 0.0
    ensures LevelShare(g, s, dist, t, d, v)
         == (1.0 / Sigma(g, s, dist, t)) * Meeting(g, s, t, d, dist[t] - d, v)
  {
    SigmaPositive(g, s, dist, t);
    if dist[v] != d {
      OffLevel(g, s, dist, t, d, v);
      hide Count;
    } else {
      hide Count;
      OverSigma(Count(g, s, v, d), Count(g, v, t, dist[t] - d), Sigma(g, s, dist, t));
    }
  }

  lemma OverSigma(a: real, b: real, c: real)
    requires c > 0.0
    ensures a * (b / c) == (1.0 / c) * (a * b)
  {
    assert b / c == b * (1.0 / c);
  }

  /** A node off the level is on no shortest path at that position. */
  lemma OffLevel(g: Adjacency, s: nat, dist: seq<int>, t: nat, d: nat, v: nat)
    requires Dists(g, s, dist) && t < |g| && v < |g| && d <= dist[t] && dist[v] != d
    ensures Meeting(g, s, t, d, dist[t] - d, v) == 0.0
  {
    if Walks(g, s, v, d) != {} && Walks(g, v, t, dist[t] - d) != {} {
      WalkSomewhere(g, s, dist, v, d);
      Triangle(g, s, dist, v, t, dist[t] - d);
    }
  }

  /** Every shortest path to a node at least `d` away has exactly one node at distance `d`. */
  lemma LevelIsCrossed(g: Adjacency, s: nat, dist: seq<int>, t: nat, d: nat)
    requires Dists(g, s, dist) && t < |g|
    ensures Sum(|g|, (v: nat) => LevelShare(g, s, dist, t, d, v)) == If(dist[t] >= d, 1.0)
  {
    var n := |g|;
    var f := (v: nat) => LevelShare(g, s, dist, t, d, v);
    if dist[t] >= d {
      var k := dist[t] - d;
      var sigma := Sigma(g, s, dist, t);
      var h := (v: nat) => Meeting(g, s, t, d, k, v);
      SigmaPositive(g, s, dist, t);
      CountSplit(g, s, t, d, k);
      forall v: nat | v < n ensures f(v) == (1.0 / sigma) * h(v) {
        ShareIsProduct(g, s, dist, t, d, v);
      }
      ScaledSum(n, 1.0 / sigma, h, f, Sum(n, f), Sum(n, h));
      assert d + k == dist[t] && Sum(n, h) == sigma;
    } else {
      SumZero(n, f);
    }
  }

  // ----------------------------------------------------------------- the whole level

  ghost function AtLevel(g: Adjacency, s: nat, dist: seq<int>, d: nat, v: nat): real {
    if v < |dist| && dist[v] == d then Dep(g, s, dist, v) + 1.0 else 0.0
  }

  lemma AtLevelIsSum(g: Adjacency, s: nat, dist: seq<int>, d: nat, v: nat)
    requires Dists(g, s, dist) && v < |g|
    ensures AtLevel(g, s, dist, d, v) == Sum(|g|, (t: nat) => LevelShare(g, s, dist, t, d, v))
  {
    hide Sigma, Ratio;
    var f := (t: nat) => LevelShare(g, s, dist, t, d, v);
    if dist[v] == d {
      var h := (t: nat) => Ratio(g, s, dist, v, t);
      ScaledSum(|g|, Sigma(g, s, dist, v), h, f, Sum(|g|, f), Sum(|g|, h));
    } else {
      SumZero(|g|, f);
    }
  }

  lemma LevelTotal(g: Adjacency, s: nat, dist: seq<int>, d: nat)
    requires Dists(g, s, dist)
    ensures Sum(|g|, (v: nat) => AtLevel(g, s, dist, d, v)) == Sum(|g|, (t: nat) => IfFar(dist, t, d))
  {
    hide LevelShare, AtLevel;
    var n := |g|;
    var shares := (v: nat, t: nat) => LevelShare(g, s, dist, t, d, v);
    forall v: nat | v < n ensures AtLevel(g, s, dist, d, v) == Sum(n, (t: nat) => shares(v, t)) {
      AtLevelIsSum(g, s, dist, d, v);
      SumSame(n, (t: nat) => shares(v, t), (t: nat) => LevelShare(g, s, dist, t, d, v));
    }
    SumSame(n, (v: nat) => AtLevel(g, s, dist, d, v), (v: nat) => Sum(n, (t: nat) => shares(v, t)));
    SumSwap(n, n, shares);
    forall t: nat | t < n ensures IfFar(dist, t, d) == Sum(n, (v: nat) => shares(v, t)) {
      LevelIsCrossed(g, s, dist, t, d);
      SumSame(n, (v: nat) => shares(v, t), (v: nat) => LevelShare(g, s, dist, t, d, v));
    }
    SumSame(n, (t: nat) => Sum(n, (v: nat) => shares(v, t)), (t: nat) => IfFar(dist, t, d));
  }

  ghost function IfFar(dist: seq<int>, t: nat, d: nat): real {
    If(t < |dist| && dist[t] >= d, 1.0)
  }

  ghost function Beyond(dist: seq<int>, d: nat): set<nat> {
    set t | 0 <= t < |dist| && dist[t] > d
  }

  ghost function BeyondBelow(dist: seq<int>, d: nat, n: nat): set<nat> {
    set t | 0 <= t < n && t < |dist| && dist[t] > d
  }

  lemma {:induction false} BeyondCounted(dist: seq<int>, d: nat, n: nat)
    requires n <= |dist|
    ensures Sum(n, (t: nat) => IfFar(dist, t, d + 1)) == |BeyondBelow(dist, d, n)| as real
  {
    if n == 0 {
      assert BeyondBelow(dist, d, 0) == {};
    } else {
      BeyondCounted(dist, d, n - 1);
      var before := BeyondBelow(dist, d, n - 1);
      assert BeyondBelow(dist, d, n) == if dist[n - 1] > d then before + {n - 1} else before;
    }
  }

  ghost function DependencyAt(g: Adjacency, s: nat, dist: seq<int>, d: nat, v: nat): real {
    if v < |dist| && dist[v] == d then Dependency(g, s, v) else 0.0
  }

  /** The dependencies of a level of the search add up to the number of nodes reached beyond it. */
  lemma LevelConservation(g: Adjacency, s: nat, dist: seq<int>, d: nat)
    requires Dists(g, s, dist) && d > 0
    ensures Sum(|g|, (v: nat) => DependencyAt(g, s, dist, d, v)) == |Beyond(dist, d)| as real
  {
    hide Dependency, Dep;
    var n := |g|;
    var own := (v: nat) => DependencyAt(g, s, dist, d, v);
    var one := (v: nat) => If(v < |dist| && dist[v] == d, 1.0);
    var beyond := (t: nat) => IfFar(dist, t, d + 1);
    SourceDist(g, s, dist);
    forall v: nat | v < n
      ensures AtLevel(g, s, dist, d, v) == own(v) + one(v) && IfFar(dist, v, d) == beyond(v) + one(v)
    {
      if dist[v] == d {
        DepIsDependency(g, s, dist, v);
      }
    }
    LevelTotal(g, s, dist, d);
    SumSame(n, (v: nat) => AtLevel(g, s, dist, d, v), (v: nat) => own(v) + one(v));
    SumSame(n, (t: nat) => IfFar(dist, t, d), (t: nat) => beyond(t) + one(t));
    SumAdd(n, own, one);
    SumAdd(n, beyond, one);
    BeyondCounted(dist, d, n);
    assert BeyondBelow(dist, d, n) == Beyond(dist, d);
  }
}
