/** Breadth-first levels: what a queue-driven search knows about distances, for searches confined
    to a set of allowed nodes. */
module BreadthFirst {
  import opened Sorting
  import opened Digraph

  /** `dist[v]` is the level of a known node and negative for the others; `seen[v]` successors of
      `v` have been examined; the node being expanded is the first of `queue`. */
  datatype Frontier = Frontier(dist: seq<int>, seen: seq<nat>, queue: seq<nat>)

  ghost predicate Sizes(g: Adjacency, f: Frontier) {
    && |f.dist| == |f.seen| == |g|
    && (forall i :: 0 <= i < |f.queue| ==> f.queue[i] < |g|)
  }

  /** Examined edges between allowed nodes lead at most one level down. */
  ghost predicate Examined(g: Adjacency, allowed: set<nat>, f: Frontier)
    requires Sizes(g, f) && InRange(g)
  {
    forall u, j :: 0 <= u < |g| && 0 <= j < f.seen[u] && j < |g[u]| && g[u][j] in allowed ==>
      0 <= f.dist[g[u][j]] <= f.dist[u] + 1
  }

  /** Known nodes wait in the queue or are examined completely; the queue is in level order and
      spans at most two levels. */
  ghost predicate Levels(g: Adjacency, f: Frontier)
    requires Sizes(g, f)
  {
    && (forall v :: 0 <= v < |g| && 0 <= f.dist[v] && v !in f.queue ==>
          f.seen[v] == |g[v]| && (f.queue != [] ==> f.dist[v] <= f.dist[f.queue[0]]))
    && (forall i :: 0 <= i < |f.queue| ==> 0 <= f.dist[f.queue[i]] <= f.dist[f.queue[0]] + 1)
    && (forall i, j :: 0 <= i <= j < |f.queue| ==> f.dist[f.queue[i]] <= f.dist[f.queue[j]])
  }

  /** Nodes wait once, and nothing of theirs is examined before their turn. */
  ghost predicate Unstarted(g: Adjacency, f: Frontier)
    requires Sizes(g, f)
  {
    && NoDuplicates(f.queue)
    && (forall i :: 1 <= i < |f.queue| ==> f.seen[f.queue[i]] == 0)
    && (forall v :: 0 <= v < |g| && f.dist[v] < 0 ==> f.seen[v] == 0)
  }

  ghost predicate Inv(g: Adjacency, allowed: set<nat>, start: nat, f: Frontier) {
    && InRange(g) && Sizes(g, f) && start < |g| && start in allowed
    && f.dist[start] == 0
    && (forall v :: 0 <= v < |g| && 0 <= f.dist[v] ==> v in allowed)
    && Examined(g, allowed, f)
    && Levels(g, f)
    && Unstarted(g, f)
  }

  function Skip(f: Frontier): Frontier
    requires f.queue != [] && f.queue[0] < |f.seen|
  {
    f.(seen := f.seen[f.queue[0] := f.seen[f.queue[0]] + 1])
  }

  function Found(f: Frontier, v: nat): Frontier
    requires f.queue != [] && f.queue[0] < |f.seen| == |f.dist| && v < |f.dist|
  {
    Skip(f).(dist := f.dist[v := f.dist[f.queue[0]] + 1], queue := f.queue + [v])
  }

  function Pop(f: Frontier): Frontier
    requires f.queue != []
  {
    f.(queue := f.queue[1..])
  }

  ghost predicate NextIs(g: Adjacency, f: Frontier, v: nat)
    requires Sizes(g, f)
  {
    f.queue != [] && f.seen[f.queue[0]] < |g[f.queue[0]]| && g[f.queue[0]][f.seen[f.queue[0]]] == v
  }

  /** Every known node lies at most one level below the front of the queue. */
  lemma KnownIsNear(g: Adjacency, f: Frontier, v: nat)
    requires Sizes(g, f) && Levels(g, f) && f.queue != [] && v < |g| && 0 <= f.dist[v]
    ensures f.dist[v] <= f.dist[f.queue[0]] + 1
  {
  }

  /** Nodes above the front level are examined completely. */
  lemma NearIsComplete(g: Adjacency, f: Frontier, u: nat)
    requires Sizes(g, f) && Levels(g, f) && u < |g| && 0 <= f.dist[u]
    requires f.queue != [] ==> f.dist[u] < f.dist[f.queue[0]]
    ensures f.seen[u] == |g[u]|
  {
  }

  /** An edge out of the allowed nodes, or to a node already known. */
  lemma SkipKeeps(g: Adjacency, allowed: set<nat>, start: nat, f: Frontier, v: nat)
    requires Inv(g, allowed, start, f) && NextIs(g, f, v)
    requires v in allowed ==> 0 <= f.dist[v]
    ensures Inv(g, allowed, start, Skip(f))
  {
    if v in allowed {
      KnownIsNear(g, f, v);
    }
  }

  ghost predicate MayFind(g: Adjacency, allowed: set<nat>, f: Frontier, v: nat) {
    && InRange(g) && Sizes(g, f) && NextIs(g, f, v)
    && v < |g| && v in allowed && f.dist[v] < 0
    && 0 <= f.dist[f.queue[0]]
  }

  lemma FoundLevels(g: Adjacency, allowed: set<nat>, f: Frontier, v: nat)
    requires MayFind(g, allowed, f, v) && Levels(g, f)
    ensures Sizes(g, Found(f, v)) && Levels(g, Found(f, v))
    ensures v !in f.queue
  {
    assert v !in f.queue;
    FoundWaits(g, allowed, f, v);
    FoundOrder(g, allowed, f, v);
  }

  /** Nodes that do not wait are examined completely. */
  lemma FoundWaits(g: Adjacency, allowed: set<nat>, f: Frontier, v: nat)
    requires MayFind(g, allowed, f, v) && Levels(g, f)
    ensures var t := Found(f, v); forall w :: 0 <= w < |g| && 0 <= t.dist[w] && w !in t.queue ==>
      t.seen[w] == |g[w]| && t.dist[w] <= t.dist[t.queue[0]]
  {
    var t := Found(f, v);
    forall w | 0 <= w < |g| && 0 <= t.dist[w] && w !in t.queue
      ensures t.seen[w] == |g[w]| && t.dist[w] <= t.dist[t.queue[0]]
    {
      assert t.queue[|f.queue|] == v && t.queue[..|f.queue|] == f.queue;
      assert w != v && w !in f.queue && w != f.queue[0];
    }
  }

  lemma FoundOrder(g: Adjacency, allowed: set<nat>, f: Frontier, v: nat)
    requires MayFind(g, allowed, f, v) && Levels(g, f) && v !in f.queue
    ensures var t := Found(f, v);
      && (forall i :: 0 <= i < |t.queue| ==> t.queue[i] < |g| && 0 <= t.dist[t.queue[i]] <= t.dist[t.queue[0]] + 1)
      && (forall i, j :: 0 <= i <= j < |t.queue| ==> t.dist[t.queue[i]] <= t.dist[t.queue[j]])
  {
    var t := Found(f, v);
    forall i | 0 <= i < |t.queue|
      ensures t.dist[t.queue[i]] == if i < |f.queue| then f.dist[f.queue[i]] else f.dist[f.queue[0]] + 1
    {
    }
  }

  lemma FoundExamined(g: Adjacency, allowed: set<nat>, f: Frontier, v: nat)
    requires MayFind(g, allowed, f, v) && Examined(g, allowed, f) && Unstarted(g, f)
    ensures Sizes(g, Found(f, v)) && Examined(g, allowed, Found(f, v))
  {
  }

  lemma FoundUnstarted(g: Adjacency, allowed: set<nat>, f: Frontier, v: nat)
    requires MayFind(g, allowed, f, v) && Unstarted(g, f) && v !in f.queue
    ensures Sizes(g, Found(f, v)) && Unstarted(g, Found(f, v))
  {
  }

  lemma FrontKnown(g: Adjacency, f: Frontier)
    requires Sizes(g, f) && Levels(g, f) && f.queue != []
    ensures 0 <= f.dist[f.queue[0]]
  {
  }

  /** An edge to a new allowed node. */
  lemma FoundKeeps(g: Adjacency, allowed: set<nat>, start: nat, f: Frontier, v: nat)
    requires Inv(g, allowed, start, f) && NextIs(g, f, v) && v < |g| && v in allowed && f.dist[v] < 0
    ensures Inv(g, allowed, start, Found(f, v))
    ensures Unknown(Found(f, v).dist) < Unknown(f.dist)
  {
    hide Examined, Levels, Unstarted;
    FrontKnown(g, f);
    FoundLevels(g, allowed, f, v);
    FoundExamined(g, allowed, f, v);
    FoundUnstarted(g, allowed, f, v);
    assert v in Unknown(f.dist);
  }

  ghost function Unknown(dist: seq<int>): set<nat> {
    set v | 0 <= v < |dist| && dist[v] < 0
  }

  lemma PopKeeps(g: Adjacency, allowed: set<nat>, start: nat, f: Frontier)
    requires Inv(g, allowed, start, f) && f.queue != [] && f.seen[f.queue[0]] == |g[f.queue[0]]|
    ensures Inv(g, allowed, start, Pop(f))
    ensures |f.queue| > 1 ==> f.seen[f.queue[1]] == 0
  {
    PopLevels(g, f);
    hide Levels;
  }

  lemma PopLevels(g: Adjacency, f: Frontier)
    requires Sizes(g, f) && Levels(g, f) && f.queue != [] && f.seen[f.queue[0]] == |g[f.queue[0]]|
    ensures Sizes(g, Pop(f)) && Levels(g, Pop(f))
  {
    assert f.queue == [f.queue[0]] + f.queue[1..];
  }

  lemma StartInv(g: Adjacency, allowed: set<nat>, start: nat, f: Frontier)
    requires InRange(g) && start < |g| && start in allowed && Sizes(g, f) && f.queue == [start]
    requires forall v :: 0 <= v < |g| ==> f.seen[v] == 0 && f.dist[v] == if v == start then 0 else -1
    ensures Inv(g, allowed, start, f)
  {
  }

  /** As long as a walk over allowed nodes is no longer than the front level, its nodes are known. */
  lemma {:induction false} WalkIsKnown(g: Adjacency, allowed: set<nat>, start: nat, f: Frontier, c: seq<nat>, k: nat)
    requires Inv(g, allowed, start, f) && IsWalk(g, c) && c[0] == start && k < |c|
    requires forall i :: 0 <= i < |c| ==> c[i] in allowed
    requires f.queue != [] ==> k <= f.dist[f.queue[0]]
    ensures c[k] < |g| && 0 <= f.dist[c[k]] <= k
    ensures k > 0 ==> c[k - 1] < |g| && f.seen[c[k - 1]] == |g[c[k - 1]]|
  {
    if k > 0 {
      WalkIsKnown(g, allowed, start, f, c, k - 1);
      assert Edge(g, c[k - 1], c[k - 1 + 1]);
      var j :| 0 <= j < |g[c[k - 1]]| && g[c[k - 1]][j] == c[k];
      NearIsComplete(g, f, c[k - 1]);
    }
  }
}
