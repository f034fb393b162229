/** The forward pass of the centrality computation: breadth-first levels together with the number
    of shortest paths to every node and the predecessors on them. */
module ShortestPathCount {
  import opened Sorting
  import opened Digraph
  import opened BreadthFirst
  import opened Sums
  import opened WalkCounts
  import opened PathShares

  /** The nodes expanded so far are on `stack`, in the order they left the queue. */
  datatype Pass = Pass(f: Frontier, paths: seq<real>, preds: seq<seq<nat>>, stack: seq<nat>)

  ghost predicate Searching(g: Adjacency, s: nat, f: Frontier) {
    && Finished(g)
    && BreadthFirst.Inv(g, Below(|g|), s, f)
    && (forall v :: 0 <= v < |g| && 0 <= f.dist[v] ==> Walks(g, s, v, f.dist[v]) != {})
  }

  /** The edge from `u` to `v` has been examined and lies on shortest paths to `v`. */
  ghost predicate Contributes(g: Adjacency, f: Frontier, u: nat, v: nat)
    requires Sizes(g, f)
  {
    && u < |g| && v < |g|
    && 0 <= f.dist[u] && f.dist[v] == f.dist[u] + 1
    && exists j :: 0 <= j < f.seen[u] && j < |g[u]| && g[u][j] == v
  }

  ghost function Term(g: Adjacency, s: nat, f: Frontier, v: nat, u: nat): real
    requires Sizes(g, f)
  {
    If(Contributes(g, f, u, v), Sigma(g, s, f.dist, u))
  }

  /** The paths counted so far: along the contributing edges, plus the empty path to the source. */
  ghost function Counted(g: Adjacency, s: nat, f: Frontier, v: nat): real
    requires Sizes(g, f)
  {
    (if v == s then 1.0 else 0.0) + Sum(|g|, (u: nat) => Term(g, s, f, v, u))
  }

  ghost predicate PathsCounted(g: Adjacency, s: nat, p: Pass)
    requires Sizes(g, p.f)
  {
    |p.paths| == |p.preds| == |g| && forall v :: 0 <= v < |g| ==> p.paths[v] == Counted(g, s, p.f, v)
  }

  ghost predicate PredsListed(g: Adjacency, p: Pass)
    requires Sizes(g, p.f)
  {
    && |p.preds| == |g|
    && (forall v :: 0 <= v < |g| ==> NoDuplicates(p.preds[v]))
    && (forall u: nat, v: nat {:trigger u in p.preds[v]} :: v < |g| ==>
          (u in p.preds[v] <==> Contributes(g, p.f, u, v)))
  }

  ghost predicate Stacked(g: Adjacency, p: Pass)
    requires Sizes(g, p.f)
  {
    && NoDuplicates(p.stack)
    && (forall v: nat :: v in p.stack <==> v < |g| && 0 <= p.f.dist[v] && v !in p.f.queue)
    && (forall i, j :: 0 <= i <= j < |p.stack| && p.stack[i] < |g| && p.stack[j] < |g| ==>
          p.f.dist[p.stack[i]] <= p.f.dist[p.stack[j]])
  }

  ghost predicate PassInv(g: Adjacency, s: nat, p: Pass) {
    Searching(g, s, p.f) && PathsCounted(g, s, p) && PredsListed(g, p) && Stacked(g, p)
  }

  // -------------------------------------------------------------- what is known

  /** Up to the front level, whatever a walk reaches is known, and no farther than the walk. */
  lemma WalkKnown(g: Adjacency, s: nat, f: Frontier, u: nat, k: nat)
    requires Searching(g, s, f) && Walks(g, s, u, k) != {}
    requires f.queue != [] && f.queue[0] < |f.dist| ==> k <= f.dist[f.queue[0]]
    ensures u < |g| && 0 <= f.dist[u] <= k
  {
    var c :| c in Walks(g, s, u, k);
    WalksAreWalks(g, s, u, k, c);
    WalkInRange(g, c);
    WalkIsKnown(g, Below(|g|), s, f, c, k);
  }

  lemma SigmaKnown(g: Adjacency, s: nat, f: Frontier, u: nat, v: nat)
    requires Searching(g, s, f) && u < |g| && v < |g| && 0 < f.dist[u]
    requires f.queue != [] && f.queue[0] < |f.dist| ==> f.dist[u] <= f.dist[f.queue[0]]
    ensures Term(g, s, f, u, v) == If(Edge(g, v, u), Count(g, s, v, f.dist[u] - 1))
  {
    var k := f.dist[u] - 1;
    if Edge(g, v, u) && Walks(g, s, v, k) != {} {
      WalkKnown(g, s, f, v, k);
      NearIsComplete(g, f, v);
      var j :| 0 <= j < |g[v]| && g[v][j] == u;
      assert Contributes(g, f, v, u);
    }
  }

  /** A node at the front level, or above it, has all its paths counted. */
  lemma Ready(g: Adjacency, s: nat, f: Frontier, u: nat)
    requires Searching(g, s, f) && u < |g| && 0 <= f.dist[u]
    requires f.queue != [] && f.queue[0] < |f.dist| ==> f.dist[u] <= f.dist[f.queue[0]]
    ensures Counted(g, s, f, u) == Count(g, s, u, f.dist[u])
  {
    var n := |g|;
    var terms := (v: nat) => Term(g, s, f, u, v);
    if f.dist[u] == 0 {
      assert Walks(g, s, u, 0) != {};
      CountZero(g, s, u);
      SumZero(n, terms);
    } else {
      var k := f.dist[u] - 1;
      CountLast(g, s, u, k);
      var counts := (v: nat) => If(Edge(g, v, u), Count(g, s, v, k));
      forall v: nat | v < n ensures terms(v) == counts(v) {
        SigmaKnown(g, s, f, u, v);
      }
      SumSame(n, terms, counts);
    }
  }

  // ------------------------------------------------------- examining one successor

  function Examined(f: Frontier, v: nat): Frontier
    requires f.queue != [] && f.queue[0] < |f.seen| == |f.dist| && v < |f.dist|
  {
    if f.dist[v] < 0 then Found(f, v) else Skip(f)
  }

  ghost predicate Examines(g: Adjacency, s: nat, f: Frontier, v: nat) {
    Searching(g, s, f) && NextIs(g, f, v) && v < |g|
  }

  lemma EdgeWalk(g: Adjacency, s: nat, u: nat, v: nat, k: nat)
    requires InRange(g) && u < |g| && Edge(g, u, v) && Walks(g, s, u, k) != {}
    ensures Walks(g, s, v, k + 1) != {}
  {
    assert WalkFrom(g, [u, v], u, v);
    WalksAreWalks(g, u, v, 1, [u, v]);
    JoinWalks(g, s, u, v, k, 1);
  }

  lemma ExaminedSearching(g: Adjacency, s: nat, f: Frontier, v: nat)
    requires Examines(g, s, f, v)
    ensures Searching(g, s, Examined(f, v))
    ensures Unknown(Examined(f, v).dist) < Unknown(f.dist) || Examined(f, v).dist == f.dist
  {
    ExaminedInv(g, s, f, v);
    ExaminedWalks(g, s, f, v);
    hide BreadthFirst.Inv, Walks, Unknown, Examined;
  }

  lemma ExaminedWalks(g: Adjacency, s: nat, f: Frontier, v: nat)
    requires Examines(g, s, f, v)
    ensures var dist := Examined(f, v).dist;
      |dist| == |g| && forall w :: 0 <= w < |g| && 0 <= dist[w] ==> Walks(g, s, w, dist[w]) != {}
  {
    FrontKnown(g, f);
    assert Edge(g, f.queue[0], v);
    EdgeWalk(g, s, f.queue[0], v, f.dist[f.queue[0]]);
    hide BreadthFirst.Inv, Walks, Edge;
  }

  lemma ExaminedInv(g: Adjacency, s: nat, f: Frontier, v: nat)
    requires Examines(g, s, f, v)
    ensures BreadthFirst.Inv(g, Below(|g|), s, Examined(f, v))
    ensures Unknown(Examined(f, v).dist) < Unknown(f.dist) || Examined(f, v).dist == f.dist
  {
    assert v < |f.dist|;
    hide BreadthFirst.Inv, Unknown;
    if f.dist[v] < 0 {
      FoundKeeps(g, Below(|g|), s, f, v);
    } else {
      SkipKeeps(g, Below(|g|), s, f, v);
    }
  }

  /** The only edge that may start to contribute is the one examined. */
  lemma ContributesStep(g: Adjacency, s: nat, f: Frontier, v: nat, x: nat, y: nat)
    requires Examines(g, s, f, v)
    ensures Sizes(g, Examined(f, v))
    ensures Contributes(g, Examined(f, v), x, y) <==>
              Contributes(g, f, x, y)
              || (x == f.queue[0] && y == v && Examined(f, v).dist[v] == f.dist[f.queue[0]] + 1)
    ensures !Contributes(g, f, f.queue[0], v)
    ensures Contributes(g, f, x, y) ==> x != v || f.dist[v] >= 0
  {
    var u := f.queue[0];
    var t := Examined(f, v);
    FrontKnown(g, f);
    if f.dist[v] < 0 {
      FoundLevelsApart(g, s, f, v);
    }
    FirstTime(g, f, v);
    if Contributes(g, f, x, y) {
      var j :| 0 <= j < f.seen[x] && j < |g[x]| && g[x][j] == y;
      assert 0 <= j < t.seen[x];
    }
    if Contributes(g, t, x, y) {
      var j :| 0 <= j < t.seen[x] && j < |g[x]| && g[x][j] == y;
      if x == u && j == f.seen[u] {
        assert y == v;
      } else {
        assert j < f.seen[x];
      }
    }
    if x == u && y == v {
      assert g[u][f.seen[u]] == v;
    }
  }

  lemma FoundLevelsApart(g: Adjacency, s: nat, f: Frontier, v: nat)
    requires Examines(g, s, f, v) && f.dist[v] < 0
    ensures f.seen[v] == 0 && v != f.queue[0]
    ensures forall x, j :: 0 <= x < |g| && 0 <= j < f.seen[x] && j < |g[x]| ==> g[x][j] != v
  {
    FrontKnown(g, f);
  }

  lemma FirstTime(g: Adjacency, f: Frontier, v: nat)
    requires Finished(g) && Sizes(g, f) && NextIs(g, f, v)
    ensures forall j :: 0 <= j < f.seen[f.queue[0]] ==> g[f.queue[0]][j] != v
  {
    assert StrictlySorted(g[f.queue[0]]);
  }

  lemma TermStep(g: Adjacency, s: nat, f: Frontier, v: nat, y: nat, x: nat)
    requires Examines(g, s, f, v) && y < |g|
    ensures Sizes(g, Examined(f, v))
    ensures Term(g, s, Examined(f, v), y, x) ==
              if x == f.queue[0] && y == v && Examined(f, v).dist[v] == f.dist[f.queue[0]] + 1
              then Sigma(g, s, f.dist, f.queue[0]) else Term(g, s, f, y, x)
    ensures x == f.queue[0] && y == v ==> Term(g, s, f, y, x) == 0.0
  {
    FrontKnown(g, f);
    ContributesStep(g, s, f, v, x, y);
  }

  lemma CountedStep(g: Adjacency, s: nat, f: Frontier, v: nat, y: nat)
    requires Examines(g, s, f, v) && y < |g|
    ensures Sizes(g, Examined(f, v))
    ensures Counted(g, s, Examined(f, v), y) == Counted(g, s, f, y)
              + If(y == v && Examined(f, v).dist[v] == f.dist[f.queue[0]] + 1, Sigma(g, s, f.dist, f.queue[0]))
  {
    var t, u := Examined(f, v), f.queue[0];
    TermStep(g, s, f, v, y, u);
    var before := (x: nat) => Term(g, s, f, y, x);
    var after := (x: nat) => Term(g, s, t, y, x);
    forall x: nat | x < |g| && x != u ensures before(x) == after(x) {
      TermStep(g, s, f, v, y, x);
    }
    SumChange(|g|, before, after, u);
  }

  /** What examining one successor records. */
  function Recorded(p: Pass, v: nat): Pass
    requires p.f.queue != [] && p.f.queue[0] < |p.f.seen| == |p.f.dist| == |p.paths| == |p.preds| && v < |p.f.dist|
  {
    var u := p.f.queue[0];
    var t := Examined(p.f, v);
    if t.dist[v] == t.dist[u] + 1 then
      p.(f := t, paths := p.paths[v := p.paths[v] + p.paths[u]], preds := p.preds[v := p.preds[v] + [u]])
    else p.(f := t)
  }

  lemma RecordedKeeps(g: Adjacency, s: nat, p: Pass, v: nat)
    requires PassInv(g, s, p) && NextIs(g, p.f, v) && v < |g|
    ensures PassInv(g, s, Recorded(p, v))
    ensures Unknown(Recorded(p, v).f.dist) < Unknown(p.f.dist) || Recorded(p, v).f.dist == p.f.dist
  {
    hide Searching, Counted, PredsListed, Stacked;
    SearchingSizes(g, s, p.f);
    ExaminedSearching(g, s, p.f, v);
    SearchingSizes(g, s, Examined(p.f, v));
    RecordedPaths(g, s, p, v);
    RecordedPreds(g, s, p, v);
    RecordedStack(g, s, p, v);
  }

  lemma SearchingSizes(g: Adjacency, s: nat, f: Frontier)
    requires Searching(g, s, f)
    ensures Sizes(g, f) && InRange(g) && s < |g| && f.dist[s] == 0
    ensures f.queue != [] ==> f.queue[0] < |g| && 0 <= f.dist[f.queue[0]]
  {
    if f.queue != [] {
      FrontKnown(g, f);
    }
  }

  lemma FrontUnmoved(g: Adjacency, s: nat, f: Frontier, v: nat)
    requires Examines(g, s, f, v)
    ensures Examined(f, v).dist[f.queue[0]] == f.dist[f.queue[0]]
  {
    FrontKnown(g, f);
  }

  lemma RecordedPaths(g: Adjacency, s: nat, p: Pass, v: nat)
    requires Examines(g, s, p.f, v) && PathsCounted(g, s, p)
    ensures Sizes(g, Recorded(p, v).f) && PathsCounted(g, s, Recorded(p, v))
  {
    var u := p.f.queue[0];
    SearchingSizes(g, s, p.f);
    FrontUnmoved(g, s, p.f, v);
    Ready(g, s, p.f, u);
    forall y | 0 <= y < |g| ensures Recorded(p, v).paths[y] == Counted(g, s, Examined(p.f, v), y) {
      CountedStep(g, s, p.f, v, y);
    }
  }

  lemma RecordedPreds(g: Adjacency, s: nat, p: Pass, v: nat)
    requires Examines(g, s, p.f, v) && PredsListed(g, p) && |p.paths| == |g|
    ensures Sizes(g, Recorded(p, v).f) && PredsListed(g, Recorded(p, v))
  {
    var u := p.f.queue[0];
    var r := Recorded(p, v);
    FrontUnmoved(g, s, p.f, v);
    ContributesStep(g, s, p.f, v, u, v);
    assert u !in p.preds[v];
    forall x: nat, y: nat | y < |g| ensures x in r.preds[y] <==> Contributes(g, r.f, x, y) {
      ContributesStep(g, s, p.f, v, x, y);
    }
  }

  lemma RecordedStack(g: Adjacency, s: nat, p: Pass, v: nat)
    requires Examines(g, s, p.f, v) && Stacked(g, p) && |p.paths| == |p.preds| == |g|
    ensures Sizes(g, Recorded(p, v).f) && Stacked(g, Recorded(p, v))
  {
    var t := Examined(p.f, v);
    forall x: nat ensures x in p.stack <==> x < |g| && 0 <= t.dist[x] && x !in t.queue {
      if p.f.dist[v] < 0 {
        InAppended(p.f.queue, v, x);
      }
    }
  }

  lemma InAppended(q: seq<nat>, v: nat, x: nat)
    ensures x in q + [v] <==> x in q || x == v
  {
  }

  // ------------------------------------------------------------ finishing a node

  function Popped(p: Pass): Pass
    requires p.f.queue != []
  {
    p.(f := Pop(p.f), stack := p.stack + [p.f.queue[0]])
  }

  lemma PoppedKeeps(g: Adjacency, s: nat, p: Pass)
    requires PassInv(g, s, p) && p.f.queue != []
    requires p.f.queue[0] < |g| && p.f.seen[p.f.queue[0]] == |g[p.f.queue[0]]|
    ensures PassInv(g, s, Popped(p))
    ensures |p.f.queue| > 1 ==> p.f.queue[1] < |g| && p.f.seen[p.f.queue[1]] == 0
  {
    hide Stacked, Counted;
    PopKeeps(g, Below(|g|), s, p.f);
    PoppedStack(g, p);
    forall v | 0 <= v < |g| ensures Counted(g, s, Pop(p.f), v) == Counted(g, s, p.f, v) {
      PoppedCounted(g, s, p.f, v);
    }
  }

  lemma PoppedCounted(g: Adjacency, s: nat, f: Frontier, v: nat)
    requires Sizes(g, f) && f.queue != []
    ensures Sizes(g, Pop(f)) && Counted(g, s, Pop(f), v) == Counted(g, s, f, v)
  {
    SumSame(|g|, (u: nat) => Term(g, s, Pop(f), v, u), (u: nat) => Term(g, s, f, v, u));
  }

  lemma PoppedStack(g: Adjacency, p: Pass)
    requires Sizes(g, p.f) && Levels(g, p.f) && Unstarted(g, p.f) && p.f.queue != [] && Stacked(g, p)
    ensures Sizes(g, Popped(p).f) && Stacked(g, Popped(p))
  {
    var u := p.f.queue[0];
    var r := Popped(p);
    assert p.f.queue == [u] + r.f.queue;
    forall x: nat ensures x in r.stack <==> x < |g| && 0 <= p.f.dist[x] && x !in r.f.queue {
      InAppended(p.stack, u, x);
    }
    forall i | 0 <= i < |p.stack| ensures p.stack[i] < |g| && p.f.dist[p.stack[i]] <= p.f.dist[u] {
      assert p.stack[i] in p.stack;
    }
  }

  lemma StartPass(g: Adjacency, s: nat, p: Pass)
    requires Finished(g) && s < |g| && Sizes(g, p.f) && |p.paths| == |p.preds| == |g|
    requires p.f.queue == [s] && p.stack == []
    requires forall v :: 0 <= v < |g| ==>
      p.f.seen[v] == 0 && (p.f.dist[v] == if v == s then 0 else -1)
      && (p.paths[v] == if v == s then 1.0 else 0.0) && p.preds[v] == []
    ensures PassInv(g, s, p)
  {
    StartInv(g, Below(|g|), s, p.f);
    assert Walks(g, s, s, 0) == {[s]};
    forall v | 0 <= v < |g| ensures p.paths[v] == Counted(g, s, p.f, v) {
      SumZero(|g|, (u: nat) => Term(g, s, p.f, v, u));
    }
  }

  // ------------------------------------------------------------------ the whole pass

  /** Distances, path counts, predecessor lists and the visiting order of the nodes reached. */
  ghost predicate PassResult(g: Adjacency, s: nat, dist: seq<int>, paths: seq<real>, preds: seq<seq<nat>>,
                             stack: seq<nat>)
  {
    && Dists(g, s, dist)
    && |paths| == |preds| == |g|
    && (forall v :: 0 <= v < |g| ==> paths[v] == Sigma(g, s, dist, v) && NoDuplicates(preds[v]))
    && (forall u: nat, v: nat {:trigger u in preds[v]} :: v < |g| ==> (u in preds[v] <==> IsPred(g, dist, u, v)))
    && NoDuplicates(stack)
    && (forall v: nat :: v in stack <==> v < |g| && 0 <= dist[v])
    && (forall i, j :: 0 <= i <= j < |stack| && stack[i] < |g| && stack[j] < |g| ==> dist[stack[i]] <= dist[stack[j]])
  }

  lemma FinalDists(g: Adjacency, s: nat, f: Frontier)
    requires Searching(g, s, f) && f.queue == []
    ensures Dists(g, s, f.dist)
  {
    SearchingSizes(g, s, f);
    forall v | 0 <= v < |g| && 0 <= f.dist[v] ensures IsDist(g, s, v, f.dist[v]) {
      forall k: nat | k < f.dist[v] ensures Walks(g, s, v, k) == {} {
        if Walks(g, s, v, k) != {} {
          WalkKnown(g, s, f, v, k);
        }
      }
    }
    forall v, k: nat | 0 <= v < |g| && f.dist[v] < 0 ensures Walks(g, s, v, k) == {} {
      if Walks(g, s, v, k) != {} {
        WalkKnown(g, s, f, v, k);
      }
    }
  }

  lemma FinalPred(g: Adjacency, s: nat, f: Frontier, u: nat, v: nat)
    requires Searching(g, s, f) && f.queue == [] && v < |g|
    ensures Sizes(g, f) && (Contributes(g, f, u, v) <==> IsPred(g, f.dist, u, v))
  {
    if IsPred(g, f.dist, u, v) {
      NearIsComplete(g, f, u);
      var j :| 0 <= j < |g[u]| && g[u][j] == v;
    }
  }

  lemma FinalPaths(g: Adjacency, s: nat, p: Pass, v: nat)
    requires Searching(g, s, p.f) && PathsCounted(g, s, p) && p.f.queue == [] && v < |g|
    ensures p.paths[v] == Sigma(g, s, p.f.dist, v)
  {
    SearchingSizes(g, s, p.f);
    if 0 <= p.f.dist[v] {
      Ready(g, s, p.f, v);
    } else {
      SumZero(|g|, (u: nat) => Term(g, s, p.f, v, u));
    }
  }

  lemma PassFinished(g: Adjacency, s: nat, p: Pass)
    requires PassInv(g, s, p) && p.f.queue == []
    ensures PassResult(g, s, p.f.dist, p.paths, p.preds, p.stack)
  {
    PassSizes(g, s, p);
    FinalDists(g, s, p.f);
    forall v | 0 <= v < |g| ensures p.paths[v] == Sigma(g, s, p.f.dist, v) {
      FinalPaths(g, s, p, v);
    }
    forall u: nat, v: nat | v < |g| ensures u in p.preds[v] <==> IsPred(g, p.f.dist, u, v) {
      FinalPred(g, s, p.f, u, v);
    }
  }

  /** The search variables agree with a snapshot; a node being expanded is already on the stack. */
  ghost predicate Mirrors(p: Pass, distance: seq<int>, paths: seq<real>, preds: seq<seq<nat>>, queue: seq<nat>) {
    p.f.dist == distance && p.paths == paths && p.preds == preds && p.f.queue == queue
  }

  /** One examined successor. */
  method Record(g: Adjacency, s: nat, node: nat, next: nat, distance: array<int>, paths: array<real>,
                preds: seq<seq<nat>>, queue: seq<nat>, ghost p: Pass)
    returns (preds': seq<seq<nat>>, queue': seq<nat>, ghost p': Pass)
    requires PassInv(g, s, p) && Mirrors(p, distance[..], paths[..], preds, [node] + queue)
    requires node < |g| && NextIs(g, p.f, next) && next < |g|
    modifies distance, paths
    ensures PassInv(g, s, p') && Mirrors(p', distance[..], paths[..], preds', [node] + queue')
    ensures p' == Recorded(p, next)
    ensures Unknown(p'.f.dist) < Unknown(p.f.dist) || (p'.f.dist == p.f.dist && queue' == queue)
  {
    hide Searching, PathsCounted, PredsListed, Stacked, NextIs;
    SearchingSizes(g, s, p.f);
    PassSizes(g, s, p);
    FrontUnmoved(g, s, p.f, next);
    RecordedKeeps(g, s, p, next);
    p' := Recorded(p, next);
    preds', queue' := preds, queue;
    if distance[next] < 0 {
      distance[next] := distance[node] + 1;
      queue' := queue' + [next];
    }
    if distance[next] == distance[node] + 1 {
      paths[next] := paths[next] + paths[node];
      preds' := preds'[next := preds'[next] + [node]];
    }
  }

  lemma PassSizes(g: Adjacency, s: nat, p: Pass)
    requires PassInv(g, s, p)
    ensures Sizes(g, p.f) && |p.paths| == |p.preds| == |g|
  {
  }

  /** Breadth-first from `s`, counting shortest paths. */
  method Forward(g: Adjacency, s: nat)
    returns (stack: seq<nat>, paths: array<real>, preds: seq<seq<nat>>, ghost dist: seq<int>)
    requires Finished(g) && s < |g|
    ensures fresh(paths) && PassResult(g, s, dist, paths[..], preds, stack)
  {
    hide PassInv, Searching, PathsCounted, PredsListed, Stacked, PassResult, Unknown;
    var len := |g|;
    stack := [];
    preds := seq(len, _ => []);
    paths := new real[len](v => if v == s then 1.0 else 0.0);
    var distance := new int[len](v => if v == s then 0 else -1);
    var queue := [s];
    ghost var p := Pass(Frontier(distance[..], seq(len, _ => 0), queue), paths[..], preds, []);
    StartPass(g, s, p);
    while queue != []
      invariant PassInv(g, s, p) && Mirrors(p, distance[..], paths[..], preds, queue) && p.stack == stack
      invariant Sizes(g, p.f) && (queue != [] ==> p.f.seen[queue[0]] == 0)
      decreases Unknown(p.f.dist), |queue|
    {
      var node := queue[0];
      queue := queue[1..];
      ghost var unknown, waiting := Unknown(p.f.dist), |queue|;
      var j := 0;
      while j < |g[node]|
        invariant j <= |g[node]|
        invariant PassInv(g, s, p) && Mirrors(p, distance[..], paths[..], preds, [node] + queue) && p.stack == stack
        invariant Sizes(g, p.f) && p.f.seen[node] == j
        invariant Unknown(p.f.dist) < unknown || (Unknown(p.f.dist) == unknown && |queue| == waiting)
      {
        preds, queue, p := Record(g, s, node, g[node][j], distance, paths, preds, queue, p);
        PassSizes(g, s, p);
        j := j + 1;
      }
      PoppedKeeps(g, s, p);
      p := Popped(p);
      stack := stack + [node];
    }
    PassFinished(g, s, p);
    dist := p.f.dist;
  }
}
