/** The module graph of the report: components, layers, centrality, fan counts and cycles computed
    together from the same edges. */
module ModuleGraph {
  import opened Wrappers
  import opened Sorting
  import opened Digraph
  import opened TarjanInvariant
  import opened Tarjan
  import SC = ShortestCycle
  import L = Layers
  import PathShares
  import B = Betweenness

  // ---------------------------------------------------- cycles and components

  /** A closed walk stays inside the component of its start. */
  lemma CycleStaysInside(g: Adjacency, c: seq<nat>, start: nat, w: seq<nat>)
    requires IsComponent(g, c) && start in c && WalkFrom(g, w, start, start)
    ensures forall i :: 0 <= i < |w| ==> w[i] in c
  {
    forall i | 0 <= i < |w| ensures w[i] in c {
      var head, tail := w[..i + 1], w[i..];
      assert WalkFrom(g, head, start, w[i]) by {
        forall k | 0 <= k < |head| - 1 ensures Edge(g, head[k], head[k + 1]) {
          assert Edge(g, w[k], w[k + 1]);
        }
      }
      assert WalkFrom(g, tail, w[i], start) by {
        WalkNodes(g, w, i);
        forall k | 0 <= k < |tail| - 1 ensures Edge(g, tail[k], tail[k + 1]) {
          assert Edge(g, w[i + k], w[i + k + 1]);
        }
      }
      assert Mutual(g, start, w[i]);
    }
  }

  lemma WalkNodes(g: Adjacency, w: seq<nat>, i: nat)
    requires IsWalk(g, w) && i < |w| && w[|w| - 1] < |g|
    ensures w[i] < |g|
  {
    if i < |w| - 1 {
      assert Edge(g, w[i], w[i + 1]);
    }
  }

  /** A component with several members has a cycle through each of them. */
  lemma ManyMembersCycle(g: Adjacency, c: seq<nat>, start: nat)
    requires IsComponent(g, c) && start in c && |c| > 1
    ensures exists w :: SC.IsCycle(g, c, start, w)
  {
    var other := if c[0] == start then c[1] else c[0];
    assert c[0] < c[1] && other in c && other != start;
    assert Mutual(g, start, other);
    var p :| WalkFrom(g, p, start, other);
    var q :| WalkFrom(g, q, other, start);
    WalksJoin(g, p, q, start, other, start);
    CycleStaysInside(g, c, start, p + q[1..]);
    assert SC.IsCycle(g, c, start, p + q[1..]);
  }

  /** A closed walk that goes anywhere shows its start in company, unless it is a loop. */
  lemma CycleNeedsCompany(g: Adjacency, c: seq<nat>, start: nat, w: seq<nat>)
    requires IsComponent(g, c) && start in c && |w| >= 2 && WalkFrom(g, w, start, start) && !Edge(g, start, start)
    ensures |c| > 1
  {
    CycleStaysInside(g, c, start, w);
    assert Edge(g, w[0], w[0 + 1]);
    assert w[0] in c && w[1] in c && w[0] != w[1];
    TwoMembers(c, w[0], w[1]);
  }

  lemma TwoMembers(c: seq<nat>, x: nat, y: nat)
    requires x in c && y in c && x != y
    ensures |c| > 1
  {
    var i :| 0 <= i < |c| && c[i] == x;
    var j :| 0 <= j < |c| && c[j] == y;
    assert i != j;
  }

  /** A closed walk, the first node repeated at the end, that never leaves the members. */
  ghost predicate ClosedInside(g: Adjacency, c: seq<nat>, path: seq<nat>) {
    |path| >= 2 && WalkFrom(g, path, path[0], path[0]) && forall i :: 0 <= i < |path| ==> path[i] in c
  }

  /** No cycle of the whole graph through the first member, or one of the first `maxStarts`, is shorter. */
  ghost predicate ShortestThroughFirst(g: Adjacency, c: seq<nat>, maxStarts: nat, path: seq<nat>) {
    forall i, w {:trigger WalkFrom(g, w, c[i], c[i])} ::
      0 <= i < |c| && (i == 0 || i < maxStarts) && |w| >= 2 && WalkFrom(g, w, c[i], c[i]) ==> |path| <= |w|
  }

  /** Searching inside the component loses nothing: the cycle found for a component with several
      members exists, and no cycle of the whole graph through one of the members tried is shorter. */
  lemma ComponentCycle(g: Adjacency, c: seq<nat>, maxStarts: nat, best: Option<seq<nat>>)
    requires IsComponent(g, c) && |c| > 1
    requires best.None? ==> SC.NoneFrom(g, c, maxStarts)
    requires best.Some? ==> exists k: nat :: SC.FirstShortest(g, c, maxStarts, best.value, k)
    ensures best.Some? && ClosedInside(g, c, best.value) && ShortestThroughFirst(g, c, maxStarts, best.value)
    ensures exists k :: 0 <= k < |c| && (k == 0 || k < maxStarts) && best.value[0] == c[k]
  {
    ManyMembersCycle(g, c, c[0]);
    var w0 :| SC.IsCycle(g, c, c[0], w0);
    var path := best.value;
    var k: nat :| SC.FirstShortest(g, c, maxStarts, path, k);
    forall i, w | 0 <= i < |c| && (i == 0 || i < maxStarts) && |w| >= 2 && WalkFrom(g, w, c[i], c[i])
      ensures |path| <= |w|
    {
      CycleStaysInside(g, c, c[i], w);
      assert SC.IsCycle(g, c, c[i], w);
    }
  }

  /** Where every member is tried, the cycle is a shortest one of all that touch the component: a cycle of the
      graph that meets it anywhere can be entered there. */
  lemma SmallComponentCycle(g: Adjacency, c: seq<nat>, maxStarts: nat, path: seq<nat>, w: seq<nat>, j: nat)
    requires |c| <= maxStarts && ShortestThroughFirst(g, c, maxStarts, path)
    requires |w| >= 2 && IsWalk(g, w) && w[0] == w[|w| - 1] && j < |w| && w[j] in c
    ensures |path| <= |w|
  {
    var turned := w[j..] + w[1..j + 1];
    forall k | 0 <= k < |turned| - 1 ensures Edge(g, turned[k], turned[k + 1]) {
      var at := if k < |w| - 1 - j then j + k else k - (|w| - 1 - j);
      assert Edge(g, w[at], w[at + 1]);
    }
    WalkNodes(g, w, j);
    var i :| 0 <= i < |c| && c[i] == w[j];
    assert WalkFrom(g, turned, c[i], c[i]);
  }

  // ------------------------------------------------------------- layers and edges

  /** Along an edge the layer drops, except inside a component, where it is the same. */
  lemma EdgeLayers(g: Adjacency, layers: seq<nat>, u: nat, v: nat)
    requires InRange(g) && |layers| == |g| && u < |g| && Edge(g, u, v) && v < |g|
    requires L.IsLayer(g, u, layers[u]) && L.IsLayer(g, v, layers[v])
    ensures if Mutual(g, u, v) then layers[u] == layers[v] else layers[v] < layers[u]
  {
    if Mutual(g, u, v) {
      ChainMoves(g, u, v, layers[v], layers[u]);
      ChainMoves(g, v, u, layers[u], layers[v]);
    } else {
      var p :| IsWalk(g, p) && p[0] == v && L.Crossings(g, p) == layers[v];
      SC.PrependStep(g, u, p, p[|p| - 1]);
      assert ([u] + p)[1..] == p;
    }
  }

  lemma ChainMoves(g: Adjacency, u: nat, v: nat, k: nat, top: nat)
    requires Mutual(g, u, v) && L.HasChain(g, v, k) && L.IsLayer(g, u, top)
    ensures k <= top
  {
    var q :| IsWalk(g, q) && q[0] == v && L.Crossings(g, q) == k;
    var p :| WalkFrom(g, p, u, v);
    L.InnerWalk(g, p, q);
  }

  // ------------------------------------------------------------------ the whole report

  /** The edges of the builder: module pairs, each once, never a module with itself. */
  ghost predicate ModuleEdges(count: nat, edges: seq<(nat, nat)>) {
    && NoDuplicates(edges)
    && (forall e :: e in edges ==> e.0 < count && e.1 < count && e.0 != e.1)
  }

  ghost predicate GraphOf(g: Adjacency, count: nat, edges: seq<(nat, nat)>) {
    && Finished(g) && |g| == count
    && (forall u: nat, v: nat {:trigger Edge(g, u, v)} :: Edge(g, u, v) <==> (u, v) in edges)
  }

  method BuildGraph(count: nat, edges: seq<(nat, nat)>) returns (g: Adjacency)
    requires ModuleEdges(count, edges)
    ensures GraphOf(g, count, edges)
  {
    var graph := new Graph(count);
    var i := 0;
    while i < |edges|
      invariant i <= |edges| && graph.Valid() && |graph.adjacency| == count
      invariant forall u: nat, v: nat {:trigger Edge(graph.adjacency, u, v)} ::
        Edge(graph.adjacency, u, v) <==> (u, v) in edges[..i]
    {
      assert edges[i] in edges;
      assert edges[..i + 1] == edges[..i] + [edges[i]];
      graph.AddEdge(edges[i].0, edges[i].1);
      i := i + 1;
    }
    assert edges[..i] == edges;
    graph.Finish();
    g := graph.adjacency;
  }

  function Bump(counts: seq<nat>, i: nat): seq<nat>
    requires i < |counts|
  {
    counts[i := counts[i] + 1]
  }

  ghost function Into(edges: seq<(nat, nat)>, v: nat): nat {
    |set e | e in edges && e.1 == v|
  }

  ghost function OutOf(edges: seq<(nat, nat)>, v: nat): nat {
    |set e | e in edges && e.0 == v|
  }

  lemma FanGrows(edges: seq<(nat, nat)>, e: (nat, nat), v: nat)
    requires e !in edges
    ensures Into(edges + [e], v) == Into(edges, v) + (if e.1 == v then 1 else 0)
    ensures OutOf(edges + [e], v) == OutOf(edges, v) + (if e.0 == v then 1 else 0)
  {
    var a, b := (set x | x in edges && x.1 == v), (set x | x in edges && x.0 == v);
    assert (set x | x in edges + [e] && x.1 == v) == if e.1 == v then a + {e} else a;
    assert (set x | x in edges + [e] && x.0 == v) == if e.0 == v then b + {e} else b;
  }

  method FanCounts(count: nat, edges: seq<(nat, nat)>) returns (fanIn: seq<nat>, fanOut: seq<nat>)
    requires ModuleEdges(count, edges)
    ensures |fanIn| == |fanOut| == count
    ensures forall v :: 0 <= v < count ==> fanIn[v] == Into(edges, v) && fanOut[v] == OutOf(edges, v)
  {
    fanIn, fanOut := seq(count, _ => 0), seq(count, _ => 0);
    var i := 0;
    while i < |edges|
      invariant i <= |edges| && |fanIn| == |fanOut| == count
      invariant forall v :: 0 <= v < count ==> fanIn[v] == Into(edges[..i], v) && fanOut[v] == OutOf(edges[..i], v)
    {
      var e := edges[i];
      assert e in edges && e !in edges[..i];
      assert edges[..i + 1] == edges[..i] + [e];
      forall v | 0 <= v < count
        ensures Into(edges[..i + 1], v) == Into(edges[..i], v) + (if e.1 == v then 1 else 0)
        ensures OutOf(edges[..i + 1], v) == OutOf(edges[..i], v) + (if e.0 == v then 1 else 0)
      {
        FanGrows(edges[..i], e, v);
      }
      fanOut := Bump(fanOut, e.0);
      fanIn := Bump(fanIn, e.1);
      i := i + 1;
    }
    assert edges[..i] == edges;
  }

  ghost predicate Acyclic(g: Adjacency) {
    forall w :: |w| >= 2 && IsWalk(g, w) ==> w[0] != w[|w| - 1]
  }

  /** Without edges from a module to itself, a cycle is a component with several members. */
  lemma AcyclicIffSingle(g: Adjacency, cs: seq<seq<nat>>)
    requires AreComponents(g, cs) && forall u: nat :: !Edge(g, u, u)
    ensures Acyclic(g) <==> forall i :: 0 <= i < |cs| ==> |cs[i]| == 1
  {
    if i :| 0 <= i < |cs| && |cs[i]| != 1 {
      assert IsComponent(g, cs[i]);
      ManyMembersCycle(g, cs[i], cs[i][0]);
    }
    if !Acyclic(g) {
      var w :| |w| >= 2 && IsWalk(g, w) && w[0] == w[|w| - 1];
      assert HasComponent(cs, w[0]);
      var i :| 0 <= i < |cs| && w[0] in cs[i];
      CycleNeedsCompany(g, cs[i], w[0], w);
    }
  }

  lemma AcyclicEdge(g: Adjacency, u: nat, v: nat)
    requires Acyclic(g) && Edge(g, u, v)
    ensures !Mutual(g, u, v)
  {
    if Mutual(g, u, v) {
      var p :| WalkFrom(g, p, v, u);
      SC.PrependStep(g, u, p, u);
    }
  }

  datatype Report = Report(components: seq<seq<nat>>, layers: seq<nat>, centrality: seq<real>,
                           fanIn: seq<nat>, fanOut: seq<nat>, cycles: seq<seq<nat>>)

  /** Starts tried for the cycle of one component. */
  const CYCLE_STARTS: nat := 10

  /** A cycle inside a component of several modules, shortest of all through any of the first ten of them, and
      in a component of at most ten modules shortest of all cycles that pass through it anywhere. */
  ghost predicate IsCycleOf(g: Adjacency, c: seq<nat>, path: seq<nat>) {
    && |c| > 1 && ClosedInside(g, c, path)
    && (forall i, w {:trigger WalkFrom(g, w, c[i], c[i])} ::
          0 <= i < |c| && i < 10 && |w| >= 2 && WalkFrom(g, w, c[i], c[i]) ==> |path| <= |w|)
    && (|c| <= 10 ==>
          forall w, j {:trigger w[j], IsWalk(g, w)} ::
            |w| >= 2 && IsWalk(g, w) && w[0] == w[|w| - 1] && 0 <= j < |w| && w[j] in c ==> |path| <= |w|)
  }

  lemma FoundIsCycleOf(g: Adjacency, c: seq<nat>, path: seq<nat>)
    requires |c| > 1 && ClosedInside(g, c, path) && ShortestThroughFirst(g, c, CYCLE_STARTS, path)
    ensures IsCycleOf(g, c, path)
  {
    forall w, j: nat | |c| <= 10 && |w| >= 2 && IsWalk(g, w) && w[0] == w[|w| - 1] && j < |w| && w[j] in c
      ensures |path| <= |w|
    {
      SmallComponentCycle(g, c, CYCLE_STARTS, path, w, j);
    }
  }

  ghost function Several(cs: seq<seq<nat>>): seq<seq<nat>> {
    if cs == [] then []
    else Several(cs[..|cs| - 1]) + (if |cs[|cs| - 1]| > 1 then [cs[|cs| - 1]] else [])
  }

  lemma {:induction false} SeveralEmpty(cs: seq<seq<nat>>)
    requires forall i :: 0 <= i < |cs| ==> cs[i] != []
    ensures Several(cs) == [] <==> forall i :: 0 <= i < |cs| ==> |cs[i]| == 1
  {
    if cs != [] {
      var k := |cs| - 1;
      SeveralEmpty(cs[..k]);
      assert forall i :: 0 <= i < k ==> cs[..k][i] == cs[i];
    }
  }

  /** One cycle for every component with several members, in the order of the components. */
  method ModuleCycles(g: Adjacency, components: seq<seq<nat>>) returns (cycles: seq<seq<nat>>)
    requires InRange(g) && AreComponents(g, components)
    ensures |cycles| == |Several(components)|
    ensures forall i :: 0 <= i < |cycles| ==> IsCycleOf(g, Several(components)[i], cycles[i])
  {
    cycles := [];
    var i := 0;
    while i < |components|
      invariant i <= |components|
      invariant |cycles| == |Several(components[..i])|
      invariant forall k :: 0 <= k < |cycles| ==> IsCycleOf(g, Several(components[..i])[k], cycles[k])
    {
      var component := components[i];
      assert IsComponent(g, component);
      assert components[..i + 1][..i] == components[..i];
      if |component| > 1 {
        var path := SC.ShortestCycle(g, component, CYCLE_STARTS);
        ComponentCycle(g, component, CYCLE_STARTS, path);
        FoundIsCycleOf(g, component, path.value);
        cycles := cycles + [path.value];
      }
      i := i + 1;
    }
    assert components[..i] == components;
  }

  ghost predicate IsCentrality(g: Adjacency, v: nat, x: real) {
    && 0.0 <= x <= 1.0
    && x == if |g| < 3 then 0.0 else PathShares.Centrality(g, v) / ((|g| - 1) * (|g| - 2)) as real
  }

  ghost predicate IsReport(g: Adjacency, edges: seq<(nat, nat)>, r: Report) {
    && AreComponents(g, r.components)
    && |r.layers| == |r.centrality| == |r.fanIn| == |r.fanOut| == |g|
    && (forall v :: 0 <= v < |g| ==> L.IsLayer(g, v, r.layers[v]))
    && (forall v :: 0 <= v < |g| ==> IsCentrality(g, v, r.centrality[v]))
    && (forall v :: 0 <= v < |g| ==> r.fanIn[v] == Into(edges, v) && r.fanOut[v] == OutOf(edges, v))
    && |r.cycles| == |Several(r.components)|
    && (forall i :: 0 <= i < |r.cycles| ==> IsCycleOf(g, Several(r.components)[i], r.cycles[i]))
  }

  method AnalyzeModules(count: nat, edges: seq<(nat, nat)>) returns (r: Report, g: Adjacency)
    requires ModuleEdges(count, edges)
    ensures GraphOf(g, count, edges) && IsReport(g, edges, r)
  {
    hide AreComponents, L.IsLayer, PathShares.Centrality;
    var graph := BuildGraph(count, edges);
    var components := StronglyConnectedComponents(graph);
    var layers := L.Layers(graph, components);
    var centrality := B.Betweenness(graph);
    var fanIn, fanOut := FanCounts(count, edges);
    var cycles := ModuleCycles(graph, components);
    r := Report(components, layers, centrality, fanIn, fanOut, cycles);
    g := graph;
  }

  /** A report without cycles is a proper layering: the graph is acyclic and every dependency lies
      in a strictly lower layer. With cycles, the graph has one. */
  lemma NoCyclesDescends(g: Adjacency, count: nat, edges: seq<(nat, nat)>, r: Report)
    requires ModuleEdges(count, edges) && GraphOf(g, count, edges) && IsReport(g, edges, r)
    ensures r.cycles == [] <==> Acyclic(g)
    ensures r.cycles == [] ==> forall e :: e in edges ==> e.0 < count && e.1 < count && r.layers[e.1] < r.layers[e.0]
  {
    forall u: nat ensures !Edge(g, u, u) {
      assert Edge(g, u, u) ==> (u, u) in edges;
    }
    assert forall i :: 0 <= i < |r.components| ==> IsComponent(g, r.components[i]);
    SeveralEmpty(r.components);
    AcyclicIffSingle(g, r.components);
    if r.cycles == [] {
      forall e | e in edges ensures e.0 < count && e.1 < count && r.layers[e.1] < r.layers[e.0] {
        assert Edge(g, e.0, e.1);
        AcyclicEdge(g, e.0, e.1);
        EdgeLayers(g, r.layers, e.0, e.1);
      }
    }
  }
}
