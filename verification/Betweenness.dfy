/** Betweenness centrality, with exact reals for the floating-point numbers. */
module Betweenness {
  import opened Sorting
  import opened Digraph
  import opened Sums
  import opened WalkCounts
  import opened PathShares
  import opened ShortestPathCount

  /** The part of `v`'s dependency that the nodes of `done` have passed on. */
  ghost function Received(g: Adjacency, s: nat, dist: seq<int>, v: nat, done: set<nat>): real {
    Sum(|g|, (w: nat) => If(w in done, DepTerm(g, s, dist, v, w)))
  }

  /** Nodes are taken off the stack with everything beyond them done, so what they have received is
      all of their dependency. */
  lemma AllReceived(g: Adjacency, s: nat, dist: seq<int>, v: nat, done: set<nat>)
    requires Dists(g, s, dist) && v < |g| && 0 <= dist[v]
    requires forall w :: 0 <= w < |g| && dist[v] < dist[w] ==> w in done
    ensures Received(g, s, dist, v, done) == Dep(g, s, dist, v)
  {
    DepRecurrence(g, s, dist, v);
    SumSame(|g|, (w: nat) => If(w in done, DepTerm(g, s, dist, v, w)), (w: nat) => DepTerm(g, s, dist, v, w));
  }

  lemma ReceivedMore(g: Adjacency, s: nat, dist: seq<int>, v: nat, done: set<nat>, node: nat)
    requires node < |g| && node !in done
    ensures Received(g, s, dist, v, done + {node}) == Received(g, s, dist, v, done) + DepTerm(g, s, dist, v, node)
  {
    SumChange(|g|, (w: nat) => If(w in done, DepTerm(g, s, dist, v, w)),
              (w: nat) => If(w in done + {node}, DepTerm(g, s, dist, v, w)), node);
  }

  lemma NoneReceived(g: Adjacency, s: nat, dist: seq<int>, v: nat, done: set<nat>)
    requires done == {}
    ensures Received(g, s, dist, v, done) == 0.0
  {
    SumZero(|g|, (w: nat) => If(w in done, DepTerm(g, s, dist, v, w)));
  }

  /** Passes the dependency of `node` on to its predecessors, in proportion to their path counts. */
  method PassOn(node: nat, preds: seq<nat>, paths: array<real>, dependency: array<real>)
    requires paths != dependency && paths.Length == dependency.Length && node < paths.Length
    requires paths[node] != 0.0 && NoDuplicates(preds) && node !in preds
    requires forall u :: u in preds ==> u < paths.Length
    modifies dependency
    ensures forall u :: 0 <= u < dependency.Length ==>
      dependency[u] == old(dependency[u])
        + (if u in preds then paths[u] / paths[node] * (1.0 + old(dependency[node])) else 0.0)
  {
    var i := 0;
    while i < |preds|
      invariant i <= |preds|
      invariant forall u :: 0 <= u < dependency.Length ==>
        dependency[u] == old(dependency[u])
          + (if u in preds[..i] then paths[u] / paths[node] * (1.0 + old(dependency[node])) else 0.0)
    {
      var predecessor := preds[i];
      assert preds[..i + 1] == preds[..i] + [predecessor];
      assert predecessor in preds && predecessor !in preds[..i];
      assert node !in preds[..i];
      dependency[predecessor] := dependency[predecessor] + paths[predecessor] / paths[node] * (1.0 + dependency[node]);
      i := i + 1;
    }
    assert preds[..i] == preds;
  }

  ghost function SetOf(s: seq<nat>): set<nat> {
    set x | x in s
  }

  lemma TermOfPred(g: Adjacency, s: nat, dist: seq<int>, paths: seq<real>, preds: seq<seq<nat>>, stack: seq<nat>,
                   node: nat, u: nat)
    requires PassResult(g, s, dist, paths, preds, stack) && node < |g| && u < |g| && 0 <= dist[node]
    ensures paths[node] != 0.0
    ensures DepTerm(g, s, dist, u, node)
         == if u in preds[node] then paths[u] / paths[node] * (1.0 + Dep(g, s, dist, node)) else 0.0
  {
    SigmaPositive(g, s, dist, node);
  }

  lemma PredsFacts(g: Adjacency, s: nat, dist: seq<int>, paths: seq<real>, preds: seq<seq<nat>>, stack: seq<nat>,
                   node: nat)
    requires PassResult(g, s, dist, paths, preds, stack) && node < |g|
    ensures |preds| == |paths| == |g| && NoDuplicates(preds[node]) && node !in preds[node]
    ensures forall u :: u in preds[node] ==> u < |g|
  {
  }

  /** The stack is in order of distance: everything farther than its top has been taken off. */
  lemma FartherIsDone(g: Adjacency, s: nat, dist: seq<int>, paths: seq<real>, preds: seq<seq<nat>>, stack: seq<nat>,
                      m: nat)
    requires PassResult(g, s, dist, paths, preds, stack) && m < |stack|
    ensures stack[m] < |g| && 0 <= dist[stack[m]] && stack[m] !in SetOf(stack[m + 1..])
    ensures forall w :: 0 <= w < |g| && dist[stack[m]] < dist[w] ==> w in SetOf(stack[m + 1..])
    ensures SetOf(stack[m..]) == SetOf(stack[m + 1..]) + {stack[m]}
  {
    assert stack[m] in stack;
    forall w | 0 <= w < |g| && dist[stack[m]] < dist[w] ensures w in stack[m + 1..] {
      assert w in stack;
      var i :| 0 <= i < |stack| && stack[i] == w;
      assert i > m;
      assert stack[m + 1..][i - m - 1] == w;
    }
    assert stack[m..] == [stack[m]] + stack[m + 1..];
  }

  lemma ResultFacts(g: Adjacency, s: nat, dist: seq<int>, paths: seq<real>, preds: seq<seq<nat>>, stack: seq<nat>)
    requires PassResult(g, s, dist, paths, preds, stack)
    ensures Dists(g, s, dist) && |paths| == |preds| == |g|
    ensures forall v: nat :: v in SetOf(stack) <==> v < |g| && 0 <= dist[v]
  {
  }

  /** Takes the nodes off the stack, farthest first, and adds what depends on them to `centrality`. */
  method Backward(g: Adjacency, s: nat, stack: seq<nat>, paths: array<real>, preds: seq<seq<nat>>,
                  centrality: array<real>, ghost dist: seq<int>)
    requires PassResult(g, s, dist, paths[..], preds, stack)
    requires centrality.Length == |g| && centrality != paths
    modifies centrality
    ensures forall v :: 0 <= v < |g| ==> centrality[v] == old(centrality[v]) + If(v != s, Dependency(g, s, v))
  {
    hide PassResult, Dists, Received, Dep, DepTerm, Dependency;
    ghost var counts := paths[..];
    ResultFacts(g, s, dist, counts, preds, stack);
    var dependency := new real[|g|](_ => 0.0);
    var m := |stack|;
    ghost var done: set<nat> := {};
    forall v: nat | v < |g| ensures Received(g, s, dist, v, done) == 0.0 {
      NoneReceived(g, s, dist, v, done);
    }
    while m > 0
      invariant 0 <= m <= |stack| && done == SetOf(stack[m..]) && paths[..] == counts
      invariant forall v: nat :: v < |g| ==> dependency[v] == Received(g, s, dist, v, done)
      invariant forall v: nat :: v < |g| ==>
        centrality[v] == old(centrality[v]) + (if v != s && v in done then Dep(g, s, dist, v) else 0.0)
    {
      m := m - 1;
      var node := stack[m];
      FartherIsDone(g, s, dist, counts, preds, stack, m);
      AllReceived(g, s, dist, node, done);
      PredsFacts(g, s, dist, counts, preds, stack, node);
      TermOfPred(g, s, dist, counts, preds, stack, node, node);
      PassOn(node, preds[node], paths, dependency);
      forall v: nat | v < |g| ensures dependency[v] == Received(g, s, dist, v, done + {node}) {
        TermOfPred(g, s, dist, counts, preds, stack, node, v);
        ReceivedMore(g, s, dist, v, done, node);
      }
      if node != s {
        centrality[node] := centrality[node] + dependency[node];
      }
      done := done + {node};
    }
    assert stack[0..] == stack;
    forall v: nat | v < |g| && v != s ensures Dependency(g, s, v) == if v in done then Dep(g, s, dist, v) else 0.0 {
      DepIsDependency(g, s, dist, v);
    }
  }

  /** Normalised betweenness of every node. */
  method Betweenness(g: Adjacency) returns (values: seq<real>)
    requires Finished(g)
    ensures |values| == |g|
    ensures forall v :: 0 <= v < |g| ==>
      values[v] == if |g| < 3 then 0.0 else Centrality(g, v) / ((|g| - 1) * (|g| - 2)) as real
    ensures forall v :: 0 <= v < |g| ==> 0.0 <= values[v] <= 1.0
  {
    hide Dependency, Centrality, PassResult, Finished;
    var len := |g|;
    var centrality := new real[len](_ => 0.0);
    if len < 3 {
      values := centrality[..];
      return;
    }
    var source := 0;
    while source < len
      invariant source <= len
      invariant forall v: nat :: v < len ==> centrality[v] == SourcesBelow(g, v, source)
    {
      var stack, paths, preds, dist := Forward(g, source);
      Backward(g, source, stack, paths, preds, centrality, dist);
      source := source + 1;
    }
    forall v: nat | v < len ensures centrality[v] == Centrality(g, v) {
      AllSources(g, v);
    }
    values := Scaled(g, centrality);
  }

  /** The sums as shares of the ordered pairs of other nodes. */
  method Scaled(g: Adjacency, centrality: array<real>) returns (values: seq<real>)
    requires centrality.Length == |g| >= 3
    requires forall v: nat :: v < |g| ==> centrality[v] == Centrality(g, v)
    ensures |values| == |g|
    ensures forall v :: 0 <= v < |g| ==> values[v] == Centrality(g, v) / ((|g| - 1) * (|g| - 2)) as real
    ensures forall v :: 0 <= v < |g| ==> 0.0 <= values[v] <= 1.0
  {
    hide Centrality;
    var scale := ((|g| - 1) * (|g| - 2)) as real;
    values := seq(|g|, v requires 0 <= v < |g| reads centrality => centrality[v] / scale);
    forall v: nat | v < |g| ensures 0.0 <= centrality[v] / scale <= 1.0 {
      CentralityBounds(g, v);
      FractionBounds(centrality[v], scale);
    }
  }

  ghost function SourcesBelow(g: Adjacency, v: nat, k: nat): real {
    Sum(k, (s: nat) => If(s != v, Dependency(g, s, v)))
  }

  lemma AllSources(g: Adjacency, v: nat)
    ensures SourcesBelow(g, v, |g|) == Centrality(g, v)
  {
  }
}
