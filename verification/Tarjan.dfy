/** Strongly connected components by the iterative form of Tarjan's algorithm. */
module Tarjan {
  import opened Sorting
  import opened Digraph
  import opened TarjanInvariant

  ghost predicate HasComponent(cs: seq<seq<nat>>, v: nat) {
    exists i :: 0 <= i < |cs| && v in cs[i]
  }

  /** The classes of mutual reachability: every node in exactly one, each listed in order, the
      classes ordered by their smallest members. */
  ghost predicate AreComponents(g: Adjacency, cs: seq<seq<nat>>) {
    && (forall i :: 0 <= i < |cs| ==> IsComponent(g, cs[i]))
    && (forall v {:trigger HasComponent(cs, v)} :: 0 <= v < |g| ==> HasComponent(cs, v))
    && (forall i, j :: 0 <= i < j < |cs| ==> cs[i] != [] && cs[j] != [] && cs[i][0] < cs[j][0])
  }

  function First(c: seq<nat>): nat {
    if c == [] then 0 else c[0]
  }

  function LeFirst(c: seq<nat>, d: seq<nat>): bool {
    First(c) <= First(d)
  }

  /** The variables of the search agree with a snapshot. */
  ghost predicate Mirrors(s: State, index: seq<int>, low: seq<int>, onStack: seq<bool>,
                          stack: seq<nat>, calls: seq<(nat, nat)>, counter: nat, components: seq<seq<nat>>)
  {
    && s.index == index && s.low == low && s.onStack == onStack
    && s.stack == stack && s.counter == counter && s.components == components
    && |calls| == |s.path|
    && (forall i :: 0 <= i < |calls| ==>
          calls[i].0 == s.path[i] && s.path[i] < |s.seen| && calls[i].1 == s.seen[s.path[i]])
  }

  ghost function Unvisited(index: seq<int>): set<nat> {
    set v | 0 <= v < |index| && index[v] == UNVISITED
  }

  /** Takes the stack down to and including `node`, as one component in the order popped. */
  method PopComponent(stack: seq<nat>, onStack: array<bool>, node: nat)
    returns (rest: seq<nat>, component: seq<nat>)
    requires node in stack && NoDuplicates(stack)
    requires forall i :: 0 <= i < |stack| ==> stack[i] < onStack.Length
    modifies onStack
    ensures |rest| < |stack| && rest == stack[..|rest|] && stack[|rest|] == node
    ensures multiset(component) == multiset(stack[|rest|..])
    ensures forall v :: 0 <= v < onStack.Length ==>
              onStack[v] == (old(onStack[v]) && v !in stack[|rest|..])
  {
    rest, component := stack, [];
    while true
      invariant |rest| <= |stack| && rest == stack[..|rest|] && node in rest
      invariant multiset(component) == multiset(stack[|rest|..])
      invariant forall v :: 0 <= v < onStack.Length ==>
                  onStack[v] == (old(onStack[v]) && v !in stack[|rest|..])
      decreases |rest|
    {
      var k := |rest| - 1;
      var member := rest[k];
      assert stack[k..] == [member] + stack[k + 1..];
      rest := rest[..k];
      onStack[member] := false;
      component := component + [member];
      if member == node {
        return;
      }
    }
  }

  lemma NextStep(g: Adjacency, s: State)
    requires Inv(g, s) && s.path != []
    ensures Last(s.path) < |g| && s.seen[Last(s.path)] <= |g[Last(s.path)]|
    ensures s.seen[Last(s.path)] < |g[Last(s.path)]| ==> g[Last(s.path)][s.seen[Last(s.path)]] < |g|
    ensures s.seen[Last(s.path)] == |g[Last(s.path)]| ==> MayLeave(g, s)
    ensures NoDuplicates(s.path) && NoDuplicates(s.stack) && Last(s.path) in s.stack
  {
    assert Last(s.path) in s.path;
    hide Linked, LowReached, LowBounds, Collected;
  }

  lemma StartInv(g: Adjacency, s: State)
    requires InRange(g) && Sizes(g, s) && s.stack == [] && s.path == [] && s.components == []
    requires forall v :: 0 <= v < |g| ==> s.index[v] == UNVISITED && !s.onStack[v] && s.seen[v] == 0
    ensures Inv(g, s)
  {
  }

  /** With the call stack empty nothing is stacked, so every visited node has its component. */
  lemma AllDone(g: Adjacency, s: State, v: nat)
    requires Inv(g, s) && s.path == [] && v < |g| && Visited(s, v)
    ensures Done(s, v)
  {
    hide Examined, LowReached, LowBounds, Collected;
    assert s.onStack[v] ==> Anchored(g, s, v);
  }

  lemma FirstsDiffer(cs: seq<seq<nat>>, c: seq<nat>, d: seq<nat>)
    requires c in cs && d in cs && c != [] && d != [] && c != d
    requires Disjoint(cs)
    ensures c[0] != d[0]
  {
    assert c[0] in c && d[0] in d;
  }

  ghost predicate Disjoint(cs: seq<seq<nat>>) {
    forall i, j, v :: 0 <= i < j < |cs| && v in cs[i] ==> v !in cs[j]
  }

  lemma DisjointDistinct(cs: seq<seq<nat>>)
    requires Disjoint(cs) && forall c :: c in cs ==> c != []
    ensures NoDuplicates(cs)
  {
    forall i, j | 0 <= i < j < |cs| ensures cs[i] != cs[j] {
      assert cs[i] in cs;
      assert cs[i][0] in cs[i];
    }
  }

  lemma OrderedFirsts(cs: seq<seq<nat>>, r: seq<seq<nat>>)
    requires Disjoint(cs) && forall c :: c in cs ==> c != []
    requires NoDuplicates(r) && SortedBy(r, LeFirst) && forall c :: c in r ==> c in cs
    ensures forall i, j :: 0 <= i < j < |r| ==> First(r[i]) < First(r[j])
  {
    forall i, j | 0 <= i < j < |r| ensures First(r[i]) < First(r[j]) {
      assert r[i] in r && r[j] in r;
      FirstsDiffer(cs, r[i], r[j]);
      assert LeFirst(r[i], r[j]);
    }
  }

  /** Sorting disjoint components by their first members. */
  lemma OrderDisjoint(g: Adjacency, cs: seq<seq<nat>>)
    requires forall c :: c in cs ==> IsComponent(g, c)
    requires forall v :: 0 <= v < |g| ==> HasComponent(cs, v)
    requires Disjoint(cs)
    ensures AreComponents(g, Sort(cs, LeFirst))
  {
    var r := Sort(cs, LeFirst);
    SameMembers(cs, r);
    SortSorted(cs, LeFirst);
    DisjointDistinct(cs);
    SortKeepsDistinct(cs, LeFirst);
    OrderedFirsts(cs, r);
    forall v | 0 <= v < |g| ensures HasComponent(r, v) {
      assert HasComponent(cs, v);
      var k :| 0 <= k < |cs| && v in cs[k];
      assert cs[k] in r;
    }
    RestateComponents(g, cs, r);
  }

  lemma RestateComponents(g: Adjacency, cs: seq<seq<nat>>, r: seq<seq<nat>>)
    requires forall c :: c in cs ==> IsComponent(g, c)
    requires forall c :: c in r ==> c in cs
    requires forall v :: 0 <= v < |g| ==> HasComponent(r, v)
    requires forall i, j :: 0 <= i < j < |r| ==> First(r[i]) < First(r[j])
    ensures AreComponents(g, r)
  {
    forall i | 0 <= i < |r| ensures IsComponent(g, r[i]) {
      assert r[i] in r;
    }
  }

  lemma FinalComponents(g: Adjacency, s: State)
    requires Inv(g, s) && s.path == []
    requires forall v :: 0 <= v < |g| ==> Visited(s, v)
    ensures AreComponents(g, Sort(s.components, LeFirst))
  {
    hide Stacked, Examined, Linked, LowReached, LowBounds, Done, IsComponent, AreComponents;
    forall v | 0 <= v < |g| ensures HasComponent(s.components, v) {
      AllDone(g, s, v);
    }
    OrderDisjoint(g, s.components);
  }

  /** Numbers `v` and puts it on both stacks. */
  method Discover(g: Adjacency, v: nat, index: array<int>, low: array<int>, onStack: array<bool>,
                  stack: seq<nat>, calls: seq<(nat, nat)>, counter: nat, components: seq<seq<nat>>, ghost s: State)
    returns (stack': seq<nat>, calls': seq<(nat, nat)>, counter': nat, ghost s': State)
    requires index.Length == low.Length == onStack.Length == |g| && index != low
    requires Inv(g, s) && NextIs(g, s, v) && !Visited(s, v)
    requires Mirrors(if s.path == [] then s else Advanced(s), index[..], low[..], onStack[..], stack, calls, counter,
                     components)
    modifies index, low, onStack
    ensures Inv(g, s') && s' == Entered(g, s, v)
    ensures Mirrors(s', index[..], low[..], onStack[..], stack', calls', counter', components)
  {
    hide Stacked, Examined, Linked, LowReached, LowBounds, Collected;
    EnterKeeps(g, s, v);
    s' := Entered(g, s, v);
    assert v !in s.path by { EnterStacked(g, s, v); }
    index[v] := counter;
    low[v] := counter;
    onStack[v] := true;
    counter' := counter + 1;
    stack' := stack + [v];
    calls' := calls + [(v, 0)];
  }

  /** The node being left is its own `low`: everything stacked from it upwards is a component. */
  method Close(g: Adjacency, onStack: array<bool>, node: nat, stack: seq<nat>, components: seq<seq<nat>>,
               ghost s: State)
    returns (stack': seq<nat>, components': seq<seq<nat>>, ghost s': State)
    requires Inv(g, s) && MayLeave(g, s) && IsRoot(g, s) && node == Last(s.path)
    requires onStack[..] == s.onStack && stack == s.stack && components == s.components
    modifies onStack
    ensures Inv(g, s') && s'.index == s.index && s'.low == Leave(s).low && s'.path == Leave(s).path
    ensures s'.seen == s.seen && s'.counter == s.counter
    ensures onStack[..] == s'.onStack && stack' == s'.stack && components' == s'.components
    ensures |stack'| < |stack| && stack[|stack'|] == node && s' == Collect(Leave(s), |stack'|)
  {
    hide Stacked, Examined, Linked, LowReached, LowBounds, Collected;
    NextStep(g, s);
    var component;
    stack', component := PopComponent(stack, onStack, node);
    CollectKeeps(g, s, |stack'|);
    SortOfPermutation(component, stack[|stack'|..], LeNat);
    s' := Collect(Leave(s), |stack'|);
    components' := components + [Sort(component, LeNat)];
  }

  /** The top of the call stack is exhausted: its `low` passes to its caller, and when it is its own
      `low` everything stacked from it upwards is a component. */
  method Retreat(g: Adjacency, index: array<int>, low: array<int>, onStack: array<bool>,
                 stack: seq<nat>, calls: seq<(nat, nat)>, counter: nat, components: seq<seq<nat>>, ghost s: State)
    returns (stack': seq<nat>, calls': seq<(nat, nat)>, components': seq<seq<nat>>, ghost s': State)
    requires index.Length == low.Length == onStack.Length == |g| && index != low
    requires Inv(g, s) && MayLeave(g, s)
    requires Mirrors(s, index[..], low[..], onStack[..], stack, calls, counter, components)
    modifies low, onStack
    ensures Inv(g, s') && s'.index == s.index && |calls'| == |calls| - 1
    ensures Mirrors(s', index[..], low[..], onStack[..], stack', calls', counter, components')
  {
    hide Stacked, Examined, Linked, LowReached, LowBounds, Collected, Collect;
    NextStep(g, s);
    var node := calls[|calls| - 1].0;
    calls' := calls[..|calls| - 1];
    if calls' != [] {
      var parent := calls'[|calls'| - 1].0;
      low[parent] := if low[node] < low[parent] then low[node] else low[parent];
    }
    if low[node] == index[node] {
      stack', components', s' := Close(g, onStack, node, stack, components, s);
    } else {
      LeaveKeeps(g, s);
      s' := Leave(s);
      stack', components' := stack, components;
    }
  }

  /** Successors the top of the call stack has yet to examine. */
  ghost function Rest(g: Adjacency, calls: seq<(nat, nat)>): int {
    if calls == [] || calls[|calls| - 1].0 >= |g| then 0
    else |g[calls[|calls| - 1].0]| - calls[|calls| - 1].1
  }

  /** Examines the next successor of the top of the call stack. */
  method Advance(g: Adjacency, index: array<int>, low: array<int>, onStack: array<bool>,
                 stack: seq<nat>, calls: seq<(nat, nat)>, counter: nat, components: seq<seq<nat>>, ghost s: State)
    returns (stack': seq<nat>, calls': seq<(nat, nat)>, counter': nat, ghost s': State)
    requires index.Length == low.Length == onStack.Length == |g| && index != low
    requires Inv(g, s) && calls != [] && 0 < Rest(g, calls)
    requires Mirrors(s, index[..], low[..], onStack[..], stack, calls, counter, components)
    modifies index, low, onStack
    ensures Inv(g, s')
    ensures Mirrors(s', index[..], low[..], onStack[..], stack', calls', counter', components)
    ensures forall v :: 0 <= v < |g| && s.index[v] != UNVISITED ==> s'.index[v] != UNVISITED
    ensures Unvisited(s'.index) < Unvisited(s.index)
         || (s'.index == s.index && |calls'| == |calls| && Rest(g, calls') < Rest(g, calls))
  {
    hide Stacked, Examined, Linked, LowReached, LowBounds, Collected;
    NextStep(g, s);
    var k := |calls| - 1;
    var node, position := calls[k].0, calls[k].1;
    var next := g[node][position];
    calls' := calls[k := (node, position + 1)];
    if index[next] == UNVISITED {
      stack', calls', counter', s' := Discover(g, next, index, low, onStack, stack, calls', counter, components, s);
      assert next in Unvisited(s.index);
    } else {
      ExamineKeeps(g, s, next);
      s' := Examine(s, next);
      if onStack[next] {
        low[node] := if index[next] < low[node] then index[next] else low[node];
      }
      stack', counter' := stack, counter;
    }
  }

  method StronglyConnectedComponents(g: Adjacency) returns (components: seq<seq<nat>>)
    requires InRange(g)
    ensures AreComponents(g, components)
  {
    hide Inv, MayLeave, Core, Stacked, Examined, Linked, LowReached, LowBounds, Collected, AreComponents;
    var len := |g|;
    var index := new int[len](_ => UNVISITED);
    var low := new int[len](_ => 0);
    var onStack := new bool[len](_ => false);
    var stack: seq<nat> := [];
    components := [];
    var counter: nat := 0;
    var calls: seq<(nat, nat)> := [];
    ghost var s := State(index[..], low[..], onStack[..], seq(len, _ => 0), [], [], 0, []);
    StartInv(g, s);

    var root := 0;
    while root < len
      invariant root <= len && Inv(g, s) && s.path == []
      invariant Mirrors(s, index[..], low[..], onStack[..], stack, calls, counter, components)
      invariant forall v :: 0 <= v < root ==> s.index[v] != UNVISITED
    {
      if index[root] == UNVISITED {
        stack, calls, counter, s := Discover(g, root, index, low, onStack, stack, calls, counter, components, s);
        while calls != []
          invariant Inv(g, s)
          invariant Mirrors(s, index[..], low[..], onStack[..], stack, calls, counter, components)
          invariant forall v :: 0 <= v <= root ==> s.index[v] != UNVISITED
          decreases Unvisited(s.index), |calls|, Rest(g, calls)
        {
          NextStep(g, s);
          if calls[|calls| - 1].1 < |g[calls[|calls| - 1].0]| {
            stack, calls, counter, s := Advance(g, index, low, onStack, stack, calls, counter, components, s);
          } else {
            stack, calls, components, s := Retreat(g, index, low, onStack, stack, calls, counter, components, s);
          }
        }
      }
      root := root + 1;
    }
    FinalComponents(g, s);
    components := Sort(components, LeFirst);
  }
}
