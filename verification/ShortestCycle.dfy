/** The breadth-first search for a shortest cycle inside one component. */
module ShortestCycle {
  import opened Basics
  import opened Wrappers
  import opened Sorting
  import opened Digraph
  import opened BreadthFirst

  /** Stands for the largest machine word: no parent recorded. */
  const NO_PARENT: int := -1

  /** A closed walk through `start` that stays inside the component. */
  ghost predicate IsCycle(g: Adjacency, members: seq<nat>, start: nat, c: seq<nat>) {
    && |c| >= 2
    && WalkFrom(g, c, start, start)
    && forall i :: 0 <= i < |c| ==> c[i] in members
  }

  /** A snapshot of the search: the levels of a breadth-first search over the members, and the node
      each of the others was found from. */
  datatype Search = Search(parent: seq<int>, f: Frontier)

  ghost function Allowed(members: seq<nat>): set<nat> {
    set m | m in members
  }

  ghost predicate Tree(g: Adjacency, members: seq<nat>, start: nat, s: Search)
    requires |s.parent| == |s.f.dist| == |g| && start < |g|
  {
    && (forall v {:trigger s.parent[v]} :: 0 <= v < |g| ==>
          (s.parent[v] == NO_PARENT <==> v == start || s.f.dist[v] < 0))
    && (forall v {:trigger s.parent[v]} :: 0 <= v < |g| && s.parent[v] != NO_PARENT ==>
          && 0 <= s.parent[v] < |g| && Edge(g, s.parent[v], v)
          && 0 <= s.f.dist[s.parent[v]] && s.f.dist[v] == s.f.dist[s.parent[v]] + 1)
  }

  /** No examined edge leads back to the start. */
  ghost predicate NoReturn(g: Adjacency, start: nat, s: Search)
    requires |s.f.seen| == |g|
  {
    forall u, j :: 0 <= u < |g| && 0 <= j < s.f.seen[u] && j < |g[u]| ==> g[u][j] != start
  }

  ghost predicate Inv(g: Adjacency, members: seq<nat>, start: nat, s: Search) {
    && BreadthFirst.Inv(g, Allowed(members), start, s.f)
    && |s.parent| == |g|
    && Tree(g, members, start, s)
    && NoReturn(g, start, s)
  }

  /** An edge out of the component, or to a node already known. */
  lemma SkipKeeps(g: Adjacency, members: seq<nat>, start: nat, s: Search, v: nat)
    requires Inv(g, members, start, s) && NextIs(g, s.f, v) && v != start && v < |g|
    requires v in members ==> s.parent[v] != NO_PARENT
    ensures Inv(g, members, start, s.(f := Skip(s.f)))
  {
    hide BreadthFirst.Inv;
    FrontierSizes(g, members, start, s);
    assert v in members ==> 0 <= s.f.dist[v];
    BreadthFirst.SkipKeeps(g, Allowed(members), start, s.f, v);
  }

  lemma FrontierSizes(g: Adjacency, members: seq<nat>, start: nat, s: Search)
    requires BreadthFirst.Inv(g, Allowed(members), start, s.f)
    ensures InRange(g) && Sizes(g, s.f) && start < |g| && s.f.dist[start] == 0
    ensures s.f.queue != [] ==> s.f.queue[0] in members && 0 <= s.f.dist[s.f.queue[0]]
    ensures forall v :: 0 <= v < |g| && 0 <= s.f.dist[v] ==> v in members
    ensures NoDuplicates(s.f.queue)
  {
    if s.f.queue != [] {
      FrontKnown(g, s.f);
    }
  }

  /** An edge to a new node of the component. */
  lemma FoundKeeps(g: Adjacency, members: seq<nat>, start: nat, s: Search, v: nat)
    requires Inv(g, members, start, s) && NextIs(g, s.f, v)
    requires v in members && v != start && v < |g| && s.parent[v] == NO_PARENT
    ensures Inv(g, members, start, Search(s.parent[v := s.f.queue[0]], Found(s.f, v)))
    ensures Unknown(Found(s.f, v).dist) < Unknown(s.f.dist)
  {
    hide BreadthFirst.Inv;
    FrontierSizes(g, members, start, s);
    assert s.f.dist[v] < 0;
    assert Edge(g, s.f.queue[0], v);
    BreadthFirst.FoundKeeps(g, Allowed(members), start, s.f, v);
    hide NextIs;
  }

  lemma PopKeeps(g: Adjacency, members: seq<nat>, start: nat, s: Search)
    requires Inv(g, members, start, s)
    requires s.f.queue != [] && s.f.queue[0] < |g| && s.f.seen[s.f.queue[0]] == |g[s.f.queue[0]]|
    ensures Inv(g, members, start, s.(f := Pop(s.f)))
    ensures |s.f.queue| > 1 ==> s.f.queue[1] < |s.f.seen| && s.f.seen[s.f.queue[1]] == 0
  {
    hide BreadthFirst.Inv;
    FrontierSizes(g, members, start, s);
    BreadthFirst.PopKeeps(g, Allowed(members), start, s.f);
  }

  /** Every cycle through the start is longer than the front level; an exhausted search leaves none. */
  lemma CyclesAreLonger(g: Adjacency, members: seq<nat>, start: nat, s: Search, c: seq<nat>)
    requires Inv(g, members, start, s) && IsCycle(g, members, start, c)
    ensures s.f.queue != [] && s.f.queue[0] < |g| && s.f.dist[s.f.queue[0]] + 1 <= |c| - 1
  {
    hide BreadthFirst.Inv, Tree;
    FrontierSizes(g, members, start, s);
    var k := |c| - 1;
    assert Edge(g, c[k - 1], c[k - 1 + 1]);
    if s.f.queue == [] || k <= s.f.dist[s.f.queue[0]] {
      BreadthFirst.WalkIsKnown(g, Allowed(members), start, s.f, c, k);
    }
  }

  // ------------------------------------------------------------------ the search

  ghost predicate Start(g: Adjacency, members: seq<nat>, start: nat) {
    && InRange(g) && start < |g| && start in members
    && forall m :: m in members ==> m < |g|
  }

  lemma StartInv(g: Adjacency, members: seq<nat>, start: nat, s: Search)
    requires Start(g, members, start) && Sizes(g, s.f) && |s.parent| == |g| && s.f.queue == [start]
    requires forall v :: 0 <= v < |g| ==>
      s.parent[v] == NO_PARENT && s.f.seen[v] == 0 && s.f.dist[v] == if v == start then 0 else -1
    ensures Inv(g, members, start, s)
  {
    BreadthFirst.StartInv(g, Allowed(members), start, s.f);
  }

  /** Membership in the component, by binary search. */
  method InComponent(members: seq<nat>, node: nat) returns (found: bool)
    requires StrictlySorted(members)
    ensures found <==> node in members
  {
    var low, high := 0, |members|;
    while low < high
      invariant low <= high <= |members|
      invariant forall k :: 0 <= k < low || high <= k < |members| ==> members[k] != node
    {
      var middle := low + (high - low) / 2;
      if members[middle] == node {
        return true;
      } else if members[middle] < node {
        low := middle + 1;
      } else {
        high := middle;
      }
    }
    return false;
  }

  /** Breadth-first from `start`: the node from which the first edge back to `start` is found. The
      parents recorded so far, and the level of that node, are those of the snapshot `s`. */
  method FindReturn(g: Adjacency, members: seq<nat>, start: nat, parent: array<int>)
    returns (found: Option<nat>, ghost s: Search)
    requires StrictlySorted(members) && Start(g, members, start) && parent.Length == |g|
    requires forall v :: 0 <= v < |g| ==> parent[v] == NO_PARENT
    modifies parent
    ensures Inv(g, members, start, s) && s.parent == parent[..]
    ensures found.None? ==> s.f.queue == []
    ensures found.Some? ==> s.f.queue != [] && s.f.queue[0] == found.value && Edge(g, found.value, start)
  {
    hide BreadthFirst.Inv, Tree, NoReturn;
    var queue := [start];
    s := Search(parent[..], Frontier(seq(|g|, v => if v == start then 0 else -1), seq(|g|, _ => 0), queue));
    StartInv(g, members, start, s);
    while queue != []
      invariant Inv(g, members, start, s) && s.f.queue == queue && s.parent == parent[..]
      invariant Sizes(g, s.f)
      invariant queue != [] ==> s.f.seen[queue[0]] == 0
      decreases Unknown(s.f.dist), |queue|
    {
      var node := queue[0];
      queue := queue[1..];
      ghost var unknown, waiting := Unknown(s.f.dist), |queue|;
      var j := 0;
      while j < |g[node]|
        invariant j <= |g[node]|
        invariant Inv(g, members, start, s) && s.parent == parent[..]
        invariant Sizes(g, s.f) && s.f.queue == [node] + queue && s.f.seen[node] == j
        invariant Unknown(s.f.dist) < unknown || (Unknown(s.f.dist) == unknown && |queue| == waiting)
      {
        var next := g[node][j];
        var inside := InComponent(members, next);
        if inside {
          if next == start {
            return Some(node), s;
          }
          if parent[next] == NO_PARENT {
            FoundKeeps(g, members, start, s, next);
            parent[next] := node;
            queue := queue + [next];
            s := Search(parent[..], Found(s.f, next));
          } else {
            SkipKeeps(g, members, start, s, next);
            s := s.(f := Skip(s.f));
          }
        } else {
          SkipKeeps(g, members, start, s, next);
          s := s.(f := Skip(s.f));
        }
        j := j + 1;
      }
      PopKeeps(g, members, start, s);
      s := s.(f := Pop(s.f));
    }
    found := None;
  }

  // ------------------------------------------------------------- the path found

  function Reverse(s: seq<nat>): (r: seq<nat>)
    ensures |r| == |s|
    ensures forall i :: 0 <= i < |s| ==> r[i] == s[|s| - 1 - i]
  {
    if s == [] then [] else Reverse(s[1..]) + [s[0]]
  }

  /** Follows the parents from `last` back to `start`. */
  method Backtrack(g: Adjacency, members: seq<nat>, start: nat, last: nat, parent: array<int>, ghost s: Search)
    returns (path: seq<nat>)
    requires Inv(g, members, start, s) && s.parent == parent[..]
    requires s.f.queue != [] && s.f.queue[0] == last && Edge(g, last, start)
    ensures IsCycle(g, members, start, path) && path != [] && path[0] == start
    ensures |path| - 1 == s.f.dist[last] + 1
  {
    FrontierSizes(g, members, start, s);
    var node: int := last;
    var reversed: seq<nat> := [];
    assert Reverse(reversed) + [start] == [start];
    assert Traced(g, members, start, s, last, node, reversed);
    while node != start
      invariant Traced(g, members, start, s, last, node, reversed)
      decreases s.f.dist[node]
    {
      TraceParent(g, members, start, s, last, node, reversed);
      reversed := reversed + [node];
      node := parent[node];
    }
    TraceEnds(g, members, start, s, last, reversed);
    path := [start] + Reverse(reversed) + [start];
  }

  /** The nodes passed on the way from `last` up to `node`, which is next: in reverse they lead on to the
      start. */
  ghost predicate Traced(g: Adjacency, members: seq<nat>, start: nat, s: Search, last: nat, node: int,
                         reversed: seq<nat>)
  {
    var tail := Reverse(reversed) + [start];
    && |s.f.dist| == |s.parent| == |g| && last < |g| && 0 <= node < |g| && node in members && 0 <= s.f.dist[node]
    && Edge(g, node, tail[0]) && WalkFrom(g, tail, tail[0], start)
    && (forall i :: 0 <= i < |tail| ==> tail[i] in members)
    && |reversed| == s.f.dist[last] - s.f.dist[node]
  }

  lemma TraceParent(g: Adjacency, members: seq<nat>, start: nat, s: Search, last: nat, node: nat, reversed: seq<nat>)
    requires Inv(g, members, start, s) && Traced(g, members, start, s, last, node, reversed) && node != start
    ensures 0 <= s.parent[node] && Traced(g, members, start, s, last, s.parent[node], reversed + [node])
    ensures 0 <= s.f.dist[s.parent[node]] < s.f.dist[node]
  {
    ParentStep(g, members, start, s, node);
    var tail := Reverse(reversed) + [start];
    PrependStep(g, node, tail, start);
    ReverseAppend(reversed, node);
    hide Inv, Reverse, WalkFrom;
    assert Reverse(reversed + [node]) + [start] == [node] + tail;
  }

  lemma TraceEnds(g: Adjacency, members: seq<nat>, start: nat, s: Search, last: nat, reversed: seq<nat>)
    requires Inv(g, members, start, s) && Traced(g, members, start, s, last, start, reversed)
    ensures var path := [start] + Reverse(reversed) + [start];
      IsCycle(g, members, start, path) && |path| - 1 == s.f.dist[last] + 1
  {
    FrontierSizes(g, members, start, s);
    var tail := Reverse(reversed) + [start];
    PrependStep(g, start, tail, start);
    StartLevel(g, members, start, s);
    hide Inv, WalkFrom;
    assert [start] + Reverse(reversed) + [start] == [start] + tail;
  }

  lemma StartLevel(g: Adjacency, members: seq<nat>, start: nat, s: Search)
    requires Inv(g, members, start, s)
    ensures start < |s.f.dist| && s.f.dist[start] == 0
  {
    hide Tree, NoReturn;
  }

  lemma ParentStep(g: Adjacency, members: seq<nat>, start: nat, s: Search, v: nat)
    requires Inv(g, members, start, s) && v < |g| && v != start && 0 <= s.f.dist[v]
    ensures 0 <= s.parent[v] < |g| && Edge(g, s.parent[v], v) && v in members && s.parent[v] in members
    ensures 0 <= s.f.dist[s.parent[v]] == s.f.dist[v] - 1
  {
    hide BreadthFirst.Inv, NoReturn;
    FrontierSizes(g, members, start, s);
    assert s.parent[v] != NO_PARENT;
  }

  lemma {:induction false} ReverseAppend(s: seq<nat>, x: nat)
    ensures Reverse(s + [x]) == [x] + Reverse(s)
  {
  }

  lemma PrependStep(g: Adjacency, u: nat, p: seq<nat>, v: nat)
    requires p != [] && Edge(g, u, p[0]) && WalkFrom(g, p, p[0], v)
    ensures WalkFrom(g, [u] + p, u, v)
  {
    var r := [u] + p;
    forall i | 0 <= i < |r| - 1 ensures Edge(g, r[i], r[i + 1]) {
      if i > 0 {
        assert Edge(g, p[i - 1], p[i - 1 + 1]);
      }
    }
  }

  // ------------------------------------------------------------------ the result

  /** The path is a shortest cycle over all the starts, and the first start that has one so short. */
  ghost predicate WinsAt(g: Adjacency, members: seq<nat>, starts: seq<nat>, path: seq<nat>, k: nat) {
    && k < |starts|
    && IsCycle(g, members, starts[k], path)
    && (forall i, c {:trigger IsCycle(g, members, starts[i], c)} ::
          0 <= i < |starts| && IsCycle(g, members, starts[i], c) ==> |path| <= |c| && (i < k ==> |path| < |c|))
  }

  ghost predicate IsShortestFrom(g: Adjacency, members: seq<nat>, starts: seq<nat>, best: Option<seq<nat>>) {
    match best
    case None =>
      forall i, c {:trigger IsCycle(g, members, starts[i], c)} ::
        0 <= i < |starts| ==> !IsCycle(g, members, starts[i], c)
    case Some(path) =>
      exists k: nat :: WinsAt(g, members, starts, path, k)
  }

  /** The shortest cycle from one start, by the search and its parents. */
  method CycleFrom(g: Adjacency, members: seq<nat>, start: nat) returns (r: Option<seq<nat>>)
    requires StrictlySorted(members) && Start(g, members, start)
    ensures IsShortestFrom(g, members, [start], r)
  {
    var parent := new int[|g|](_ => NO_PARENT);
    var found, s := FindReturn(g, members, start, parent);
    forall c | IsCycle(g, members, start, c)
      ensures s.f.queue != [] && s.f.queue[0] < |g| && s.f.dist[s.f.queue[0]] + 1 <= |c| - 1
    {
      CyclesAreLonger(g, members, start, s, c);
    }
    hide Inv, IsCycle;
    match found
    case None => r := None;
    case Some(last) =>
      var path := Backtrack(g, members, start, last, parent, s);
      assert WinsAt(g, members, [start], path, 0);
      r := Some(path);
  }

  lemma Improve(g: Adjacency, members: seq<nat>, tried: seq<nat>, start: nat,
                best: Option<seq<nat>>, r: Option<seq<nat>>)
    requires IsShortestFrom(g, members, tried, best) && IsShortestFrom(g, members, [start], r)
    ensures IsShortestFrom(g, members, tried + [start],
              if r.Some? && (best.None? || |r.value| < |best.value|) then r else best)
  {
    hide IsCycle;
    var starts := tried + [start];
    assert forall i :: 0 <= i < |tried| ==> starts[i] == tried[i];
    assert forall i :: 0 <= i < |starts| && i != |tried| ==> starts[i] == tried[i];
    if r.Some? {
      var z: nat :| WinsAt(g, members, [start], r.value, z);
      assert z == 0;
    }
    assert forall c :: r.Some? && IsCycle(g, members, [start][0], c) ==> |r.value| <= |c|;
    if best.Some? {
      var k: nat :| WinsAt(g, members, tried, best.value, k);
      if r.None? || |best.value| <= |r.value| {
        forall c ensures !(r.None? && IsCycle(g, members, start, c)) {
          assert r.None? ==> !IsCycle(g, members, [start][0], c);
        }
        assert WinsAt(g, members, starts, best.value, k);
      } else {
        assert WinsAt(g, members, starts, r.value, |tried|);
      }
    } else if r.Some? {
      assert WinsAt(g, members, starts, r.value, |tried|);
    }
  }

  /** `path` is a cycle through the member at position `k`, no longer than any cycle through the first member
      or through one before position `maxStarts`, and shorter than those through the members before it. */
  ghost predicate FirstShortest(g: Adjacency, members: seq<nat>, maxStarts: nat, path: seq<nat>, k: nat) {
    && k < |members| && (k == 0 || k < maxStarts)
    && IsCycle(g, members, members[k], path)
    && (forall i, c {:trigger IsCycle(g, members, members[i], c)} ::
          0 <= i < |members| && (i == 0 || i < maxStarts) && IsCycle(g, members, members[i], c) ==>
            |path| <= |c| && (i < k ==> |path| < |c|))
  }

  ghost predicate NoneFrom(g: Adjacency, members: seq<nat>, maxStarts: nat) {
    forall i, c {:trigger IsCycle(g, members, members[i], c)} ::
      0 <= i < |members| && (i == 0 || i < maxStarts) ==> !IsCycle(g, members, members[i], c)
  }

  /** What a search from the first members, as many as there are or as the limit allows, amounts to. */
  lemma Searched(g: Adjacency, members: seq<nat>, maxStarts: nat, n: nat, best: Option<seq<nat>>)
    requires n <= |members| && IsShortestFrom(g, members, members[..n], best)
    requires n <= Max(maxStarts, 1) && (n == |members| || n == Max(maxStarts, 1))
    ensures best.None? ==> NoneFrom(g, members, maxStarts)
    ensures best.Some? ==> exists k: nat :: FirstShortest(g, members, maxStarts, best.value, k)
  {
    hide IsCycle;
    var starts := members[..n];
    assert forall i :: 0 <= i < n ==> starts[i] == members[i];
    if best.Some? {
      var k: nat :| WinsAt(g, members, starts, best.value, k);
      assert FirstShortest(g, members, maxStarts, best.value, k);
    }
  }

  /** A shortest cycle through the first members of the component, which are in order: at least one of them is
      tried, whatever the limit, and the earliest one wins a tie. */
  method ShortestCycle(g: Adjacency, members: seq<nat>, maxStarts: nat) returns (best: Option<seq<nat>>)
    requires InRange(g) && StrictlySorted(members) && forall m :: m in members ==> m < |g|
    ensures best.None? ==> NoneFrom(g, members, maxStarts)
    ensures best.Some? ==> exists k: nat :: FirstShortest(g, members, maxStarts, best.value, k)
  {
    hide IsShortestFrom, FirstShortest, NoneFrom;
    best := None;
    NoStarts(g, members);
    var i := 0;
    while i < |members| && i < Max(maxStarts, 1)
      invariant i <= |members| && i <= Max(maxStarts, 1) && IsShortestFrom(g, members, members[..i], best)
    {
      assert members[i] in members;
      var r := CycleFrom(g, members, members[i]);
      Improve(g, members, members[..i], members[i], best, r);
      assert members[..i + 1] == members[..i] + [members[i]];
      if r.Some? && (best.None? || |r.value| < |best.value|) {
        best := r;
      }
      i := i + 1;
    }
    Searched(g, members, maxStarts, i, best);
  }

  lemma NoStarts(g: Adjacency, members: seq<nat>)
    ensures IsShortestFrom(g, members, [], None)
  {
  }
}
