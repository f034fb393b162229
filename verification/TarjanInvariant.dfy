/** The invariant behind the iterative component search, on a snapshot of its variables, and
    the proof that each kind of step keeps it. */
module TarjanInvariant {
  import opened Sorting
  import opened Digraph

  /** Stands for the largest machine word, which no visiting number reaches. */
  const UNVISITED: int := -1

  /** `path` holds the nodes of the call stack; `seen[v]` is how many successors of `v` have been
      examined, which for a node on the call stack is the position stored there. */
  datatype State = State(
    index: seq<int>, low: seq<int>, onStack: seq<bool>, seen: seq<nat>,
    stack: seq<nat>, path: seq<nat>, counter: nat, components: seq<seq<nat>>)

  ghost predicate Sizes(g: Adjacency, s: State) {
    && |s.index| == |s.low| == |s.onStack| == |s.seen| == |g|
    && (forall i :: 0 <= i < |s.stack| ==> s.stack[i] < |g|)
    && (forall i :: 0 <= i < |s.path| ==> s.path[i] < |g|)
  }

  ghost predicate Visited(s: State, v: nat)
    requires v < |s.index|
  {
    s.index[v] != UNVISITED
  }

  ghost predicate Done(s: State, v: nat)
    requires v < |s.index| == |s.onStack|
  {
    Visited(s, v) && !s.onStack[v]
  }

  /** The stack holds the visited nodes that have no component yet, in visiting order, and the
      call stack is a path through it. */
  ghost predicate Stacked(g: Adjacency, s: State)
    requires Sizes(g, s)
  {
    && (forall v :: 0 <= v < |g| && Visited(s, v) ==> 0 <= s.index[v] < s.counter)
    && (forall v :: 0 <= v < |g| && s.onStack[v] ==> Visited(s, v))
    && (forall v :: 0 <= v < |g| ==> (s.onStack[v] <==> v in s.stack))
    && (forall i, j :: 0 <= i < j < |s.stack| ==> s.index[s.stack[i]] < s.index[s.stack[j]])
    && (forall x :: x in s.path ==> x in s.stack)
    && (forall i, j :: 0 <= i < j < |s.path| ==> s.index[s.path[i]] < s.index[s.path[j]])
  }

  /** Examined edges lead to visited nodes, nodes off the call stack are examined completely,
      and finished components are closed under edges. */
  ghost predicate Examined(g: Adjacency, s: State)
    requires Sizes(g, s) && InRange(g)
  {
    && (forall v :: 0 <= v < |g| ==> s.seen[v] <= |g[v]|)
    && (forall v :: 0 <= v < |g| && Visited(s, v) && v !in s.path ==> s.seen[v] == |g[v]|)
    && (forall v, j :: 0 <= v < |g| && Visited(s, v) && 0 <= j < s.seen[v] ==> Visited(s, g[v][j]))
    && (forall v, j :: 0 <= v < |g| && Done(s, v) && 0 <= j < |g[v]| ==> Done(s, g[v][j]))
  }

  ghost predicate Anchor(g: Adjacency, s: State, y: nat, x: nat)
    requires Sizes(g, s)
  {
    x in s.path && y < |g| && s.index[x] <= s.index[y] && Reaches(g, y, x)
  }

  ghost predicate Anchored(g: Adjacency, s: State, y: nat)
    requires Sizes(g, s)
  {
    exists x :: Anchor(g, s, y, x)
  }

  /** Call-stack nodes reach everything above them; every stacked node reaches a call-stack node
      at or below it. */
  ghost predicate Linked(g: Adjacency, s: State)
    requires Sizes(g, s)
  {
    && (forall x, y {:trigger Reaches(g, x, y)} ::
          x in s.path && y in s.stack && s.index[x] <= s.index[y] ==> Reaches(g, x, y))
    && (forall y {:trigger Anchored(g, s, y)} :: y in s.stack ==> Anchored(g, s, y))
  }

  ghost predicate LowTarget(g: Adjacency, s: State, x: nat, z: nat)
    requires Sizes(g, s)
  {
    x < |g| && z in s.stack && s.index[z] == s.low[x] && Reaches(g, x, z)
  }

  ghost predicate LowAttained(g: Adjacency, s: State, x: nat)
    requires Sizes(g, s)
  {
    x < |g| && s.low[x] <= s.index[x] && exists z: nat :: LowTarget(g, s, x, z)
  }

  /** `low[x]` is the number of some stacked node that `x` reaches. */
  ghost predicate LowReached(g: Adjacency, s: State)
    requires Sizes(g, s)
  {
    forall x {:trigger LowAttained(g, s, x)} :: x in s.path ==> LowAttained(g, s, x)
  }

  /** `y` is stacked between call-stack entry `i` and the next one. */
  ghost predicate InFrame(g: Adjacency, s: State, i: nat, y: nat)
    requires Sizes(g, s)
  {
    && i < |s.path|
    && y in s.stack
    && s.index[s.path[i]] <= s.index[y]
    && (i + 1 < |s.path| ==> s.index[y] < s.index[s.path[i + 1]])
  }

  /** No examined edge leaving a frame leads to a stacked node numbered below the frame's `low`. */
  ghost predicate LowBounds(g: Adjacency, s: State)
    requires Sizes(g, s) && InRange(g)
  {
    forall i: nat, y: nat, j: nat :: InFrame(g, s, i, y) && j < s.seen[y] && j < |g[y]| && s.onStack[g[y][j]] ==>
      s.low[s.path[i]] <= s.index[g[y][j]]
  }

  ghost predicate IsComponent(g: Adjacency, c: seq<nat>) {
    && c != []
    && StrictlySorted(c)
    && (forall u :: u in c ==> u < |g|)
    && (forall u, v :: u in c ==> (v in c <==> Mutual(g, u, v)))
  }

  /** The components found so far are exactly the done nodes, each in one component. */
  ghost predicate Collected(g: Adjacency, s: State)
    requires Sizes(g, s)
  {
    && (forall i :: 0 <= i < |s.components| ==> IsComponent(g, s.components[i]))
    && (forall i, v :: 0 <= i < |s.components| && v in s.components[i] ==> v < |g| && Done(s, v))
    && (forall v :: 0 <= v < |g| && Done(s, v) ==> exists i :: 0 <= i < |s.components| && v in s.components[i])
    && (forall i, j, v :: 0 <= i < j < |s.components| && v in s.components[i] ==> v !in s.components[j])
  }

  ghost predicate Core(g: Adjacency, s: State) {
    InRange(g) && Sizes(g, s) && Stacked(g, s)
  }

  ghost predicate Inv(g: Adjacency, s: State) {
    && Core(g, s)
    && Examined(g, s)
    && Linked(g, s)
    && LowReached(g, s)
    && LowBounds(g, s)
    && Collected(g, s)
  }

  function Last(p: seq<nat>): nat
    requires p != []
  {
    p[|p| - 1]
  }

  // ------------------------------------------------------- entering a new node

  function Enter(s: State, v: nat): State
    requires v < |s.index| == |s.low| == |s.onStack| == |s.seen|
  {
    s.(index := s.index[v := s.counter], low := s.low[v := s.counter], onStack := s.onStack[v := true],
       seen := s.seen[v := 0], stack := s.stack + [v], path := s.path + [v], counter := s.counter + 1)
  }

  function Advanced(s: State): State
    requires s.path != [] && Last(s.path) < |s.seen|
  {
    s.(seen := s.seen[Last(s.path) := s.seen[Last(s.path)] + 1])
  }

  /** `v` is the call-stack top's next successor, or a new root. */
  ghost predicate NextIs(g: Adjacency, s: State, v: nat)
    requires Sizes(g, s)
  {
    && v < |g|
    && (s.path != [] ==> var u := Last(s.path); s.seen[u] < |g[u]| && g[u][s.seen[u]] == v)
  }

  function Entered(g: Adjacency, s: State, v: nat): State
    requires v < |g| && |s.index| == |s.low| == |s.onStack| == |s.seen| == |g|
    requires s.path != [] ==> Last(s.path) < |g|
  {
    Enter(if s.path == [] then s else Advanced(s), v)
  }

  ghost predicate MayEnter(g: Adjacency, s: State, v: nat) {
    Core(g, s) && NextIs(g, s, v) && !Visited(s, v)
  }

  lemma EnterStacked(g: Adjacency, s: State, v: nat)
    requires MayEnter(g, s, v)
    ensures v !in s.stack && v !in s.path
    ensures Core(g, Entered(g, s, v))
  {
  }

  lemma InEntered(g: Adjacency, s: State, v: nat, x: nat)
    requires MayEnter(g, s, v)
    ensures x in Entered(g, s, v).path <==> x in s.path || x == v
    ensures x in Entered(g, s, v).stack <==> x in s.stack || x == v
  {
  }

  lemma EnterExamined(g: Adjacency, s: State, v: nat)
    requires MayEnter(g, s, v) && Examined(g, s)
    ensures Sizes(g, Entered(g, s, v)) && Examined(g, Entered(g, s, v))
  {
    EnterStacked(g, s, v);
    hide Stacked;
    var t := Entered(g, s, v);
    assert s.path != [] ==> Last(s.path) in s.path;
    assert forall x :: 0 <= x < |g| ==> (Done(t, x) <==> Done(s, x));
    forall x | 0 <= x < |g| && x !in t.path ensures x !in s.path && x != v {
      InEntered(g, s, v, x);
    }
  }

  lemma EnterLinked(g: Adjacency, s: State, v: nat)
    requires MayEnter(g, s, v) && Linked(g, s)
    ensures Sizes(g, Entered(g, s, v)) && Linked(g, Entered(g, s, v))
  {
    EnterStacked(g, s, v);
    var t := Entered(g, s, v);
    forall x, y | x in t.path && y in t.stack && t.index[x] <= t.index[y] ensures Reaches(g, x, y) {
      InEntered(g, s, v, x);
      InEntered(g, s, v, y);
      if x == v {
        ReachesSelf(g, v);
      } else if y == v {
        var u := Last(s.path);
        LastIsTop(g, s, x);
        assert Reaches(g, x, u);
        assert Edge(g, u, v);
        ReachesByEdge(g, x, u, v);
      } else {
        assert Reaches(g, x, y);
      }
    }
    forall y | y in t.stack ensures Anchored(g, t, y) {
      InEntered(g, s, v, y);
      if y == v {
        ReachesSelf(g, v);
        InEntered(g, s, v, v);
        assert Anchor(g, t, v, v);
      } else {
        assert Anchored(g, s, y);
        var x :| Anchor(g, s, y, x);
        InEntered(g, s, v, x);
        assert Anchor(g, t, y, x);
      }
    }
  }

  lemma EnterLowReached(g: Adjacency, s: State, v: nat)
    requires MayEnter(g, s, v) && LowReached(g, s)
    ensures Sizes(g, Entered(g, s, v)) && LowReached(g, Entered(g, s, v))
  {
    EnterStacked(g, s, v);
    var t := Entered(g, s, v);
    forall x | x in t.path ensures LowAttained(g, t, x) {
      InEntered(g, s, v, x);
      if x == v {
        ReachesSelf(g, v);
        InEntered(g, s, v, v);
        assert LowTarget(g, t, v, v);
      } else {
        assert LowAttained(g, s, x);
        var z :| LowTarget(g, s, x, z);
        InEntered(g, s, v, z);
        assert LowTarget(g, t, x, z);
      }
    }
  }

  lemma EnterLowBounds(g: Adjacency, s: State, v: nat)
    requires MayEnter(g, s, v) && Examined(g, s) && LowReached(g, s) && LowBounds(g, s)
    ensures Sizes(g, Entered(g, s, v)) && LowBounds(g, Entered(g, s, v))
  {
    EnterStacked(g, s, v);
    var t := Entered(g, s, v);
    forall i: nat, y: nat, j: nat | InFrame(g, t, i, y) && j < t.seen[y] && j < |g[y]| && t.onStack[g[y][j]]
      ensures t.low[t.path[i]] <= t.index[g[y][j]]
    {
      InEntered(g, s, v, y);
      if i < |s.path| {
        assert t.path[i] == s.path[i] && s.path[i] in s.path;
        assert y != v && InFrame(g, s, i, y);
        if j == s.seen[y] {
          assert g[y][j] == v;
          assert LowAttained(g, s, s.path[i]);
        }
      }
    }
  }

  lemma EnterCollected(g: Adjacency, s: State, v: nat)
    requires MayEnter(g, s, v) && Collected(g, s)
    ensures Sizes(g, Entered(g, s, v)) && Collected(g, Entered(g, s, v))
  {
    EnterStacked(g, s, v);
    SameDone(g, s, Entered(g, s, v));
  }

  lemma SameDone(g: Adjacency, s: State, t: State)
    requires Sizes(g, s) && Sizes(g, t) && Collected(g, s) && s.components == t.components
    requires forall x :: 0 <= x < |g| ==> (Done(t, x) <==> Done(s, x))
    ensures Collected(g, t)
  {
  }

  lemma EnterKeeps(g: Adjacency, s: State, v: nat)
    requires Inv(g, s) && NextIs(g, s, v) && !Visited(s, v)
    ensures Inv(g, Entered(g, s, v))
  {
    hide Stacked, Examined, Linked, LowReached, LowBounds, Collected, NextIs;
    EnterStacked(g, s, v);
    EnterExamined(g, s, v);
    EnterLinked(g, s, v);
    EnterLowReached(g, s, v);
    EnterLowBounds(g, s, v);
    EnterCollected(g, s, v);
  }

  // ------------------------------------------------- an edge to a visited node

  /** An edge back to a stacked node lowers `low`; one into a finished component does nothing. */
  function Examine(s: State, v: nat): State
    requires s.path != [] && Last(s.path) < |s.low| == |s.seen| == |s.index| == |s.onStack| && v < |s.index|
  {
    var u := Last(s.path);
    Advanced(s).(low := if s.onStack[v] && s.index[v] < s.low[u] then s.low[u := s.index[v]] else s.low)
  }

  ghost predicate MayExamine(g: Adjacency, s: State, v: nat) {
    Core(g, s) && s.path != [] && NextIs(g, s, v) && Visited(s, v)
  }

  lemma ExamineLowReached(g: Adjacency, s: State, v: nat)
    requires MayExamine(g, s, v) && LowReached(g, s)
    ensures Sizes(g, Examine(s, v)) && LowReached(g, Examine(s, v))
  {
    var t := Examine(s, v);
    var u := Last(s.path);
    assert u in s.path;
    assert Edge(g, u, v);
    forall x | x in t.path ensures LowAttained(g, t, x) {
      assert LowAttained(g, s, x);
      var z :| LowTarget(g, s, x, z);
      if t.low[x] != s.low[x] {
        EdgeReaches(g, u, v);
        assert LowTarget(g, t, x, v);
      } else {
        assert LowTarget(g, t, x, z);
      }
    }
  }

  lemma ExamineLowBounds(g: Adjacency, s: State, v: nat)
    requires MayExamine(g, s, v) && LowBounds(g, s)
    ensures Sizes(g, Examine(s, v)) && LowBounds(g, Examine(s, v))
  {
    var t := Examine(s, v);
    var u := Last(s.path);
    forall i: nat, y: nat, j: nat | InFrame(g, t, i, y) && j < t.seen[y] && j < |g[y]| && t.onStack[g[y][j]]
      ensures t.low[t.path[i]] <= t.index[g[y][j]]
    {
      assert InFrame(g, s, i, y) && s.path[i] in s.path;
      if j == s.seen[y] {
        assert y == u;
        assert i == |s.path| - 1;
      }
    }
  }

  lemma ExamineRest(g: Adjacency, s: State, v: nat)
    requires MayExamine(g, s, v) && Examined(g, s)
    ensures Core(g, Examine(s, v)) && Examined(g, Examine(s, v))
  {
    assert Last(s.path) in s.path;
  }

  lemma ExamineLinked(g: Adjacency, s: State, v: nat)
    requires MayExamine(g, s, v) && Linked(g, s)
    ensures Sizes(g, Examine(s, v)) && Linked(g, Examine(s, v))
  {
    var t := Examine(s, v);
    forall y | y in t.stack ensures Anchored(g, t, y) {
      assert Anchored(g, s, y);
      var x :| Anchor(g, s, y, x);
      assert Anchor(g, t, y, x);
    }
  }

  lemma ExamineKeeps(g: Adjacency, s: State, v: nat)
    requires Inv(g, s) && s.path != [] && NextIs(g, s, v) && Visited(s, v)
    ensures Inv(g, Examine(s, v))
  {
    hide Stacked, Examined, Linked, LowReached, LowBounds, Collected;
    ExamineRest(g, s, v);
    ExamineLinked(g, s, v);
    ExamineLowReached(g, s, v);
    ExamineLowBounds(g, s, v);
    SameDone(g, s, Examine(s, v));
  }

  // ------------------------------------------------------ leaving the top node

  function Leave(s: State): State
    requires s.path != [] && |s.low| == |s.index|
    requires forall i :: 0 <= i < |s.path| ==> s.path[i] < |s.low|
  {
    var k := |s.path| - 1;
    var u := s.path[k];
    s.(path := s.path[..k],
       low := if k > 0 && s.low[u] < s.low[s.path[k - 1]] then s.low[s.path[k - 1] := s.low[u]] else s.low)
  }

  /** The top node is its own `low`. */
  ghost predicate IsRoot(g: Adjacency, s: State)
    requires Sizes(g, s)
  {
    s.path != [] && s.low[Last(s.path)] == s.index[Last(s.path)]
  }

  ghost predicate MayLeave(g: Adjacency, s: State) {
    Core(g, s) && s.path != [] && s.seen[Last(s.path)] == |g[Last(s.path)]|
  }

  lemma LastIsTop(g: Adjacency, s: State, x: nat)
    requires Core(g, s) && s.path != [] && x in s.path
    ensures s.index[x] <= s.index[Last(s.path)]
    ensures x != Last(s.path) <==> x in s.path[..|s.path| - 1]
    ensures x != Last(s.path) ==> s.index[x] < s.index[Last(s.path)]
  {
    var i :| 0 <= i < |s.path| && s.path[i] == x;
  }

  lemma LeaveExamined(g: Adjacency, s: State)
    requires MayLeave(g, s) && Examined(g, s)
    ensures Core(g, Leave(s)) && Examined(g, Leave(s))
  {
    var t := Leave(s);
    forall x | x in s.path ensures x == Last(s.path) || x in t.path { LastIsTop(g, s, x); }
  }

  lemma NonRootEscapes(g: Adjacency, s: State) returns (w: nat)
    requires Core(g, s) && s.path != [] && !IsRoot(g, s) && Linked(g, s) && LowReached(g, s)
    ensures w in s.path[..|s.path| - 1] && Reaches(g, Last(s.path), w)
    ensures w in s.path && s.index[w] < s.index[Last(s.path)]
  {
    var u := Last(s.path);
    assert u in s.path;
    assert LowAttained(g, s, u);
    var z :| LowTarget(g, s, u, z);
    assert Anchored(g, s, z);
    w :| Anchor(g, s, z, w);
    ReachesTransitive(g, u, z, w);
    LastIsTop(g, s, w);
  }

  lemma LeaveAnchored(g: Adjacency, s: State, w: nat, y: nat)
    requires Core(g, s) && s.path != [] && Anchored(g, s, y)
    requires w in s.path[..|s.path| - 1] && Reaches(g, Last(s.path), w) && s.index[w] < s.index[Last(s.path)]
    ensures Sizes(g, Leave(s)) && Anchored(g, Leave(s), y)
  {
    hide Stacked;
    var u := Last(s.path);
    var x :| Anchor(g, s, y, x);
    LastIsTop(g, s, x);
    if x == u {
      ReachesTransitive(g, y, u, w);
      assert Anchor(g, Leave(s), y, w);
    } else {
      assert Anchor(g, Leave(s), y, x);
    }
  }

  lemma LeaveLinked(g: Adjacency, s: State)
    requires MayLeave(g, s) && !IsRoot(g, s) && Linked(g, s) && LowReached(g, s)
    ensures Sizes(g, Leave(s)) && Linked(g, Leave(s))
  {
    hide Stacked, LowReached, Anchored;
    var t := Leave(s);
    var w := NonRootEscapes(g, s);
    forall x, y | x in t.path && y in t.stack && t.index[x] <= t.index[y] ensures Reaches(g, x, y) {
      assert x in s.path;
    }
    forall y | y in t.stack ensures Anchored(g, t, y) {
      assert Anchored(g, s, y);
      LeaveAnchored(g, s, w, y);
    }
  }

  /** Merging the top frame into the one below it keeps what `low` means there. */
  lemma LeaveLowReached(g: Adjacency, s: State)
    requires MayLeave(g, s) && Linked(g, s) && LowReached(g, s)
    ensures Sizes(g, Leave(s)) && LowReached(g, Leave(s))
  {
    var t := Leave(s);
    var k := |s.path| - 1;
    var u := s.path[k];
    forall x | x in t.path ensures LowAttained(g, t, x) {
      assert x in s.path && u in s.path;
      assert LowAttained(g, s, x) && LowAttained(g, s, u);
      LastIsTop(g, s, x);
      LeaveLowAttained(g, s, x);
    }
  }

  lemma LeaveLowAttained(g: Adjacency, s: State, x: nat)
    requires MayLeave(g, s) && LowAttained(g, s, x) && LowAttained(g, s, Last(s.path))
    requires Leave(s).low[x] != s.low[x] ==> Reaches(g, x, Last(s.path))
    ensures LowAttained(g, Leave(s), x)
  {
    var t, u := Leave(s), Last(s.path);
    if t.low[x] != s.low[x] {
      var z :| LowTarget(g, s, u, z);
      ReachesTransitive(g, x, u, z);
      assert LowTarget(g, t, x, z);
    } else {
      var z :| LowTarget(g, s, x, z);
      assert LowTarget(g, t, x, z);
    }
  }

  lemma LeaveLowBounds(g: Adjacency, s: State)
    requires MayLeave(g, s) && LowBounds(g, s)
    ensures Sizes(g, Leave(s)) && LowBounds(g, Leave(s))
  {
    var t := Leave(s);
    var k := |s.path| - 1;
    forall i: nat, y: nat, j: nat | InFrame(g, t, i, y) && j < t.seen[y] && j < |g[y]| && t.onStack[g[y][j]]
      ensures t.low[t.path[i]] <= t.index[g[y][j]]
    {
      assert t.path[i] == s.path[i];
      if i < k - 1 || s.index[y] < s.index[s.path[k]] {
        assert InFrame(g, s, i, y);
      } else {
        assert InFrame(g, s, k, y);
      }
    }
  }

  /** A top node that reaches below itself stays stacked and passes its `low` to its caller. */
  lemma LeaveKeeps(g: Adjacency, s: State)
    requires Inv(g, s) && MayLeave(g, s) && !IsRoot(g, s)
    ensures Inv(g, Leave(s))
  {
    hide Stacked, Examined, Linked, LowReached, LowBounds, Collected;
    LeaveExamined(g, s);
    LeaveLinked(g, s);
    LeaveLowReached(g, s);
    LeaveLowBounds(g, s);
    SameDone(g, s, Leave(s));
  }

  // -------------------------------------------------------- closing a component

  /** Everything from stack position `m` upwards is taken off as one component. */
  function Collect(s: State, m: nat): State
    requires m <= |s.stack|
  {
    s.(stack := s.stack[..m],
       onStack := seq(|s.onStack|, v requires 0 <= v < |s.onStack| => s.onStack[v] && v !in s.stack[m..]),
       components := s.components + [Sort(s.stack[m..], LeNat)])
  }

  ghost predicate MayCollect(g: Adjacency, s: State, m: nat) {
    && MayLeave(g, s)
    && m < |s.stack| && s.stack[m] == Last(s.path)
  }

  lemma AboveIsSuffix(g: Adjacency, s: State, m: nat, y: nat)
    requires Core(g, s) && m < |s.stack| && y in s.stack
    ensures y in s.stack[m..] <==> s.index[s.stack[m]] <= s.index[y]
    ensures y in s.stack[..m] <==> s.index[y] < s.index[s.stack[m]]
  {
    var i :| 0 <= i < |s.stack| && s.stack[i] == y;
    if i >= m {
      assert s.stack[m..][i - m] == y;
    } else {
      assert s.stack[..m][i] == y;
    }
  }

  /** Edges from the top part lead back into it or to finished components. */
  lemma TopPartEdges(g: Adjacency, s: State, m: nat, x: nat, y: nat)
    requires MayCollect(g, s, m) && IsRoot(g, s) && Examined(g, s) && LowBounds(g, s)
    requires x < |g| && Edge(g, x, y)
    requires x in s.stack[m..] || Done(s, x)
    ensures y < |g| && (y in s.stack[m..] || Done(s, y))
  {
    var u := Last(s.path);
    var j :| 0 <= j < |g[x]| && g[x][j] == y;
    if !Done(s, x) {
      assert x in s.stack;
      AboveIsSuffix(g, s, m, x);
      if x in s.path {
        LastIsTop(g, s, x);
        assert s.index[x] == s.index[u];
        SameIndex(g, s, x, u);
      }
      assert s.seen[x] == |g[x]|;
      assert Visited(s, y);
      if s.onStack[y] {
        assert InFrame(g, s, |s.path| - 1, x);
        AboveIsSuffix(g, s, m, y);
      }
    }
  }

  lemma SameIndex(g: Adjacency, s: State, x: nat, y: nat)
    requires Core(g, s) && x in s.stack && y in s.stack && s.index[x] == s.index[y]
    ensures x == y
  {
    var i :| 0 <= i < |s.stack| && s.stack[i] == x;
    var j :| 0 <= j < |s.stack| && s.stack[j] == y;
    assert i >= j && j >= i;
  }

  lemma TopPartReach(g: Adjacency, s: State, m: nat, x: nat, y: nat)
    requires MayCollect(g, s, m) && IsRoot(g, s) && Examined(g, s) && LowBounds(g, s)
    requires x in s.stack[m..] && Reaches(g, x, y)
    ensures y < |g| && (y in s.stack[m..] || Done(s, y))
  {
    var region := set v | 0 <= v < |g| && (v in s.stack[m..] || Done(s, v));
    forall a, b | a in region && Edge(g, a, b) ensures b in region {
      TopPartEdges(g, s, m, a, b);
    }
    assert x in s.stack;
    ReachStaysIn(g, region, x, y);
  }

  lemma DoneReach(g: Adjacency, s: State, x: nat, y: nat)
    requires Core(g, s) && Examined(g, s) && x < |g| && Done(s, x) && Reaches(g, x, y)
    ensures y < |g| && Done(s, y)
  {
    var region := set v | 0 <= v < |g| && Done(s, v);
    forall a, b | a in region && Edge(g, a, b) ensures b in region {
      var j :| 0 <= j < |g[a]| && g[a][j] == b;
    }
    ReachStaysIn(g, region, x, y);
  }

  /** Every node of the top part reaches the node being left, and is reached by it. */
  lemma TopPartMutual(g: Adjacency, s: State, m: nat, y: nat)
    requires MayCollect(g, s, m) && IsRoot(g, s) && Examined(g, s) && LowBounds(g, s) && Linked(g, s)
    requires y in s.stack[m..]
    ensures Mutual(g, Last(s.path), y)
  {
    var u := Last(s.path);
    assert u in s.path && y in s.stack;
    AboveIsSuffix(g, s, m, y);
    assert Reaches(g, u, y);
    assert Anchored(g, s, y);
    var x :| Anchor(g, s, y, x);
    TopPartReach(g, s, m, y, x);
    assert x in s.stack;
    AboveIsSuffix(g, s, m, x);
    LastIsTop(g, s, x);
  }

  lemma TopPartIsClass(g: Adjacency, s: State, m: nat, a: nat, b: nat)
    requires MayCollect(g, s, m) && IsRoot(g, s) && Examined(g, s) && LowBounds(g, s) && Linked(g, s)
    requires a in s.stack[m..]
    ensures b in s.stack[m..] <==> Mutual(g, a, b)
  {
    TopPartMutual(g, s, m, a);
    if b in s.stack[m..] {
      TopPartMutual(g, s, m, b);
      ReachesTransitive(g, a, Last(s.path), b);
      ReachesTransitive(g, b, Last(s.path), a);
    }
    if Mutual(g, a, b) {
      TopPartReach(g, s, m, a, b);
      if Done(s, b) {
        DoneReach(g, s, b, a);
        assert a in s.stack;
      }
    }
  }

  lemma TopPartIsComponent(g: Adjacency, s: State, m: nat)
    requires MayCollect(g, s, m) && IsRoot(g, s) && Examined(g, s) && LowBounds(g, s) && Linked(g, s)
    ensures IsComponent(g, Sort(s.stack[m..], LeNat))
    ensures forall v :: v in Sort(s.stack[m..], LeNat) <==> v in s.stack[m..]
  {
    hide Examined, LowBounds, Linked, Done;
    var part := s.stack[m..];
    assert NoDuplicates(part);
    SortDistinctNats(part);
    assert part[0] in part;
    forall a, b | a in part ensures b in part <==> Mutual(g, a, b) {
      TopPartIsClass(g, s, m, a, b);
    }
  }

  lemma CollectStacked(g: Adjacency, s: State, m: nat)
    requires MayCollect(g, s, m)
    ensures var t := Collect(Leave(s), m); Core(g, t)
    ensures var t := Collect(Leave(s), m);
      forall v :: 0 <= v < |g| ==> (Done(t, v) <==> Done(s, v) || v in s.stack[m..])
  {
    var t := Collect(Leave(s), m);
    forall v | 0 <= v < |g| ensures t.onStack[v] <==> v in t.stack {
      if v in s.stack {
        AboveIsSuffix(g, s, m, v);
      }
    }
    forall x | x in t.path ensures x in t.stack {
      assert x in s.path;
      LastIsTop(g, s, x);
      var i :| 0 <= i < |t.path| && t.path[i] == x;
      assert s.index[s.path[i]] < s.index[s.path[|s.path| - 1]];
      AboveIsSuffix(g, s, m, x);
    }
  }

  lemma CollectExamined(g: Adjacency, s: State, m: nat)
    requires MayCollect(g, s, m) && IsRoot(g, s) && Examined(g, s) && LowBounds(g, s)
    ensures var t := Collect(Leave(s), m); Sizes(g, t) && Examined(g, t)
  {
    CollectStacked(g, s, m);
    forall x | x in s.path ensures x == Last(s.path) || x in Leave(s).path { LastIsTop(g, s, x); }
    CollectDone(g, s, m);
    hide MayCollect, Core, LowBounds, IsRoot, Done;
  }

  lemma CollectDone(g: Adjacency, s: State, m: nat)
    requires MayCollect(g, s, m) && IsRoot(g, s) && Examined(g, s) && LowBounds(g, s)
    ensures var t := Collect(Leave(s), m);
      Sizes(g, t) && forall v, j :: 0 <= v < |g| && Done(t, v) && 0 <= j < |g[v]| ==> Done(t, g[v][j])
  {
    var t := Collect(Leave(s), m);
    CollectStacked(g, s, m);
    hide Examined, LowBounds, Done;
    forall v, j | 0 <= v < |g| && Done(t, v) && 0 <= j < |g[v]| ensures Done(t, g[v][j]) {
      TopPartEdges(g, s, m, v, g[v][j]);
    }
  }

  lemma CollectLinked(g: Adjacency, s: State, m: nat)
    requires MayCollect(g, s, m) && Linked(g, s)
    ensures var t := Collect(Leave(s), m); Sizes(g, t) && Linked(g, t)
  {
    var t := Collect(Leave(s), m);
    CollectStacked(g, s, m);
    forall y | y in t.stack ensures Anchored(g, t, y) {
      assert y in s.stack;
      assert Anchored(g, s, y);
      var x :| Anchor(g, s, y, x);
      AboveIsSuffix(g, s, m, y);
      LastIsTop(g, s, x);
      assert Anchor(g, t, y, x);
    }
  }

  lemma CollectLowReached(g: Adjacency, s: State, m: nat)
    requires MayCollect(g, s, m) && Linked(g, s) && LowReached(g, s)
    ensures var t := Collect(Leave(s), m); Sizes(g, t) && LowReached(g, t)
  {
    var r := Leave(s);
    var t := Collect(r, m);
    CollectStacked(g, s, m);
    LeaveLowReached(g, s);
    forall x | x in t.path ensures LowAttained(g, t, x) {
      assert LowAttained(g, r, x);
      var z: nat :| LowTarget(g, r, x, z);
      assert x in s.path;
      LastIsTop(g, s, x);
      assert s.index[z] < s.index[s.stack[m]];
      AboveIsSuffix(g, s, m, z);
      assert LowTarget(g, t, x, z);
    }
  }

  lemma CollectLowBounds(g: Adjacency, s: State, m: nat)
    requires MayCollect(g, s, m) && LowBounds(g, s)
    ensures var t := Collect(Leave(s), m); Sizes(g, t) && LowBounds(g, t)
  {
    var r := Leave(s);
    var t := Collect(r, m);
    CollectStacked(g, s, m);
    LeaveLowBounds(g, s);
    forall i: nat, y: nat, j: nat | InFrame(g, t, i, y) && j < t.seen[y] && j < |g[y]| && t.onStack[g[y][j]]
      ensures t.low[t.path[i]] <= t.index[g[y][j]]
    {
      assert InFrame(g, r, i, y);
    }
  }

  lemma CollectCollected(g: Adjacency, s: State, m: nat)
    requires MayCollect(g, s, m) && Collected(g, s)
    requires IsComponent(g, Sort(s.stack[m..], LeNat))
    requires forall v :: v in Sort(s.stack[m..], LeNat) <==> v in s.stack[m..]
    ensures var t := Collect(Leave(s), m); Sizes(g, t) && Collected(g, t)
  {
    var t := Collect(Leave(s), m);
    CollectStacked(g, s, m);
    forall v | v in s.stack[m..] ensures v in s.stack && v < |g| && !Done(s, v) { }
    AppendCollected(g, s, t, Sort(s.stack[m..], LeNat));
  }

  lemma AppendCollected(g: Adjacency, s: State, t: State, c: seq<nat>)
    requires Sizes(g, s) && Sizes(g, t) && Collected(g, s) && t.components == s.components + [c]
    requires IsComponent(g, c)
    requires forall v :: v in c ==> v < |g| && !Done(s, v)
    requires forall v :: 0 <= v < |g| ==> (Done(t, v) <==> Done(s, v) || v in c)
    ensures Collected(g, t)
  {
    var n := |s.components|;
    assert forall i :: 0 <= i < |t.components| ==> t.components[i] == if i < n then s.components[i] else c;
    forall i, v: nat | 0 <= i < |t.components| && v in t.components[i] ensures v < |g| && Done(t, v) {
      if i < n {
        assert v in s.components[i];
        assert v < |g|;
        assert Done(s, v);
      } else {
        assert v in c;
      }
    }
    forall v | 0 <= v < |g| && Done(t, v) ensures exists i :: 0 <= i < |t.components| && v in t.components[i] {
      if Done(s, v) {
        var i :| 0 <= i < n && v in s.components[i];
        assert v in t.components[i];
      } else {
        assert v in t.components[n];
      }
    }
  }

  /** A top node that is its own `low` closes a component: the stack from it upwards. */
  lemma CollectKeeps(g: Adjacency, s: State, m: nat)
    requires Inv(g, s) && MayCollect(g, s, m) && IsRoot(g, s)
    ensures Inv(g, Collect(Leave(s), m))
  {
    hide Stacked, Examined, Linked, LowReached, LowBounds, Collected, IsComponent, IsRoot;
    CollectStacked(g, s, m);
    CollectExamined(g, s, m);
    CollectLinked(g, s, m);
    CollectLowReached(g, s, m);
    CollectLowBounds(g, s, m);
    TopPartIsComponent(g, s, m);
    CollectCollected(g, s, m);
  }
}
