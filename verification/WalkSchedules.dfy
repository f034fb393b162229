/** The sequential walk; that every schedule of the parallel walk ends; and schedules that hold some files
    back while the walk goes on. */
module WalkSchedules {
  import opened Basics
  import opened Wrappers
  import opened Text
  import opened Sorting
  import opened Walk
  import opened WalkRuns

  /** The entries visited before the first file over the limit. */
  function Within(entries: seq<Entry>, room: nat): seq<Entry> {
    if entries == [] then []
    else if entries[0].File? then (if room == 0 then [] else [entries[0]] + Within(entries[1..], room - 1))
    else [entries[0]] + Within(entries[1..], room)
  }

  lemma {:induction false} WithinAll(entries: seq<Entry>, room: nat)
    ensures Within(entries, room) <= entries
    ensures Within(entries, room) == entries <==> FileCount(entries) <= room
  {
    if entries != [] {
      assert entries == [entries[0]] + entries[1..];
      FileCountConcat([entries[0]], entries[1..]);
      OneMore([], entries[0]);
      assert [] + [entries[0]] == [entries[0]];
      if !entries[0].File? {
        WithinAll(entries[1..], room);
      } else if room > 0 {
        WithinAll(entries[1..], room - 1);
      }
    }
  }

  /** They end before the file that finds as many files before it as the limit allows. */
  lemma {:induction false} WithinCut(entries: seq<Entry>, room: nat, n: nat)
    requires n < |entries| && entries[n].File? && FileCount(entries[..n]) == room
    ensures Within(entries, room) == entries[..n]
  {
    if n == 0 {
      assert entries[..0] == [];
    } else {
      assert entries[..n] == [entries[0]] + entries[1..][..n - 1];
      FileCountConcat([entries[0]], entries[1..][..n - 1]);
      OneMore([], entries[0]);
      assert [] + [entries[0]] == [entries[0]];
      hide FileCount;
      WithinCut(entries[1..], if entries[0].File? then room - 1 else room, n - 1);
    }
  }

  /** Where the walk is cut off. */
  lemma {:induction false} CutAt(entries: seq<Entry>, room: nat) returns (n: nat)
    requires FileCount(entries) > room
    ensures n < |entries| && entries[n].File? && FileCount(entries[..n]) == room
    ensures Within(entries, room) == entries[..n]
  {
    var last := |entries| - 1;
    assert entries == entries[..last] + [entries[last]];
    OneMore(entries[..last], entries[last]);
    if FileCount(entries[..last]) > room {
      n := CutAt(entries[..last], room);
      assert entries[..last][..n] == entries[..n];
    } else {
      n := last;
    }
    WithinCut(entries, room, n);
  }

  // ------------------------------------------------------------- the sequential walk

  datatype DiscoveryError = Cancelled

  class Collector {
    const maxFiles: nat
    var count: nat
    var truncated: bool
    var symlinks: nat
    var files: seq<DiscoveredFile>
    var errors: seq<string>

    constructor (maxFiles: nat)
      ensures this.maxFiles == maxFiles && Amounts([])
    {
      this.maxFiles := maxFiles;
      count, truncated, symlinks, files, errors := 0, false, 0, [], [];
    }

    /** The fields are what the entries amount to. */
    ghost predicate Amounts(entries: seq<Entry>)
      reads this
    {
      && files == Recorded(entries) && errors == Messages(entries) && symlinks == Links(entries)
      && count == FileCount(entries) && !truncated
    }

    /** Takes in one entry; false once the walk has to stop. */
    method Visit(entry: Entry, cancelled: bool, ghost entries: seq<Entry>) returns (goOn: bool)
      requires Amounts(entries)
      modifies this
      ensures goOn <==> !cancelled && !(entry.File? && FileCount(entries) >= maxFiles)
      ensures goOn ==> Amounts(entries + [entry])
      ensures !goOn ==> files == old(files) && errors == old(errors) && symlinks == old(symlinks)
      ensures !goOn ==> truncated == !cancelled
    {
      if cancelled {
        return false;
      }
      OneMore(entries, entry);
      match entry {
      case Failure(message) => errors := errors + [message];
      case Untyped =>
      case Symlink => symlinks := symlinks + 1;
      case Other =>
      case File(record) =>
        count := count + 1;
        if count - 1 >= maxFiles {
          truncated := true;
          return false;
        }
        if record.Some? {
          files := files + [record.value];
        }
      }
      return true;
    }
  }

  /** The first `i` entries are visited, and the rest of the visits start there. */
  ghost predicate UpTo(maxFiles: nat, entries: seq<Entry>, i: nat)
    requires i <= |entries|
  {
    && FileCount(entries[..i]) <= maxFiles
    && Within(entries, maxFiles) == entries[..i] + Within(entries[i..], maxFiles - FileCount(entries[..i]))
  }

  lemma NoneVisited(maxFiles: nat, entries: seq<Entry>)
    ensures UpTo(maxFiles, entries, 0)
  {
    assert entries[..0] == [] && entries[0..] == entries;
  }

  lemma WithinNext(seen: seq<Entry>, rest: seq<Entry>, room: nat)
    requires rest != []
    ensures rest[0].File? && room == 0 ==> seen + Within(rest, room) == seen
    ensures rest[0].File? && room > 0 ==> seen + Within(rest, room) == seen + [rest[0]] + Within(rest[1..], room - 1)
    ensures !rest[0].File? ==> seen + Within(rest, room) == seen + [rest[0]] + Within(rest[1..], room)
  {
    if !rest[0].File? {
      Regroup(seen, [rest[0]], Within(rest[1..], room));
    } else if room > 0 {
      Regroup(seen, [rest[0]], Within(rest[1..], room - 1));
    } else {
      NothingAfter(seen);
    }
  }

  lemma VisitNext(maxFiles: nat, entries: seq<Entry>, i: nat)
    requires i < |entries| && UpTo(maxFiles, entries, i)
    ensures if entries[i].File? && FileCount(entries[..i]) >= maxFiles
      then Within(entries, maxFiles) == entries[..i] && FileCount(entries) > maxFiles
      else UpTo(maxFiles, entries, i + 1)
  {
    hide FileCount;
    FileNext(entries, i);
    assert entries[..i + 1] == entries[..i] + [entries[i]];
    assert entries[i..][1..] == entries[i + 1..];
    WithinNext(entries[..i], entries[i..], maxFiles - FileCount(entries[..i]));
    if entries[i].File? && FileCount(entries[..i]) >= maxFiles {
      WithinAll(entries, maxFiles);
      assert |entries[..i]| != |entries|;
    }
  }

  lemma AllVisited(maxFiles: nat, entries: seq<Entry>)
    requires UpTo(maxFiles, entries, |entries|)
    ensures Within(entries, maxFiles) == entries[..|entries|] && FileCount(entries) <= maxFiles
  {
    assert entries[..|entries|] == entries && entries[|entries|..] == [];
  }

  /** Visits the entries until a visit says to stop. */
  method VisitAll(collector: Collector, entries: seq<Entry>, cancelAt: Option<nat>)
    requires collector.Amounts([])
    modifies collector
    ensures cancelAt.None? ==> var seen := Within(entries, collector.maxFiles);
      && collector.files == Recorded(seen) && collector.errors == Messages(seen) && collector.symlinks == Links(seen)
      && (collector.truncated <==> FileCount(entries) > collector.maxFiles)
  {
    var maxFiles := collector.maxFiles;
    NoneVisited(maxFiles, entries);
    var i := 0;
    assert entries[..0] == [];
    hide UpTo, Within, Recorded, Messages, Links, FileCount;
    while i < |entries|
      invariant i <= |entries|
      invariant collector.Amounts(entries[..i]) && UpTo(maxFiles, entries, i)
    {
      VisitNext(maxFiles, entries, i);
      assert entries[..i + 1] == entries[..i] + [entries[i]];
      var goOn := collector.Visit(entries[i], cancelAt.Some? && cancelAt.value <= i, entries[..i]);
      if !goOn {
        return;
      }
      i := i + 1;
    }
    AllVisited(maxFiles, entries);
  }

  /** The walk with one thread; the token is cancelled from the given visit on, if at all. */
  method Discover(maxFiles: nat, entries: seq<Entry>, cancelAt: Option<nat>)
    returns (r: Result<Discovery, DiscoveryError>)
    ensures r == if cancelAt.Some? then Err(Cancelled) else Ok(Sequential(maxFiles, entries))
  {
    var collector := new Collector(maxFiles);
    VisitAll(collector, entries, cancelAt);
    if cancelAt.Some? {
      return Err(Cancelled);
    }
    r := Ok(Finish(maxFiles, collector.files, collector.symlinks, collector.truncated, collector.errors));
  }

  /** The result of the entries before the first file over the limit. */
  function Sequential(maxFiles: nat, entries: seq<Entry>): Discovery {
    var seen := Within(entries, maxFiles);
    Finish(maxFiles, Recorded(seen), Links(seen), FileCount(entries) > maxFiles, Messages(seen))
  }

  ghost predicate Ascending(files: seq<DiscoveredFile>) {
    forall i, j :: 0 <= i < j < |files| ==> LeText(files[i].path, files[j].path)
  }

  /** The result lists the files recorded before the limit in the order of their paths, and the messages in
      order. */
  lemma SequentialResult(maxFiles: nat, entries: seq<Entry>)
    ensures var r, seen := Sequential(maxFiles, entries), Within(entries, maxFiles);
      && Ascending(r.files) && multiset(r.files) == multiset(Recorded(seen))
      && (forall i, j :: 0 <= i < j < |r.errors| ==> LeText(r.errors[i], r.errors[j]))
      && multiset(r.errors) == multiset(Messages(seen))
      && r.symlinks == Links(seen) && (r.truncated <==> FileCount(entries) > maxFiles)
  {
    var seen := Within(entries, maxFiles);
    FileOrder();
    SortSorted(Recorded(seen), LeFile);
    SortSorted(Messages(seen), LeMessage);
    WithinFits(entries, maxFiles);
    FewerRecords(seen);
    SameMembers(Recorded(seen), Sort(Recorded(seen), LeFile));
    hide Recorded, Messages, Links, Within, FileCount, Sort;
  }

  lemma {:induction false} WithinFits(entries: seq<Entry>, room: nat)
    ensures FileCount(Within(entries, room)) <= room
  {
    if FileCount(entries) <= room {
      WithinAll(entries, room);
    } else {
      var n := CutAt(entries, room);
    }
  }

  /** Within the limit, every completed run of any number of threads gives the sequential result. */
  lemma ParallelIsSequential(maxFiles: nat, entries: seq<Entry>, threads: nat, s: State)
    requires Finals(maxFiles, entries, threads, s) && !s.truncated && DistinctFiles(entries)
    ensures Outcome(maxFiles, s) == Sequential(maxFiles, entries)
  {
    TruncatedIff(maxFiles, entries, threads, s);
    WithinAll(entries, maxFiles);
    SameResult(maxFiles, entries, entries, threads, s);
  }

  // ---------------------------------------------------------------- chosen schedules

  /** Some run from the start ends in the state. */
  ghost predicate Reached(maxFiles: nat, entries: seq<Entry>, threads: nat, s: State) {
    exists moves {:trigger Runs(maxFiles, Start(entries, threads), moves)} ::
      Runs(maxFiles, Start(entries, threads), moves) && Run(maxFiles, Start(entries, threads), moves) == s
  }

  /** A completed run that was not cancelled ends in the state. */
  ghost predicate IsOutcome(maxFiles: nat, entries: seq<Entry>, threads: nat, s: State) {
    Reached(maxFiles, entries, threads, s) && Finals(maxFiles, entries, threads, s)
  }

  lemma {:induction false} RunConcat(maxFiles: nat, s: State, a: seq<Move>, b: seq<Move>)
    requires Runs(maxFiles, s, a) && Runs(maxFiles, Run(maxFiles, s, a), b)
    ensures Runs(maxFiles, s, a + b) && Run(maxFiles, s, a + b) == Run(maxFiles, Run(maxFiles, s, a), b)
    decreases |a|
  {
    hide Step, Enabled;
    if a == [] {
      assert a + b == b;
    } else {
      RunConcat(maxFiles, Step(maxFiles, s, a[0]), a[1..], b);
      assert (a + b)[0] == a[0] && (a + b)[1..] == a[1..] + b;
    }
  }

  lemma RunOne(maxFiles: nat, s: State, m: Move)
    requires Enabled(s, m)
    ensures Runs(maxFiles, s, [m]) && Run(maxFiles, s, [m]) == Step(maxFiles, s, m)
  {
    assert [m][1..] == [];
  }

  lemma ReachedOn(maxFiles: nat, entries: seq<Entry>, threads: nat, s: State, moves: seq<Move>)
    requires Reached(maxFiles, entries, threads, s) && Runs(maxFiles, s, moves)
    ensures Reached(maxFiles, entries, threads, Run(maxFiles, s, moves))
  {
    hide Runs, Run;
    var before :| Runs(maxFiles, Start(entries, threads), before)
      && Run(maxFiles, Start(entries, threads), before) == s;
    RunConcat(maxFiles, Start(entries, threads), before, moves);
  }

  lemma ReachedStep(maxFiles: nat, entries: seq<Entry>, threads: nat, s: State, m: Move)
    requires Reached(maxFiles, entries, threads, s) && Enabled(s, m)
    ensures Reached(maxFiles, entries, threads, Step(maxFiles, s, m))
  {
    RunOne(maxFiles, s, m);
    ReachedOn(maxFiles, entries, threads, s, [m]);
  }

  // ---------------------------------------------------------------- every schedule ends

  function Weight(t: Thread): nat {
    match t
    case Holding(_) => 4
    case Admitted(_) => 3
    case Ticketed(_) => 2
    case Over(_) => 2
    case Idle => 1
    case Stopped => 0
  }

  function Weights(ts: seq<Thread>): nat {
    if ts == [] then 0 else Weight(ts[0]) + Weights(ts[1..])
  }

  lemma {:induction false} SetWeight(ts: seq<Thread>, i: nat, t: Thread)
    requires i < |ts|
    ensures Weights(ts[i := t]) + Weight(ts[i]) == Weights(ts) + Weight(t)
  {
    if i == 0 {
      assert ts[0 := t][1..] == ts[1..];
    } else {
      SetWeight(ts[1..], i - 1, t);
      assert ts[i := t][1..] == ts[1..][i - 1 := t];
    }
  }

  /** A bound on the moves still to come. */
  function Work(s: State): nat {
    5 * |s.pending| + Weights(s.threads)
  }

  lemma MoveWorks(s: State, i: nat, t: Thread, r: State)
    requires i < |s.threads| && r.threads == s.threads[i := t]
    requires 5 * |r.pending| + Weight(t) < 5 * |s.pending| + Weight(s.threads[i])
    ensures Work(r) < Work(s)
  {
    SetWeight(s.threads, i, t);
  }

  lemma StepWorks(maxFiles: nat, s: State, m: Move)
    requires Enabled(s, m) && m != Cancel
    ensures Work(Step(maxFiles, s, m)) < Work(s)
  {
    hide Work, Inspect;
    var r := Step(maxFiles, s, m);
    match m
    case Take(i) => MoveWorks(s, i, Holding(s.pending[0]), r);
    case Notice(i) => MoveWorks(s, i, Stopped, r);
    case Advance(i) =>
      match s.threads[i]
      case Holding(e) => MoveWorks(s, i, if s.cancelled then Stopped else Admitted(e), r);
      case Admitted(e) =>
        InspectEffect(maxFiles, s, i, e);
        MoveWorks(s, i, Next(maxFiles, s, e), r);
      case Ticketed(e) => MoveWorks(s, i, Idle, r);
      case Over(e) => MoveWorks(s, i, Stopped, r);
  }

  /** The moves that are not cancellations. */
  function Moved(moves: seq<Move>): nat {
    if moves == [] then 0 else (if moves[0] == Cancel then 0 else 1) + Moved(moves[1..])
  }

  lemma {:induction false} RunWorks(maxFiles: nat, s: State, moves: seq<Move>)
    requires Runs(maxFiles, s, moves)
    ensures Moved(moves) + Work(Run(maxFiles, s, moves)) <= Work(s)
    decreases |moves|
  {
    hide Step, Work;
    if moves != [] {
      if moves[0] == Cancel {
        CancelWorks(maxFiles, s);
      } else {
        StepWorks(maxFiles, s, moves[0]);
      }
      RunWorks(maxFiles, Step(maxFiles, s, moves[0]), moves[1..]);
    }
  }

  lemma CancelWorks(maxFiles: nat, s: State)
    ensures Work(Step(maxFiles, s, Cancel)) == Work(s)
  {
  }

  lemma {:induction false} IdleWeights(ts: seq<Thread>)
    requires forall i :: 0 <= i < |ts| ==> ts[i] == Idle
    ensures Weights(ts) == |ts|
  {
    if ts != [] {
      IdleWeights(ts[1..]);
    }
  }

  /** However it is scheduled, a walk ends: no run has more than five moves for every entry and one more for
      every thread, apart from cancellations; and as long as it has not completed, some thread can move. */
  lemma EveryRunEnds(maxFiles: nat, entries: seq<Entry>, threads: nat, moves: seq<Move>)
    requires Runs(maxFiles, Start(entries, threads), moves)
    ensures Moved(moves) <= 5 * |entries| + threads
    ensures var s := Run(maxFiles, Start(entries, threads), moves);
      Completed(s) || exists m {:trigger Enabled(s, m)} :: m != Cancel && Enabled(s, m)
  {
    RunWorks(maxFiles, Start(entries, threads), moves);
    IdleWeights(Start(entries, threads).threads);
    var s := Run(maxFiles, Start(entries, threads), moves);
    if !Completed(s) {
      var m := SomeMove(s);
    }
  }

  lemma SomeMove(s: State) returns (m: Move)
    requires !Completed(s)
    ensures m != Cancel && Enabled(s, m)
  {
    if Resting(s.threads) {
      var i :| 0 <= i < |s.threads| && s.threads[i] != Stopped;
      m := Take(i);
    } else {
      var i :| 0 <= i < |s.threads| && !(s.threads[i] == Idle || s.threads[i] == Stopped);
      m := Advance(i);
    }
  }

  /** No ticket below the limit is left, and none is out. */
  ghost predicate Full(maxFiles: nat, s: State) {
    s.count >= maxFiles && forall i :: 0 <= i < |s.threads| ==> !s.threads[i].Ticketed?
  }

  /** What is visited stays so, and once the limit is used up no more files are recorded. */
  ghost predicate Follows(maxFiles: nat, s: State, r: State) {
    && s.done <= r.done && r.cancelled == s.cancelled
    && (Full(maxFiles, s) ==> Full(maxFiles, r) && r.files == s.files)
  }

  lemma InspectFollows(maxFiles: nat, s: State, i: nat, e: Entry)
    requires i < |s.threads|
    ensures Follows(maxFiles, s, Inspect(maxFiles, s, i, e))
  {
    InspectEffect(maxFiles, s, i, e);
    assert Inspect(maxFiles, s, i, e).files == s.files;
  }

  lemma StepFollows(maxFiles: nat, s: State, m: Move)
    requires Enabled(s, m) && m != Cancel
    ensures Follows(maxFiles, s, Step(maxFiles, s, m))
  {
    match m
    case Take(i) =>
    case Notice(i) =>
    case Advance(i) =>
      match s.threads[i]
      case Holding(e) =>
      case Admitted(e) => InspectFollows(maxFiles, s, i, e);
      case Ticketed(e) =>
      case Over(e) =>
  }

  lemma FollowsOn(maxFiles: nat, s: State, t: State, r: State)
    requires Follows(maxFiles, s, t) && Follows(maxFiles, t, r)
    ensures Follows(maxFiles, s, r)
  {
  }

  /** From every state that is not cancelled the walk can be completed. */
  lemma {:induction false} CompleteFrom(maxFiles: nat, entries: seq<Entry>, threads: nat, s: State) returns (r: State)
    requires Reached(maxFiles, entries, threads, s) && !s.cancelled
    ensures Reached(maxFiles, entries, threads, r) && Completed(r) && Follows(maxFiles, s, r)
    decreases Work(s)
  {
    hide Reached, Completed, Step, Enabled, Work;
    if Completed(s) {
      r := s;
    } else {
      var m := SomeMove(s);
      StepWorks(maxFiles, s, m);
      StepFollows(maxFiles, s, m);
      ReachedStep(maxFiles, entries, threads, s, m);
      r := CompleteFrom(maxFiles, entries, threads, Step(maxFiles, s, m));
      FollowsOn(maxFiles, s, Step(maxFiles, s, m), r);
    }
  }

  lemma OutcomeFrom(maxFiles: nat, entries: seq<Entry>, threads: nat, s: State) returns (r: State)
    requires threads > 0 && Reached(maxFiles, entries, threads, s) && !s.cancelled
    ensures IsOutcome(maxFiles, entries, threads, r) && Follows(maxFiles, s, r)
  {
    r := CompleteFrom(maxFiles, entries, threads, s);
    IsFinal(maxFiles, entries, threads, r);
  }

  lemma IsFinal(maxFiles: nat, entries: seq<Entry>, threads: nat, s: State)
    requires threads > 0 && Reached(maxFiles, entries, threads, s) && Completed(s) && !s.cancelled
    ensures IsOutcome(maxFiles, entries, threads, s)
  {
    hide Runs, Run, Completed, Finals;
    var moves :| Runs(maxFiles, Start(entries, threads), moves) && Run(maxFiles, Start(entries, threads), moves) == s;
    RunsAreFinal(maxFiles, entries, threads, moves);
  }
}
