/** What cancelling does to a walk with any number of threads. */
module WalkCancellation {
  import opened Walk

  /** A thread that has passed the check for cancellation and has not finished its visit. */
  function IsInside(t: Thread): nat {
    if t.Admitted? || t.Ticketed? || t.Over? then 1 else 0
  }

  ghost function Inside(ts: seq<Thread>): nat {
    if ts == [] then 0 else IsInside(ts[0]) + Inside(ts[1..])
  }

  lemma {:induction false} SetInside(ts: seq<Thread>, i: nat, t: Thread)
    requires i < |ts|
    ensures Inside(ts[i := t]) + IsInside(ts[i]) == Inside(ts) + IsInside(t)
  {
    if i == 0 {
      assert ts[0 := t][1..] == ts[1..];
    } else {
      SetInside(ts[1..], i - 1, t);
      assert ts[i := t][1..] == ts[1..][i - 1 := t];
    }
  }

  lemma {:induction false} InsideAtMost(ts: seq<Thread>)
    ensures Inside(ts) <= |ts|
    ensures Resting(ts) ==> Inside(ts) == 0
  {
    if ts != [] {
      InsideAtMost(ts[1..]);
      assert Resting(ts) ==> ts[0] == Idle || ts[0] == Stopped;
    }
  }

  /** The entries that have passed the check for cancellation so far. */
  ghost function Passed(s: State): nat {
    |s.done| + |s.over| + Inside(s.threads)
  }

  lemma StepPasses(maxFiles: nat, s: State, m: Move)
    requires Enabled(s, m) && s.cancelled
    ensures Step(maxFiles, s, m).cancelled && Passed(Step(maxFiles, s, m)) == Passed(s)
  {
    hide Inside, Inspect, Record, GiveUp, Admit;
    match m
    case Cancel =>
    case Take(i) => SetInside(s.threads, i, Holding(s.pending[0]));
    case Notice(i) => SetInside(s.threads, i, Stopped);
    case Advance(i) =>
      match s.threads[i]
      case Holding(e) => AdmitPasses(s, i, e);
      case Admitted(e) => InspectPasses(maxFiles, s, i, e);
      case Ticketed(e) => RecordPasses(s, i, e);
      case Over(e) => GiveUpPasses(s, i, e);
  }

  lemma AdmitPasses(s: State, i: nat, e: Entry)
    requires i < |s.threads| && s.threads[i] == Holding(e) && s.cancelled
    ensures Admit(s, i, e).cancelled && Passed(Admit(s, i, e)) == Passed(s)
  {
    SetInside(s.threads, i, Stopped);
  }

  lemma InspectPasses(maxFiles: nat, s: State, i: nat, e: Entry)
    requires i < |s.threads| && s.threads[i] == Admitted(e) && s.cancelled
    ensures Inspect(maxFiles, s, i, e).cancelled && Passed(Inspect(maxFiles, s, i, e)) == Passed(s)
  {
    InspectEffect(maxFiles, s, i, e);
    SetInside(s.threads, i, Next(maxFiles, s, e));
  }

  lemma RecordPasses(s: State, i: nat, e: Entry)
    requires i < |s.threads| && s.threads[i] == Ticketed(e) && s.cancelled
    ensures Record(s, i, e).cancelled && Passed(Record(s, i, e)) == Passed(s)
  {
    SetInside(s.threads, i, Idle);
  }

  lemma GiveUpPasses(s: State, i: nat, e: Entry)
    requires i < |s.threads| && s.threads[i] == Over(e) && s.cancelled
    ensures GiveUp(s, i, e).cancelled && Passed(GiveUp(s, i, e)) == Passed(s)
  {
    SetInside(s.threads, i, Stopped);
  }

  /** Once the walk is cancelled no thread starts on another entry: only the visits under way at that moment, at
      most one per thread, are finished. */
  lemma {:induction false} CancelStops(maxFiles: nat, s: State, moves: seq<Move>)
    requires s.cancelled && Runs(maxFiles, s, moves)
    ensures var r := Run(maxFiles, s, moves);
      && r.cancelled && Passed(r) == Passed(s)
      && (Resting(r.threads) ==> |r.done| + |r.over| == Passed(s) <= |s.done| + |s.over| + |s.threads|)
    decreases |moves|
  {
    InsideAtMost(s.threads);
    if moves == [] {
    } else {
      StepPasses(maxFiles, s, moves[0]);
      CancelStops(maxFiles, Step(maxFiles, s, moves[0]), moves[1..]);
      InsideAtMost(Run(maxFiles, s, moves).threads);
    }
  }
}
