/** When the result of a walk depends on the schedule: threads that race for the last tickets below the
    limit. */
module WalkRaces {
  import opened Basics
  import opened Wrappers
  import opened Sorting
  import opened Walk
  import opened WalkRuns
  import opened WalkSchedules

  /** All completed runs that were not cancelled have the same result. */
  ghost predicate OneResult(maxFiles: nat, entries: seq<Entry>, threads: nat) {
    forall s, r :: IsOutcome(maxFiles, entries, threads, s) && IsOutcome(maxFiles, entries, threads, r) ==>
      Outcome(maxFiles, s) == Outcome(maxFiles, r)
  }

  predicate IsNoise(e: Entry) {
    e.Failure? || e.Symlink?
  }

  /** Nothing but files leaves a trace after the first file over the limit, as far as the threads can get. */
  ghost predicate Quiet(maxFiles: nat, entries: seq<Entry>, threads: nat) {
    forall i :: 0 <= i < |entries| && maxFiles < FileCount(entries[..i]) < maxFiles + threads ==> !IsNoise(entries[i])
  }

  /** None of the first files has a record. */
  ghost predicate Unrecorded(entries: seq<Entry>, files: int) {
    forall i :: 0 <= i < |entries| && FileCount(entries[..i]) < files && entries[i].File? ==> entries[i].record == None
  }

  /** The walk stays within the limit, or has one thread, or nothing within the reach of the threads could
      show which of them was first. */
  ghost predicate Settled(maxFiles: nat, entries: seq<Entry>, threads: nat) {
    || FileCount(entries) <= maxFiles
    || threads == 1
    || (Quiet(maxFiles, entries, threads) && (maxFiles == 0 || Unrecorded(entries, maxFiles + threads - 1)))
  }

  // ------------------------------------------------------------ threads that hold back

  /** The entries without the files numbered from `low` to below `high`. */
  function Kept(entries: seq<Entry>, low: nat, high: nat): seq<Entry> {
    if entries == [] then []
    else
      var before, e := entries[..|entries| - 1], entries[|entries| - 1];
      Kept(before, low, high) + if e.File? && low <= FileCount(before) < high then [] else [e]
  }

  /** How many of the first `files` files have a number from `low` to below `high`. */
  function HeldBack(files: nat, low: nat, high: nat): nat
    requires low <= high
  {
    if files <= low then 0 else (if files < high then files else high) - low
  }

  lemma KeptNext(entries: seq<Entry>, n: nat, low: nat, high: nat)
    requires n < |entries|
    ensures Kept(entries[..n + 1], low, high) == Kept(entries[..n], low, high)
      + if entries[n].File? && low <= FileCount(entries[..n]) < high then [] else [entries[n]]
  {
    assert entries[..n + 1][..n] == entries[..n];
  }

  lemma HeldNext(files: nat, low: nat, high: nat)
    requires low <= high
    ensures HeldBack(files + 1, low, high) == HeldBack(files, low, high) + if low <= files < high then 1 else 0
  {
  }

  lemma {:induction false} KeptCount(entries: seq<Entry>, low: nat, high: nat)
    requires low <= high
    ensures FileCount(Kept(entries, low, high)) + HeldBack(FileCount(entries), low, high) == FileCount(entries)
  {
    if entries != [] {
      hide FileCount, HeldBack;
      var before, e := entries[..|entries| - 1], entries[|entries| - 1];
      KeptCount(before, low, high);
      HeldNext(FileCount(before), low, high);
      assert entries == before + [e];
      OneMore(before, e);
      if e.File? && low <= FileCount(before) < high {
        NothingAfter(Kept(before, low, high));
      } else {
        OneMore(Kept(before, low, high), e);
      }
    } else {
      assert HeldBack(0, low, high) == 0;
    }
  }

  lemma {:induction false} KeptNoise(entries: seq<Entry>, low: nat, high: nat)
    ensures Messages(Kept(entries, low, high)) == Messages(entries)
    ensures Links(Kept(entries, low, high)) == Links(entries)
  {
    if entries != [] {
      var before, e := entries[..|entries| - 1], entries[|entries| - 1];
      KeptNoise(before, low, high);
      OneMore(Kept(before, low, high), e);
      OneMore(before, e);
      assert entries == before + [e];
      NothingAfter(Kept(before, low, high));
      NothingAfter(Messages(before));
      hide Messages, Links;
    }
  }

  lemma {:induction false} KeptAll(entries: seq<Entry>, low: nat)
    ensures Kept(entries, low, low) == entries
  {
    if entries != [] {
      KeptAll(entries[..|entries| - 1], low);
    }
  }

  /** The first thread has visited the first `n` entries but for some files, each of which is held by a
      thread of its own. */
  ghost predicate Holds(maxFiles: nat, entries: seq<Entry>, n: nat, low: nat, high: nat, s: State)
    requires n <= |entries| && low <= high
  {
    && s.pending == entries[n..] && s.done == Kept(entries[..n], low, high)
    && s.count == FileCount(s.done) <= maxFiles && !s.cancelled && |s.threads| > high - low
    && forall i :: 0 <= i < |s.threads| ==>
      if 1 <= i <= HeldBack(FileCount(entries[..n]), low, high) then s.threads[i].Holding? else s.threads[i] == Idle
  }

  /** The first thread takes the next entry and is about to act on it. */
  function Inspected(maxFiles: nat, s: State): State
    requires |s.threads| > 0 && s.pending != []
  {
    Inspect(maxFiles, Admit(TakeUp(s, 0), 0, s.pending[0]), 0, s.pending[0])
  }

  ghost predicate Ready(s: State) {
    |s.threads| > 0 && s.threads[0] == Idle && s.pending != [] && !s.cancelled
  }

  lemma InspectReached(maxFiles: nat, entries: seq<Entry>, threads: nat, s: State)
    requires Reached(maxFiles, entries, threads, s) && Ready(s)
    ensures Reached(maxFiles, entries, threads, Inspected(maxFiles, s))
  {
    hide Reached;
    var e := s.pending[0];
    var s1 := TakeUp(s, 0);
    var s2 := Admit(s1, 0, e);
    ReachedStep(maxFiles, entries, threads, s, Take(0));
    assert Step(maxFiles, s, Take(0)) == s1;
    ReachedStep(maxFiles, entries, threads, s1, Advance(0));
    assert Step(maxFiles, s1, Advance(0)) == s2;
    assert s2.threads[0] == Admitted(e);
    hide Inspect;
    ReachedStep(maxFiles, entries, threads, s2, Advance(0));
  }

  /** What the visit of the next entry by the first thread leaves behind. */
  ghost predicate Leaves(maxFiles: nat, s: State, r: State)
    requires |s.threads| > 0 && s.pending != []
  {
    var e := s.pending[0];
    && r.cancelled == s.cancelled && r.pending == s.pending[1..]
    && if e.File? && s.count >= maxFiles
       then r.threads == s.threads[0 := Stopped] && r.quit && r.done == s.done
       else r.threads == s.threads && r.done == s.done + [e] && r.count == s.count + (if e.File? then 1 else 0)
  }

  lemma VisitReached(maxFiles: nat, entries: seq<Entry>, threads: nat, s: State) returns (r: State)
    requires Reached(maxFiles, entries, threads, s) && Ready(s)
    ensures Reached(maxFiles, entries, threads, r) && Leaves(maxFiles, s, r)
  {
    hide Reached;
    InspectReached(maxFiles, entries, threads, s);
    InspectEffect(maxFiles, Admit(TakeUp(s, 0), 0, s.pending[0]), 0, s.pending[0]);
    r := Inspected(maxFiles, s);
    assert s.threads[0 := Idle] == s.threads;
    if s.pending[0].File? {
      hide Inspected;
      assert Enabled(r, Advance(0));
      ReachedStep(maxFiles, entries, threads, r, Advance(0));
      r := Step(maxFiles, r, Advance(0));
    }
  }

  lemma VisitHolds(maxFiles: nat, entries: seq<Entry>, n: nat, low: nat, high: nat, s: State, r: State)
    requires n < |entries| && low <= high && Holds(maxFiles, entries, n, low, high, s)
    requires !(entries[n].File? && low <= FileCount(entries[..n]) < high)
    requires FileCount(Kept(entries[..n + 1], low, high)) <= maxFiles && Leaves(maxFiles, s, r)
    ensures Holds(maxFiles, entries, n + 1, low, high, r)
  {
    hide FileCount, Kept;
    KeptNext(entries, n, low, high);
    FileNext(entries, n);
    OneMore(s.done, entries[n]);
    assert HeldBack(FileCount(entries[..n + 1]), low, high) == HeldBack(FileCount(entries[..n]), low, high);
    hide HeldBack;
    assert s.pending[0] == entries[n] && s.pending[1..] == entries[n + 1..];
    assert !(entries[n].File? && s.count >= maxFiles);
    assert r.done == Kept(entries[..n + 1], low, high) && r.threads == s.threads;
  }

  lemma TakeHolds(maxFiles: nat, entries: seq<Entry>, n: nat, low: nat, high: nat, s: State)
    requires n < |entries| && low <= high && Holds(maxFiles, entries, n, low, high, s)
    requires entries[n].File? && low <= FileCount(entries[..n]) < high
    ensures var i := FileCount(entries[..n]) - low + 1;
      Enabled(s, Take(i)) && Holds(maxFiles, entries, n + 1, low, high, Step(maxFiles, s, Take(i)))
  {
    hide FileCount, Kept;
    KeptNext(entries, n, low, high);
    FileNext(entries, n);
    NothingAfter(s.done);
  }

  lemma StartHolds(maxFiles: nat, entries: seq<Entry>, threads: nat, low: nat, high: nat)
    requires low <= high < low + threads
    ensures Holds(maxFiles, entries, 0, low, high, Start(entries, threads))
    ensures Reached(maxFiles, entries, threads, Start(entries, threads))
  {
    assert entries[..0] == [] && entries[0..] == entries;
    assert Runs(maxFiles, Start(entries, threads), []);
  }

  /** Any range of files can be held back, as long as it leaves a thread to visit the other entries. */
  lemma {:induction false} HoldReached(maxFiles: nat, entries: seq<Entry>, threads: nat, n: nat, low: nat, high: nat)
    returns (s: State)
    requires n <= |entries| && low <= high < low + threads
    requires FileCount(Kept(entries[..n], low, high)) <= maxFiles
    ensures Reached(maxFiles, entries, threads, s) && Holds(maxFiles, entries, n, low, high, s)
  {
    hide Reached, Kept, FileCount, Leaves, Holds;
    if n == 0 {
      StartHolds(maxFiles, entries, threads, low, high);
      s := Start(entries, threads);
    } else {
      KeptNext(entries, n - 1, low, high);
      var kept := Kept(entries[..n - 1], low, high);
      FileCountConcat(kept, Kept(entries[..n], low, high)[|kept|..]);
      var before := HoldReached(maxFiles, entries, threads, n - 1, low, high);
      if entries[n - 1].File? && low <= FileCount(entries[..n - 1]) < high {
        TakeHolds(maxFiles, entries, n - 1, low, high, before);
        var m := Take(FileCount(entries[..n - 1]) - low + 1);
        ReachedStep(maxFiles, entries, threads, before, m);
        s := Step(maxFiles, before, m);
      } else {
        HoldsReady(maxFiles, entries, n - 1, low, high, before);
        s := VisitReached(maxFiles, entries, threads, before);
        VisitHolds(maxFiles, entries, n - 1, low, high, before, s);
      }
    }
  }

  lemma HoldsReady(maxFiles: nat, entries: seq<Entry>, n: nat, low: nat, high: nat, s: State)
    requires n < |entries| && low <= high && Holds(maxFiles, entries, n, low, high, s)
    ensures Ready(s)
  {
  }

  // ------------------------------------------------------------------ the walk cut off

  ghost predicate StoppedBelow(s: State, k: nat) {
    && k <= |s.threads| && s.quit
    && (forall i :: 0 <= i < k ==> s.threads[i] == Stopped)
    && (forall i :: k <= i < |s.threads| ==> s.threads[i] == Idle)
  }

  /** After one thread has quit, the others notice. */
  lemma {:induction false} NoticeReached(maxFiles: nat, entries: seq<Entry>, threads: nat, s: State, k: nat)
    returns (r: State)
    requires Reached(maxFiles, entries, threads, s) && StoppedBelow(s, k)
    ensures Reached(maxFiles, entries, threads, r) && StoppedBelow(r, |r.threads|)
    ensures r.cancelled == s.cancelled && r.done == s.done
    decreases |s.threads| - k
  {
    hide Reached;
    if k == |s.threads| {
      r := s;
    } else {
      ReachedStep(maxFiles, entries, threads, s, Notice(k));
      r := NoticeReached(maxFiles, entries, threads, Step(maxFiles, s, Notice(k)), k + 1);
    }
  }

  /** One thread alone can use up the tickets. */
  lemma FirstReached(maxFiles: nat, entries: seq<Entry>, threads: nat, n: nat) returns (s: State)
    requires threads > 0 && n <= |entries| && FileCount(entries[..n]) == maxFiles
    ensures Reached(maxFiles, entries, threads, s) && Full(maxFiles, s) && !s.cancelled
    ensures Holds(maxFiles, entries, n, 0, 0, s) && s.done == entries[..n]
  {
    KeptAll(entries[..n], 0);
    s := HoldReached(maxFiles, entries, threads, n, 0, 0);
  }

  /** The sequential result is among the results. */
  lemma SequentialReached(maxFiles: nat, entries: seq<Entry>, threads: nat) returns (r: State)
    requires threads > 0 && FileCount(entries) > maxFiles
    ensures IsOutcome(maxFiles, entries, threads, r) && r.done == Within(entries, maxFiles)
  {
    hide Reached, FileCount, Within, Full, Finals;
    var n := CutAt(entries, maxFiles);
    var s := FirstReached(maxFiles, entries, threads, n);
    var t := VisitReached(maxFiles, entries, threads, s);
    LastStops(maxFiles, entries, n, s, t);
    r := NoticeReached(maxFiles, entries, threads, t, 1);
    IsFinal(maxFiles, entries, threads, r);
  }

  lemma LastStops(maxFiles: nat, entries: seq<Entry>, n: nat, s: State, r: State)
    requires n < |entries| && entries[n].File? && FileCount(entries[..n]) == maxFiles
    requires Holds(maxFiles, entries, n, 0, 0, s) && s.done == entries[..n] && Leaves(maxFiles, s, r)
    ensures StoppedBelow(r, 1) && !r.cancelled && r.done == s.done
  {
    hide FileCount;
  }

  // ------------------------------------------------------------------ different results

  lemma OutcomeFields(maxFiles: nat, entries: seq<Entry>, threads: nat, s: State)
    requires IsOutcome(maxFiles, entries, threads, s)
    ensures Outcome(maxFiles, s).symlinks == Links(s.done)
    ensures multiset(Outcome(maxFiles, s).errors) == multiset(Messages(s.done))
    ensures multiset(Outcome(maxFiles, s).files) == multiset(Recorded(s.done))
  {
    NothingCut(maxFiles, entries, threads, s);
  }

  function Noise(entries: seq<Entry>): nat {
    Links(entries) + |Messages(entries)|
  }

  lemma {:induction false} NoiseGrows(entries: seq<Entry>, n: nat)
    requires n <= |entries|
    ensures Noise(entries[..n]) <= Noise(entries)
    ensures (exists i :: n <= i < |entries| && IsNoise(entries[i])) ==> Noise(entries[..n]) < Noise(entries)
  {
    if n < |entries| {
      var last := |entries| - 1;
      NoiseGrows(entries[..last], n);
      assert entries[..last][..n] == entries[..n] && entries == entries[..last] + [entries[last]];
      OneMore(entries[..last], entries[last]);
      hide Links, Messages;
      if i :| n <= i < |entries| && IsNoise(entries[i]) {
        assert i < last ==> entries[..last][i] == entries[i];
      }
    } else {
      assert entries[..n] == entries;
    }
  }

  lemma NoisierDiffers(maxFiles: nat, entries: seq<Entry>, threads: nat, s: State, r: State)
    requires IsOutcome(maxFiles, entries, threads, s) && IsOutcome(maxFiles, entries, threads, r)
    requires Noise(s.done) < Noise(r.done)
    ensures !OneResult(maxFiles, entries, threads)
  {
    hide IsOutcome, Outcome, Links, Messages, Recorded;
    OutcomeFields(maxFiles, entries, threads, s);
    OutcomeFields(maxFiles, entries, threads, r);
    assert |multiset(Messages(s.done))| == |Messages(s.done)| && |multiset(Messages(r.done))| == |Messages(r.done)|;
  }

  /** Threads that hold the files over the limit leave another one to report what comes after them. */
  lemma NoiseShows(maxFiles: nat, entries: seq<Entry>, threads: nat, i: nat)
    requires i < |entries| && IsNoise(entries[i])
    requires maxFiles < FileCount(entries[..i]) < maxFiles + threads
    ensures !OneResult(maxFiles, entries, threads)
  {
    hide FileCount, Kept, Holds, Finals, Reached, Full, Within, OneResult;
    FewerBefore(entries, i, |entries|);
    assert entries[..|entries|] == entries;
    var n := CutAt(entries, maxFiles);
    if i < n {
      FewerBefore(entries, i, n);
      assert false;
    }
    var s := SequentialReached(maxFiles, entries, threads);
    var high := FileCount(entries[..i]);
    FileNext(entries, i);
    KeptCount(entries[..i + 1], maxFiles, high);
    var held := HoldReached(maxFiles, entries, threads, i + 1, maxFiles, high);
    HoldsDone(maxFiles, entries, i + 1, maxFiles, high, held);
    var r := OutcomeFrom(maxFiles, entries, threads, held);
    assert r.done[..|held.done|] == held.done;
    NoiseGrows(r.done, |held.done|);
    KeptNoise(entries[..i + 1], maxFiles, high);
    assert entries[..i + 1][i] == entries[i];
    NoiseGrows(entries[..i + 1], n);
    assert entries[..i + 1][..n] == entries[..n];
    NoisierDiffers(maxFiles, entries, threads, s, r);
  }

  lemma HoldsDone(maxFiles: nat, entries: seq<Entry>, n: nat, low: nat, high: nat, s: State)
    requires n <= |entries| && low <= high && Holds(maxFiles, entries, n, low, high, s)
    ensures s.done == Kept(entries[..n], low, high) && !s.cancelled
    ensures FileCount(s.done) == maxFiles ==> Full(maxFiles, s)
  {
  }

  ghost predicate HasRecord(entries: seq<Entry>, i: nat, x: DiscoveredFile) {
    i < |entries| && entries[i] == File(Some(x))
  }

  lemma {:induction false} EntryKept(entries: seq<Entry>, i: nat, low: nat, high: nat)
    requires i < |entries| && !(entries[i].File? && low <= FileCount(entries[..i]) < high)
    ensures entries[i] in Kept(entries, low, high)
  {
    var last := |entries| - 1;
    if i < last {
      assert entries[..last][..i] == entries[..i];
      EntryKept(entries[..last], i, low, high);
    }
  }

  lemma RecordKept(entries: seq<Entry>, i: nat, x: DiscoveredFile, low: nat, high: nat)
    requires HasRecord(entries, i, x) && !(low <= FileCount(entries[..i]) < high)
    ensures x in Recorded(Kept(entries, low, high))
  {
    EntryKept(entries, i, low, high);
    RecordTimes(Kept(entries, low, high), x);
    hide Recorded, Kept;
    assert x in multiset(Recorded(Kept(entries, low, high)));
  }

  lemma {:induction false} RecordAt(entries: seq<Entry>, i: nat, x: DiscoveredFile)
    requires HasRecord(entries, i, x)
    ensures var files := Recorded(entries);
      |Recorded(entries[..i])| < |files| && files[|Recorded(entries[..i])|] == x
  {
    var last := |entries| - 1;
    if i < last {
      RecordAt(entries[..last], i, x);
      assert entries[..last][..i] == entries[..i];
    }
  }

  lemma RecordOnce(entries: seq<Entry>, i: nat, k: nat, x: DiscoveredFile)
    requires DistinctFiles(entries) && HasRecord(entries, i, x) && HasRecord(entries, k, x)
    ensures i == k
  {
    if i < k {
      RecordBefore(entries, i, k, x);
    } else if k < i {
      RecordBefore(entries, k, i, x);
    }
  }

  lemma RecordBefore(entries: seq<Entry>, i: nat, k: nat, x: DiscoveredFile)
    requires DistinctFiles(entries) && HasRecord(entries, i, x) && HasRecord(entries, k, x)
    ensures !(i < k)
  {
    if i < k {
      hide Recorded;
      assert entries[..k][..i] == entries[..i];
      RecordAt(entries[..k], i, x);
      RecordAt(entries, i, x);
      RecordAt(entries, k, x);
      assert false;
    }
  }

  /** A file held back, or not handed out yet, is not among those recorded. */
  lemma RecordMissing(entries: seq<Entry>, n: nat, i: nat, x: DiscoveredFile, low: nat, high: nat)
    requires n <= |entries| && DistinctFiles(entries) && HasRecord(entries, i, x)
    requires n <= i || low <= FileCount(entries[..i]) < high
    ensures x !in Recorded(Kept(entries[..n], low, high))
  {
    hide Recorded, Kept, DistinctFiles;
    var kept := Kept(entries[..n], low, high);
    if x in Recorded(kept) {
      RecordTimes(kept, x);
      assert x in multiset(Recorded(kept));
      var k := KeptFrom(entries, n, File(Some(x)), low, high);
      RecordOnce(entries, i, k, x);
    }
  }

  lemma {:induction false} KeptFrom(entries: seq<Entry>, n: nat, e: Entry, low: nat, high: nat) returns (k: nat)
    requires n <= |entries| && e in Kept(entries[..n], low, high)
    ensures k < n && entries[k] == e && !(e.File? && low <= FileCount(entries[..k]) < high)
  {
    KeptNext(entries, n - 1, low, high);
    hide Kept, FileCount;
    if e in Kept(entries[..n - 1], low, high) {
      k := KeptFrom(entries, n - 1, e, low, high);
    } else {
      k := n - 1;
    }
  }

  lemma FilesDiffer(maxFiles: nat, entries: seq<Entry>, threads: nat, s: State, r: State, x: DiscoveredFile)
    requires IsOutcome(maxFiles, entries, threads, s) && IsOutcome(maxFiles, entries, threads, r)
    requires x in Recorded(s.done) && x !in r.files
    ensures !OneResult(maxFiles, entries, threads)
  {
    OutcomeFields(maxFiles, entries, threads, s);
    NothingCut(maxFiles, entries, threads, r);
    hide IsOutcome, Outcome, Recorded;
    assert x in multiset(Outcome(maxFiles, s).files) && x !in multiset(Outcome(maxFiles, r).files);
  }

  lemma RecordStays(maxFiles: nat, s: State, r: State, x: DiscoveredFile)
    requires Follows(maxFiles, s, r) && x in Recorded(s.done)
    ensures x in Recorded(r.done)
  {
    assert r.done[..|s.done|] == s.done;
    RecordGrows(r.done, |s.done|, x);
  }

  lemma {:induction false} RecordGrows(entries: seq<Entry>, n: nat, x: DiscoveredFile)
    requires n <= |entries| && x in Recorded(entries[..n])
    ensures x in Recorded(entries)
  {
    if n < |entries| {
      var last := |entries| - 1;
      assert entries[..last][..n] == entries[..n];
      RecordGrows(entries[..last], n, x);
    } else {
      assert entries[..n] == entries;
    }
  }

  /** A thread that takes an early file and waits with its ticket loses it to the others. */
  lemma EarlyFileMissed(maxFiles: nat, entries: seq<Entry>, threads: nat, i: nat, x: DiscoveredFile)
    requires threads > 1 && DistinctFiles(entries) && FileCount(entries) > maxFiles
    requires HasRecord(entries, i, x) && FileCount(entries[..i]) < maxFiles
    ensures !OneResult(maxFiles, entries, threads)
  {
    hide FileCount, Kept, Holds, Reached, Recorded, DistinctFiles, Within, Finals, OneResult, Full;
    var n := CutAt(entries, maxFiles);
    if n <= i {
      FewerBefore(entries, n, i);
      assert false;
    }
    var low := FileCount(entries[..i]);
    var s := SequentialReached(maxFiles, entries, threads);
    assert entries[..n][..i] == entries[..i];
    KeptAll(entries[..n], 0);
    RecordKept(entries[..n], i, x, 0, 0);
    FileNext(entries, n);
    KeptCount(entries[..n + 1], low, low + 1);
    var held := HoldReached(maxFiles, entries, threads, n + 1, low, low + 1);
    HoldsDone(maxFiles, entries, n + 1, low, low + 1, held);
    RecordMissing(entries, n + 1, i, x, low, low + 1);
    MissedFor(maxFiles, entries, threads, s, held, x);
  }

  lemma MissedFor(maxFiles: nat, entries: seq<Entry>, threads: nat, s: State, t: State, x: DiscoveredFile)
    requires threads > 0 && IsOutcome(maxFiles, entries, threads, s) && x in Recorded(s.done)
    requires Reached(maxFiles, entries, threads, t) && Full(maxFiles, t) && !t.cancelled && x !in Recorded(t.done)
    ensures !OneResult(maxFiles, entries, threads)
  {
    hide Reached, Recorded, Finals, OneResult, Full;
    var r := OutcomeFrom(maxFiles, entries, threads, t);
    ReachedFiles(maxFiles, entries, threads, t);
    FilesDiffer(maxFiles, entries, threads, s, r, x);
  }

  lemma ReachedFiles(maxFiles: nat, entries: seq<Entry>, threads: nat, s: State)
    requires Reached(maxFiles, entries, threads, s)
    ensures Invariant(maxFiles, entries, s) && s.files == Recorded(s.done) && |s.threads| == threads
  {
    hide Conserved, Counted, Paced, OnlyFiles, Flagged, Runs, Run, Recorded;
    var moves :| Runs(maxFiles, Start(entries, threads), moves) && Run(maxFiles, Start(entries, threads), moves) == s;
    StartKeeps(maxFiles, entries, threads);
    RunKeeps(maxFiles, entries, Start(entries, threads), moves);
  }

  /** A thread can get the last ticket for a file after the limit, if the others wait with the files before. */
  lemma LateFileRecorded(maxFiles: nat, entries: seq<Entry>, threads: nat, i: nat, x: DiscoveredFile)
    requires maxFiles > 0 && DistinctFiles(entries) && HasRecord(entries, i, x)
    requires maxFiles <= FileCount(entries[..i]) < maxFiles + threads - 1
    ensures !OneResult(maxFiles, entries, threads)
  {
    hide FileCount, Kept, Holds, Reached, Recorded, DistinctFiles, Within, Finals, OneResult, Full;
    FileNext(entries, i);
    FewerBefore(entries, i + 1, |entries|);
    assert entries[..|entries|] == entries;
    var n := CutAt(entries, maxFiles);
    if i < n {
      FewerBefore(entries, i + 1, n);
      assert false;
    }
    var low, high := maxFiles - 1, FileCount(entries[..i]);
    assert entries[..i + 1][..i] == entries[..i] && entries[..i + 1][i] == entries[i];
    RecordKept(entries[..i + 1], i, x, low, high);
    KeptCount(entries[..i + 1], low, high);
    var held := HoldReached(maxFiles, entries, threads, i + 1, low, high);
    HoldsDone(maxFiles, entries, i + 1, low, high, held);
    var s := OutcomeFrom(maxFiles, entries, threads, held);
    RecordStays(maxFiles, held, s, x);
    var first := FirstReached(maxFiles, entries, threads, n);
    HoldsDone(maxFiles, entries, n, 0, 0, first);
    RecordMissing(entries, n, i, x, 0, 0);
    MissedFor(maxFiles, entries, threads, s, first, x);
  }

  /** So the condition is necessary. */
  lemma UnsettledDiffers(maxFiles: nat, entries: seq<Entry>, threads: nat)
    requires threads > 0 && DistinctFiles(entries) && !Settled(maxFiles, entries, threads)
    ensures !OneResult(maxFiles, entries, threads)
  {
    hide FileCount, OneResult, DistinctFiles;
    if !Quiet(maxFiles, entries, threads) {
      var i :| 0 <= i < |entries| && maxFiles < FileCount(entries[..i]) < maxFiles + threads && IsNoise(entries[i]);
      NoiseShows(maxFiles, entries, threads, i);
    } else {
      var i :| 0 <= i < |entries| && FileCount(entries[..i]) < maxFiles + threads - 1 && entries[i].File?
        && entries[i].record != None;
      if FileCount(entries[..i]) < maxFiles {
        EarlyFileMissed(maxFiles, entries, threads, i, entries[i].record.value);
      } else {
        LateFileRecorded(maxFiles, entries, threads, i, entries[i].record.value);
      }
    }
  }

  // ------------------------------------------------------------------- the same result

  /** The threads have not recorded anything, and hold no ticket for a file with a record. */
  ghost predicate Blank(s: State) {
    && Recorded(s.done) == []
    && forall i :: 0 <= i < |s.threads| && s.threads[i].Ticketed? ==> s.threads[i].entry == File(None)
  }

  lemma HeldEntry(ts: seq<Thread>, i: nat)
    requires i < |ts| && !ts[i].Idle? && !ts[i].Stopped?
    ensures Held(ts, ts[i].entry) > 0
  {
    SetHeld(ts, i, Idle, ts[i].entry);
  }

  /** A file that still gets a ticket is one of the first. */
  lemma TicketEarly(maxFiles: nat, entries: seq<Entry>, s: State, i: nat) returns (k: nat)
    requires Invariant(maxFiles, entries, s) && s.count < maxFiles
    requires i < |s.threads| && s.threads[i].Admitted? && s.threads[i].entry.File?
    ensures k < |entries| && entries[k] == s.threads[i].entry
    ensures FileCount(entries[..k]) < maxFiles + |s.threads| - 1
  {
    hide Agrees, FileCount, BusyThreads, Held, Tickets, Overs;
    var e, n := s.threads[i].entry, |entries| - |s.pending|;
    HeldEntry(s.threads, i);
    assert Places(s, e) == multiset(entries)[e];
    assert entries == entries[..n] + s.pending;
    assert e in multiset(entries[..n]);
    k :| 0 <= k < n && entries[..n][k] == e;
    FileNext(entries, k);
    FewerBefore(entries, k + 1, n);
    SetBusy(s.threads, i, Idle);
  }

  lemma StepBlank(maxFiles: nat, entries: seq<Entry>, s: State, m: Move)
    requires Enabled(s, m) && Invariant(maxFiles, entries, s) && Blank(s)
    requires Unrecorded(entries, maxFiles + |s.threads| - 1)
    ensures Blank(Step(maxFiles, s, m))
  {
    hide Invariant, Unrecorded, Inspect, Recorded;
    match m
    case Cancel =>
    case Take(i) =>
    case Notice(i) =>
    case Advance(i) =>
      match s.threads[i]
      case Holding(e) =>
      case Admitted(e) => InspectBlank(maxFiles, entries, s, i, e);
      case Ticketed(e) => OneMore(s.done, e);
      case Over(e) =>
  }

  lemma InspectBlank(maxFiles: nat, entries: seq<Entry>, s: State, i: nat, e: Entry)
    requires i < |s.threads| && s.threads[i] == Admitted(e) && Invariant(maxFiles, entries, s) && Blank(s)
    requires Unrecorded(entries, maxFiles + |s.threads| - 1)
    ensures Blank(Inspect(maxFiles, s, i, e))
  {
    hide Invariant, Inspect, Recorded, FileCount;
    InspectEffect(maxFiles, s, i, e);
    OneMore(s.done, e);
    if e.File? && s.count < maxFiles {
      var k := TicketEarly(maxFiles, entries, s, i);
    }
  }

  lemma {:induction false} RunBlank(maxFiles: nat, entries: seq<Entry>, s: State, moves: seq<Move>)
    requires Runs(maxFiles, s, moves) && Invariant(maxFiles, entries, s) && Blank(s)
    requires Unrecorded(entries, maxFiles + |s.threads| - 1)
    ensures Blank(Run(maxFiles, s, moves))
    decreases |moves|
  {
    hide Invariant, Step, Blank, Unrecorded;
    if moves != [] {
      StepBlank(maxFiles, entries, s, moves[0]);
      StepKeeps(maxFiles, entries, s, moves[0]);
      StepKeepsThreads(maxFiles, s, moves[0]);
      RunBlank(maxFiles, entries, Step(maxFiles, s, moves[0]), moves[1..]);
    }
  }

  lemma NothingRecorded(maxFiles: nat, entries: seq<Entry>, threads: nat, s: State)
    requires Reached(maxFiles, entries, threads, s) && Unrecorded(entries, maxFiles + threads - 1)
    ensures Recorded(s.done) == []
  {
    hide Runs, Run, Invariant;
    var moves :| Runs(maxFiles, Start(entries, threads), moves) && Run(maxFiles, Start(entries, threads), moves) == s;
    StartKeeps(maxFiles, entries, threads);
    assert Blank(Start(entries, threads));
    RunBlank(maxFiles, entries, Start(entries, threads), moves);
  }

  /** In a completed run that was cut off, the entries handed out are those visited and the files refused. */
  lemma HandedOutFinally(maxFiles: nat, entries: seq<Entry>, threads: nat, s: State)
    requires Finals(maxFiles, entries, threads, s)
    ensures |s.pending| <= |entries| && multiset(s.done + s.over) == multiset(HandedOut(entries, s))
    ensures forall i :: 0 <= i < |s.over| ==> s.over[i].File?
  {
    var out := HandedOut(entries, s);
    assert entries == out + s.pending;
    forall e ensures multiset(s.done + s.over)[e] == multiset(out)[e] {
      assert Places(s, e) == multiset(entries)[e];
      NothingHeld(s.threads, e);
    }
  }

  lemma {:induction false} FilesSilent(a: seq<Entry>, files: seq<Entry>)
    requires forall i :: 0 <= i < |files| ==> files[i].File?
    ensures Messages(a + files) == Messages(a) && Links(a + files) == Links(a)
    ensures FileCount(a + files) == FileCount(a) + |files|
  {
    if files == [] {
      assert a + files == a;
    } else {
      var last := |files| - 1;
      FilesSilent(a, files[..last]);
      OneMore(a + files[..last], files[last]);
      assert a + files == a + files[..last] + [files[last]];
      NothingAfter(Messages(a));
      hide Messages, Links, FileCount;
    }
  }

  /** What is handed out after the first file over the limit leaves no trace. */
  lemma {:induction false} QuietAfter(maxFiles: nat, entries: seq<Entry>, threads: nat, m: nat, n: nat)
    requires m <= n <= |entries| && Quiet(maxFiles, entries, threads)
    requires m < |entries| && entries[m].File? && FileCount(entries[..m]) == maxFiles
    requires m < n ==> FileCount(entries[..n - 1]) < maxFiles + threads
    ensures Messages(entries[..n]) == Messages(entries[..m]) && Links(entries[..n]) == Links(entries[..m])
  {
    hide FileCount, Quiet;
    if m < n {
      if m < n - 1 {
        FewerBefore(entries, n - 2, n - 1);
      }
      QuietAfter(maxFiles, entries, threads, m, n - 1);
      OneMore(entries[..n - 1], entries[n - 1]);
      assert entries[..n] == entries[..n - 1] + [entries[n - 1]];
      NothingAfter(Messages(entries[..m]));
      hide Messages, Links;
      QuietEntry(maxFiles, entries, threads, m, n - 1);
    }
  }

  lemma QuietEntry(maxFiles: nat, entries: seq<Entry>, threads: nat, m: nat, k: nat)
    requires m <= k < |entries| && Quiet(maxFiles, entries, threads)
    requires entries[m].File? && FileCount(entries[..m]) == maxFiles && FileCount(entries[..k]) < maxFiles + threads
    ensures !IsNoise(entries[k])
  {
    if m < k {
      FileNext(entries, m);
      FewerBefore(entries, m + 1, k);
    }
  }

  /** The messages and links of a quiet walk are those of the sequential one. */
  lemma SameNoise(maxFiles: nat, entries: seq<Entry>, threads: nat, s: State)
    requires IsOutcome(maxFiles, entries, threads, s) && FileCount(entries) > maxFiles
    requires Quiet(maxFiles, entries, threads)
    ensures var seen := Within(entries, maxFiles);
      multiset(Messages(s.done)) == multiset(Messages(seen)) && Links(s.done) == Links(seen)
  {
    hide Reached, Quiet, Messages, Links, FileCount, Within;
    var m := CutAt(entries, maxFiles);
    var n := |entries| - |s.pending|;
    var out := HandedOut(entries, s);
    HandedOutFinally(maxFiles, entries, threads, s);
    SameEntriesCollect(s.done + s.over, out);
    FilesSilent(s.done, s.over);
    OverLimit(maxFiles, entries, threads, s);
    if n <= m {
      FewerBefore(entries, n, m);
      assert false;
    }
    QuietAfter(maxFiles, entries, threads, m, n);
  }

  lemma OverLimit(maxFiles: nat, entries: seq<Entry>, threads: nat, s: State)
    requires Finals(maxFiles, entries, threads, s) && FileCount(entries) > maxFiles
    ensures |s.pending| <= |entries| && FileCount(HandedOut(entries, s)) > maxFiles
    ensures s.truncated && s.over != [] && FileCount(s.done) == maxFiles
  {
    TruncatedIff(maxFiles, entries, threads, s);
    NothingHeld(s.threads, Other);
    HandedOutFinally(maxFiles, entries, threads, s);
    FilesSilent(s.done, s.over);
    hide FileCount, Conserved;
    FileCountLess(s.done + s.over, HandedOut(entries, s));
  }

  lemma QuietIsSequential(maxFiles: nat, entries: seq<Entry>, threads: nat, s: State)
    requires IsOutcome(maxFiles, entries, threads, s) && FileCount(entries) > maxFiles
    requires Quiet(maxFiles, entries, threads) && (maxFiles == 0 || Unrecorded(entries, maxFiles + threads - 1))
    ensures Outcome(maxFiles, s) == Sequential(maxFiles, entries)
  {
    hide Reached, Messages, Links, FileCount, Within, Quiet, Unrecorded, Recorded;
    var seen := Within(entries, maxFiles);
    SameNoise(maxFiles, entries, threads, s);
    NoneSeen(maxFiles, entries, threads, s);
    TruncatedIff(maxFiles, entries, threads, s);
    FileOrder();
    AntisymmetricTellsApart(Messages(seen), LeMessage);
    SortOfPermutation(Messages(seen), s.errors, LeMessage);
  }

  lemma NoneSeen(maxFiles: nat, entries: seq<Entry>, threads: nat, s: State)
    requires IsOutcome(maxFiles, entries, threads, s) && FileCount(entries) > maxFiles
    requires maxFiles == 0 || Unrecorded(entries, maxFiles + threads - 1)
    ensures s.files == [] && Recorded(Within(entries, maxFiles)) == []
  {
    hide Reached, FileCount, Within, Unrecorded;
    var n := CutAt(entries, maxFiles);
    if maxFiles == 0 {
      OverLimit(maxFiles, entries, threads, s);
      FewerRecords(s.done);
      FewerRecords(entries[..n]);
    } else {
      NothingRecorded(maxFiles, entries, threads, s);
      FirstUnrecorded(maxFiles, entries, maxFiles + threads - 1, n);
    }
  }

  lemma {:induction false} FirstUnrecorded(maxFiles: nat, entries: seq<Entry>, files: nat, n: nat)
    requires n <= |entries| && FileCount(entries[..n]) <= files && Unrecorded(entries, files)
    ensures Recorded(entries[..n]) == []
  {
    if n > 0 {
      FileNext(entries, n - 1);
      OneMore(entries[..n - 1], entries[n - 1]);
      assert entries[..n] == entries[..n - 1] + [entries[n - 1]];
      hide FileCount, Recorded;
      FirstUnrecorded(maxFiles, entries, files, n - 1);
    }
  }

  // ---------------------------------------------------------------------- one thread

  /** What the thread has in hand, or has been refused. */
  ghost function Current(s: State): seq<Entry>
    requires |s.threads| == 1
  {
    if s.threads[0].Idle? || s.threads[0].Stopped? then s.over else [s.threads[0].entry]
  }

  /** A single thread visits the entries in the order in which they are handed out. */
  ghost predicate InTurn(entries: seq<Entry>, s: State) {
    && |s.threads| == 1 && InOrder(entries, s)
    && (s.cancelled || (HandedOut(entries, s) == s.done + Current(s) && (s.over != [] ==> s.threads[0] == Stopped)))
  }

  lemma InspectInTurn(maxFiles: nat, entries: seq<Entry>, s: State, e: Entry)
    requires InTurn(entries, s) && s.threads[0] == Admitted(e)
    ensures InTurn(entries, Inspect(maxFiles, s, 0, e))
  {
    hide Inspect;
    InspectEffect(maxFiles, s, 0, e);
    InspectCancelled(maxFiles, s, 0, e);
    NothingAfter(s.done + [e]);
  }

  lemma InspectCancelled(maxFiles: nat, s: State, i: nat, e: Entry)
    requires i < |s.threads|
    ensures Inspect(maxFiles, s, i, e).cancelled == s.cancelled
  {
  }

  lemma TakeInTurn(entries: seq<Entry>, s: State)
    requires InTurn(entries, s) && s.threads[0] == Idle && s.pending != []
    ensures InTurn(entries, TakeUp(s, 0))
  {
    var n := |entries| - |s.pending|;
    assert entries[..n + 1] == entries[..n] + [s.pending[0]];
    NothingAfter(s.done);
  }

  lemma StepInTurn(maxFiles: nat, entries: seq<Entry>, s: State, m: Move)
    requires Enabled(s, m) && InTurn(entries, s)
    ensures InTurn(entries, Step(maxFiles, s, m))
  {
    hide Inspect;
    match m
    case Cancel =>
    case Take(i) => TakeInTurn(entries, s);
    case Notice(i) =>
    case Advance(i) =>
      match s.threads[i]
      case Holding(e) =>
      case Admitted(e) => InspectInTurn(maxFiles, entries, s, e);
      case Ticketed(e) => NothingAfter(s.done + [e]);
      case Over(e) => NothingAfter([e]);
  }

  lemma {:induction false} RunInTurn(maxFiles: nat, entries: seq<Entry>, s: State, moves: seq<Move>)
    requires Runs(maxFiles, s, moves) && InTurn(entries, s)
    ensures InTurn(entries, Run(maxFiles, s, moves))
    decreases |moves|
  {
    hide Step, InTurn;
    if moves != [] {
      StepInTurn(maxFiles, entries, s, moves[0]);
      RunInTurn(maxFiles, entries, Step(maxFiles, s, moves[0]), moves[1..]);
    }
  }

  lemma OneThreadInTurn(maxFiles: nat, entries: seq<Entry>, s: State)
    requires Reached(maxFiles, entries, 1, s)
    ensures InTurn(entries, s)
  {
    hide Runs, Run;
    var moves :| Runs(maxFiles, Start(entries, 1), moves) && Run(maxFiles, Start(entries, 1), moves) == s;
    assert InTurn(entries, Start(entries, 1));
    RunInTurn(maxFiles, entries, Start(entries, 1), moves);
  }

  /** One thread of the parallel walk is cut off where the sequential walk is. */
  lemma OneThreadIsSequential(maxFiles: nat, entries: seq<Entry>, s: State)
    requires IsOutcome(maxFiles, entries, 1, s) && FileCount(entries) > maxFiles
    ensures Outcome(maxFiles, s) == Sequential(maxFiles, entries)
  {
    hide Reached, Within, FileCount, Conserved;
    OneThreadInTurn(maxFiles, entries, s);
    OverLimit(maxFiles, entries, 1, s);
    var k := |s.done|;
    assert s.over[0].File?;
    assert HandedOut(entries, s)[..k] == s.done && HandedOut(entries, s)[k] == s.over[0];
    assert entries[..k] == s.done && entries[k] == s.over[0];
    WithinCut(entries, maxFiles, k);
  }

  // ---------------------------------------------------------------------- the condition

  lemma SettledIsSequential(maxFiles: nat, entries: seq<Entry>, threads: nat, s: State)
    requires IsOutcome(maxFiles, entries, threads, s) && DistinctFiles(entries) && Settled(maxFiles, entries, threads)
    ensures Outcome(maxFiles, s) == Sequential(maxFiles, entries)
  {
    hide Reached, FileCount, Quiet, Unrecorded, DistinctFiles;
    TruncatedIff(maxFiles, entries, threads, s);
    hide Finals;
    if FileCount(entries) <= maxFiles {
      ParallelIsSequential(maxFiles, entries, threads, s);
    } else if threads == 1 {
      OneThreadIsSequential(maxFiles, entries, s);
    } else {
      QuietIsSequential(maxFiles, entries, threads, s);
    }
  }

  /** The result is independent of the schedule exactly if the walk stays within the limit, has one thread,
      or has nothing within the reach of the threads that could tell their schedules apart; and then it is
      the sequential result. */
  lemma ScheduleFreeIff(maxFiles: nat, entries: seq<Entry>, threads: nat)
    requires threads > 0 && DistinctFiles(entries)
    ensures OneResult(maxFiles, entries, threads) <==> Settled(maxFiles, entries, threads)
    ensures OneResult(maxFiles, entries, threads) ==> forall s :: IsOutcome(maxFiles, entries, threads, s) ==>
      Outcome(maxFiles, s) == Sequential(maxFiles, entries)
  {
    hide IsOutcome, Settled, Outcome, Sequential, DistinctFiles;
    if Settled(maxFiles, entries, threads) {
      forall s | IsOutcome(maxFiles, entries, threads, s)
        ensures Outcome(maxFiles, s) == Sequential(maxFiles, entries)
      {
        SettledIsSequential(maxFiles, entries, threads, s);
      }
    } else {
      UnsettledDiffers(maxFiles, entries, threads);
    }
  }
}
