/** Walks whose entries may be handed out in any order: when the result depends on the order or the schedule. */
module WalkOrders {
  import opened Wrappers
  import opened Sorting
  import opened Walk
  import opened WalkRuns
  import opened WalkSchedules
  import opened WalkRaces

  /** Some order of the entries and some schedule lead to the state. A walker that decides on the way which entry
      comes next makes a run for the order in which it hands them out. */
  ghost predicate IsAnyOutcome(maxFiles: nat, entries: seq<Entry>, threads: nat, s: State) {
    exists order {:trigger IsOutcome(maxFiles, order, threads, s)} ::
      multiset(order) == multiset(entries) && IsOutcome(maxFiles, order, threads, s)
  }

  ghost predicate OneResultInAnyOrder(maxFiles: nat, entries: seq<Entry>, threads: nat) {
    forall s, r :: IsAnyOutcome(maxFiles, entries, threads, s) && IsAnyOutcome(maxFiles, entries, threads, r) ==>
      Outcome(maxFiles, s) == Outcome(maxFiles, r)
  }

  ghost predicate NoNoise(entries: seq<Entry>) {
    forall e :: e in entries ==> !IsNoise(e)
  }

  ghost predicate NoRecord(entries: seq<Entry>) {
    forall e :: e in entries && e.File? ==> e.record == None
  }

  /** The walk stays within the limit, or there is nothing to tell one order from another. */
  ghost predicate OrderFree(maxFiles: nat, entries: seq<Entry>) {
    || FileCount(entries) <= maxFiles
    || (NoNoise(entries) && (maxFiles == 0 || NoRecord(entries)))
  }

  // ---------------------------------------------------------------------- two orders

  function FilesOf(entries: seq<Entry>): seq<Entry> {
    if entries == [] then [] else (if entries[0].File? then [entries[0]] else []) + FilesOf(entries[1..])
  }

  function OthersOf(entries: seq<Entry>): seq<Entry> {
    if entries == [] then [] else (if entries[0].File? then [] else [entries[0]]) + OthersOf(entries[1..])
  }

  lemma {:induction false} FilesAndOthers(entries: seq<Entry>)
    ensures multiset(FilesOf(entries) + OthersOf(entries)) == multiset(entries)
  {
    if entries != [] {
      FilesAndOthers(entries[1..]);
      assert entries == [entries[0]] + entries[1..];
    }
  }

  lemma {:induction false} FilesApart(entries: seq<Entry>)
    ensures forall i :: 0 <= i < |FilesOf(entries)| ==> FilesOf(entries)[i].File?
    ensures forall i :: 0 <= i < |OthersOf(entries)| ==> !OthersOf(entries)[i].File?
  {
    if entries != [] {
      FilesApart(entries[1..]);
    }
  }

  lemma {:induction false} NoFiles(entries: seq<Entry>)
    requires forall i :: 0 <= i < |entries| ==> !entries[i].File?
    ensures FileCount(entries) == 0
  {
    if entries != [] {
      NoFiles(entries[..|entries| - 1]);
    }
  }

  /** Another order of the entries with a given one in front, or at the end. */
  lemma Rotated(entries: seq<Entry>, i: nat) returns (rest: seq<Entry>)
    requires i < |entries|
    ensures multiset([entries[i]] + rest) == multiset(entries) && multiset(rest + [entries[i]]) == multiset(entries)
  {
    rest := entries[..i] + entries[i + 1..];
    assert entries == entries[..i] + [entries[i]] + entries[i + 1..];
  }

  lemma SameFileCount(a: seq<Entry>, b: seq<Entry>)
    requires multiset(a) == multiset(b)
    ensures FileCount(a) == FileCount(b)
  {
    FileCountLess(a, b);
    FileCountLess(b, a);
  }

  /** The entries an order has before its first file over the limit are those of some result. */
  lemma OrderOutcome(maxFiles: nat, entries: seq<Entry>, threads: nat, order: seq<Entry>) returns (s: State)
    requires threads > 0 && multiset(order) == multiset(entries) && FileCount(entries) > maxFiles
    ensures IsAnyOutcome(maxFiles, entries, threads, s) && s.done == Within(order, maxFiles)
    ensures IsOutcome(maxFiles, order, threads, s)
  {
    SameFileCount(order, entries);
    s := SequentialReached(maxFiles, order, threads);
  }

  lemma {:induction false} WithinFiles(files: seq<Entry>, others: seq<Entry>, room: nat)
    requires room < |files| && forall i :: 0 <= i < |files| ==> files[i].File?
    ensures Within(files + others, room) == files[..room]
  {
    assert (files + others)[0] == files[0] && (files + others)[1..] == files[1..] + others;
    if room > 0 {
      WithinFiles(files[1..], others, room - 1);
      assert files[..room] == [files[0]] + files[1..][..room - 1];
    }
  }

  lemma {:induction false} FilesAreQuiet(files: seq<Entry>)
    requires forall i :: 0 <= i < |files| ==> files[i].File?
    ensures Noise(files) == 0
  {
    if files != [] {
      FilesAreQuiet(files[..|files| - 1]);
    }
  }

  /** With a message or link, the order decides whether it is seen. */
  lemma NoiseDepends(maxFiles: nat, entries: seq<Entry>, threads: nat, i: nat)
    requires threads > 0 && FileCount(entries) > maxFiles && i < |entries| && IsNoise(entries[i])
    ensures !OneResultInAnyOrder(maxFiles, entries, threads)
  {
    hide IsAnyOutcome, IsOutcome, FileCount, Noise;
    FilesAndOthers(entries);
    var files, others := FilesOf(entries), OthersOf(entries);
    FilesApart(entries);
    NoFiles(others);
    FileCountConcat(files, others);
    SameFileCount(files + others, entries);
    AllFiles(files);
    var s := OrderOutcome(maxFiles, entries, threads, files + others);
    WithinFiles(files, others, maxFiles);
    FilesAreQuiet(files[..maxFiles]);
    var rest := Rotated(entries, i);
    var r := OrderOutcome(maxFiles, entries, threads, [entries[i]] + rest);
    FirstSeen(entries[i], rest, maxFiles);
    NoiseTells(maxFiles, files + others, [entries[i]] + rest, threads, s, r);
  }

  lemma FirstSeen(e: Entry, rest: seq<Entry>, room: nat)
    requires IsNoise(e)
    ensures Noise(Within([e] + rest, room)) > 0
  {
    assert ([e] + rest)[1..] == rest;
    var seen := Within([e] + rest, room);
    assert seen == [e] + Within(rest, room);
    assert seen[0] == e;
    NoiseGrows(seen, 0);
  }

  lemma NoiseTells(maxFiles: nat, a: seq<Entry>, b: seq<Entry>, threads: nat, s: State, r: State)
    requires IsOutcome(maxFiles, a, threads, s) && IsOutcome(maxFiles, b, threads, r) && Noise(s.done) < Noise(r.done)
    ensures Outcome(maxFiles, s) != Outcome(maxFiles, r)
  {
    hide IsOutcome, Outcome, Links, Messages, Recorded;
    OutcomeFields(maxFiles, a, threads, s);
    OutcomeFields(maxFiles, b, threads, r);
    assert |multiset(Messages(s.done))| == |Messages(s.done)| && |multiset(Messages(r.done))| == |Messages(r.done)|;
  }

  /** With a recorded file, the order decides whether it is kept. */
  lemma RecordDepends(maxFiles: nat, entries: seq<Entry>, threads: nat, i: nat, x: DiscoveredFile)
    requires threads > 0 && maxFiles > 0 && FileCount(entries) > maxFiles && DistinctFiles(entries)
    requires HasRecord(entries, i, x)
    ensures !OneResultInAnyOrder(maxFiles, entries, threads)
  {
    hide IsAnyOutcome, IsOutcome, FileCount, Recorded, Within, DistinctFiles;
    var rest := Rotated(entries, i);
    var s := OrderOutcome(maxFiles, entries, threads, [entries[i]] + rest);
    FirstKept(rest, x, maxFiles);
    var r := OrderOutcome(maxFiles, entries, threads, rest + [entries[i]]);
    LastMissed(maxFiles, entries, rest, x);
    RecordTells(maxFiles, [entries[i]] + rest, rest + [entries[i]], threads, s, r, x);
  }

  lemma FirstKept(rest: seq<Entry>, x: DiscoveredFile, room: nat)
    requires room > 0
    ensures x in Recorded(Within([File(Some(x))] + rest, room))
  {
    var e := File(Some(x));
    assert ([e] + rest)[1..] == rest;
    var seen := Within([e] + rest, room);
    assert seen == [e] + Within(rest, room - 1);
    RecordTimes(seen, x);
    assert seen[0] in multiset(seen);
    hide Recorded;
    assert x in multiset(Recorded(seen));
  }

  lemma LastMissed(maxFiles: nat, entries: seq<Entry>, rest: seq<Entry>, x: DiscoveredFile)
    requires multiset(rest + [File(Some(x))]) == multiset(entries) && FileCount(entries) > maxFiles
    requires DistinctFiles(entries)
    ensures x !in Recorded(Within(rest + [File(Some(x))], maxFiles))
  {
    hide Within, Recorded, FileCount, DistinctFiles;
    var order := rest + [File(Some(x))];
    SameFileCount(order, entries);
    var n := CutAt(order, maxFiles);
    assert order[..n] == rest[..n];
    OnlyLast(entries, rest, n, x);
  }

  lemma OnlyLast(entries: seq<Entry>, rest: seq<Entry>, n: nat, x: DiscoveredFile)
    requires multiset(rest + [File(Some(x))]) == multiset(entries) && DistinctFiles(entries) && n <= |rest|
    ensures x !in Recorded(rest[..n])
  {
    hide Recorded, DistinctFiles;
    var e := File(Some(x));
    RecordTimes(rest[..n], x);
    RecordTimes(entries, x);
    RecordedOnce(entries, x);
    assert rest == rest[..n] + rest[n..];
    assert multiset(rest + [e])[e] == multiset(rest[..n])[e] + multiset(rest[n..])[e] + 1;
    assert x in Recorded(rest[..n]) <==> x in multiset(Recorded(rest[..n]));
  }

  lemma RecordedOnce(entries: seq<Entry>, x: DiscoveredFile)
    requires DistinctFiles(entries)
    ensures multiset(Recorded(entries))[x] <= 1
  {
    var files := Recorded(entries);
    assert NoDuplicates(files);
    NoDuplicatesMultiset(files);
  }

  lemma RecordTells(maxFiles: nat, a: seq<Entry>, b: seq<Entry>, threads: nat, s: State, r: State, x: DiscoveredFile)
    requires IsOutcome(maxFiles, a, threads, s) && IsOutcome(maxFiles, b, threads, r)
    requires x in Recorded(s.done) && x !in Recorded(r.done)
    ensures Outcome(maxFiles, s) != Outcome(maxFiles, r)
  {
    hide IsOutcome, Outcome, Recorded;
    OutcomeFields(maxFiles, a, threads, s);
    OutcomeFields(maxFiles, b, threads, r);
    assert x in multiset(Recorded(s.done)) && x !in multiset(Recorded(r.done));
  }

  // ------------------------------------------------------------------- one result

  /** The only result there can be. */
  function TheResult(maxFiles: nat, entries: seq<Entry>): Discovery {
    if FileCount(entries) <= maxFiles then Finish(maxFiles, Recorded(entries), Links(entries), false, Messages(entries))
    else Finish(maxFiles, [], 0, true, [])
  }

  lemma InOneOrder(maxFiles: nat, entries: seq<Entry>, threads: nat, order: seq<Entry>, s: State)
    requires multiset(order) == multiset(entries) && IsOutcome(maxFiles, order, threads, s)
    requires DistinctFiles(entries) && OrderFree(maxFiles, entries)
    ensures Outcome(maxFiles, s) == TheResult(maxFiles, entries)
  {
    hide Reached, Outcome, DistinctFiles, Recorded, Messages, Links, FileCount;
    SameFileCount(order, entries);
    if FileCount(entries) <= maxFiles {
      SameResult(maxFiles, entries, order, threads, s);
    } else {
      SameMembers(order, entries);
      SilentOrder(maxFiles, order, threads, s);
    }
  }

  lemma SilentOrder(maxFiles: nat, order: seq<Entry>, threads: nat, s: State)
    requires IsOutcome(maxFiles, order, threads, s) && FileCount(order) > maxFiles
    requires NoNoise(order) && (maxFiles == 0 || NoRecord(order))
    ensures Outcome(maxFiles, s) == Finish(maxFiles, [], 0, true, [])
  {
    hide Reached, Outcome, FileCount, Finish;
    assert Quiet(maxFiles, order, threads);
    assert maxFiles > 0 ==> Unrecorded(order, maxFiles + threads - 1);
    QuietIsSequential(maxFiles, order, threads, s);
    NoneSeen(maxFiles, order, threads, s);
    var n := CutAt(order, maxFiles);
    hide Within, Recorded;
    Silent(order[..n]);
  }

  lemma {:induction false} Silent(entries: seq<Entry>)
    requires NoNoise(entries)
    ensures Messages(entries) == [] && Links(entries) == 0
  {
    if entries != [] {
      Silent(entries[..|entries| - 1]);
      assert entries[|entries| - 1] in entries;
    }
  }

  lemma OneInAnyOrder(maxFiles: nat, entries: seq<Entry>, threads: nat, s: State)
    requires IsAnyOutcome(maxFiles, entries, threads, s) && DistinctFiles(entries) && OrderFree(maxFiles, entries)
    ensures Outcome(maxFiles, s) == TheResult(maxFiles, entries)
  {
    hide IsOutcome, Outcome, TheResult, DistinctFiles, OrderFree;
    var order :| multiset(order) == multiset(entries) && IsOutcome(maxFiles, order, threads, s);
    InOneOrder(maxFiles, entries, threads, order, s);
  }

  /** When the order may vary as well, the result is one and the same exactly if the walk stays within the limit, or
      has no message and link and, unless the limit is zero, no recorded file. */
  lemma OrderFreeIff(maxFiles: nat, entries: seq<Entry>, threads: nat)
    requires threads > 0 && DistinctFiles(entries)
    ensures OneResultInAnyOrder(maxFiles, entries, threads) <==> OrderFree(maxFiles, entries)
  {
    hide IsAnyOutcome, Outcome, TheResult, DistinctFiles, FileCount;
    if OrderFree(maxFiles, entries) {
      hide OrderFree;
      forall s | IsAnyOutcome(maxFiles, entries, threads, s)
        ensures Outcome(maxFiles, s) == TheResult(maxFiles, entries)
      {
        OneInAnyOrder(maxFiles, entries, threads, s);
      }
    } else if !NoNoise(entries) {
      var e :| e in entries && IsNoise(e);
      var i :| 0 <= i < |entries| && entries[i] == e;
      hide OneResultInAnyOrder;
      NoiseDepends(maxFiles, entries, threads, i);
    } else {
      var e :| e in entries && e.File? && e.record != None;
      var i :| 0 <= i < |entries| && entries[i] == e;
      hide OneResultInAnyOrder;
      RecordDepends(maxFiles, entries, threads, i, e.record.value);
    }
  }
}
