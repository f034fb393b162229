/** Completed runs of the walk: when the result is cut off, and when it depends on the schedule. */
module WalkRuns {
  import opened Wrappers
  import opened Text
  import opened Sorting
  import opened Walk

  // -------------------------------------------------------------------- permutations

  lemma {:induction false} RecordTimes(entries: seq<Entry>, r: DiscoveredFile)
    ensures multiset(Recorded(entries))[r] == multiset(entries)[File(Some(r))]
  {
    if entries != [] {
      RecordTimes(entries[..|entries| - 1], r);
      assert entries == entries[..|entries| - 1] + [entries[|entries| - 1]];
    }
  }

  lemma {:induction false} MessageTimes(entries: seq<Entry>, m: string)
    ensures multiset(Messages(entries))[m] == multiset(entries)[Failure(m)]
  {
    if entries != [] {
      MessageTimes(entries[..|entries| - 1], m);
      assert entries == entries[..|entries| - 1] + [entries[|entries| - 1]];
    }
  }

  lemma {:induction false} LinkTimes(entries: seq<Entry>)
    ensures Links(entries) == multiset(entries)[Symlink]
  {
    if entries != [] {
      LinkTimes(entries[..|entries| - 1]);
      assert entries == entries[..|entries| - 1] + [entries[|entries| - 1]];
    }
  }

  lemma SameEntriesCollect(a: seq<Entry>, b: seq<Entry>)
    requires multiset(a) == multiset(b)
    ensures multiset(Recorded(a)) == multiset(Recorded(b))
    ensures multiset(Messages(a)) == multiset(Messages(b))
    ensures Links(a) == Links(b)
  {
    forall r ensures multiset(Recorded(a))[r] == multiset(Recorded(b))[r] {
      RecordTimes(a, r);
      RecordTimes(b, r);
    }
    forall m ensures multiset(Messages(a))[m] == multiset(Messages(b))[m] {
      MessageTimes(a, m);
      MessageTimes(b, m);
    }
    LinkTimes(a);
    LinkTimes(b);
  }

  lemma {:induction false} FileCountConcat(a: seq<Entry>, b: seq<Entry>)
    ensures FileCount(a + b) == FileCount(a) + FileCount(b)
  {
    if b == [] {
      assert a + b == a;
    } else {
      FileCountConcat(a, b[..|b| - 1]);
      assert (a + b)[..|a + b| - 1] == a + b[..|b| - 1];
    }
  }

  lemma TakeOut(a: seq<Entry>, e: Entry, b: seq<Entry>) returns (c: seq<Entry>)
    requires multiset(a + [e]) <= multiset(b)
    ensures multiset(a) <= multiset(c) && |c| < |b| && FileCount(b) == FileCount(c) + FileCount([e])
  {
    assert e in multiset(a + [e]);
    assert e in multiset(b);
    var k :| 0 <= k < |b| && b[k] == e;
    var left, right := b[..k], b[k + 1..];
    assert b == left + [e] + right;
    c := left + right;
    FileCountConcat(left, right);
    FileCountConcat(left, [e]);
    FileCountConcat(left + [e], right);
    TakenOut(a, e, left, right);
  }

  lemma TakenOut(a: seq<Entry>, e: Entry, left: seq<Entry>, right: seq<Entry>)
    requires multiset(a + [e]) <= multiset(left + [e] + right)
    ensures multiset(a) <= multiset(left + right)
  {
    assert multiset(a + [e]) == multiset(a) + multiset{e};
    assert multiset(left + [e] + right) == multiset(left + right) + multiset{e};
    forall x ensures multiset(a)[x] <= multiset(left + right)[x] {
      assert multiset(a + [e])[x] <= multiset(left + [e] + right)[x];
    }
  }

  lemma {:induction false} FileCountLess(a: seq<Entry>, b: seq<Entry>)
    requires multiset(a) <= multiset(b)
    ensures FileCount(a) <= FileCount(b)
    decreases |a|
  {
    if a != [] {
      var rest, e := a[..|a| - 1], a[|a| - 1];
      assert a == rest + [e];
      var c := TakeOut(rest, e, b);
      FileCountConcat(rest, [e]);
      FileCountLess(rest, c);
    }
  }

  lemma {:induction false} AllFiles(entries: seq<Entry>)
    requires forall i :: 0 <= i < |entries| ==> entries[i].File?
    ensures FileCount(entries) == |entries|
  {
    if entries != [] {
      AllFiles(entries[..|entries| - 1]);
    }
  }

  // ----------------------------------------------------------------- completed runs

  /** The final state of a completed run that was not cancelled. */
  ghost predicate Finals(maxFiles: nat, entries: seq<Entry>, threads: nat, s: State) {
    && Invariant(maxFiles, entries, s) && |s.threads| == threads > 0
    && Completed(s) && !s.cancelled
  }

  lemma RunsAreFinal(maxFiles: nat, entries: seq<Entry>, threads: nat, moves: seq<Move>)
    requires threads > 0 && Runs(maxFiles, Start(entries, threads), moves)
    requires Completed(Run(maxFiles, Start(entries, threads), moves))
    requires !Run(maxFiles, Start(entries, threads), moves).cancelled
    ensures Finals(maxFiles, entries, threads, Run(maxFiles, Start(entries, threads), moves))
  {
    hide Invariant;
    StartKeeps(maxFiles, entries, threads);
    RunKeeps(maxFiles, entries, Start(entries, threads), moves);
  }

  lemma FinalPlaces(maxFiles: nat, entries: seq<Entry>, threads: nat, s: State)
    requires Finals(maxFiles, entries, threads, s)
    ensures multiset(s.done + s.over) <= multiset(entries)
    ensures !s.truncated ==> multiset(s.done) == multiset(entries)
  {
    hide Conserved, Counted, Paced, Agrees, Completed, Resting;
    forall e ensures multiset(s.done + s.over)[e] <= multiset(entries)[e] {
      SomePlaces(entries, s, e);
    }
    if !s.truncated {
      UncutState(maxFiles, entries, threads, s);
      forall e ensures multiset(s.done)[e] == multiset(entries)[e] {
        OnePlace(entries, s, e);
      }
    }
  }

  lemma SomePlaces(entries: seq<Entry>, s: State, e: Entry)
    requires Conserved(entries, s)
    ensures multiset(s.done + s.over)[e] <= multiset(entries)[e]
  {
    assert Places(s, e) == multiset(entries)[e];
  }

  lemma UncutState(maxFiles: nat, entries: seq<Entry>, threads: nat, s: State)
    requires Finals(maxFiles, entries, threads, s) && !s.truncated
    ensures Resting(s.threads) && s.pending == [] && s.over == [] && s.dropped == []
  {
    hide Conserved, Counted, Paced, Collected, OnlyFiles;
    assert s.threads[0] != Stopped;
  }

  lemma OnePlace(entries: seq<Entry>, s: State, e: Entry)
    requires Conserved(entries, s) && Resting(s.threads) && s.pending == [] && s.over == [] && s.dropped == []
    ensures multiset(s.done)[e] == multiset(entries)[e]
  {
    NothingHeld(s.threads, e);
    assert Places(s, e) == multiset(entries)[e];
  }

  /** A completed run is marked truncated exactly when the walk has more files than the limit. */
  lemma TruncatedIff(maxFiles: nat, entries: seq<Entry>, threads: nat, s: State)
    requires Finals(maxFiles, entries, threads, s)
    ensures s.truncated <==> FileCount(entries) > maxFiles
  {
    FinalPlaces(maxFiles, entries, threads, s);
    NothingHeld(s.threads, Other);
    hide Conserved, Places;
    if s.truncated {
      FileCountConcat(s.done, s.over);
      AllFiles(s.over);
      FileCountLess(s.done + s.over, entries);
    } else {
      FileCountLess(entries, s.done);
    }
  }

  /** An uncut run collects every record, message and link of the walk once. */
  lemma UncutCollectsAll(maxFiles: nat, entries: seq<Entry>, threads: nat, s: State)
    requires Finals(maxFiles, entries, threads, s) && !s.truncated
    ensures multiset(s.files) == multiset(Recorded(entries))
    ensures multiset(s.errors) == multiset(Messages(entries)) && s.symlinks == Links(entries)
  {
    FinalPlaces(maxFiles, entries, threads, s);
    hide Conserved, Places;
    SameEntriesCollect(s.done, entries);
  }

  // ----------------------------------------------------------------------- the result

  datatype Discovery = Discovery(files: seq<DiscoveredFile>, symlinks: nat, truncated: bool, errors: seq<string>)

  function LeFile(a: DiscoveredFile, b: DiscoveredFile): bool {
    LeText(a.path, b.path)
  }

  function LeMessage(a: string, b: string): bool {
    LeText(a, b)
  }

  /** Files sorted by path and cut at the limit, messages sorted. */
  function Finish(maxFiles: nat, files: seq<DiscoveredFile>, symlinks: nat, truncated: bool,
                  errors: seq<string>): Discovery
  {
    var sorted := Sort(files, LeFile);
    Discovery(if |sorted| <= maxFiles then sorted else sorted[..maxFiles], symlinks, truncated, Sort(errors, LeMessage))
  }

  function Outcome(maxFiles: nat, s: State): Discovery {
    Finish(maxFiles, s.files, s.symlinks, s.truncated, s.errors)
  }

  /** The limit is kept by the tickets: cutting the sorted list takes nothing away. */
  lemma NothingCut(maxFiles: nat, entries: seq<Entry>, threads: nat, s: State)
    requires Finals(maxFiles, entries, threads, s)
    ensures Outcome(maxFiles, s).files == Sort(s.files, LeFile)
  {
    FewerRecords(s.done);
    SameMembers(s.files, Sort(s.files, LeFile));
  }

  ghost predicate DistinctFiles(entries: seq<Entry>) {
    var files := Recorded(entries);
    forall i, j :: 0 <= i < j < |files| ==> files[i].path != files[j].path
  }

  lemma FileOrder()
    ensures TotalOrder(LeFile) && TotalOrder(LeMessage) && Antisymmetric(LeMessage)
  {
    forall a: DiscoveredFile, b: DiscoveredFile ensures LeFile(a, b) || LeFile(b, a) {
      LeTextTotal(a.path, b.path);
    }
    forall a: DiscoveredFile, b: DiscoveredFile, c: DiscoveredFile | LeFile(a, b) && LeFile(b, c) ensures LeFile(a, c) {
      LeTextTransitive(a.path, b.path, c.path);
    }
    forall a: string, b: string ensures LeMessage(a, b) || LeMessage(b, a) {
      LeTextTotal(a, b);
    }
    forall a: string, b: string, c: string | LeMessage(a, b) && LeMessage(b, c) ensures LeMessage(a, c) {
      LeTextTransitive(a, b, c);
    }
    forall a: string, b: string | LeMessage(a, b) && LeMessage(b, a) ensures a == b {
      LeTextAntisymmetric(a, b);
    }
  }

  lemma PathsTellApart(files: seq<DiscoveredFile>)
    requires forall i, j :: 0 <= i < j < |files| ==> files[i].path != files[j].path
    ensures TellsApart(files, LeFile)
  {
    forall a, b | a in files && b in files && LeFile(a, b) && LeFile(b, a) ensures a == b {
      LeTextAntisymmetric(a.path, b.path);
      var i :| 0 <= i < |files| && files[i] == a;
      var j :| 0 <= j < |files| && files[j] == b;
    }
  }

  /** A walk within the limit has one result, in whatever order its entries are handed out, to however many
      threads and on whatever schedule: the sorted list of everything the walk reports. */
  lemma SameResult(maxFiles: nat, entries: seq<Entry>, order: seq<Entry>, threads: nat, s: State)
    requires multiset(order) == multiset(entries) && Finals(maxFiles, order, threads, s)
    requires FileCount(entries) <= maxFiles && DistinctFiles(entries)
    ensures Outcome(maxFiles, s) == Finish(maxFiles, Recorded(entries), Links(entries), false, Messages(entries))
  {
    hide Finals, Recorded, Messages, Links, FileCount;
    FileCountLess(order, entries);
    TruncatedIff(maxFiles, order, threads, s);
    UncutCollectsAll(maxFiles, order, threads, s);
    SameEntriesCollect(order, entries);
    PathsTellApart(Recorded(entries));
    FileOrder();
    SortOfPermutation(Recorded(entries), s.files, LeFile);
    AntisymmetricTellsApart(Messages(entries), LeMessage);
    SortOfPermutation(Messages(entries), s.errors, LeMessage);
  }
}
