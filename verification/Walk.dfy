/** Collecting files from a walk with any number of threads: the shared state, the atomic steps of a
    thread, and what every interleaving keeps. The entries of the walk are given, in the order in which
    they are handed out. */
module Walk {
  import opened Basics
  import opened Wrappers

  datatype DiscoveredFile = DiscoveredFile(path: string, bytes: nat)

  /** What the walker reports: a problem, or an entry of unknown type, a symbolic link, a regular file
      (with a record when its path lies under the root), or something else. */
  datatype Entry =
    | Failure(message: string)
    | Untyped
    | Symlink
    | File(record: Option<DiscoveredFile>)
    | Other

  /** Where a thread is inside one visit; a visit checks for cancellation, takes a ticket for a file, and
      then records it or gives up. */
  datatype Thread =
    | Idle
    | Holding(entry: Entry)
    | Admitted(entry: Entry)
    | Ticketed(entry: Entry)
    | Over(entry: Entry)
    | Stopped

  /** The shared variables and the threads. The entries still to come, those visited in full, those
      refused by the limit and those dropped on cancellation are history, not program state. */
  datatype State = State(
    threads: seq<Thread>, count: nat, truncated: bool, symlinks: nat,
    files: seq<DiscoveredFile>, errors: seq<string>, cancelled: bool, quit: bool,
    pending: seq<Entry>, done: seq<Entry>, over: seq<Entry>, dropped: seq<Entry>)

  datatype Move = Cancel | Take(thread: nat) | Advance(thread: nat) | Notice(thread: nat)

  function Start(entries: seq<Entry>, threads: nat): State {
    State(seq(threads, _ => Idle), 0, false, 0, [], [], false, false, entries, [], [], [])
  }

  predicate Enabled(s: State, m: Move) {
    match m
    case Cancel => true
    case Take(i) => i < |s.threads| && s.threads[i] == Idle && s.pending != []
    case Advance(i) => i < |s.threads| && s.threads[i] != Idle && s.threads[i] != Stopped
    case Notice(i) => i < |s.threads| && s.threads[i] == Idle && s.quit
  }

  function Set(s: State, i: nat, t: Thread): State
    requires i < |s.threads|
  {
    s.(threads := s.threads[i := t])
  }

  /** The entry is visited in full and the thread goes on. */
  function Finished(s: State, i: nat, e: Entry): State
    requires i < |s.threads|
  {
    Set(s, i, Idle).(done := s.done + [e])
  }

  function Admit(s: State, i: nat, e: Entry): State
    requires i < |s.threads|
  {
    if s.cancelled then Set(s, i, Stopped).(quit := true, dropped := s.dropped + [e]) else Set(s, i, Admitted(e))
  }

  function Inspect(maxFiles: nat, s: State, i: nat, e: Entry): State
    requires i < |s.threads|
  {
    match e
    case Failure(message) => Finished(s, i, e).(errors := s.errors + [message])
    case Untyped => Finished(s, i, e)
    case Symlink => Finished(s, i, e).(symlinks := s.symlinks + 1)
    case Other => Finished(s, i, e)
    case File(_) => Set(s, i, if s.count >= maxFiles then Over(e) else Ticketed(e)).(count := s.count + 1)
  }

  /** What the thread does after it has inspected the entry. */
  function Next(maxFiles: nat, s: State, e: Entry): Thread {
    if !e.File? then Idle else if s.count >= maxFiles then Over(e) else Ticketed(e)
  }

  lemma InspectEffect(maxFiles: nat, s: State, i: nat, e: Entry)
    requires i < |s.threads|
    ensures var r := Inspect(maxFiles, s, i, e);
      && r.threads == s.threads[i := Next(maxFiles, s, e)] && r.pending == s.pending && r.over == s.over
      && r.done == (if e.File? then s.done else s.done + [e]) && r.count == s.count + (if e.File? then 1 else 0)
  {
  }

  function Record(s: State, i: nat, e: Entry): State
    requires i < |s.threads|
  {
    Finished(s, i, e).(files := s.files + if e.File? && e.record.Some? then [e.record.value] else [])
  }

  function GiveUp(s: State, i: nat, e: Entry): State
    requires i < |s.threads|
  {
    Set(s, i, Stopped).(truncated := true, quit := true, over := s.over + [e])
  }

  function TakeUp(s: State, i: nat): State
    requires i < |s.threads| && s.pending != []
  {
    Set(s, i, Holding(s.pending[0])).(pending := s.pending[1..])
  }

  function Step(maxFiles: nat, s: State, m: Move): State
    requires Enabled(s, m)
  {
    match m
    case Cancel => s.(cancelled := true)
    case Take(i) => TakeUp(s, i)
    case Notice(i) => Set(s, i, Stopped)
    case Advance(i) =>
      match s.threads[i]
      case Holding(e) => Admit(s, i, e)
      case Admitted(e) => Inspect(maxFiles, s, i, e)
      case Ticketed(e) => Record(s, i, e)
      case Over(e) => GiveUp(s, i, e)
  }

  ghost predicate Runs(maxFiles: nat, s: State, moves: seq<Move>)
    decreases |moves|
  {
    moves == [] || (Enabled(s, moves[0]) && Runs(maxFiles, Step(maxFiles, s, moves[0]), moves[1..]))
  }

  ghost function Run(maxFiles: nat, s: State, moves: seq<Move>): State
    requires Runs(maxFiles, s, moves)
    decreases |moves|
  {
    if moves == [] then s else Run(maxFiles, Step(maxFiles, s, moves[0]), moves[1..])
  }

  /** No thread is inside a visit, and the entries have run out or every thread has stopped. */
  ghost predicate Completed(s: State) {
    && Resting(s.threads)
    && (s.pending == [] || forall i :: 0 <= i < |s.threads| ==> s.threads[i] == Stopped)
  }

  // ------------------------------------------------------------ what entries amount to

  function Recorded(entries: seq<Entry>): seq<DiscoveredFile> {
    if entries == [] then []
    else
      var e := entries[|entries| - 1];
      Recorded(entries[..|entries| - 1]) + if e.File? && e.record.Some? then [e.record.value] else []
  }

  function Messages(entries: seq<Entry>): seq<string> {
    if entries == [] then []
    else
      var e := entries[|entries| - 1];
      Messages(entries[..|entries| - 1]) + if e.Failure? then [e.message] else []
  }

  function Links(entries: seq<Entry>): nat {
    if entries == [] then 0 else Links(entries[..|entries| - 1]) + if entries[|entries| - 1].Symlink? then 1 else 0
  }

  function FileCount(entries: seq<Entry>): nat {
    if entries == [] then 0 else FileCount(entries[..|entries| - 1]) + if entries[|entries| - 1].File? then 1 else 0
  }

  lemma OneMore(entries: seq<Entry>, e: Entry)
    ensures Recorded(entries + [e]) == Recorded(entries) + (if e.File? && e.record.Some? then [e.record.value] else [])
    ensures Messages(entries + [e]) == Messages(entries) + (if e.Failure? then [e.message] else [])
    ensures Links(entries + [e]) == Links(entries) + (if e.Symlink? then 1 else 0)
    ensures FileCount(entries + [e]) == FileCount(entries) + (if e.File? then 1 else 0)
  {
    assert (entries + [e])[..|entries|] == entries;
  }

  lemma FileNext(entries: seq<Entry>, n: nat)
    requires n < |entries|
    ensures FileCount(entries[..n + 1]) == FileCount(entries[..n]) + (if entries[n].File? then 1 else 0)
  {
    OneMore(entries[..n], entries[n]);
    assert entries[..n + 1] == entries[..n] + [entries[n]];
  }

  lemma {:induction false} FewerRecords(entries: seq<Entry>)
    ensures |Recorded(entries)| <= FileCount(entries)
  {
    if entries != [] {
      FewerRecords(entries[..|entries| - 1]);
    }
  }

  // -------------------------------------------------------------------- the threads

  function Holds(t: Thread, e: Entry): nat {
    if !t.Idle? && !t.Stopped? && t.entry == e then 1 else 0
  }

  /** How many threads are visiting such an entry. */
  ghost function Held(ts: seq<Thread>, e: Entry): nat {
    if ts == [] then 0 else Holds(ts[0], e) + Held(ts[1..], e)
  }

  function HasTicket(t: Thread): nat {
    if t.Ticketed? then 1 else 0
  }

  ghost function Tickets(ts: seq<Thread>): nat {
    if ts == [] then 0 else HasTicket(ts[0]) + Tickets(ts[1..])
  }

  function IsOver(t: Thread): nat {
    if t.Over? then 1 else 0
  }

  ghost function Overs(ts: seq<Thread>): nat {
    if ts == [] then 0 else IsOver(ts[0]) + Overs(ts[1..])
  }

  lemma {:induction false} SetHeld(ts: seq<Thread>, i: nat, t: Thread, e: Entry)
    requires i < |ts|
    ensures Held(ts[i := t], e) + Holds(ts[i], e) == Held(ts, e) + Holds(t, e)
  {
    if i == 0 {
      assert ts[0 := t][1..] == ts[1..];
    } else {
      SetHeld(ts[1..], i - 1, t, e);
      assert ts[i := t][1..] == ts[1..][i - 1 := t];
    }
  }

  lemma {:induction false} SetTickets(ts: seq<Thread>, i: nat, t: Thread)
    requires i < |ts|
    ensures Tickets(ts[i := t]) + HasTicket(ts[i]) == Tickets(ts) + HasTicket(t)
    ensures Overs(ts[i := t]) + IsOver(ts[i]) == Overs(ts) + IsOver(t)
  {
    if i == 0 {
      assert ts[0 := t][1..] == ts[1..];
    } else {
      SetTickets(ts[1..], i - 1, t);
      assert ts[i := t][1..] == ts[1..][i - 1 := t];
    }
  }

  /** A thread that visits a file or has stopped. */
  function IsBusy(t: Thread): nat {
    if t.Stopped? || (!t.Idle? && t.entry.File?) then 1 else 0
  }

  ghost function BusyThreads(ts: seq<Thread>): nat {
    if ts == [] then 0 else IsBusy(ts[0]) + BusyThreads(ts[1..])
  }

  lemma {:induction false} SetBusy(ts: seq<Thread>, i: nat, t: Thread)
    requires i < |ts|
    ensures BusyThreads(ts[i := t]) + IsBusy(ts[i]) == BusyThreads(ts) + IsBusy(t)
    ensures BusyThreads(ts) <= |ts|
  {
    if i == 0 {
      assert ts[0 := t][1..] == ts[1..];
      if |ts| > 1 {
        SetBusy(ts[1..], 0, t);
      }
    } else {
      SetBusy(ts[1..], i - 1, t);
      assert ts[i := t][1..] == ts[1..][i - 1 := t];
    }
  }

  lemma FreeThread(ts: seq<Thread>, i: nat)
    requires i < |ts| && ts[i] == Idle
    ensures BusyThreads(ts) < |ts|
  {
    SetBusy(ts, i, Stopped);
    SetBusy(ts[i := Stopped], i, Stopped);
  }

  ghost predicate Resting(ts: seq<Thread>) {
    forall i :: 0 <= i < |ts| ==> ts[i] == Idle || ts[i] == Stopped
  }

  lemma {:induction false} NothingHeld(ts: seq<Thread>, e: Entry)
    requires Resting(ts)
    ensures Held(ts, e) == 0 && Tickets(ts) == 0 && Overs(ts) == 0
  {
    if ts != [] {
      assert ts[0] == Idle || ts[0] == Stopped;
      NothingHeld(ts[1..], e);
    }
  }

  // ------------------------------------------------------------------- the invariant

  ghost function Places(s: State, e: Entry): nat {
    multiset(s.pending)[e] + Held(s.threads, e) + multiset(s.done)[e] + multiset(s.over)[e] + multiset(s.dropped)[e]
  }

  /** No entry is lost or visited twice. */
  ghost predicate Conserved(entries: seq<Entry>, s: State) {
    forall e :: Places(s, e) == multiset(entries)[e]
  }

  /** The shared variables are what the visited entries amount to. */
  ghost predicate Collected(s: State) {
    s.files == Recorded(s.done) && s.errors == Messages(s.done) && s.symlinks == Links(s.done)
  }

  /** Tickets below the limit are recorded or about to be; the others are refused or about to be. */
  ghost predicate Counted(maxFiles: nat, s: State) {
    && FileCount(s.done) + Tickets(s.threads) == Min(s.count, maxFiles)
    && |s.over| + Overs(s.threads) == s.count - Min(s.count, maxFiles)
  }

  ghost predicate OnlyFiles(s: State) {
    && (forall i :: 0 <= i < |s.over| ==> s.over[i].File?)
    && (forall i :: 0 <= i < |s.threads| && (s.threads[i].Ticketed? || s.threads[i].Over?) ==> s.threads[i].entry.File?)
  }

  ghost predicate Flagged(s: State) {
    && (s.truncated <==> s.over != [])
    && (s.quit ==> s.truncated || s.cancelled)
    && (s.dropped != [] ==> s.cancelled)
    && (forall i :: 0 <= i < |s.threads| && s.threads[i] == Stopped ==> s.quit)
  }

  ghost predicate Agrees(s: State) {
    Collected(s) && OnlyFiles(s) && Flagged(s)
  }

  /** The entries handed out so far are the first ones of the walk. */
  ghost predicate InOrder(entries: seq<Entry>, s: State) {
    |s.pending| <= |entries| && s.pending == entries[|entries| - |s.pending|..]
  }

  ghost function HandedOut(entries: seq<Entry>, s: State): seq<Entry>
    requires |s.pending| <= |entries|
  {
    entries[..|entries| - |s.pending|]
  }

  /** A file handed out is visited, or it occupies or has stopped a thread of its own; so no thread gets
      an entry that comes after as many files as the limit and the threads together. */
  ghost predicate Paced(maxFiles: nat, entries: seq<Entry>, s: State) {
    && InOrder(entries, s)
    && FileCount(HandedOut(entries, s)) <= FileCount(s.done) + BusyThreads(s.threads)
    && (|s.pending| < |entries| ==> FileCount(entries[..|entries| - |s.pending| - 1]) < maxFiles + |s.threads|)
  }

  ghost predicate Invariant(maxFiles: nat, entries: seq<Entry>, s: State) {
    Conserved(entries, s) && Agrees(s) && Counted(maxFiles, s) && Paced(maxFiles, entries, s)
  }

  lemma StartKeeps(maxFiles: nat, entries: seq<Entry>, threads: nat)
    ensures Invariant(maxFiles, entries, Start(entries, threads))
  {
    forall e ensures Places(Start(entries, threads), e) == multiset(entries)[e] {
      NothingHeld(Start(entries, threads).threads, e);
    }
    NothingHeld(Start(entries, threads).threads, Other);
    StartPaced(maxFiles, entries, threads);
  }

  lemma {:induction false} StartPaced(maxFiles: nat, entries: seq<Entry>, threads: nat)
    ensures Paced(maxFiles, entries, Start(entries, threads))
  {
  }

  ghost predicate Visiting(s: State, i: nat, e: Entry) {
    i < |s.threads| && !s.threads[i].Idle? && !s.threads[i].Stopped? && s.threads[i].entry == e
  }

  // Each entry keeps its one place.

  lemma TakeUpPlaces(s: State, i: nat, e: Entry)
    requires i < |s.threads| && s.threads[i] == Idle && s.pending != []
    ensures Places(TakeUp(s, i), e) == Places(s, e)
  {
    SetHeld(s.threads, i, Holding(s.pending[0]), e);
    assert s.pending == [s.pending[0]] + s.pending[1..];
  }

  lemma AdmitPlaces(s: State, i: nat, held: Entry, e: Entry)
    requires Visiting(s, i, held)
    ensures Places(Admit(s, i, held), e) == Places(s, e)
  {
    SetHeld(s.threads, i, if s.cancelled then Stopped else Admitted(held), e);
  }

  lemma InspectPlaces(maxFiles: nat, s: State, i: nat, held: Entry, e: Entry)
    requires Visiting(s, i, held)
    ensures Places(Inspect(maxFiles, s, i, held), e) == Places(s, e)
  {
    InspectEffect(maxFiles, s, i, held);
    SetHeld(s.threads, i, Next(maxFiles, s, held), e);
  }

  lemma RecordPlaces(s: State, i: nat, held: Entry, e: Entry)
    requires Visiting(s, i, held)
    ensures Places(Record(s, i, held), e) == Places(s, e)
  {
    SetHeld(s.threads, i, Idle, e);
  }

  lemma GiveUpPlaces(s: State, i: nat, held: Entry, e: Entry)
    requires Visiting(s, i, held)
    ensures Places(GiveUp(s, i, held), e) == Places(s, e)
  {
    SetHeld(s.threads, i, Stopped, e);
  }

  lemma NoticePlaces(s: State, i: nat, e: Entry)
    requires i < |s.threads| && s.threads[i] == Idle
    ensures Places(Set(s, i, Stopped), e) == Places(s, e)
  {
    SetHeld(s.threads, i, Stopped, e);
  }

  lemma StepPlaces(maxFiles: nat, s: State, m: Move, e: Entry)
    requires Enabled(s, m)
    ensures Places(Step(maxFiles, s, m), e) == Places(s, e)
  {
    hide TakeUp, Admit, Inspect, Record, GiveUp, Set, Held;
    match m
    case Cancel =>
    case Take(i) => TakeUpPlaces(s, i, e);
    case Notice(i) => NoticePlaces(s, i, e);
    case Advance(i) =>
      match s.threads[i]
      case Holding(held) => AdmitPlaces(s, i, held, e);
      case Admitted(held) => InspectPlaces(maxFiles, s, i, held, e);
      case Ticketed(held) => RecordPlaces(s, i, held, e);
      case Over(held) => GiveUpPlaces(s, i, held, e);
  }

  lemma StepConserves(maxFiles: nat, entries: seq<Entry>, s: State, m: Move)
    requires Enabled(s, m) && Conserved(entries, s)
    ensures Conserved(entries, Step(maxFiles, s, m))
  {
    hide Places, Step;
    forall e ensures Places(Step(maxFiles, s, m), e) == multiset(entries)[e] {
      StepPlaces(maxFiles, s, m, e);
    }
  }

  // The variables stay what the visited entries amount to.

  lemma TakeUpAgrees(s: State, i: nat)
    requires i < |s.threads| && s.threads[i] == Idle && s.pending != [] && Agrees(s)
    ensures Agrees(TakeUp(s, i))
  {
  }

  lemma AdmitAgrees(s: State, i: nat, e: Entry)
    requires Visiting(s, i, e) && s.threads[i].Holding? && Agrees(s)
    ensures Agrees(Admit(s, i, e))
  {
  }

  lemma InspectAgrees(maxFiles: nat, s: State, i: nat, e: Entry)
    requires Visiting(s, i, e) && s.threads[i].Admitted? && Agrees(s)
    ensures Agrees(Inspect(maxFiles, s, i, e))
  {
    hide Collected, OnlyFiles, Flagged, Inspect;
    InspectCollected(maxFiles, s, i, e);
    InspectOnlyFiles(maxFiles, s, i, e);
    InspectFlagged(maxFiles, s, i, e);
  }

  lemma InspectCollected(maxFiles: nat, s: State, i: nat, e: Entry)
    requires Visiting(s, i, e) && Collected(s)
    ensures Collected(Inspect(maxFiles, s, i, e))
  {
    OneMore(s.done, e);
  }

  lemma InspectOnlyFiles(maxFiles: nat, s: State, i: nat, e: Entry)
    requires Visiting(s, i, e) && OnlyFiles(s)
    ensures OnlyFiles(Inspect(maxFiles, s, i, e))
  {
  }

  lemma InspectFlagged(maxFiles: nat, s: State, i: nat, e: Entry)
    requires Visiting(s, i, e) && Flagged(s)
    ensures Flagged(Inspect(maxFiles, s, i, e))
  {
  }

  lemma RecordAgrees(s: State, i: nat, e: Entry)
    requires Visiting(s, i, e) && s.threads[i].Ticketed? && e.File? && Agrees(s)
    ensures Agrees(Record(s, i, e))
  {
    OneMore(s.done, e);
  }

  lemma GiveUpAgrees(s: State, i: nat, e: Entry)
    requires Visiting(s, i, e) && s.threads[i].Over? && e.File? && Agrees(s)
    ensures Agrees(GiveUp(s, i, e))
  {
  }

  lemma NoticeAgrees(s: State, i: nat)
    requires i < |s.threads| && s.threads[i] == Idle && s.quit && Agrees(s)
    ensures Agrees(Set(s, i, Stopped))
  {
  }

  lemma StepAgrees(maxFiles: nat, s: State, m: Move)
    requires Enabled(s, m) && Agrees(s)
    ensures Agrees(Step(maxFiles, s, m))
  {
    hide TakeUp, Admit, Inspect, Record, GiveUp, Set;
    match m
    case Cancel =>
    case Take(i) => TakeUpAgrees(s, i);
    case Notice(i) => NoticeAgrees(s, i);
    case Advance(i) =>
      match s.threads[i]
      case Holding(e) => AdmitAgrees(s, i, e);
      case Admitted(e) => InspectAgrees(maxFiles, s, i, e);
      case Ticketed(e) => RecordAgrees(s, i, e);
      case Over(e) => GiveUpAgrees(s, i, e);
  }

  // The tickets add up.

  lemma TakeUpCounts(maxFiles: nat, s: State, i: nat)
    requires i < |s.threads| && s.threads[i] == Idle && s.pending != [] && Counted(maxFiles, s)
    ensures Counted(maxFiles, TakeUp(s, i))
  {
    SetTickets(s.threads, i, Holding(s.pending[0]));
  }

  lemma AdmitCounts(maxFiles: nat, s: State, i: nat, e: Entry)
    requires Visiting(s, i, e) && s.threads[i].Holding? && Counted(maxFiles, s)
    ensures Counted(maxFiles, Admit(s, i, e))
  {
    SetTickets(s.threads, i, if s.cancelled then Stopped else Admitted(e));
  }

  lemma InspectCounts(maxFiles: nat, s: State, i: nat, e: Entry)
    requires Visiting(s, i, e) && s.threads[i].Admitted? && Counted(maxFiles, s)
    ensures Counted(maxFiles, Inspect(maxFiles, s, i, e))
  {
    hide Inspect, FileCount, Tickets, Overs;
    OneMore(s.done, e);
    InspectEffect(maxFiles, s, i, e);
    SetTickets(s.threads, i, Next(maxFiles, s, e));
  }

  lemma RecordCounts(maxFiles: nat, s: State, i: nat, e: Entry)
    requires Visiting(s, i, e) && s.threads[i].Ticketed? && e.File? && Counted(maxFiles, s)
    ensures Counted(maxFiles, Record(s, i, e))
  {
    OneMore(s.done, e);
    SetTickets(s.threads, i, Idle);
  }

  lemma GiveUpCounts(maxFiles: nat, s: State, i: nat, e: Entry)
    requires Visiting(s, i, e) && s.threads[i].Over? && e.File? && Counted(maxFiles, s)
    ensures Counted(maxFiles, GiveUp(s, i, e))
  {
    SetTickets(s.threads, i, Stopped);
  }

  lemma NoticeCounts(maxFiles: nat, s: State, i: nat)
    requires i < |s.threads| && s.threads[i] == Idle && s.quit && Counted(maxFiles, s)
    ensures Counted(maxFiles, Set(s, i, Stopped))
  {
    SetTickets(s.threads, i, Stopped);
  }

  lemma StepCounts(maxFiles: nat, s: State, m: Move)
    requires Enabled(s, m) && OnlyFiles(s) && Counted(maxFiles, s)
    ensures Counted(maxFiles, Step(maxFiles, s, m))
  {
    hide TakeUp, Admit, Inspect, Record, GiveUp, Set;
    match m
    case Cancel =>
    case Take(i) => TakeUpCounts(maxFiles, s, i);
    case Notice(i) => NoticeCounts(maxFiles, s, i);
    case Advance(i) =>
      match s.threads[i]
      case Holding(e) => AdmitCounts(maxFiles, s, i, e);
      case Admitted(e) => InspectCounts(maxFiles, s, i, e);
      case Ticketed(e) => RecordCounts(maxFiles, s, i, e);
      case Over(e) => GiveUpCounts(maxFiles, s, i, e);
  }

  // The threads get no further ahead than the pace allows.

  lemma TakeUpPaced(maxFiles: nat, entries: seq<Entry>, s: State, i: nat)
    requires i < |s.threads| && s.threads[i] == Idle && s.pending != []
    requires Counted(maxFiles, s) && Paced(maxFiles, entries, s)
    ensures Paced(maxFiles, entries, TakeUp(s, i))
  {
    hide FileCount, BusyThreads, Tickets, Overs;
    var n, e, r := |entries| - |s.pending|, s.pending[0], TakeUp(s, i);
    FileNext(entries, n);
    FreeThread(s.threads, i);
    SetBusy(s.threads, i, Holding(e));
    assert |r.pending| == |entries| - (n + 1) && r.pending == entries[n + 1..];
    assert FileCount(entries[..n]) < maxFiles + |s.threads|;
  }

  /** A thread moves on; it may only become free of a file that is then visited. */
  lemma MovePaced(maxFiles: nat, entries: seq<Entry>, s: State, i: nat, t: Thread, r: State)
    requires i < |s.threads| && Paced(maxFiles, entries, s)
    requires r.threads == s.threads[i := t] && r.pending == s.pending
    requires FileCount(s.done) + IsBusy(s.threads[i]) <= FileCount(r.done) + IsBusy(t)
    ensures Paced(maxFiles, entries, r)
  {
    SetBusy(s.threads, i, t);
  }

  lemma AdmitPaced(maxFiles: nat, entries: seq<Entry>, s: State, i: nat, e: Entry)
    requires Visiting(s, i, e) && Paced(maxFiles, entries, s)
    ensures Paced(maxFiles, entries, Admit(s, i, e))
  {
    hide Paced;
    MovePaced(maxFiles, entries, s, i, if s.cancelled then Stopped else Admitted(e), Admit(s, i, e));
  }

  lemma InspectPaced(maxFiles: nat, entries: seq<Entry>, s: State, i: nat, e: Entry)
    requires Visiting(s, i, e) && Paced(maxFiles, entries, s)
    ensures Paced(maxFiles, entries, Inspect(maxFiles, s, i, e))
  {
    hide Paced, Inspect;
    OneMore(s.done, e);
    InspectEffect(maxFiles, s, i, e);
    MovePaced(maxFiles, entries, s, i, Next(maxFiles, s, e), Inspect(maxFiles, s, i, e));
  }

  lemma RecordPaced(maxFiles: nat, entries: seq<Entry>, s: State, i: nat, e: Entry)
    requires Visiting(s, i, e) && e.File? && Paced(maxFiles, entries, s)
    ensures Paced(maxFiles, entries, Record(s, i, e))
  {
    hide Paced;
    OneMore(s.done, e);
    MovePaced(maxFiles, entries, s, i, Idle, Record(s, i, e));
  }

  lemma StopPaced(maxFiles: nat, entries: seq<Entry>, s: State, i: nat, r: State)
    requires i < |s.threads| && Paced(maxFiles, entries, s)
    requires r.threads == s.threads[i := Stopped] && r.pending == s.pending && r.done == s.done
    ensures Paced(maxFiles, entries, r)
  {
    hide Paced;
    MovePaced(maxFiles, entries, s, i, Stopped, r);
  }

  lemma CancelPaced(maxFiles: nat, entries: seq<Entry>, s: State)
    requires Paced(maxFiles, entries, s)
    ensures Paced(maxFiles, entries, s.(cancelled := true))
  {
  }

  lemma StepPaced(maxFiles: nat, entries: seq<Entry>, s: State, m: Move)
    requires Enabled(s, m) && OnlyFiles(s) && Counted(maxFiles, s) && Paced(maxFiles, entries, s)
    ensures Paced(maxFiles, entries, Step(maxFiles, s, m))
  {
    hide TakeUp, Admit, Inspect, Record, Paced, Counted;
    match m
    case Cancel => CancelPaced(maxFiles, entries, s);
    case Take(i) => TakeUpPaced(maxFiles, entries, s, i);
    case Notice(i) => StopPaced(maxFiles, entries, s, i, Set(s, i, Stopped));
    case Advance(i) =>
      match s.threads[i]
      case Holding(e) => AdmitPaced(maxFiles, entries, s, i, e);
      case Admitted(e) => InspectPaced(maxFiles, entries, s, i, e);
      case Ticketed(e) => RecordPaced(maxFiles, entries, s, i, e);
      case Over(e) => StopPaced(maxFiles, entries, s, i, GiveUp(s, i, e));
  }

  /** Every step of every thread keeps the invariant. */
  lemma StepKeeps(maxFiles: nat, entries: seq<Entry>, s: State, m: Move)
    requires Enabled(s, m) && Invariant(maxFiles, entries, s)
    ensures Invariant(maxFiles, entries, Step(maxFiles, s, m))
  {
    hide Conserved, Collected, Counted, Flagged, Paced, Step;
    StepConserves(maxFiles, entries, s, m);
    StepAgrees(maxFiles, s, m);
    StepCounts(maxFiles, s, m);
    StepPaced(maxFiles, entries, s, m);
  }

  lemma StepKeepsThreads(maxFiles: nat, s: State, m: Move)
    requires Enabled(s, m)
    ensures |Step(maxFiles, s, m).threads| == |s.threads|
  {
    match m
    case Cancel =>
    case Take(i) =>
    case Notice(i) =>
    case Advance(i) =>
      match s.threads[i]
      case Holding(e) =>
      case Admitted(e) => assert |Inspect(maxFiles, s, i, e).threads| == |s.threads|;
      case Ticketed(e) =>
      case Over(e) =>
  }

  lemma {:induction false} RunKeeps(maxFiles: nat, entries: seq<Entry>, s: State, moves: seq<Move>)
    requires Runs(maxFiles, s, moves) && Invariant(maxFiles, entries, s)
    ensures Invariant(maxFiles, entries, Run(maxFiles, s, moves))
    ensures |Run(maxFiles, s, moves).threads| == |s.threads|
    decreases |moves|
  {
    hide Invariant, Step;
    if moves != [] {
      StepKeepsThreads(maxFiles, s, moves[0]);
      StepKeeps(maxFiles, entries, s, moves[0]);
      RunKeeps(maxFiles, entries, Step(maxFiles, s, moves[0]), moves[1..]);
    }
  }

  /** However the threads interleave, at most `maxFiles` files are recorded. */
  lemma NeverTooMany(maxFiles: nat, entries: seq<Entry>, threads: nat, moves: seq<Move>)
    requires Runs(maxFiles, Start(entries, threads), moves)
    ensures |Run(maxFiles, Start(entries, threads), moves).files| <= maxFiles
  {
    StartKeeps(maxFiles, entries, threads);
    RunKeeps(maxFiles, entries, Start(entries, threads), moves);
    FewerRecords(Run(maxFiles, Start(entries, threads), moves).done);
  }

  lemma {:induction false} FewerBefore(entries: seq<Entry>, i: nat, j: nat)
    requires i <= j <= |entries|
    ensures FileCount(entries[..i]) <= FileCount(entries[..j])
  {
    if i < j {
      FewerBefore(entries, i, j - 1);
      FileNext(entries, j - 1);
    }
  }

  /** However the threads interleave, no entry is handed out that comes after as many files as the limit
      and the number of threads together. */
  lemma NeverTooFar(maxFiles: nat, entries: seq<Entry>, threads: nat, moves: seq<Move>, i: nat)
    requires Runs(maxFiles, Start(entries, threads), moves)
    requires i + |Run(maxFiles, Start(entries, threads), moves).pending| < |entries|
    ensures FileCount(entries[..i]) < maxFiles + threads
  {
    hide Conserved, Agrees, Counted;
    StartKeeps(maxFiles, entries, threads);
    RunKeeps(maxFiles, entries, Start(entries, threads), moves);
    FewerBefore(entries, i, |entries| - |Run(maxFiles, Start(entries, threads), moves).pending| - 1);
  }
}
