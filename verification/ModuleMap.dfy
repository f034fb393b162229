/** The module map: every file is in exactly one module, the one with the longest directory around it. */
module ModuleMap {
  import opened Wrappers
  import opened Text
  import opened Sorting
  import opened PathText
  import opened Confidences
  import opened ModuleDrafts
  import opened ModuleEvidence
  import opened ModuleInference
  import opened PackageModules
  import opened ModuleNames

  datatype Module = Module(
    id: string, name: string, path: Path, kind: Kind, confidence: Confidence, evidence: Evidence)

  function Directories(packages: seq<PackageBoundary>): seq<Path> {
    seq(|packages|, i requires 0 <= i < |packages| => packages[i].path)
  }

  function PackageNames(packages: seq<PackageBoundary>): seq<string> {
    seq(|packages|, i requires 0 <= i < |packages| => packages[i].name)
  }

  function Id(path: Path): string {
    if path == [] then ROOT_MODULE else Render(path)
  }

  // ---------------------------------------------------------------- settled drafts

  ghost predicate Covers(paths: seq<Path>, ds: seq<Draft>) {
    forall f: nat :: f < |paths| ==> InSome(ds, f)
  }

  ghost predicate InSome(ds: seq<Draft>, f: nat) {
    exists i :: 0 <= i < |ds| && f in ds[i].files
  }

  ghost predicate OnceEach(ds: seq<Draft>) {
    forall i :: 0 <= i < |ds| ==> NoDuplicates(ds[i].files)
  }

  /** The drafts hold every file once, each in the deepest of their directories around it. */
  ghost predicate Settled(packages: seq<Path>, paths: seq<Path>, ds: seq<Draft>) {
    AllHold(paths, ds) && Apart(paths, ds) && AllFit(packages, ds) && Covers(paths, ds) && OnceEach(ds)
  }

  lemma {:induction false} FlatOnce(ds: seq<Draft>)
    requires NoDuplicates(Flat(ds))
    ensures OnceEach(ds)
  {
    if ds != [] {
      var all, first, rest := Flat(ds), ds[0].files, Flat(ds[1..]);
      assert forall i :: 0 <= i < |first| ==> first[i] == all[i];
      assert forall i :: 0 <= i < |rest| ==> rest[i] == all[|first| + i];
      FlatOnce(ds[1..]);
    }
  }

  lemma FittingSettles(packages: seq<Path>, paths: seq<Path>, ds: seq<Draft>)
    requires Fitting(packages, paths, ds, Indices(|paths|))
    ensures Settled(packages, paths, ds)
  {
    NoDuplicatesMultiset(Flat(ds));
    NoDuplicatesMultiset(Indices(|paths|));
    FlatOnce(ds);
    forall f: nat | f < |paths| ensures InSome(ds, f) {
      assert Indices(|paths|)[f] == f;
      var i := GroupCovers(paths, ds, Indices(|paths|), f);
    }
  }

  lemma ApartDistinct(paths: seq<Path>, ds: seq<Draft>)
    requires AllHold(paths, ds) && Apart(paths, ds)
    ensures DistinctDirectories(ds) && NoDuplicates(ds)
  {
    forall i, j | 0 <= i < j < |ds| ensures ds[i].path != ds[j].path {
      DistinctPaths(paths, ds, i, j);
    }
  }

  lemma HeldOnce(paths: seq<Path>, ds: seq<Draft>, i: nat, j: nat, f: nat)
    requires AllHold(paths, ds) && Apart(paths, ds) && i < |ds| && j < |ds| && i != j && f in ds[j].files
    ensures f !in ds[i].files
  {
    assert Holds(paths, ds[i]) && Holds(paths, ds[j]);
    assert Yields(paths, ds[i], ds[j]) && Yields(paths, ds[j], ds[i]);
  }

  /** Reordering the drafts settles nothing anew. */
  lemma SettledPermutation(packages: seq<Path>, paths: seq<Path>, ds: seq<Draft>, r: seq<Draft>)
    requires Settled(packages, paths, ds) && multiset(r) == multiset(ds)
    ensures Settled(packages, paths, r)
  {
    SameMembers(ds, r);
    ApartDistinct(paths, ds);
    NoDuplicatesMultiset(ds);
    NoDuplicatesMultiset(r);
    PermutationHolds(packages, paths, ds, r);
    PermutationApart(paths, ds, r);
    PermutationCovers(paths, ds, r);
    PermutationOnce(ds, r);
  }

  lemma PermutationOnce(ds: seq<Draft>, r: seq<Draft>)
    requires OnceEach(ds) && forall x :: x in r ==> x in ds
    ensures OnceEach(r)
  {
    hide NoDuplicates;
    forall i | 0 <= i < |r| ensures NoDuplicates(r[i].files) {
      assert r[i] in ds;
    }
  }

  lemma PermutationHolds(packages: seq<Path>, paths: seq<Path>, ds: seq<Draft>, r: seq<Draft>)
    requires AllHold(paths, ds) && AllFit(packages, ds) && forall x :: x in r ==> x in ds
    ensures AllHold(paths, r) && AllFit(packages, r)
  {
    hide Holds, KindFits;
    forall i | 0 <= i < |r| ensures Holds(paths, r[i]) && KindFits(packages, r[i]) {
      assert r[i] in ds;
    }
  }

  lemma PermutationApart(paths: seq<Path>, ds: seq<Draft>, r: seq<Draft>)
    requires Apart(paths, ds) && NoDuplicates(r) && forall x :: x in r ==> x in ds
    ensures Apart(paths, r)
  {
    hide Yields;
    forall i, j | 0 <= i < |r| && 0 <= j < |r| && i != j ensures Yields(paths, r[i], r[j]) {
      assert r[i] in ds && r[j] in ds;
      assert r[i] != r[j];
    }
  }

  lemma PermutationCovers(paths: seq<Path>, ds: seq<Draft>, r: seq<Draft>)
    requires Covers(paths, ds) && forall x :: x in ds ==> x in r
    ensures Covers(paths, r)
  {
    forall f: nat | f < |paths| ensures InSome(r, f) {
      assert InSome(ds, f);
      var i :| 0 <= i < |ds| && f in ds[i].files;
      assert ds[i] in r;
      var j :| 0 <= j < |r| && r[j] == ds[i];
    }
  }

  // ----------------------------------------------------------------------- merging

  function LeDraft(a: Draft, b: Draft): bool {
    LeText(Render(a.path), Render(b.path))
  }

  /** A draft for the directory of the last one joins it. */
  function MergeOne(merged: seq<Draft>, d: Draft): seq<Draft> {
    if merged != [] && merged[|merged| - 1].path == d.path then
      var last := merged[|merged| - 1];
      var joined := last.(files := last.files + d.files);
      merged[..|merged| - 1] + [if d.kind == Package then joined.(kind := Package, package := d.package) else joined]
    else merged + [d]
  }

  function MergeAll(ds: seq<Draft>): seq<Draft> {
    if ds == [] then [] else MergeOne(MergeAll(ds[..|ds| - 1]), ds[|ds| - 1])
  }

  method Merge(ds: seq<Draft>) returns (merged: seq<Draft>)
    ensures merged == MergeAll(ds)
  {
    merged := [];
    var i := 0;
    while i < |ds|
      invariant i <= |ds| && merged == MergeAll(ds[..i])
    {
      assert ds[..i + 1][..i] == ds[..i];
      merged := MergeOne(merged, ds[i]);
      i := i + 1;
    }
    assert ds[..i] == ds;
  }

  /** Merging is never needed: the drafts have different directories. */
  lemma {:induction false} MergeNothing(ds: seq<Draft>)
    requires DistinctDirectories(ds)
    ensures MergeAll(ds) == ds
  {
    if ds != [] {
      MergeNothing(ds[..|ds| - 1]);
    }
  }

  // --------------------------------------------------------------------- numbering

  function KeyOf(ds: seq<Draft>, i: nat): string {
    if i < |ds| then Id(ds[i].path) else ""
  }

  lemma KeyOrder(ds: seq<Draft>)
    ensures TotalOrder((a: nat, b: nat) => LeText(KeyOf(ds, a), KeyOf(ds, b)))
  {
    var le := (a: nat, b: nat) => LeText(KeyOf(ds, a), KeyOf(ds, b));
    forall a: nat, b: nat ensures le(a, b) || le(b, a) {
      LeTextTotal(KeyOf(ds, a), KeyOf(ds, b));
    }
    forall a: nat, b: nat, c: nat | le(a, b) && le(b, c) ensures le(a, c) {
      LeTextTransitive(KeyOf(ds, a), KeyOf(ds, b), KeyOf(ds, c));
    }
  }

  /** An arrangement of the indices below `n`. */
  ghost predicate IsArrangement(order: seq<nat>, n: nat) {
    |order| == n && NoDuplicates(order) && (forall k :: 0 <= k < n ==> order[k] < n)
      && (forall i: nat :: i < n ==> i in order)
  }

  ghost predicate KeysSorted(ds: seq<Draft>, order: seq<nat>) {
    forall k, l :: 0 <= k < l < |order| ==> LeText(KeyOf(ds, order[k]), KeyOf(ds, order[l]))
  }

  method Arrange(ds: seq<Draft>) returns (order: seq<nat>)
    ensures IsArrangement(order, |ds|) && KeysSorted(ds, order)
  {
    var le := (a: nat, b: nat) => LeText(KeyOf(ds, a), KeyOf(ds, b));
    order := Sort(Indices(|ds|), le);
    KeyOrder(ds);
    SortSorted(Indices(|ds|), le);
    SortKeepsDistinct(Indices(|ds|), le);
    SameMembers(Indices(|ds|), order);
    forall k | 0 <= k < |ds| ensures order[k] < |ds| {
      assert order[k] in Indices(|ds|);
    }
    forall i: nat | i < |ds| ensures i in order {
      assert Indices(|ds|)[i] == i;
    }
    forall k, l | 0 <= k < l < |order| ensures LeText(KeyOf(ds, order[k]), KeyOf(ds, order[l])) {
      assert le(order[k], order[l]);
    }
  }

  method Positions(order: seq<nat>) returns (position: array<nat>)
    requires IsArrangement(order, |order|)
    ensures fresh(position) && position.Length == |order|
    ensures forall k :: 0 <= k < |order| ==> position[order[k]] == k
  {
    position := new nat[|order|](_ => 0);
    for k := 0 to |order|
      invariant forall l :: 0 <= l < k ==> position[order[l]] == l
    {
      position[order[k]] := k;
    }
  }

  /** Each file is assigned the position of the draft that holds it. */
  ghost predicate Assigned(ds: seq<Draft>, order: seq<nat>, assignment: seq<nat>)
    requires |order| == |ds| && forall k :: 0 <= k < |ds| ==> order[k] < |ds|
  {
    forall k, f :: 0 <= k < |ds| && f in ds[order[k]].files ==> f < |assignment| && assignment[f] == k
  }

  ghost predicate AssignedUpTo(ds: seq<Draft>, n: nat, position: seq<nat>, assignment: seq<nat>)
    requires n <= |ds| <= |position|
  {
    forall i, f :: 0 <= i < n && f in ds[i].files ==> f < |assignment| && assignment[f] == position[i]
  }

  method AssignFiles(packages: seq<Path>, paths: seq<Path>, ds: seq<Draft>, order: seq<nat>)
    returns (assignment: seq<nat>)
    requires Settled(packages, paths, ds) && IsArrangement(order, |ds|)
    ensures |assignment| == |paths| && Assigned(ds, order, assignment)
  {
    var position := Positions(order);
    var slots := new nat[|paths|](_ => 0);
    var i := 0;
    while i < |ds|
      invariant i <= |ds|
      invariant AssignedUpTo(ds, i, position[..], slots[..])
      modifies slots
    {
      AssignDraft(packages, paths, ds, i, position[i], position[..], slots);
      i := i + 1;
    }
    assignment := slots[..];
    forall k, f | 0 <= k < |ds| && f in ds[order[k]].files ensures f < |assignment| && assignment[f] == k {
      assert position[order[k]] == k;
    }
  }

  method AssignDraft(packages: seq<Path>, paths: seq<Path>, ds: seq<Draft>, i: nat, at: nat, ghost position: seq<nat>,
                     slots: array<nat>)
    requires Settled(packages, paths, ds) && i < |ds| == |position| && position[i] == at && slots.Length == |paths|
    requires AssignedUpTo(ds, i, position, slots[..])
    modifies slots
    ensures AssignedUpTo(ds, i + 1, position, slots[..])
  {
    var files := ds[i].files;
    assert Holds(paths, ds[i]);
    forall j: nat, f | j < i && f in ds[j].files ensures f !in files {
      HeldOnce(paths, ds, i, j, f);
    }
    var k := 0;
    while k < |files|
      invariant k <= |files| && AssignedUpTo(ds, i, position, slots[..])
      invariant forall l :: 0 <= l < k ==> files[l] < slots.Length && slots[files[l]] == at
    {
      assert files[k] in files;
      slots[files[k]] := at;
      k := k + 1;
    }
  }

  // ------------------------------------------------------------------- the module map

  function ModuleOf(packages: seq<PackageBoundary>, d: Draft, name: string): Module {
    var (confidence, evidence) := EvidenceOf(packages, d);
    Module(Id(d.path), name, d.path, d.kind, confidence, evidence)
  }

  function Modules(packages: seq<PackageBoundary>, ds: seq<Draft>, names: seq<string>, order: seq<nat>):
    (r: seq<Module>)
    requires |names| == |ds| == |order| && forall k :: 0 <= k < |order| ==> order[k] < |ds|
  {
    seq(|order|, k requires 0 <= k < |order| => ModuleOf(packages, ds[order[k]], names[order[k]]))
  }

  /** The module of a file is the only one with the longest directory around it. */
  ghost predicate IsNearest(modules: seq<Module>, path: Path, a: nat) {
    && a < |modules| && modules[a].path < path
    && forall m :: 0 <= m < |modules| && m != a && modules[m].path < path ==> |modules[m].path| < |modules[a].path|
  }

  ghost predicate AllNearest(paths: seq<Path>, modules: seq<Module>, assignment: seq<nat>) {
    |assignment| == |paths| && forall f :: 0 <= f < |paths| ==> IsNearest(modules, paths[f], assignment[f])
  }

  ghost predicate DistinctModules(modules: seq<Module>) {
    forall i, j :: 0 <= i < j < |modules| ==> modules[i].path != modules[j].path
  }

  ghost predicate NoneEmpty(modules: seq<Module>, assignment: seq<nat>) {
    forall m: nat :: m < |modules| ==> m in assignment
  }

  /** The root module is called so; any other is identified by its directory. */
  ghost predicate Identified(modules: seq<Module>) {
    forall m :: 0 <= m < |modules| ==>
      modules[m].id == if modules[m].path == [] then "(root)" else Render(modules[m].path)
  }

  ghost predicate SortedById(modules: seq<Module>) {
    forall i, j :: 0 <= i < j < |modules| ==> LeText(modules[i].id, modules[j].id)
  }

  lemma Nearest(packages: seq<PackageBoundary>, paths: seq<Path>, ds: seq<Draft>, names: seq<string>, order: seq<nat>,
                assignment: seq<nat>)
    requires Settled(Directories(packages), paths, ds) && IsArrangement(order, |ds|) && |names| == |ds|
    requires |assignment| == |paths| && Assigned(ds, order, assignment)
    ensures AllNearest(paths, Modules(packages, ds, names, order), assignment)
  {
    var modules := Modules(packages, ds, names, order);
    forall f: nat | f < |paths| ensures IsNearest(modules, paths[f], assignment[f]) {
      assert InSome(ds, f);
      var i :| 0 <= i < |ds| && f in ds[i].files;
      assert i in order;
      var k :| 0 <= k < |order| && order[k] == i;
      assert assignment[f] == k && Holds(paths, ds[i]);
      forall m | 0 <= m < |modules| && m != k && modules[m].path < paths[f]
        ensures |modules[m].path| < |modules[k].path|
      {
        assert order[m] != order[k];
        assert Yields(paths, ds[order[m]], ds[i]);
      }
    }
  }

  lemma Arranged(packages: seq<PackageBoundary>, paths: seq<Path>, ds: seq<Draft>, names: seq<string>, order: seq<nat>,
                 assignment: seq<nat>)
    requires Settled(Directories(packages), paths, ds) && IsArrangement(order, |ds|) && KeysSorted(ds, order)
    requires |names| == |ds|
    requires |assignment| == |paths| && Assigned(ds, order, assignment)
    ensures DistinctModules(Modules(packages, ds, names, order)) && SortedById(Modules(packages, ds, names, order))
    ensures Identified(Modules(packages, ds, names, order))
    ensures NoneEmpty(Modules(packages, ds, names, order), assignment)
  {
    var modules := Modules(packages, ds, names, order);
    ApartDistinct(paths, ds);
    forall i, j | 0 <= i < j < |modules| ensures modules[i].path != modules[j].path {
      assert order[i] != order[j];
    }
    forall m: nat | m < |modules| ensures m in assignment {
      assert Holds(paths, ds[order[m]]);
      var f := ds[order[m]].files[0];
      assert f in ds[order[m]].files;
      assert assignment[f] == m;
    }
  }

  /** What happened on the way: the first drafts, the drafts after splitting, and the names given. */
  datatype Run = Run(initial: seq<Draft>, split: seq<Draft>, merged: seq<Draft>, names: seq<string>, rounds: nat)

  ghost predicate IsRun(packages: seq<PackageBoundary>, paths: seq<Path>, run: Run) {
    && Fitting(Directories(packages), paths, run.initial, Indices(|paths|))
    && AreInitial(Directories(packages), paths, run.initial)
    && IsSplit(paths, run.initial, run.split)
    && multiset(run.merged) == multiset(run.split)
    && DistinctDirectories(run.merged)
    && AllNamed(run.merged, PackageNames(packages))
    && AreNames(run.merged, PackageNames(packages), run.rounds, run.names)
  }

  /** A module for every draft, and every file in the module of its draft. */
  ghost predicate Shows(packages: seq<PackageBoundary>, run: Run, modules: seq<Module>, assignment: seq<nat>) {
    && |run.names| == |run.merged| == |modules|
    && forall i :: 0 <= i < |run.merged| ==> Shown(packages, run.merged[i], run.names[i], modules, assignment)
  }

  ghost predicate Shown(packages: seq<PackageBoundary>, d: Draft, name: string, modules: seq<Module>,
                        assignment: seq<nat>)
  {
    forall f :: f in d.files ==>
      f < |assignment| && assignment[f] < |modules| && modules[assignment[f]] == ModuleOf(packages, d, name)
  }

  lemma AllShown(packages: seq<PackageBoundary>, paths: seq<Path>, ds: seq<Draft>, names: seq<string>, order: seq<nat>,
                 assignment: seq<nat>)
    requires Settled(Directories(packages), paths, ds) && IsArrangement(order, |ds|) && |names| == |ds|
    requires |assignment| == |paths| && Assigned(ds, order, assignment)
    ensures forall i :: 0 <= i < |ds| ==>
      Shown(packages, ds[i], names[i], Modules(packages, ds, names, order), assignment)
  {
    forall i | 0 <= i < |ds| ensures Shown(packages, ds[i], names[i], Modules(packages, ds, names, order), assignment) {
      assert i in order;
      var k :| 0 <= k < |order| && order[k] == i;
    }
  }

  // ----------------------------------------------------------------------- evidence

  /** The files assigned to a module. */
  ghost function FilesOf(assignment: seq<nat>, m: nat): set<nat> {
    set f: nat | f < |assignment| && assignment[f] == m
  }

  /** A package module points at the manifest of a package declared in its directory; any other tells how many
      files are assigned to it, and is the root if its directory is. */
  ghost predicate Attested(packages: seq<PackageBoundary>, modules: seq<Module>, assignment: seq<nat>, m: nat)
    requires m < |modules|
  {
    var shown := modules[m];
    if shown.kind == Package then
      shown.confidence == High && exists p {:trigger packages[p]} ::
        0 <= p < |packages| && packages[p].path == shown.path
        && shown.evidence == FileEvidence(packages[p].manifest, packages[p].ecosystem + " package manifest")
    else
      var count := |FilesOf(assignment, m)|;
      var files := Decimal(count) + " code file" + if count == 1 then "" else "s";
      && shown.confidence == Medium
      && (shown.kind == Root <==> shown.path == [])
      && shown.evidence ==
        if shown.path == [] then DirectoryEvidence("", files + " at the repository root")
        else DirectoryEvidence(Render(shown.path), files + " grouped by directory")
  }

  lemma MembersCounted(s: seq<nat>, t: set<nat>)
    requires NoDuplicates(s) && forall x :: x in s <==> x in t
    ensures |s| == |t|
    decreases |s|
  {
    if s == [] {
      assert t == {};
    } else {
      var last := s[|s| - 1];
      assert forall i :: 0 <= i < |s| - 1 ==> s[..|s| - 1][i] == s[i];
      MembersCounted(s[..|s| - 1], t - {last});
    }
  }

  /** The reported evidence is true of the result. */
  lemma EvidenceHolds(packages: seq<PackageBoundary>, paths: seq<Path>, modules: seq<Module>, assignment: seq<nat>,
                      run: Run, m: nat)
    requires Shows(packages, run, modules, assignment) && Settled(Directories(packages), paths, run.merged)
    requires |assignment| == |paths| && NoneEmpty(modules, assignment) && DistinctModules(modules) && m < |modules|
    ensures Attested(packages, modules, assignment, m)
  {
    hide Apart, Yields, Holds, NoDuplicates;
    assert m in assignment;
    var f :| 0 <= f < |assignment| && assignment[f] == m;
    var i := DraftOf(packages, paths, modules, assignment, run, f);
    var d := run.merged[i];
    assert KindFits(Directories(packages), d);
    forall g: nat ensures g in d.files <==> g in FilesOf(assignment, m) {
      if g in d.files {
        assert Shown(packages, d, run.names[i], modules, assignment);
        assert modules[assignment[g]].path == modules[m].path;
      } else if g < |assignment| && assignment[g] == m {
        var j := DraftOf(packages, paths, modules, assignment, run, g);
        assert run.merged[j].path == modules[m].path == d.path;
        SameDraft(packages, paths, run.merged, i, j);
      }
    }
    MembersCounted(d.files, FilesOf(assignment, m));
  }

  ghost predicate AllAttested(packages: seq<PackageBoundary>, modules: seq<Module>, assignment: seq<nat>) {
    forall m :: 0 <= m < |modules| ==> Attested(packages, modules, assignment, m)
  }

  lemma AllEvidenceHolds(packages: seq<PackageBoundary>, paths: seq<Path>, modules: seq<Module>,
                         assignment: seq<nat>, run: Run)
    requires Shows(packages, run, modules, assignment) && Settled(Directories(packages), paths, run.merged)
    requires |assignment| == |paths| && NoneEmpty(modules, assignment) && DistinctModules(modules)
    ensures AllAttested(packages, modules, assignment)
  {
    hide Attested, Shows, Settled, NoneEmpty, DistinctModules;
    forall m | 0 <= m < |modules| ensures Attested(packages, modules, assignment, m) {
      EvidenceHolds(packages, paths, modules, assignment, run, m);
    }
  }

  lemma SameDraft(packages: seq<PackageBoundary>, paths: seq<Path>, ds: seq<Draft>, i: nat, j: nat)
    requires Settled(Directories(packages), paths, ds) && i < |ds| && j < |ds| && ds[i].path == ds[j].path
    ensures i == j
  {
    ApartDistinct(paths, ds);
  }

  lemma DraftOf(packages: seq<PackageBoundary>, paths: seq<Path>, modules: seq<Module>, assignment: seq<nat>, run: Run,
                f: nat) returns (i: nat)
    requires Shows(packages, run, modules, assignment) && Settled(Directories(packages), paths, run.merged)
    requires |assignment| == |paths| && f < |paths|
    ensures i < |run.merged| && f in run.merged[i].files && assignment[f] < |modules|
    ensures modules[assignment[f]] == ModuleOf(packages, run.merged[i], run.names[i])
  {
    assert InSome(run.merged, f);
    i :| 0 <= i < |run.merged| && f in run.merged[i].files;
    assert Shown(packages, run.merged[i], run.names[i], modules, assignment);
  }

  // -------------------------------------------------------------------- the whole run

  lemma FitsAreNamed(packages: seq<PackageBoundary>, ds: seq<Draft>)
    requires AllFit(Directories(packages), ds)
    ensures AllNamed(ds, PackageNames(packages))
  {
    forall i | 0 <= i < |ds| ensures IsNamed(ds[i], PackageNames(packages)) {
      assert KindFits(Directories(packages), ds[i]);
    }
  }

  /** The drafts before numbering. */
  method SettleDrafts(packages: seq<PackageBoundary>, paths: seq<Path>)
    returns (merged: seq<Draft>, ghost initial: seq<Draft>, ghost split: seq<Draft>)
    requires forall f :: 0 <= f < |paths| ==> paths[f] != []
    ensures Settled(Directories(packages), paths, merged)
    ensures Fitting(Directories(packages), paths, initial, Indices(|paths|))
    ensures AreInitial(Directories(packages), paths, initial) && IsSplit(paths, initial, split)
    ensures multiset(merged) == multiset(split)
  {
    hide Fitting, AreInitial, IsSplit, Settled;
    var drafts := InitialDrafts(Directories(packages), paths);
    initial := drafts;
    drafts := SplitDominant(Directories(packages), paths, drafts, Indices(|paths|));
    split := drafts;
    FittingSettles(Directories(packages), paths, split);
    drafts := Sort(drafts, LeDraft);
    SettledPermutation(Directories(packages), paths, split, drafts);
    merged := Merge(drafts);
    SettledDistinct(Directories(packages), paths, drafts);
    MergeNothing(drafts);
  }

  lemma SettledDistinct(packages: seq<Path>, paths: seq<Path>, ds: seq<Draft>)
    requires Settled(packages, paths, ds)
    ensures DistinctDirectories(ds) && AllFit(packages, ds)
  {
    ApartDistinct(paths, ds);
  }

  /** Every file is assigned to the module with the longest directory around it. */
  method InferModules(packages: seq<PackageBoundary>, paths: seq<Path>)
    returns (modules: seq<Module>, assignment: seq<nat>, ghost run: Run)
    requires forall f :: 0 <= f < |paths| ==> paths[f] != []
    ensures AllNearest(paths, modules, assignment) && DistinctModules(modules)
    ensures NoneEmpty(modules, assignment) && SortedById(modules) && Identified(modules)
    ensures IsRun(packages, paths, run) && Shows(packages, run, modules, assignment)
    ensures Settled(Directories(packages), paths, run.merged) && AllAttested(packages, modules, assignment)
  {
    hide AreInitial, IsSplit, Settled, Fitting, AllFit, AreNames;
    hide IsArrangement, Assigned, AllNearest, Shown, AllAttested;
    var merged, initial, split := SettleDrafts(packages, paths);
    SettledDistinct(Directories(packages), paths, merged);
    FitsAreNamed(packages, merged);
    var names := AssignNames(merged, PackageNames(packages));
    ghost var rounds: nat :| AreNames(merged, PackageNames(packages), rounds, names);
    NamesLength(merged, PackageNames(packages), rounds, names);
    var order := Arrange(merged);
    ArrangementRange(order, |merged|);
    assignment := AssignFiles(Directories(packages), paths, merged, order);
    modules := Modules(packages, merged, names, order);
    Nearest(packages, paths, merged, names, order, assignment);
    Arranged(packages, paths, merged, names, order, assignment);
    AllShown(packages, paths, merged, names, order, assignment);
    run := Run(initial, split, merged, names, rounds);
    AssignedLength(paths, modules, assignment);
    AllEvidenceHolds(packages, paths, modules, assignment, run);
  }

  lemma AssignedLength(paths: seq<Path>, modules: seq<Module>, assignment: seq<nat>)
    requires AllNearest(paths, modules, assignment)
    ensures |assignment| == |paths|
  {
  }

  lemma NamesLength(ds: seq<Draft>, packageNames: seq<string>, k: nat, names: seq<string>)
    requires AllNamed(ds, packageNames) && AreNames(ds, packageNames, k, names)
    ensures |names| == |ds|
  {
  }

  lemma ArrangementRange(order: seq<nat>, n: nat)
    requires IsArrangement(order, n)
    ensures |order| == n && forall k :: 0 <= k < n ==> order[k] < n
  {
  }

  // ------------------------------------------------------------------ package borders

  /** No module mixes the files of a package with files outside it. */
  lemma PackageBordersHold(packages: seq<PackageBoundary>, paths: seq<Path>, modules: seq<Module>, assignment: seq<nat>,
                           run: Run, f: nat, p: nat)
    requires IsRun(packages, paths, run) && Shows(packages, run, modules, assignment)
    requires Settled(Directories(packages), paths, run.merged)
    requires f < |paths| && Owns(Directories(packages), p, paths[f])
    ensures f < |assignment| && assignment[f] < |modules| && packages[p].path <= modules[assignment[f]].path
  {
    assert InSome(run.merged, f);
    var i :| 0 <= i < |run.merged| && f in run.merged[i].files;
    assert Shown(packages, run.merged[i], run.names[i], modules, assignment);
    SameMembers(run.split, run.merged);
    assert run.merged[i] in run.split;
    var k :| 0 <= k < |run.split| && run.split[k] == run.merged[i];
    PackagesHold(Directories(packages), paths, run.initial, run.split, k, f, p);
  }

  // ----------------------------------------------------------------------- look-ups

  /** The module with the longest directory that is the path or contains it, the last of the longest. */
  ghost predicate IsContaining(modules: seq<Module>, path: string, i: nat) {
    && i < |modules| && IsWithin(path, Render(modules[i].path))
    && (forall m :: 0 <= m < |modules| && IsWithin(path, Render(modules[m].path)) ==>
          |Render(modules[m].path)| <= |Render(modules[i].path)|)
    && (forall m :: i < m < |modules| && IsWithin(path, Render(modules[m].path)) ==>
          |Render(modules[m].path)| < |Render(modules[i].path)|)
  }

  method IndexContaining(modules: seq<Module>, path: string) returns (r: Option<nat>)
    ensures r.Some? ==> IsContaining(modules, path, r.value)
    ensures r.None? <==> forall m :: 0 <= m < |modules| ==> !IsWithin(path, Render(modules[m].path))
  {
    r := None;
    var i := 0;
    while i < |modules|
      invariant i <= |modules| && (r.Some? ==> r.value < i)
      invariant r.Some? ==> IsContaining(modules[..i], path, r.value)
      invariant r.None? <==> forall m :: 0 <= m < i ==> !IsWithin(path, Render(modules[m].path))
    {
      if IsWithin(path, Render(modules[i].path)) {
        if r.None? || |Render(modules[i].path)| >= |Render(modules[r.value].path)| {
          r := Some(i);
        }
      }
      i := i + 1;
    }
    assert modules[..i] == modules;
  }

  lemma ModulePath(paths: seq<Path>, modules: seq<Module>, assignment: seq<nat>, m: nat)
    requires AllNearest(paths, modules, assignment) && NoneEmpty(modules, assignment) && m < |modules|
    requires forall f :: 0 <= f < |paths| ==> IsPath(paths[f])
    ensures IsPath(modules[m].path)
  {
    assert m in assignment;
    var f :| 0 <= f < |assignment| && assignment[f] == m;
    assert IsNearest(modules, paths[f], m);
  }

  lemma {:induction false} RenderShorter(a: Path, b: Path)
    requires IsPath(b) && a < b
    ensures |Render(a)| < |Render(b)|
  {
    if a == [] {
      RenderEmpty(b);
    } else {
      RenderConcat(a, b[|a|..]);
      assert a + b[|a|..] == b;
    }
  }

  /** The look-up finds the assigned module of a file unless the file is itself the directory of a module. */
  lemma ContainingIsAssigned(paths: seq<Path>, modules: seq<Module>, assignment: seq<nat>, f: nat, i: nat)
    requires AllNearest(paths, modules, assignment) && DistinctModules(modules) && NoneEmpty(modules, assignment)
    requires f < |paths| && forall g :: 0 <= g < |paths| ==> IsPath(paths[g])
    requires IsContaining(modules, Render(paths[f]), i)
    ensures i == assignment[f] <==> forall m :: 0 <= m < |modules| ==> modules[m].path != paths[f]
  {
    var a, path := assignment[f], paths[f];
    assert IsNearest(modules, path, a);
    forall m | 0 <= m < |modules|
      ensures IsPath(modules[m].path) && (IsWithin(Render(path), Render(modules[m].path)) <==> modules[m].path <= path)
    {
      ModulePath(paths, modules, assignment, m);
      WithinIsPrefix(path, modules[m].path);
    }
    if m :| 0 <= m < |modules| && modules[m].path == path {
      RenderShorter(modules[a].path, path);
    } else if i != a {
      assert modules[i].path < path && |modules[i].path| < |modules[a].path|;
      PrefixesOfOne(modules[i].path, modules[a].path, path);
      RenderShorter(modules[i].path, modules[a].path);
    }
  }

  /** So the look-up agrees with the assignment on every file when no file is a directory of another. */
  lemma LookUpAgrees(paths: seq<Path>, modules: seq<Module>, assignment: seq<nat>, f: nat, i: nat)
    requires AllNearest(paths, modules, assignment) && DistinctModules(modules) && NoneEmpty(modules, assignment)
    requires forall g :: 0 <= g < |paths| ==> IsPath(paths[g])
    requires forall g, h :: 0 <= g < |paths| && 0 <= h < |paths| ==> !(paths[g] < paths[h])
    requires f < |paths| && IsContaining(modules, Render(paths[f]), i)
    ensures i == assignment[f]
  {
    forall m: nat | m < |modules| ensures modules[m].path != paths[f] {
      assert m in assignment;
      var g :| 0 <= g < |assignment| && assignment[g] == m;
      assert IsNearest(modules, paths[g], m);
    }
    ContainingIsAssigned(paths, modules, assignment, f, i);
  }

  lemma PrefixesOfOne(a: Path, b: Path, p: Path)
    requires a < p && b < p && |a| < |b|
    ensures a < b
  {
    assert a == p[..|a|] && b == p[..|b|];
  }

  /** Binary search by identifier. */
  method IndexOf(modules: seq<Module>, id: string) returns (r: Option<nat>)
    requires SortedById(modules)
    ensures r.Some? ==> r.value < |modules| && modules[r.value].id == id
    ensures r.None? ==> forall m :: 0 <= m < |modules| ==> modules[m].id != id
  {
    var low, high := 0, |modules|;
    while low < high
      invariant low <= high <= |modules|
      invariant forall m :: 0 <= m < low || high <= m < |modules| ==> modules[m].id != id
    {
      var middle := low + (high - low) / 2;
      if modules[middle].id == id {
        return Some(middle);
      }
      forall m | 0 <= m < |modules| && modules[m].id == id
        ensures if LeText(modules[middle].id, id) then middle < m else m < middle
      {
        LeTextTotal(modules[middle].id, id);
        if LeText(modules[middle].id, id) && m < middle {
          LeTextAntisymmetric(modules[middle].id, id);
        }
      }
      if LeText(modules[middle].id, id) {
        low := middle + 1;
      } else {
        high := middle;
      }
    }
    r := None;
  }
}
