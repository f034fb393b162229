/** The display names of the module map, in terms of the modules it returns. */
module ReportedNames {
  import opened PathText
  import opened ModuleDrafts
  import opened ModuleEvidence
  import opened ModuleNames
  import opened ModuleMap

  // ----------------------------------------------------------- what names depend on

  /** Another directory module ends in the last `count` components of this one. */
  ghost predicate EndsAlike(modules: seq<Module>, m: nat, count: nat, n: nat)
    requires m < |modules|
  {
    var p := modules[m].path;
    && n < |modules| && n != m && modules[n].kind == Directory
    && count <= |p| && count <= |modules[n].path| && modules[n].path[|modules[n].path| - count..] == p[|p| - count..]
  }

  /** A package or the root is named like the last `count` components. */
  ghost predicate NamedAlike(modules: seq<Module>, m: nat, count: nat, n: nat)
    requires m < |modules|
  {
    var p := modules[m].path;
    && n < |modules| && modules[n].kind != Directory
    && count <= |p| && modules[n].name == Render(p[|p| - count..])
  }

  ghost predicate AmbiguousTail(modules: seq<Module>, m: nat, count: nat)
    requires m < |modules|
  {
    exists n :: EndsAlike(modules, m, count, n) || NamedAlike(modules, m, count, n)
  }

  /** The name is the shortest tail that tells the module from the others, or its whole path. */
  ghost predicate IsShortName(modules: seq<Module>, m: nat, count: nat)
    requires m < |modules|
  {
    var p := modules[m].path;
    && 1 <= count <= |p| && modules[m].name == Render(p[|p| - count..])
    && (forall b :: 1 <= b < count ==> AmbiguousTail(modules, m, b))
    && (count == |modules[m].path| || !AmbiguousTail(modules, m, count))
  }

  predicate IsDirectory(m: Module) {
    m.kind == Directory
  }

  ghost predicate NamesDiffer(modules: seq<Module>) {
    forall m, n :: 0 <= m < n < |modules| ==> modules[m].name != modules[n].name
  }

  /** No two of the packages and the root have the same name. */
  ghost predicate PackageNamesDiffer(modules: seq<Module>) {
    forall m, n :: 0 <= m < n < |modules| && !IsDirectory(modules[m]) && !IsDirectory(modules[n]) ==>
      modules[m].name != modules[n].name
  }

  /** A directory whose whole path is the name of a package or the root has a shorter tail of its own. */
  ghost predicate PathsTold(modules: seq<Module>) {
    forall m, n :: 0 <= m < |modules| && 0 <= n < |modules| && IsDirectory(modules[m]) && !IsDirectory(modules[n]) ==>
      modules[n].name == Render(modules[m].path) ==> HasOwnTail(modules, m)
  }

  ghost predicate HasOwnTail(modules: seq<Module>, m: nat)
    requires m < |modules|
  {
    exists c :: 1 <= c < |modules[m].path| && !AmbiguousTail(modules, m, c)
  }

  // ---------------------------------------------------------- from drafts to modules

  /** Each draft has one module, and each module one draft. */
  ghost predicate Placed(packages: seq<PackageBoundary>, run: Run, modules: seq<Module>, at: seq<nat>) {
    && |at| == |run.merged| == |run.names|
    && (forall i :: 0 <= i < |at| ==>
          at[i] < |modules| && modules[at[i]] == ModuleOf(packages, run.merged[i], run.names[i]))
    && (forall i, j :: 0 <= i < j < |at| ==> at[i] != at[j])
    && (forall m: nat :: m < |modules| ==> m in at)
  }

  /** What the module map ensures of its result. */
  ghost predicate IsReported(packages: seq<PackageBoundary>, paths: seq<Path>, modules: seq<Module>,
                             assignment: seq<nat>, run: Run)
  {
    && IsRun(packages, paths, run) && Shows(packages, run, modules, assignment)
    && Settled(ModuleMap.Directories(packages), paths, run.merged)
    && |assignment| == |paths| && NoneEmpty(modules, assignment) && DistinctModules(modules)
  }

  lemma ModuleAt(packages: seq<PackageBoundary>, paths: seq<Path>, modules: seq<Module>, assignment: seq<nat>,
                 run: Run, i: nat) returns (m: nat)
    requires IsReported(packages, paths, modules, assignment, run) && i < |run.merged|
    ensures m < |modules| && modules[m] == ModuleOf(packages, run.merged[i], run.names[i])
  {
    assert Holds(paths, run.merged[i]);
    var f := run.merged[i].files[0];
    assert f in run.merged[i].files && Shown(packages, run.merged[i], run.names[i], modules, assignment);
    m := assignment[f];
  }

  lemma {:induction false} PlacedUpTo(packages: seq<PackageBoundary>, paths: seq<Path>, modules: seq<Module>,
                                      assignment: seq<nat>, run: Run, k: nat) returns (at: seq<nat>)
    requires IsReported(packages, paths, modules, assignment, run) && k <= |run.merged|
    ensures |at| == k && forall i :: 0 <= i < k ==>
      at[i] < |modules| && modules[at[i]] == ModuleOf(packages, run.merged[i], run.names[i])
  {
    hide ModuleOf, Settled, IsRun, NoneEmpty, DistinctModules;
    if k == 0 {
      at := [];
    } else {
      at := PlacedUpTo(packages, paths, modules, assignment, run, k - 1);
      var m := ModuleAt(packages, paths, modules, assignment, run, k - 1);
      at := at + [m];
    }
  }

  lemma AllPlaced(packages: seq<PackageBoundary>, paths: seq<Path>, modules: seq<Module>, assignment: seq<nat>,
                  run: Run)
    returns (at: seq<nat>)
    requires IsReported(packages, paths, modules, assignment, run)
    ensures Placed(packages, run, modules, at)
  {
    at := PlacedUpTo(packages, paths, modules, assignment, run, |run.merged|);
    hide IsRun, Holds, Apart;
    forall i, j | 0 <= i < j < |at| ensures at[i] != at[j] {
      if at[i] == at[j] {
        SameDraft(packages, paths, run.merged, i, j);
      }
    }
    forall m: nat | m < |modules| ensures m in at {
      assert m in assignment;
      var f :| 0 <= f < |assignment| && assignment[f] == m;
      var i := DraftOf(packages, paths, modules, assignment, run, f);
      assert modules[at[i]].path == modules[m].path;
    }
  }

  lemma DraftOfModule(packages: seq<PackageBoundary>, run: Run, modules: seq<Module>, at: seq<nat>, m: nat)
    returns (i: nat)
    requires Placed(packages, run, modules, at) && m < |modules|
    ensures i < |at| && at[i] == m
  {
    assert m in at;
    i :| 0 <= i < |at| && at[i] == m;
  }

  /** The drafts with the names given to them. */
  ghost predicate Named(packages: seq<PackageBoundary>, run: Run) {
    && AllNamed(run.merged, PackageNames(packages)) && |run.names| == |run.merged|
    && forall j :: 0 <= j < |run.merged| && IsFixed(run.merged[j]) ==>
      run.names[j] == NameOf(run.merged[j], PackageNames(packages), 1)
  }

  lemma RunIsNamed(packages: seq<PackageBoundary>, paths: seq<Path>, run: Run)
    requires IsRun(packages, paths, run)
    ensures Named(packages, run)
  {
    NamesFixed(run.merged, PackageNames(packages), run.rounds, run.names);
  }

  lemma SameTails(packages: seq<PackageBoundary>, run: Run, modules: seq<Module>, at: seq<nat>, i: nat, count: nat)
    requires Placed(packages, run, modules, at) && Named(packages, run) && i < |at|
    requires count <= |run.merged[i].path|
    ensures AmbiguousTail(modules, at[i], count) <==> Ambiguous(run.merged, PackageNames(packages), i, count)
  {
    var ds, names := run.merged, PackageNames(packages);
    forall j: nat | j < |at|
      ensures EndsAlike(modules, at[i], count, at[j]) <==> SharesTail(ds, i, count, j)
      ensures NamedAlike(modules, at[i], count, at[j]) <==> TakenName(ds, names, i, count, j)
    {
    }
    if AmbiguousTail(modules, at[i], count) {
      var n: nat :| EndsAlike(modules, at[i], count, n) || NamedAlike(modules, at[i], count, n);
      var j := DraftOfModule(packages, run, modules, at, n);
      assert SharesTail(ds, i, count, j) || TakenName(ds, names, i, count, j);
    }
    if Ambiguous(ds, names, i, count) {
      var j: nat :| SharesTail(ds, i, count, j) || TakenName(ds, names, i, count, j);
      assert EndsAlike(modules, at[i], count, at[j]) || NamedAlike(modules, at[i], count, at[j]);
    }
  }

  lemma DirectoriesHaveNames(packages: seq<PackageBoundary>, paths: seq<Path>, ds: seq<Draft>)
    requires Settled(ModuleMap.Directories(packages), paths, ds)
    requires forall f :: 0 <= f < |paths| ==> IsPath(paths[f])
    ensures ModuleNames.Directories(ds)
  {
    forall i | 0 <= i < |ds| && ds[i].kind == Directory ensures ds[i].path != [] && IsPath(ds[i].path) {
      assert ModuleInference.KindFits(ModuleMap.Directories(packages), ds[i]) && Holds(paths, ds[i]);
      var f := ds[i].files[0];
      assert f in ds[i].files && ds[i].path < paths[f];
    }
  }

  // ------------------------------------------------------------------- the results

  /** The name of every directory module is its shortest tail of components that no other directory module ends in
      and no package or root is named like, or its whole path if there is none. */
  lemma ReportedName(packages: seq<PackageBoundary>, paths: seq<Path>, modules: seq<Module>, assignment: seq<nat>,
                     run: Run, m: nat) returns (count: nat)
    requires IsReported(packages, paths, modules, assignment, run)
    requires forall f :: 0 <= f < |paths| ==> IsPath(paths[f])
    requires m < |modules| && modules[m].kind == Directory
    ensures IsShortName(modules, m, count)
  {
    var at := AllPlaced(packages, paths, modules, assignment, run);
    var i := DraftOfModule(packages, run, modules, at, m);
    RunIsNamed(packages, paths, run);
    DirectoriesHaveNames(packages, paths, run.merged);
    count := NameIsShortestTail(run.merged, PackageNames(packages), run.rounds, run.names, i);
    FixedNames(packages, run, modules, at);
    hide Settled, Shows, IsRun, Placed, Named, Ambiguous, AmbiguousTail, AreNames, NameOf, LastParts;
    forall b: nat | b <= |run.merged[i].path|
      ensures AmbiguousTail(modules, m, b) <==> Ambiguous(run.merged, PackageNames(packages), i, b)
    {
      SameTails(packages, run, modules, at, i, b);
    }
    ShortName(modules, m, run.merged, PackageNames(packages), i, count);
  }

  lemma ShortName(modules: seq<Module>, m: nat, ds: seq<Draft>, packageNames: seq<string>, i: nat, count: nat)
    requires AllNamed(ds, packageNames) && i < |ds| && m < |modules| && modules[m].path == ds[i].path
    requires ShortestTail(ds, packageNames, i, count) && modules[m].name == Render(LastParts(ds[i].path, count))
    requires forall b: nat :: b <= |ds[i].path| ==>
      (AmbiguousTail(modules, m, b) <==> Ambiguous(ds, packageNames, i, b))
    ensures IsShortName(modules, m, count)
  {
    hide Ambiguous, AmbiguousTail, AllNamed;
  }

  /** The root module has its own name, and a package module the name of the package declared in its directory. */
  lemma ReportedFixedName(packages: seq<PackageBoundary>, paths: seq<Path>, modules: seq<Module>,
                          assignment: seq<nat>, run: Run, m: nat)
    requires IsReported(packages, paths, modules, assignment, run) && m < |modules|
    ensures modules[m].kind == Root ==> modules[m].name == "(root)" && modules[m].path == []
    ensures modules[m].kind == Package ==>
      exists p :: 0 <= p < |packages| && packages[p].path == modules[m].path && packages[p].name == modules[m].name
  {
    var at := AllPlaced(packages, paths, modules, assignment, run);
    var i := DraftOfModule(packages, run, modules, at, m);
    RunIsNamed(packages, paths, run);
    FixedNames(packages, run, modules, at);
    hide IsRun, Shows, NoneEmpty, DistinctModules, Placed, Named, EvidenceOf;
    var d := run.merged[i];
    assert ModuleInference.KindFits(ModuleMap.Directories(packages), d);
    if d.kind == Package {
      var p := d.package.value;
      assert packages[p].path == d.path;
    }
  }

  lemma SameDifferences(packages: seq<PackageBoundary>, run: Run, modules: seq<Module>, at: seq<nat>)
    requires Placed(packages, run, modules, at) && Named(packages, run)
    ensures NamesDiffer(modules) <==> AllDifferent(run.names)
    ensures PackageNamesDiffer(modules) <==> FixedApart(run.merged, PackageNames(packages))
  {
    FixedNames(packages, run, modules, at);
    assert forall i :: 0 <= i < |at| ==> modules[at[i]].name == run.names[i];
    hide ModuleOf, PackageNames;
    forall m: nat, n: nat | m < |modules| && n < |modules| && m != n && modules[m].name == modules[n].name
      ensures !AllDifferent(run.names)
      ensures !IsDirectory(modules[m]) && !IsDirectory(modules[n]) ==>
        !FixedApart(run.merged, PackageNames(packages))
    {
      var i := DraftOfModule(packages, run, modules, at, m);
      var j := DraftOfModule(packages, run, modules, at, n);
      assert run.names[i] == run.names[j] && i != j;
    }
  }

  lemma SamePaths(packages: seq<PackageBoundary>, run: Run, modules: seq<Module>, at: seq<nat>)
    requires Placed(packages, run, modules, at) && Named(packages, run)
    ensures PathsTold(modules) <==> PathsApart(run.merged, PackageNames(packages))
  {
    hide AmbiguousTail, Ambiguous, ModuleOf, HasOwnTail, HasShorterTail;
    var ds, names := run.merged, PackageNames(packages);
    forall i: nat | i < |at| ensures HasOwnTail(modules, at[i]) <==> HasShorterTail(ds, names, i) {
      SameOwnTail(packages, run, modules, at, i);
    }
    FixedNames(packages, run, modules, at);
    if !PathsTold(modules) {
      var m, n :| 0 <= m < |modules| && 0 <= n < |modules| && modules[m].kind == Directory
        && modules[n].kind != Directory && modules[n].name == Render(modules[m].path) && !HasOwnTail(modules, m);
      var i := DraftOfModule(packages, run, modules, at, m);
      var j := DraftOfModule(packages, run, modules, at, n);
      assert ds[i].kind == Directory && IsFixed(ds[j]) && !HasShorterTail(ds, names, i);
    }
    if !PathsApart(ds, names) {
      var i, j :| 0 <= i < |ds| && 0 <= j < |ds| && ds[i].kind == Directory && IsFixed(ds[j])
        && Render(ds[i].path) == NameOf(ds[j], names, 1) && !HasShorterTail(ds, names, i);
      assert modules[at[i]].kind == Directory && modules[at[j]].kind != Directory && !HasOwnTail(modules, at[i]);
    }
  }

  lemma FixedNames(packages: seq<PackageBoundary>, run: Run, modules: seq<Module>, at: seq<nat>)
    requires Placed(packages, run, modules, at) && Named(packages, run)
    ensures forall j :: 0 <= j < |at| ==>
      modules[at[j]].kind == run.merged[j].kind && modules[at[j]].path == run.merged[j].path
    ensures forall j :: 0 <= j < |at| && IsFixed(run.merged[j]) ==>
      modules[at[j]].name == NameOf(run.merged[j], PackageNames(packages), 1)
  {
  }

  lemma SameOwnTail(packages: seq<PackageBoundary>, run: Run, modules: seq<Module>, at: seq<nat>, i: nat)
    requires Placed(packages, run, modules, at) && Named(packages, run) && i < |at|
    ensures HasOwnTail(modules, at[i]) <==> HasShorterTail(run.merged, PackageNames(packages), i)
  {
    hide AmbiguousTail, Ambiguous;
    forall c: nat | c <= |run.merged[i].path|
      ensures AmbiguousTail(modules, at[i], c) <==> Ambiguous(run.merged, PackageNames(packages), i, c)
    {
      SameTails(packages, run, modules, at, i, c);
    }
  }

  /** All modules have different names exactly if the packages and the root do, and every directory whose whole path is
      one of their names has a shorter tail of its own. */
  lemma ReportedNamesDifferIff(packages: seq<PackageBoundary>, paths: seq<Path>, modules: seq<Module>,
                               assignment: seq<nat>, run: Run)
    requires IsReported(packages, paths, modules, assignment, run)
    requires forall f :: 0 <= f < |paths| ==> IsPath(paths[f])
    ensures NamesDiffer(modules) <==> PackageNamesDiffer(modules) && PathsTold(modules)
  {
    var at := AllPlaced(packages, paths, modules, assignment, run);
    RunIsNamed(packages, paths, run);
    DirectoriesHaveNames(packages, paths, run.merged);
    hide Settled, Shows, AreNames, NamesDiffer, PackageNamesDiffer, PathsTold, AllDifferent, FixedApart, PathsApart;
    NamesDifferIff(run.merged, PackageNames(packages), run.rounds, run.names);
    SameDifferences(packages, run, modules, at);
    SamePaths(packages, run, modules, at);
  }
}
