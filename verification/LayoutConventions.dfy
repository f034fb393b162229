/** The layout conventions spelled out: which directories are looked into, which group others, and what that
    makes of a repository. */
module LayoutConventions {
  import opened Sorting
  import opened PathText
  import opened ModuleConventions
  import opened ModuleDrafts
  import opened ModuleEvidence
  import opened ModuleInference
  import opened PackageModules
  import opened ModuleMap

  /** The child is a source root, or `main` or `test` below a directory named `src`. */
  ghost predicate HoldsSources(base: Path, child: string) {
    || child == "app" || child == "lib" || child == "source" || child == "sources" || child == "Sources"
    || child == "src"
    || (base != [] && base[|base| - 1] == "src" && (child == "main" || child == "test"))
  }

  /** The child is one of the ten directories that only group others. */
  ghost predicate GroupsOthers(child: string) {
    || child == "apps" || child == "cmd" || child == "crates" || child == "internal" || child == "libs"
    || child == "modules" || child == "packages" || child == "pkg" || child == "plugins" || child == "services"
  }

  lemma NamesAgree(base: Path, child: string)
    ensures IsSourceRoot(base, child) <==> HoldsSources(base, child)
    ensures child in GROUPING_DIRS <==> GroupsOthers(child)
  {
  }

  lemma HomeIs(paths: seq<Path>, files: set<nat>, depth: nat, base: Path, f: nat, dir: Path)
    requires depth <= MAX_SOURCE_DEPTH && Deepest(paths, files, base) && f in files
    ensures f < |paths| && base < paths[f]
    ensures IsHome(paths, files, depth, f, dir) <==> Conventional(paths, files, depth, base, f, dir)
  {
    if IsHome(paths, files, depth, f, dir) {
      var other: Path :| Deepest(paths, files, other) && Conventional(paths, files, depth, other, f, dir);
      DeepestUnique(paths, files, base, other);
    }
  }

  /** The file of a group, its common directory, and the name that follows it on the way to the file. */
  ghost predicate Grouped(paths: seq<Path>, files: set<nat>, base: Path, f: nat) {
    Deepest(paths, files, base) && f in files && f < |paths| && base < paths[f]
  }

  /** A file directly in the common directory of its group belongs to that directory. */
  lemma DirectHome(paths: seq<Path>, files: set<nat>, depth: nat, base: Path, f: nat, dir: Path)
    requires depth <= 3 && Grouped(paths, files, base, f) && |paths[f]| == |base| + 1
    ensures IsHome(paths, files, depth, f, dir) <==> dir == base
  {
    HomeIs(paths, files, depth, base, f, dir);
  }

  /** A directory that holds sources is looked into again, up to the third time: its files are grouped anew. */
  lemma SourceHome(paths: seq<Path>, files: set<nat>, depth: nat, base: Path, f: nat, dir: Path)
    requires depth < 3 && Grouped(paths, files, base, f) && |paths[f]| > |base| + 1
    requires HoldsSources(base, paths[f][|base|])
    ensures var under := FilesUnder(paths, base + [paths[f][|base|]], files);
      f in under && (IsHome(paths, files, depth, f, dir) <==> IsHome(paths, under, depth + 1, f, dir))
  {
    hide Deepest, IsHome, IsSourceRoot, HoldsSources;
    HomeIs(paths, files, depth, base, f, dir);
    NamesAgree(base, paths[f][|base|]);
    assert base + [paths[f][|base|]] < paths[f];
  }

  /** A grouping directory keeps only the files directly in it; the others belong to its children. */
  lemma GroupingHome(paths: seq<Path>, files: set<nat>, depth: nat, base: Path, f: nat, dir: Path)
    requires depth <= 3 && Grouped(paths, files, base, f) && |paths[f]| > |base| + 1
    requires GroupsOthers(paths[f][|base|]) && !(depth < 3 && HoldsSources(base, paths[f][|base|]))
    ensures IsHome(paths, files, depth, f, dir)
      <==> dir == paths[f][..if |paths[f]| == |base| + 2 then |base| + 1 else |base| + 2]
  {
    hide Deepest, IsHome, IsSourceRoot, HoldsSources, GroupsOthers;
    HomeIs(paths, files, depth, base, f, dir);
    NamesAgree(base, paths[f][|base|]);
    assert base + [paths[f][|base|]] == paths[f][..|base| + 1];
  }

  /** Any other child is one module, however deep its files lie. */
  lemma OtherHome(paths: seq<Path>, files: set<nat>, depth: nat, base: Path, f: nat, dir: Path)
    requires depth <= 3 && Grouped(paths, files, base, f) && |paths[f]| > |base| + 1
    requires !GroupsOthers(paths[f][|base|]) && !(depth < 3 && HoldsSources(base, paths[f][|base|]))
    ensures IsHome(paths, files, depth, f, dir) <==> dir == paths[f][..|base| + 1]
  {
    hide Deepest, IsHome, IsSourceRoot, HoldsSources, GroupsOthers;
    HomeIs(paths, files, depth, base, f, dir);
    NamesAgree(base, paths[f][|base|]);
    assert base + [paths[f][|base|]] == paths[f][..|base| + 1];
  }

  /** No home lies above the common directory of the group. */
  lemma {:induction false} HomeNotAbove(paths: seq<Path>, files: set<nat>, depth: nat, base: Path, f: nat, dir: Path)
    requires depth <= 3 && Grouped(paths, files, base, f) && IsHome(paths, files, depth, f, dir)
    ensures base <= dir
    decreases 3 - depth
  {
    if |paths[f]| == |base| + 1 {
      DirectHome(paths, files, depth, base, f, dir);
    } else if depth < 3 && HoldsSources(base, paths[f][|base|]) {
      SourceHome(paths, files, depth, base, f, dir);
      var child := base + [paths[f][|base|]];
      var under := FilesUnder(paths, child, files);
      var inner: Path :| Deepest(paths, under, inner) && Conventional(paths, under, depth + 1, inner, f, dir);
      assert AllInside(paths, child, under);
      HomeNotAbove(paths, under, depth + 1, inner, f, dir);
    } else if GroupsOthers(paths[f][|base|]) {
      GroupingHome(paths, files, depth, base, f, dir);
    } else {
      OtherHome(paths, files, depth, base, f, dir);
    }
  }

  /** So the files of a source root, and those below `main` or `test` in a directory named `src`, get homes at or
      below the deepest directory that holds all of them. */
  lemma SourcesCollapse(paths: seq<Path>, files: set<nat>, depth: nat, base: Path, f: nat, inner: Path, dir: Path)
    requires depth < 3 && Grouped(paths, files, base, f) && |paths[f]| > |base| + 1
    requires HoldsSources(base, paths[f][|base|]) && IsHome(paths, files, depth, f, dir)
    requires Deepest(paths, FilesUnder(paths, base + [paths[f][|base|]], files), inner)
    ensures base + [paths[f][|base|]] <= inner <= dir < paths[f]
  {
    var child := base + [paths[f][|base|]];
    var under := FilesUnder(paths, child, files);
    SourceHome(paths, files, depth, base, f, dir);
    assert AllInside(paths, child, under);
    HomeNotAbove(paths, under, depth + 1, inner, f, dir);
    HomeContains(paths, files, depth, f, dir);
  }

  // ---------------------------------------------------------------- a small repository

  lemma {:induction false} FewFiles(ds: seq<Draft>, i: nat)
    requires i < |ds|
    ensures |ds[i].files| <= |Flat(ds)|
  {
    if i > 0 {
      FewFiles(ds[1..], i - 1);
    }
  }

  lemma {:induction false} NoneReplaced(paths: seq<Path>, total: nat, ds: seq<Draft>, rs: seq<seq<Draft>>)
    requires ReplacesAll(paths, total, ds, rs) && forall i :: 0 <= i < |ds| ==> |ds[i].files| < 10
    ensures ModuleInference.Joined(rs) == ds
    decreases |rs|
  {
    if rs != [] {
      var n := |rs| - 1;
      assert ReplacesAll(paths, total, ds[..n], rs[..n]);
      NoneReplaced(paths, total, ds[..n], rs[..n]);
      assert Replaces(paths, total, ds[n], rs[n]);
      assert ds == ds[..n] + [ds[n]];
    }
  }

  lemma NothingSplit(paths: seq<Path>, ds: seq<Draft>, r: seq<Draft>)
    requires IsSplit(paths, ds, r) && forall i :: 0 <= i < |ds| ==> |ds[i].files| < 10
    ensures r == ds
  {
    var middle: seq<Draft> :| IsPass(paths, ds, middle) && IsPass(paths, middle, r);
    var rs: seq<seq<Draft>> :| ReplacesAll(paths, |Flat(ds)|, ds, rs) && middle == ModuleInference.Joined(rs);
    NoneReplaced(paths, |Flat(ds)|, ds, rs);
    var ts: seq<seq<Draft>> :| ReplacesAll(paths, |Flat(middle)|, middle, ts) && r == ModuleInference.Joined(ts);
    NoneReplaced(paths, |Flat(middle)|, middle, ts);
  }

  /** In a repository of fewer than ten files nothing dominates, so the module of a file without a package is its
      home among the files without one. */
  lemma SmallRepository(packages: seq<PackageBoundary>, paths: seq<Path>, modules: seq<Module>, assignment: seq<nat>,
                        run: Run, f: nat)
    requires IsRun(packages, paths, run) && Shows(packages, run, modules, assignment)
    requires Settled(Directories(packages), paths, run.merged)
    requires |paths| < 10 && f < |paths| && Unowned(Directories(packages), paths[f])
    ensures f < |assignment| && assignment[f] < |modules|
    ensures IsHome(paths, Unpackaged(Directories(packages), paths), 0, f, modules[assignment[f]].path)
  {
    hide IsHome, IsSplit, AllFit;
    forall i | 0 <= i < |run.initial| ensures |run.initial[i].files| < 10 {
      FewFiles(run.initial, i);
      assert |multiset(Flat(run.initial))| == |multiset(Indices(|paths|))|;
    }
    NothingSplit(paths, run.initial, run.split);
    SameMembers(run.split, run.merged);
    assert InSome(run.merged, f);
    var i :| 0 <= i < |run.merged| && f in run.merged[i].files;
    var d := run.merged[i];
    assert d in run.initial;
    var k :| 0 <= k < |run.initial| && run.initial[k] == d;
    assert AllStartIn(Directories(packages), paths, d) && StartsIn(Directories(packages), paths, f, d);
    assert Shown(packages, d, run.names[i], modules, assignment);
  }

  // ------------------------------------------------------------------------- an example

  /** Two source files in different directories below `src/main`, and a test beside one of them. */
  function Namespaces(mid: Path, s: string, m: string, a: string, b: string, c: string): seq<Path> {
    [["src", "main"] + mid + [s, a], ["src", "main"] + mid + [m, b], ["src", "test"] + mid + [s, c]]
  }

  lemma NotBoth(d: Path, p: Path, q: Path, k: nat)
    requires d < p && d < q && k < |p| && k < |q| && p[k] != q[k]
    ensures d <= p[..k]
  {
    assert |d| <= k by {
      if |d| > k {
        assert false;
      }
    }
    assert d == p[..|d|];
  }

  lemma NamespaceGroups(mid: Path, s: string, m: string, a: string, b: string, c: string)
    requires s != m
    ensures var paths := Namespaces(mid, s, m, a, b, c);
      && Deepest(paths, {0, 1, 2}, ["src"])
      && FilesUnder(paths, ["src"] + ["main"], {0, 1, 2}) == {0, 1}
      && FilesUnder(paths, ["src"] + ["test"], {0, 1, 2}) == {2}
  {
    var paths := Namespaces(mid, s, m, a, b, c);
    var main, test := ["src"] + ["main"], ["src"] + ["test"];
    forall f: nat | f < 3 ensures ["src"] < paths[f] && paths[f][1] == if f < 2 then "main" else "test" {
    }
    forall d: Path | AllInside(paths, d, {0, 1, 2}) ensures d <= ["src"] {
      NotBoth(d, paths[0], paths[2], 1);
      assert paths[0][..1] == ["src"];
    }
    forall f: nat | f < 3 ensures (main < paths[f] <==> f < 2) && (test < paths[f] <==> f == 2) {
      assert main < paths[f] ==> main[1] == paths[f][1];
      assert test < paths[f] ==> test[1] == paths[f][1];
    }
  }

  lemma MainGroup(mid: Path, s: string, m: string, a: string, b: string, c: string)
    requires s != m
    ensures Deepest(Namespaces(mid, s, m, a, b, c), {0, 1}, ["src", "main"] + mid)
  {
    var paths, base := Namespaces(mid, s, m, a, b, c), ["src", "main"] + mid;
    assert base < paths[0] && base < paths[1];
    assert paths[0][|base|] == s && paths[1][|base|] == m && paths[0][..|base|] == base;
    forall d: Path | AllInside(paths, d, {0, 1}) ensures d <= base {
      NotBoth(d, paths[0], paths[1], |base|);
    }
  }

  lemma TestGroup(mid: Path, s: string, m: string, a: string, b: string, c: string)
    ensures Deepest(Namespaces(mid, s, m, a, b, c), {2}, ["src", "test"] + mid + [s])
  {
    var paths, base := Namespaces(mid, s, m, a, b, c), ["src", "test"] + mid + [s];
    assert paths[2] == base + [c];
    forall d: Path | AllInside(paths, d, {2}) ensures d <= base {
      assert d < paths[2];
    }
  }

  /** The directories of the namespace are collapsed: each of the three directories with files is a module. */
  lemma NamespacesCollapse(mid: Path, s: string, m: string, a: string, b: string, c: string, f: nat, dir: Path)
    requires s != m && f < 3
    requires !HoldsSources(["src", "main"] + mid, s) && !GroupsOthers(s)
    requires !HoldsSources(["src", "main"] + mid, m) && !GroupsOthers(m)
    requires IsHome(Namespaces(mid, s, m, a, b, c), {0, 1, 2}, 0, f, dir)
    ensures dir == if f == 0 then ["src", "main"] + mid + [s]
                   else if f == 1 then ["src", "main"] + mid + [m]
                   else ["src", "test"] + mid + [s]
  {
    hide Namespaces, Deepest, IsHome, FilesUnder, HoldsSources, GroupsOthers;
    var paths := Namespaces(mid, s, m, a, b, c);
    NamespaceGroups(mid, s, m, a, b, c);
    NamespaceName(mid, s, m, a, b, c, f);
    SourceHome(paths, {0, 1, 2}, 0, ["src"], f, dir);
    if f < 2 {
      MainGroup(mid, s, m, a, b, c);
      OtherHome(paths, {0, 1}, 1, ["src", "main"] + mid, f, dir);
    } else {
      TestGroup(mid, s, m, a, b, c);
      DirectHome(paths, {2}, 1, ["src", "test"] + mid + [s], f, dir);
    }
  }

  lemma NamespaceName(mid: Path, s: string, m: string, a: string, b: string, c: string, f: nat)
    requires f < 3
    ensures |Namespaces(mid, s, m, a, b, c)| == 3
    ensures var path := Namespaces(mid, s, m, a, b, c)[f];
      && |path| == |mid| + 4 && ["src"] < path && path[1] == (if f < 2 then "main" else "test")
      && HoldsSources(["src"], path[1])
      && (f < 2 ==> ["src", "main"] + mid < path && path[|mid| + 2] == if f == 0 then s else m)
      && (f < 2 ==> path[..|mid| + 3] == ["src", "main"] + mid + [if f == 0 then s else m])
      && (f == 2 ==> ["src", "test"] + mid + [s] < path)
  {
  }

  /** So inference reports exactly these three modules for the three files. */
  lemma NamespaceModules(mid: Path, s: string, m: string, a: string, b: string, c: string,
                         modules: seq<Module>, assignment: seq<nat>, run: Run)
    requires s != m
    requires !HoldsSources(["src", "main"] + mid, s) && !GroupsOthers(s)
    requires !HoldsSources(["src", "main"] + mid, m) && !GroupsOthers(m)
    requires IsRun([], Namespaces(mid, s, m, a, b, c), run) && Shows([], run, modules, assignment)
    requires Settled(Directories([]), Namespaces(mid, s, m, a, b, c), run.merged)
    requires |assignment| == 3 && NoneEmpty(modules, assignment)
    ensures forall f :: 0 <= f < 3 ==> assignment[f] < |modules|
    ensures modules[assignment[0]].path == ["src", "main"] + mid + [s]
    ensures modules[assignment[1]].path == ["src", "main"] + mid + [m]
    ensures modules[assignment[2]].path == ["src", "test"] + mid + [s]
    ensures forall k :: 0 <= k < |modules| ==>
      exists f :: 0 <= f < 3 && modules[k] == modules[assignment[f]]
  {
    hide IsRun, Shows, Settled, IsHome, HoldsSources, GroupsOthers;
    var paths := Namespaces(mid, s, m, a, b, c);
    assert Directories([]) == [];
    assert Unpackaged([], paths) == {0, 1, 2};
    hide Namespaces;
    forall f: nat | f < 3
      ensures assignment[f] < |modules|
      ensures modules[assignment[f]].path == if f == 0 then ["src", "main"] + mid + [s]
                                             else if f == 1 then ["src", "main"] + mid + [m]
                                             else ["src", "test"] + mid + [s]
    {
      SmallRepository([], paths, modules, assignment, run, f);
      NamespacesCollapse(mid, s, m, a, b, c, f, modules[assignment[f]].path);
    }
    forall k: nat | k < |modules| ensures exists f :: 0 <= f < 3 && modules[k] == modules[assignment[f]] {
      assert k in assignment;
      var f :| 0 <= f < |assignment| && assignment[f] == k;
    }
  }
}
