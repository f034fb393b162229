/** The layout conventions: the directory module each file belongs to, read off the file's own path
    and the files it is grouped with. */
module ModuleConventions {
  import opened PathText

  const GROUPING_DIRS: seq<string> := [
    "apps", "cmd", "crates", "internal", "libs", "modules", "packages", "pkg", "plugins", "services"]

  const SOURCE_ROOTS: seq<string> := ["app", "lib", "source", "sources", "Sources", "src"]

  const MAX_SOURCE_DEPTH: nat := 3

  function FileName(path: Path): string {
    if path == [] then "" else path[|path| - 1]
  }

  predicate IsSourceRoot(base: Path, child: string) {
    child in SOURCE_ROOTS || (FileName(base) == "src" && (child == "main" || child == "test"))
  }

  /** The part after the base. */
  function ChildOf(path: Path, base: Path): string
    requires base < path
  {
    path[|base|]
  }

  predicate IsDirect(path: Path, base: Path) {
    |path| == |base| + 1
  }

  ghost predicate AllInside(paths: seq<Path>, base: Path, files: set<nat>) {
    forall f :: f in files ==> f < |paths| && base < paths[f]
  }

  /** The deepest directory that all the files lie strictly inside. */
  ghost predicate Deepest(paths: seq<Path>, files: set<nat>, base: Path) {
    AllInside(paths, base, files) && forall d: Path :: AllInside(paths, d, files) ==> d <= base
  }

  ghost function FilesUnder(paths: seq<Path>, dir: Path, files: set<nat>): set<nat> {
    set f | f in files && f < |paths| && dir < paths[f]
  }

  /** Files directly in the common directory stay there; files in a source root are looked into again,
      files in a grouping directory belong to its children, and any other child is one module. */
  ghost predicate Conventional(paths: seq<Path>, files: set<nat>, depth: nat, base: Path, f: nat, dir: Path)
    requires f < |paths| && base < paths[f] && depth <= MAX_SOURCE_DEPTH
    decreases MAX_SOURCE_DEPTH - depth, 0
  {
    if IsDirect(paths[f], base) then dir == base
    else
      var child := ChildOf(paths[f], base);
      if IsSourceRoot(base, child) && depth < MAX_SOURCE_DEPTH then
        IsHome(paths, FilesUnder(paths, base + [child], files), depth + 1, f, dir)
      else if child in GROUPING_DIRS then InGrouping(paths[f], base + [child], dir)
      else dir == base + [child]
  }

  ghost predicate InGrouping(path: Path, group: Path, dir: Path) {
    group < path && dir == if IsDirect(path, group) then group else group + [ChildOf(path, group)]
  }

  /** The directory module of a file among the files it is grouped with. */
  ghost predicate IsHome(paths: seq<Path>, files: set<nat>, depth: nat, f: nat, dir: Path)
    requires depth <= MAX_SOURCE_DEPTH
    decreases MAX_SOURCE_DEPTH - depth, 1
  {
    f in files && exists base {:trigger Deepest(paths, files, base)} ::
      Deepest(paths, files, base) && Conventional(paths, files, depth, base, f, dir)
  }

  lemma DeepestUnique(paths: seq<Path>, files: set<nat>, a: Path, b: Path)
    requires Deepest(paths, files, a) && Deepest(paths, files, b)
    ensures a == b
  {
    assert a <= b && b <= a;
  }

  /** The conventions settle the directory of every file. */
  lemma {:induction false} HomeUnique(paths: seq<Path>, files: set<nat>, depth: nat, f: nat, a: Path, b: Path)
    requires depth <= MAX_SOURCE_DEPTH && IsHome(paths, files, depth, f, a) && IsHome(paths, files, depth, f, b)
    ensures a == b
    decreases MAX_SOURCE_DEPTH - depth
  {
    var p: Path :| Deepest(paths, files, p) && Conventional(paths, files, depth, p, f, a);
    var q: Path :| Deepest(paths, files, q) && Conventional(paths, files, depth, q, f, b);
    DeepestUnique(paths, files, p, q);
    hide Deepest;
    if !IsDirect(paths[f], p) {
      var child := ChildOf(paths[f], p);
      if IsSourceRoot(p, child) && depth < MAX_SOURCE_DEPTH {
        HomeUnique(paths, FilesUnder(paths, p + [child], files), depth + 1, f, a, b);
      }
    }
  }

  /** The file lies strictly inside its module's directory. */
  lemma {:induction false} HomeContains(paths: seq<Path>, files: set<nat>, depth: nat, f: nat, dir: Path)
    requires depth <= MAX_SOURCE_DEPTH && IsHome(paths, files, depth, f, dir)
    ensures f < |paths| && dir < paths[f]
    decreases MAX_SOURCE_DEPTH - depth, 1
  {
    var base: Path :| Deepest(paths, files, base) && Conventional(paths, files, depth, base, f, dir);
    ConventionContains(paths, files, depth, base, f, dir);
  }

  lemma {:induction false} ConventionContains(paths: seq<Path>, files: set<nat>, depth: nat, base: Path, f: nat,
                                              dir: Path)
    requires f < |paths| && base < paths[f] && depth <= MAX_SOURCE_DEPTH
    requires Conventional(paths, files, depth, base, f, dir)
    ensures dir < paths[f]
    decreases MAX_SOURCE_DEPTH - depth, 0
  {
    hide Deepest, IsHome, IsSourceRoot;
    if !IsDirect(paths[f], base) {
      var child := ChildOf(paths[f], base);
      assert base + [child] < paths[f];
      if IsSourceRoot(base, child) && depth < MAX_SOURCE_DEPTH {
        HomeContains(paths, FilesUnder(paths, base + [child], files), depth + 1, f, dir);
      }
    }
  }
}
