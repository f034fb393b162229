/** Inferring modules: packages first, then directories by layout conventions. */
module ModuleInference {
  import opened Basics
  import opened Wrappers
  import opened PathText
  import opened ModuleConventions
  import opened ModuleDrafts

  const DOMINANT_MIN_FILES: nat := 10
  const SPLIT_PASSES: nat := 2

  ghost predicate Inside(paths: seq<Path>, base: Path, files: seq<nat>) {
    forall f :: f in files ==> f < |paths| && base < paths[f]
  }

  // ---------------------------------------------------------------------- collapse

  ghost predicate LivesBelow(paths: seq<Path>, base: Path, f: nat, child: string) {
    f < |paths| && base < paths[f] && !IsDirect(paths[f], base) && ChildOf(paths[f], base) == child
  }

  ghost predicate AllLiveBelow(paths: seq<Path>, base: Path, files: seq<nat>, child: string) {
    forall i :: 0 <= i < |files| ==> LivesBelow(paths, base, files[i], child)
  }

  /** The only child that all files live below, when there is one. */
  method OnlyChild(paths: seq<Path>, base: Path, files: seq<nat>) returns (child: Option<string>)
    requires Inside(paths, base, files) && files != []
    ensures child.Some? ==> AllLiveBelow(paths, base, files, child.value)
    ensures child.None? ==> forall c :: !AllLiveBelow(paths, base, files, c)
  {
    child := None;
    var i := 0;
    while i < |files|
      invariant i <= |files| && (child.Some? <==> i > 0)
      invariant child.Some? ==> AllLiveBelow(paths, base, files[..i], child.value)
      decreases |files| - i
    {
      assert files[i] in files;
      if IsDirect(paths[files[i]], base) {
        assert forall c :: !LivesBelow(paths, base, files[i], c);
        return None;
      }
      var first := ChildOf(paths[files[i]], base);
      match child {
        case None => child := Some(first);
        case Some(only) =>
          if only != first {
            TwoChildren(paths, base, files, i, only);
            return None;
          }
      }
      assert files[..i + 1] == files[..i] + [files[i]];
      i := i + 1;
    }
    assert files[..i] == files;
  }

  lemma TwoChildren(paths: seq<Path>, base: Path, files: seq<nat>, i: nat, only: string)
    requires 0 < i < |files| && AllLiveBelow(paths, base, files[..i], only)
    requires files[i] < |paths| && base < paths[files[i]] && ChildOf(paths[files[i]], base) != only
    ensures forall c :: !AllLiveBelow(paths, base, files, c)
  {
    assert files[..i][0] == files[0] && LivesBelow(paths, base, files[..i][0], only);
    forall c ensures !AllLiveBelow(paths, base, files, c) {
      assert !(LivesBelow(paths, base, files[0], c) && LivesBelow(paths, base, files[i], c));
    }
  }

  /** The deepest directory that holds all the files. */
  method Collapse(paths: seq<Path>, start: Path, files: seq<nat>) returns (base: Path)
    requires Inside(paths, start, files) && files != []
    ensures start <= base && Inside(paths, base, files)
    ensures forall d: Path :: Inside(paths, d, files) ==> d <= base
  {
    assert files[0] in files;
    base := start;
    while true
      invariant start <= base && Inside(paths, base, files)
      decreases |paths[files[0]]| - |base|
    {
      var child := OnlyChild(paths, base, files);
      if child.None? {
        DeepestSoFar(paths, base, files);
        return;
      }
      forall f | f in files ensures f < |paths| && base + [child.value] < paths[f] {
        var i :| 0 <= i < |files| && files[i] == f;
        assert LivesBelow(paths, base, files[i], child.value);
      }
      base := base + [child.value];
    }
  }

  lemma DeeperGivesChild(paths: seq<Path>, base: Path, d: Path, files: seq<nat>)
    requires Inside(paths, base, files) && Inside(paths, d, files) && |d| > |base|
    ensures AllLiveBelow(paths, base, files, d[|base|])
  {
    forall i | 0 <= i < |files| ensures LivesBelow(paths, base, files[i], d[|base|]) {
      assert files[i] in files;
    }
  }

  lemma DeepestSoFar(paths: seq<Path>, base: Path, files: seq<nat>)
    requires Inside(paths, base, files) && files != []
    requires forall c :: !AllLiveBelow(paths, base, files, c)
    ensures forall d: Path :: Inside(paths, d, files) ==> d <= base
  {
    forall d: Path | Inside(paths, d, files) ensures d <= base {
      if |d| > |base| {
        DeeperGivesChild(paths, base, d, files);
      } else {
        assert files[0] in files;
        assert d == paths[files[0]][..|d|] && base == paths[files[0]][..|base|];
      }
    }
  }

  // ---------------------------------------------------------------- grouping by child

  datatype Children = Children(direct: seq<nat>, below: seq<(string, seq<nat>)>)

  ghost function Below(below: seq<(string, seq<nat>)>): seq<nat> {
    if below == [] then [] else below[0].1 + Below(below[1..])
  }

  function Names(below: seq<(string, seq<nat>)>): seq<string> {
    seq(|below|, i requires 0 <= i < |below| => below[i].0)
  }

  ghost predicate DistinctNames(below: seq<(string, seq<nat>)>) {
    forall i, j :: 0 <= i < j < |below| ==> below[i].0 != below[j].0
  }

  /** The members of an entry lie below the child it is named after. */
  ghost predicate IsChild(paths: seq<Path>, base: Path, c: (string, seq<nat>)) {
    c.1 != [] && Inside(paths, base + [c.0], c.1)
  }

  ghost predicate ByChild(paths: seq<Path>, base: Path, files: seq<nat>, c: Children) {
    && DistinctNames(c.below)
    && (forall f :: f in c.direct ==> f < |paths| && base < paths[f] && IsDirect(paths[f], base))
    && (forall i :: 0 <= i < |c.below| ==> IsChild(paths, base, c.below[i]))
    && multiset(c.direct + Below(c.below)) == multiset(files)
  }

  /** Adds a file to the entry of its child. */
  function AddBelow(below: seq<(string, seq<nat>)>, child: string, f: nat): (r: seq<(string, seq<nat>)>) {
    if below == [] then [(child, [f])]
    else if below[0].0 == child then [(child, below[0].1 + [f])] + below[1..]
    else [below[0]] + AddBelow(below[1..], child, f)
  }

  lemma {:induction false} AddBelowFiles(below: seq<(string, seq<nat>)>, child: string, f: nat)
    ensures multiset(Below(AddBelow(below, child, f))) == multiset(Below(below)) + multiset{f}
  {
    var r := AddBelow(below, child, f);
    if below != [] {
      if below[0].0 != child {
        AddBelowFiles(below[1..], child, f);
      }
      assert r[1..] == if below[0].0 == child then below[1..] else AddBelow(below[1..], child, f);
    } else {
      assert r[1..] == [] && Below(r) == [f] + [];
    }
  }

  lemma {:induction false} AddBelowChildren(paths: seq<Path>, base: Path, below: seq<(string, seq<nat>)>,
                                            child: string, f: nat)
    requires forall i :: 0 <= i < |below| ==> IsChild(paths, base, below[i])
    requires f < |paths| && base + [child] < paths[f]
    ensures forall i :: 0 <= i < |AddBelow(below, child, f)| ==> IsChild(paths, base, AddBelow(below, child, f)[i])
  {
    if below != [] && below[0].0 != child {
      AddBelowChildren(paths, base, below[1..], child, f);
    }
  }

  lemma {:induction false} AddBelowNames(below: seq<(string, seq<nat>)>, child: string, f: nat)
    requires DistinctNames(below)
    ensures DistinctNames(AddBelow(below, child, f))
    ensures forall i :: 0 <= i < |AddBelow(below, child, f)| ==>
      var name := AddBelow(below, child, f)[i].0;
      name == child || exists k :: 0 <= k < |below| && below[k].0 == name
  {
    if below != [] {
      var rest := below[1..];
      assert DistinctNames(rest);
      AddBelowNames(rest, child, f);
      var r := AddBelow(below, child, f);
      if below[0].0 != child {
        var more := AddBelow(rest, child, f);
        forall i | 0 <= i < |more| ensures more[i].0 != below[0].0 {
          if more[i].0 != child {
            var k :| 0 <= k < |rest| && rest[k].0 == more[i].0;
            assert below[k + 1].0 == more[i].0;
          }
        }
        forall i | 0 <= i < |r| ensures r[i].0 == child || exists k :: 0 <= k < |below| && below[k].0 == r[i].0 {
          if i > 0 && r[i].0 != child {
            var k :| 0 <= k < |rest| && rest[k].0 == more[i - 1].0;
            assert below[k + 1].0 == r[i].0;
          }
        }
      }
    }
  }

  /** Where one more file goes. */
  function Place(paths: seq<Path>, base: Path, c: Children, f: nat): Children
    requires f < |paths| && base < paths[f]
  {
    if IsDirect(paths[f], base) then c.(direct := c.direct + [f])
    else c.(below := AddBelow(c.below, ChildOf(paths[f], base), f))
  }

  lemma PlaceKeeps(paths: seq<Path>, base: Path, files: seq<nat>, c: Children, f: nat)
    requires f < |paths| && base < paths[f] && ByChild(paths, base, files, c)
    ensures ByChild(paths, base, files + [f], Place(paths, base, c, f))
  {
    hide DistinctNames, IsChild, Below;
    if IsDirect(paths[f], base) {
      OneMoreFile(c.direct, Below(c.below), files, f);
    } else {
      var child := ChildOf(paths[f], base);
      AddBelowFiles(c.below, child, f);
      AddBelowNames(c.below, child, f);
      AddBelowChildren(paths, base, c.below, child, f);
    }
  }

  lemma OneMoreFile(a: seq<nat>, b: seq<nat>, files: seq<nat>, f: nat)
    requires multiset(a + b) == multiset(files)
    ensures multiset(a + [f] + b) == multiset(files + [f])
  {
  }

  method GroupByChild(paths: seq<Path>, base: Path, files: seq<nat>) returns (c: Children)
    requires Inside(paths, base, files)
    ensures ByChild(paths, base, files, c)
  {
    hide ByChild;
    c := Children([], []);
    NoChildren(paths, base, c);
    var i := 0;
    while i < |files|
      invariant i <= |files| && ByChild(paths, base, files[..i], c)
    {
      assert files[i] in files;
      assert files[..i + 1] == files[..i] + [files[i]];
      PlaceKeeps(paths, base, files[..i], c, files[i]);
      c := Place(paths, base, c, files[i]);
      i := i + 1;
    }
    assert files[..i] == files;
  }

  lemma NoChildren(paths: seq<Path>, base: Path, c: Children)
    requires c == Children([], [])
    ensures ByChild(paths, base, [], c)
  {
  }

  // --------------------------------------------------------------------- partition

  ghost predicate Plain(d: Draft) {
    d.package == None && d.kind == if d.path == [] then Root else Directory
  }

  ghost predicate AllPlain(ds: seq<Draft>) {
    forall i :: 0 <= i < |ds| ==> Plain(ds[i])
  }

  /** The drafts divide the files directly in the base and below its first `k` children. */
  ghost predicate Placed(paths: seq<Path>, base: Path, c: Children, k: nat, ds: seq<Draft>)
    requires k <= |c.below|
  {
    && Groups(paths, ds, c.direct + Below(c.below[..k]))
    && AllUnder(paths, base, Names(c.below[..k]), ds)
    && AllPlain(ds)
  }

  /** The drafts divide the files, below the base. */
  ghost predicate Divides(paths: seq<Path>, base: Path, files: seq<nat>, ds: seq<Draft>) {
    Groups(paths, ds, files) && AllBelow(ds, base) && AllPlain(ds)
  }

  lemma {:induction false} BelowNext(below: seq<(string, seq<nat>)>, k: nat)
    requires k < |below|
    ensures Below(below[..k + 1]) == Below(below[..k]) + below[k].1
    decreases k
  {
    var rest := below[1..];
    if k == 0 {
      assert below[..1] == [below[0]] && below[..1][1..] == [];
      assert Below(below[..1]) == below[0].1 + [];
    } else {
      BelowNext(rest, k - 1);
      assert below[..k + 1][1..] == rest[..k] && below[..k][1..] == rest[..k - 1];
    }
  }

  lemma NewName(below: seq<(string, seq<nat>)>, k: nat)
    requires DistinctNames(below) && k < |below|
    ensures below[k].0 !in Names(below[..k]) && Names(below[..k]) + [below[k].0] == Names(below[..k + 1])
  {
    var names := Names(below[..k]);
    assert forall i :: 0 <= i < k ==> names[i] == below[i].0;
  }

  lemma PlaceNext(paths: seq<Path>, base: Path, files: seq<nat>, c: Children, k: nat, ds: seq<Draft>, es: seq<Draft>)
    requires ByChild(paths, base, files, c) && k < |c.below| && Placed(paths, base, c, k, ds)
    requires Divides(paths, base + [c.below[k].0], c.below[k].1, es)
    ensures Placed(paths, base, c, k + 1, ds + es)
  {
    var names, child := Names(c.below[..k]), c.below[k].0;
    NewName(c.below, k);
    GroupsHold(paths, ds, c.direct + Below(c.below[..k]));
    GroupsHold(paths, es, c.below[k].1);
    AllPlainConcat(ds, es);
    BelowNext(c.below, k);
    Regroup(c.direct, Below(c.below[..k]), c.below[k].1);
    hide Groups, AllHold, AllUnder, AllBelow, AllPlain, CrossApart, Below, DistinctNames, Names;
    NewChildApart(paths, base, names, child, ds, es);
    GroupsConcat(paths, ds, es, c.direct + Below(c.below[..k]), c.below[k].1);
    UnderMore(paths, base, names, child, ds, es);
  }

  lemma GroupsHold(paths: seq<Path>, ds: seq<Draft>, files: seq<nat>)
    requires Groups(paths, ds, files)
    ensures AllHold(paths, ds)
  {
  }

  lemma AllPlainConcat(a: seq<Draft>, b: seq<Draft>)
    requires AllPlain(a) && AllPlain(b)
    ensures AllPlain(a + b)
  {
  }

  lemma PlaceAll(paths: seq<Path>, base: Path, files: seq<nat>, c: Children, ds: seq<Draft>)
    requires ByChild(paths, base, files, c) && Placed(paths, base, c, |c.below|, ds)
    ensures Divides(paths, base, files, ds)
  {
    assert c.below[..|c.below|] == c.below;
    forall i | 0 <= i < |ds| ensures base <= ds[i].path {
      assert UnderChildren(paths, base, Names(c.below), ds[i]);
    }
  }

  /** The draft of the files directly in the directory, if there are any. */
  method DirectDraft(paths: seq<Path>, base: Path, ghost files: seq<nat>, c: Children) returns (ds: seq<Draft>)
    requires ByChild(paths, base, files, c)
    ensures Placed(paths, base, c, 0, ds)
    ensures ds == if c.direct == [] then [] else [DirectoryDraft(base, c.direct)]
  {
    assert c.below[..0] == [] && Below([]) == [] && c.direct + [] == c.direct;
    if c.direct == [] {
      ds := [];
    } else {
      var d := DirectoryDraft(base, c.direct);
      assert Holds(paths, d);
      SingleGroup(paths, d);
      ds := [d];
    }
  }

  lemma OneDraft(paths: seq<Path>, path: Path, files: seq<nat>)
    requires files != [] && Inside(paths, path, files)
    ensures Divides(paths, path, files, [DirectoryDraft(path, files)])
  {
    SingleGroup(paths, DirectoryDraft(path, files));
  }

  // ------------------------------------------------------------- by the conventions

  ghost function Members(files: seq<nat>): set<nat> {
    set f | f in files
  }

  /** Every file is in the draft of its home directory. */
  ghost predicate AtHome(paths: seq<Path>, files: set<nat>, depth: nat, d: Draft)
    requires depth <= MAX_SOURCE_DEPTH
  {
    forall f :: f in d.files ==> IsHome(paths, files, depth, f, d.path)
  }

  ghost predicate AllAtHome(paths: seq<Path>, files: set<nat>, depth: nat, ds: seq<Draft>)
    requires depth <= MAX_SOURCE_DEPTH
  {
    forall i :: 0 <= i < |ds| ==> AtHome(paths, files, depth, ds[i])
  }

  lemma {:induction false} InBelow(below: seq<(string, seq<nat>)>, f: nat)
    ensures f in Below(below) <==> exists i :: 0 <= i < |below| && f in below[i].1
  {
    if below != [] {
      InBelow(below[1..], f);
      if i :| 0 <= i < |below| && f in below[i].1 {
        if i > 0 {
          assert below[1..][i - 1] == below[i];
        }
      }
      if f in Below(below[1..]) {
        var i :| 0 <= i < |below[1..]| && f in below[1..][i].1;
        assert below[i + 1] == below[1..][i];
      }
    }
  }

  /** The entry of a child has exactly the files under it. */
  lemma ChildMembers(paths: seq<Path>, base: Path, files: seq<nat>, c: Children, k: nat)
    requires ByChild(paths, base, files, c) && k < |c.below|
    ensures Members(c.below[k].1) == FilesUnder(paths, base + [c.below[k].0], Members(files))
  {
    var dir := base + [c.below[k].0];
    forall f | f in c.below[k].1 ensures f in files && f < |paths| && dir < paths[f] {
      InBelow(c.below, f);
      assert f in multiset(c.direct + Below(c.below));
      assert IsChild(paths, base, c.below[k]);
    }
    forall f | f in files && f < |paths| && dir < paths[f] ensures f in c.below[k].1 {
      assert f in multiset(files);
      InBelow(c.below, f);
      assert f !in c.direct;
      var i :| 0 <= i < |c.below| && f in c.below[i].1;
      SameChild(paths, base, c, i, k, f);
    }
  }

  lemma SameChild(paths: seq<Path>, base: Path, c: Children, i: nat, k: nat, f: nat)
    requires DistinctNames(c.below) && i < |c.below| && k < |c.below| && f < |paths|
    requires IsChild(paths, base, c.below[i]) && f in c.below[i].1 && base + [c.below[k].0] < paths[f]
    ensures i == k
  {
    PrefixAt(base + [c.below[i].0], paths[f], |base|);
    PrefixAt(base + [c.below[k].0], paths[f], |base|);
  }

  lemma DirectAtHome(paths: seq<Path>, base: Path, files: seq<nat>, depth: nat, c: Children, ds: seq<Draft>)
    requires depth <= MAX_SOURCE_DEPTH && Deepest(paths, Members(files), base) && ByChild(paths, base, files, c)
    requires ds == if c.direct == [] then [] else [DirectoryDraft(base, c.direct)]
    ensures AllAtHome(paths, Members(files), depth, ds)
  {
    forall f | f in c.direct ensures IsHome(paths, Members(files), depth, f, base) {
      assert f in multiset(c.direct + Below(c.below));
      assert f in multiset(files);
      assert Conventional(paths, Members(files), depth, base, f, base);
    }
  }

  /** The drafts of one child settle its files. */
  lemma ChildAtHome(paths: seq<Path>, base: Path, files: seq<nat>, depth: nat, c: Children, k: nat, es: seq<Draft>)
    requires depth <= MAX_SOURCE_DEPTH && Deepest(paths, Members(files), base) && ByChild(paths, base, files, c)
    requires k < |c.below| && Groups(paths, es, c.below[k].1)
    requires forall i, f :: 0 <= i < |es| && f in es[i].files && f in c.below[k].1 && f < |paths| && base < paths[f] ==>
      Conventional(paths, Members(files), depth, base, f, es[i].path)
    ensures AllAtHome(paths, Members(files), depth, es)
  {
    forall i, f | 0 <= i < |es| && f in es[i].files ensures IsHome(paths, Members(files), depth, f, es[i].path) {
      GroupMember(paths, es, c.below[k].1, i, f);
      ChildMembers(paths, base, files, c, k);
      assert f in Members(c.below[k].1);
      assert Conventional(paths, Members(files), depth, base, f, es[i].path);
    }
  }

  lemma AllAtHomeConcat(paths: seq<Path>, files: set<nat>, depth: nat, a: seq<Draft>, b: seq<Draft>)
    requires depth <= MAX_SOURCE_DEPTH && AllAtHome(paths, files, depth, a) && AllAtHome(paths, files, depth, b)
    ensures AllAtHome(paths, files, depth, a + b)
  {
  }

  lemma BelowChild(paths: seq<Path>, base: Path, c: (string, seq<nat>), f: nat)
    requires IsChild(paths, base, c) && f in c.1
    ensures f < |paths| && base < paths[f] && !IsDirect(paths[f], base) && ChildOf(paths[f], base) == c.0
    ensures base + [c.0] < paths[f]
  {
    PrefixAt(base + [c.0], paths[f], |base|);
    assert base == (base + [c.0])[..|base|] == paths[f][..|base|];
  }

  ghost predicate DraftInGrouping(paths: seq<Path>, group: Path, d: Draft) {
    forall f :: f in d.files ==> f < |paths| && InGrouping(paths[f], group, d.path)
  }

  ghost predicate AllInGrouping(paths: seq<Path>, group: Path, ds: seq<Draft>) {
    forall i :: 0 <= i < |ds| ==> DraftInGrouping(paths, group, ds[i])
  }

  lemma AllInGroupingConcat(paths: seq<Path>, group: Path, a: seq<Draft>, b: seq<Draft>)
    requires AllInGrouping(paths, group, a) && AllInGrouping(paths, group, b)
    ensures AllInGrouping(paths, group, a + b)
  {
  }

  lemma GrandchildGrouped(paths: seq<Path>, group: Path, c: (string, seq<nat>))
    requires IsChild(paths, group, c)
    ensures AllInGrouping(paths, group, [DirectoryDraft(group + [c.0], c.1)])
  {
    forall f | f in c.1 ensures f < |paths| && InGrouping(paths[f], group, group + [c.0]) {
      BelowChild(paths, group, c, f);
    }
  }

  /** A grouping directory contributes one draft per child. */
  method GroupingDrafts(paths: seq<Path>, path: Path, members: seq<nat>) returns (ds: seq<Draft>)
    requires Inside(paths, path, members)
    ensures Divides(paths, path, members, ds)
    ensures AllInGrouping(paths, path, ds)
  {
    var c := GroupByChild(paths, path, members);
    ds := DirectDraft(paths, path, members, c);
    assert AllInGrouping(paths, path, ds);
    hide Placed, Divides, AllInGrouping;
    var k := 0;
    while k < |c.below|
      invariant k <= |c.below| && Placed(paths, path, c, k, ds) && AllInGrouping(paths, path, ds)
    {
      assert IsChild(paths, path, c.below[k]);
      var d := DirectoryDraft(path + [c.below[k].0], c.below[k].1);
      OneDraft(paths, path + [c.below[k].0], c.below[k].1);
      PlaceNext(paths, path, members, c, k, ds, [d]);
      GrandchildGrouped(paths, path, c.below[k]);
      AllInGroupingConcat(paths, path, ds, [d]);
      ds := ds + [d];
      k := k + 1;
    }
    PlaceAll(paths, path, members, c, ds);
  }

  /** The drafts of one child of the common directory. */
  method ChildDrafts(paths: seq<Path>, base: Path, ghost files: seq<nat>, depth: nat, ghost c: Children, ghost k: nat,
                     child: string, members: seq<nat>) returns (es: seq<Draft>)
    requires depth <= MAX_SOURCE_DEPTH && Deepest(paths, Members(files), base) && ByChild(paths, base, files, c)
    requires k < |c.below| && c.below[k] == (child, members)
    ensures Divides(paths, base + [child], members, es)
    ensures AllAtHome(paths, Members(files), depth, es)
    decreases MAX_SOURCE_DEPTH - depth, 0
  {
    hide ByChild, Deepest;
    EntryIsChild(paths, base, files, c, k);
    forall f | f in members
      ensures f < |paths| && base < paths[f] && !IsDirect(paths[f], base) && ChildOf(paths[f], base) == child
    {
      BelowChild(paths, base, c.below[k], f);
    }
    if IsSourceRoot(base, child) && depth < MAX_SOURCE_DEPTH {
      ChildMembers(paths, base, files, c, k);
      es := Partition(paths, base + [child], members, depth + 1);
    } else if child in GROUPING_DIRS {
      es := GroupingDrafts(paths, base + [child], members);
    } else {
      OneDraft(paths, base + [child], members);
      es := [DirectoryDraft(base + [child], members)];
    }
    ChildAtHome(paths, base, files, depth, c, k, es);
  }

  lemma EntryIsChild(paths: seq<Path>, base: Path, files: seq<nat>, c: Children, k: nat)
    requires ByChild(paths, base, files, c) && k < |c.below|
    ensures IsChild(paths, base, c.below[k])
  {
  }

  lemma CollapsedIsDeepest(paths: seq<Path>, files: seq<nat>, base: Path)
    requires Inside(paths, base, files) && forall d: Path :: Inside(paths, d, files) ==> d <= base
    ensures Deepest(paths, Members(files), base)
  {
    forall d: Path | AllInside(paths, d, Members(files)) ensures d <= base {
      forall f | f in files ensures f < |paths| && d < paths[f] {
        assert f in Members(files);
      }
      assert Inside(paths, d, files);
    }
  }

  /** Groups files that are all inside a directory by the layout conventions. */
  method Partition(paths: seq<Path>, start: Path, files: seq<nat>, depth: nat) returns (ds: seq<Draft>)
    requires Inside(paths, start, files) && files != [] && depth <= MAX_SOURCE_DEPTH
    ensures Divides(paths, start, files, ds)
    ensures AllAtHome(paths, Members(files), depth, ds)
    decreases MAX_SOURCE_DEPTH - depth, 1
  {
    hide Placed, Divides, Inside, AllAtHome, Deepest, ByChild, Members;
    var base := Collapse(paths, start, files);
    CollapsedIsDeepest(paths, files, base);
    var c := GroupByChild(paths, base, files);
    ds := DirectDraft(paths, base, files, c);
    DirectAtHome(paths, base, files, depth, c, ds);
    var k := 0;
    while k < |c.below|
      invariant k <= |c.below| && Placed(paths, base, c, k, ds)
      invariant AllAtHome(paths, Members(files), depth, ds)
    {
      var (child, members) := c.below[k];
      var es := ChildDrafts(paths, base, files, depth, c, k, child, members);
      PlaceNext(paths, base, files, c, k, ds, es);
      AllAtHomeConcat(paths, Members(files), depth, ds, es);
      ds := ds + es;
      k := k + 1;
    }
    PlaceAll(paths, base, files, c, ds);
    BelowStart(paths, start, base, files, ds);
  }

  lemma BelowStart(paths: seq<Path>, start: Path, base: Path, files: seq<nat>, ds: seq<Draft>)
    requires Divides(paths, base, files, ds) && start <= base
    ensures Divides(paths, start, files, ds)
  {
  }

  // -------------------------------------------------------------- dominant modules

  /** A package draft stands at its package's directory; the others are named after their kind. */
  ghost predicate KindFits(packages: seq<Path>, d: Draft) {
    if d.kind == Package then d.package.Some? && d.package.value < |packages| && d.path == packages[d.package.value]
    else Plain(d)
  }

  ghost predicate AllFit(packages: seq<Path>, ds: seq<Draft>) {
    forall i :: 0 <= i < |ds| ==> KindFits(packages, ds[i])
  }

  function KeepIdentity(draft: Draft, part: Draft): Draft {
    if draft.kind == Package && part.path == draft.path then part.(kind := Package, package := draft.package) else part
  }

  function KeepAll(draft: Draft, parts: seq<Draft>): seq<Draft> {
    seq(|parts|, i requires 0 <= i < |parts| => KeepIdentity(draft, parts[i]))
  }

  lemma {:induction false} FlatSame(a: seq<Draft>, b: seq<Draft>)
    requires |a| == |b| && forall i :: 0 <= i < |a| ==> a[i].files == b[i].files
    ensures Flat(a) == Flat(b)
  {
    if a != [] {
      FlatSame(a[1..], b[1..]);
    }
  }

  ghost predicate SamePlaces(a: seq<Draft>, b: seq<Draft>) {
    |a| == |b| && forall i :: 0 <= i < |a| ==> a[i].path == b[i].path && a[i].files == b[i].files
  }

  lemma SamePlacesApart(paths: seq<Path>, a: seq<Draft>, b: seq<Draft>)
    requires SamePlaces(a, b) && Apart(paths, a) && AllHold(paths, a)
    ensures Apart(paths, b) && AllHold(paths, b)
  {
    forall i, j | 0 <= i < |b| && 0 <= j < |b| && i != j ensures Yields(paths, b[i], b[j]) {
      assert Yields(paths, a[i], a[j]);
    }
    forall i | 0 <= i < |b| ensures Holds(paths, b[i]) {
      assert Holds(paths, a[i]);
    }
  }

  lemma KeepAllGroups(packages: seq<Path>, paths: seq<Path>, draft: Draft, parts: seq<Draft>)
    requires Divides(paths, draft.path, draft.files, parts) && KindFits(packages, draft)
    ensures Groups(paths, KeepAll(draft, parts), draft.files) && AllBelow(KeepAll(draft, parts), draft.path)
    ensures AllFit(packages, KeepAll(draft, parts))
  {
    var r := KeepAll(draft, parts);
    assert SamePlaces(parts, r);
    FlatSame(r, parts);
    SamePlacesApart(paths, parts, r);
    hide Apart, AllHold, Flat;
    forall i | 0 <= i < |r| ensures KindFits(packages, r[i]) && draft.path <= r[i].path {
      assert Plain(parts[i]) && draft.path <= parts[i].path;
    }
  }

  function Total(drafts: seq<Draft>): nat {
    if drafts == [] then 0 else |drafts[0].files| + Total(drafts[1..])
  }

  ghost predicate Fitting(packages: seq<Path>, paths: seq<Path>, ds: seq<Draft>, files: seq<nat>) {
    Groups(paths, ds, files) && AllFit(packages, ds)
  }

  lemma ReplaceFitting(packages: seq<Path>, paths: seq<Path>, a: seq<Draft>, e: Draft, parts: seq<Draft>,
                       b: seq<Draft>, files: seq<nat>)
    requires Fitting(packages, paths, a + [e] + b, files)
    requires Groups(paths, parts, e.files) && AllBelow(parts, e.path) && AllFit(packages, parts)
    ensures Fitting(packages, paths, a + parts + b, files)
  {
    ReplaceDraft(paths, a, e, parts, b, files);
    var ds, r := a + [e] + b, a + parts + b;
    forall i | 0 <= i < |r| ensures KindFits(packages, r[i]) {
      if i < |a| {
        assert ds[i] == a[i];
      } else if i >= |a| + |parts| {
        assert ds[i - |parts| + 1] == r[i];
      } else {
        assert r[i] == parts[i - |a|];
      }
    }
  }

  // ------------------------------------------------------------------ what a pass does

  /** At least ten files, and at least half of all. */
  ghost predicate IsDominant(d: Draft, total: nat) {
    |d.files| >= 10 && |d.files| * 2 >= total
  }

  ghost predicate Parts(paths: seq<Path>, d: Draft, parts: seq<Draft>) {
    Divides(paths, d.path, d.files, parts) && AllAtHome(paths, Members(d.files), 0, parts)
  }

  /** The part of a package that stands at the package's directory is still the package; any other part is what
      the conventions make of it. */
  ghost predicate IsKept(d: Draft, part: Draft, e: Draft) {
    && e.path == part.path && e.files == part.files
    && if d.kind == Package && part.path == d.path then e.kind == Package && e.package == d.package
       else e.kind == part.kind && e.package == part.package
  }

  ghost predicate AreKept(d: Draft, parts: seq<Draft>, r: seq<Draft>) {
    |r| == |parts| && forall i :: 0 <= i < |r| ==> IsKept(d, parts[i], r[i])
  }

  lemma KeepAllKeeps(d: Draft, parts: seq<Draft>)
    ensures AreKept(d, parts, KeepAll(d, parts))
  {
  }

  /** A dominant draft with at least two parts is replaced by them. */
  ghost predicate Replaces(paths: seq<Path>, total: nat, d: Draft, r: seq<Draft>) {
    if IsDominant(d, total)
    then exists parts {:trigger Parts(paths, d, parts)} ::
      Parts(paths, d, parts) && if |parts| >= 2 then AreKept(d, parts, r) else r == [d]
    else r == [d]
  }

  lemma {:induction false} TotalIsFlat(drafts: seq<Draft>)
    ensures Total(drafts) == |Flat(drafts)|
  {
    if drafts != [] {
      TotalIsFlat(drafts[1..]);
    }
  }

  ghost function Joined(rs: seq<seq<Draft>>): seq<Draft> {
    if rs == [] then [] else Joined(rs[..|rs| - 1]) + rs[|rs| - 1]
  }

  ghost predicate ReplacesAll(paths: seq<Path>, total: nat, ds: seq<Draft>, rs: seq<seq<Draft>>) {
    |rs| == |ds| && forall i :: 0 <= i < |ds| ==> Replaces(paths, total, ds[i], rs[i])
  }

  ghost predicate IsPass(paths: seq<Path>, drafts: seq<Draft>, next: seq<Draft>) {
    exists rs {:trigger Joined(rs)} :: ReplacesAll(paths, |Flat(drafts)|, drafts, rs) && next == Joined(rs)
  }

  ghost predicate IsSplit(paths: seq<Path>, drafts: seq<Draft>, r: seq<Draft>) {
    exists middle {:trigger IsPass(paths, drafts, middle)} :: IsPass(paths, drafts, middle) && IsPass(paths, middle, r)
  }

  lemma NothingReplaced(paths: seq<Path>, total: nat, ds: seq<Draft>)
    ensures ReplacesAll(paths, total, ds[..0], []) && Joined([]) == []
  {
  }

  lemma ReplacesNext(paths: seq<Path>, total: nat, ds: seq<Draft>, rs: seq<seq<Draft>>, i: nat, r: seq<Draft>)
    requires i < |ds| && ReplacesAll(paths, total, ds[..i], rs) && Replaces(paths, total, ds[i], r)
    ensures ReplacesAll(paths, total, ds[..i + 1], rs + [r]) && Joined(rs + [r]) == Joined(rs) + r
  {
    hide Replaces;
    assert (rs + [r])[..|rs|] == rs;
    forall k | 0 <= k < i + 1 ensures Replaces(paths, total, ds[..i + 1][k], (rs + [r])[k]) {
      if k < i {
        assert Replaces(paths, total, ds[..i][k], rs[k]);
      }
    }
  }

  /** Every draft after a pass lies below one from before it, with some of its files. */
  ghost predicate Refines(e: Draft, d: Draft) {
    d.path <= e.path && forall f :: f in e.files ==> f in d.files
  }

  lemma ReplacementRefines(paths: seq<Path>, total: nat, d: Draft, r: seq<Draft>, k: nat)
    requires Replaces(paths, total, d, r) && k < |r|
    ensures Refines(r[k], d)
  {
    if r != [d] {
      var parts: seq<Draft> :| Parts(paths, d, parts) && |parts| >= 2 && AreKept(d, parts, r);
      assert IsKept(d, parts[k], r[k]);
      forall f | f in parts[k].files ensures f in d.files {
        GroupMember(paths, parts, d.files, k, f);
      }
    }
  }

  lemma {:induction false} JoinedRefines(paths: seq<Path>, total: nat, ds: seq<Draft>, rs: seq<seq<Draft>>, k: nat)
    returns (i: nat)
    requires ReplacesAll(paths, total, ds, rs) && k < |Joined(rs)|
    ensures i < |ds| && Refines(Joined(rs)[k], ds[i])
    decreases |rs|
  {
    hide Replaces, Refines;
    var n := |rs| - 1;
    if k < |Joined(rs[..n])| {
      assert ReplacesAll(paths, total, ds[..n], rs[..n]);
      i := JoinedRefines(paths, total, ds[..n], rs[..n], k);
    } else {
      i := n;
      ReplacementRefines(paths, total, ds[n], rs[n], k - |Joined(rs[..n])|);
    }
  }

  lemma PassRefines(paths: seq<Path>, drafts: seq<Draft>, next: seq<Draft>, k: nat) returns (i: nat)
    requires IsPass(paths, drafts, next) && k < |next|
    ensures i < |drafts| && Refines(next[k], drafts[i])
  {
    var rs: seq<seq<Draft>> :| ReplacesAll(paths, |Flat(drafts)|, drafts, rs) && next == Joined(rs);
    i := JoinedRefines(paths, |Flat(drafts)|, drafts, rs, k);
  }

  lemma SplitRefines(paths: seq<Path>, drafts: seq<Draft>, r: seq<Draft>, k: nat) returns (i: nat)
    requires IsSplit(paths, drafts, r) && k < |r|
    ensures i < |drafts| && Refines(r[k], drafts[i])
  {
    var middle: seq<Draft> :| IsPass(paths, drafts, middle) && IsPass(paths, middle, r);
    var j := PassRefines(paths, middle, r, k);
    i := PassRefines(paths, drafts, middle, j);
  }

  method ReplaceDominant(packages: seq<Path>, paths: seq<Path>, draft: Draft, total: nat)
    returns (r: seq<Draft>, changed: bool)
    requires Holds(paths, draft) && KindFits(packages, draft)
    ensures Replaces(paths, total, draft, r) && (!changed ==> r == [draft])
    ensures Groups(paths, r, draft.files) && AllBelow(r, draft.path) && AllFit(packages, r)
  {
    r, changed := [draft], false;
    SingleGroup(paths, draft);
    if |draft.files| >= DOMINANT_MIN_FILES && |draft.files| * 2 >= total {
      var parts := Partition(paths, draft.path, draft.files, 0);
      assert Parts(paths, draft, parts);
      if |parts| >= 2 {
        KeepAllGroups(packages, paths, draft, parts);
        KeepAllKeeps(draft, parts);
        r, changed := KeepAll(draft, parts), true;
      }
    }
  }

  /** One pass: the drafts with at least half of all files are split into their subdirectories. */
  method SplitPass(packages: seq<Path>, paths: seq<Path>, drafts: seq<Draft>, ghost files: seq<nat>)
    returns (next: seq<Draft>, changed: bool)
    requires Fitting(packages, paths, drafts, files)
    ensures Fitting(packages, paths, next, files) && IsPass(paths, drafts, next)
    ensures !changed ==> next == drafts
  {
    hide Fitting, ReplacesAll, Replaces, Groups, AllBelow, AllFit, Holds, KindFits, Joined;
    var total := Total(drafts);
    TotalIsFlat(drafts);
    next, changed := [], false;
    ghost var rs: seq<seq<Draft>> := [];
    NothingReplaced(paths, total, drafts);
    var i := 0;
    assert [] + drafts[0..] == drafts && drafts[..0] == [];
    while i < |drafts|
      invariant i <= |drafts| && Fitting(packages, paths, next + drafts[i..], files)
      invariant ReplacesAll(paths, total, drafts[..i], rs) && next == Joined(rs)
      invariant !changed ==> next == drafts[..i]
    {
      var draft := drafts[i];
      DraftOut(packages, paths, next, drafts, i, files);
      var replacement, replaced := ReplaceDominant(packages, paths, draft, total);
      DraftReplaced(packages, paths, next, drafts, i, replacement, files);
      ReplacesNext(paths, total, drafts, rs, i, replacement);
      OneOut(next, drafts, i);
      rs := rs + [replacement];
      next := next + replacement;
      changed := changed || replaced;
      i := i + 1;
    }
    assert next + drafts[i..] == next && drafts[..i] == drafts;
    assert IsPass(paths, drafts, next);
  }

  lemma OneOut(done: seq<Draft>, drafts: seq<Draft>, i: nat)
    requires i < |drafts|
    ensures done + drafts[i..] == done + [drafts[i]] + drafts[i + 1..]
    ensures drafts[..i + 1] == drafts[..i] + [drafts[i]]
  {
  }

  lemma DraftOut(packages: seq<Path>, paths: seq<Path>, next: seq<Draft>, drafts: seq<Draft>, i: nat, files: seq<nat>)
    requires i < |drafts| && Fitting(packages, paths, next + drafts[i..], files)
    ensures Holds(paths, drafts[i]) && KindFits(packages, drafts[i])
  {
    hide Fitting, Holds, KindFits;
    OneOut(next, drafts, i);
    DraftFacts(packages, paths, next + [drafts[i]] + drafts[i + 1..], files, |next|);
  }

  lemma DraftReplaced(packages: seq<Path>, paths: seq<Path>, next: seq<Draft>, drafts: seq<Draft>, i: nat,
                      parts: seq<Draft>, files: seq<nat>)
    requires i < |drafts| && Fitting(packages, paths, next + drafts[i..], files)
    requires Groups(paths, parts, drafts[i].files) && AllBelow(parts, drafts[i].path) && AllFit(packages, parts)
    ensures Fitting(packages, paths, next + parts + drafts[i + 1..], files)
  {
    hide Fitting, Groups, AllBelow, AllFit;
    OneOut(next, drafts, i);
    ReplaceFitting(packages, paths, next, drafts[i], parts, drafts[i + 1..], files);
  }

  lemma DraftFacts(packages: seq<Path>, paths: seq<Path>, ds: seq<Draft>, files: seq<nat>, i: nat)
    requires Fitting(packages, paths, ds, files) && i < |ds|
    ensures Holds(paths, ds[i]) && KindFits(packages, ds[i])
  {
  }

  /** Dominant drafts are split in at most two passes, until nothing changes. */
  method SplitDominant(packages: seq<Path>, paths: seq<Path>, drafts: seq<Draft>, ghost files: seq<nat>)
    returns (r: seq<Draft>)
    requires Fitting(packages, paths, drafts, files)
    ensures Fitting(packages, paths, r, files) && IsSplit(paths, drafts, r)
  {
    hide Fitting, IsPass;
    r := drafts;
    ghost var before := drafts;
    var pass := 0;
    while pass < SPLIT_PASSES
      invariant Fitting(packages, paths, r, files) && pass <= SPLIT_PASSES
      invariant pass == 0 ==> r == drafts
      invariant pass == 1 ==> IsPass(paths, drafts, r)
      invariant pass == 2 ==> IsPass(paths, drafts, before) && IsPass(paths, before, r)
    {
      before := r;
      var changed;
      r, changed := SplitPass(packages, paths, r, files);
      if !changed {
        assert IsPass(paths, drafts, before) && IsPass(paths, before, r);
        return;
      }
      pass := pass + 1;
    }
  }
}
