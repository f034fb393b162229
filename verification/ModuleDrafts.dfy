/** Groups of files under directories, and the steps that refine them. */
module ModuleDrafts {
  import opened Basics
  import opened Wrappers
  import opened PathText

  datatype Kind = Root | Directory | Package

  datatype Draft = Draft(path: Path, kind: Kind, package: Option<nat>, files: seq<nat>)

  function DirectoryDraft(path: Path, files: seq<nat>): Draft {
    Draft(path, if path == [] then Root else Directory, None, files)
  }

  /** The draft has files, all of them strictly inside its directory. */
  ghost predicate Holds(paths: seq<Path>, d: Draft) {
    d.files != [] && forall f :: f in d.files ==> f < |paths| && d.path < paths[f]
  }

  /** Where `d` contains a file of `e`, the directory of `e` is the deeper one. */
  ghost predicate Yields(paths: seq<Path>, d: Draft, e: Draft) {
    forall f :: f in e.files && f < |paths| && d.path < paths[f] ==> |d.path| < |e.path|
  }

  ghost predicate Apart(paths: seq<Path>, ds: seq<Draft>) {
    forall i, j :: 0 <= i < |ds| && 0 <= j < |ds| && i != j ==> Yields(paths, ds[i], ds[j])
  }

  ghost predicate AllHold(paths: seq<Path>, ds: seq<Draft>) {
    forall i :: 0 <= i < |ds| ==> Holds(paths, ds[i])
  }

  ghost function Flat(ds: seq<Draft>): seq<nat> {
    if ds == [] then [] else ds[0].files + Flat(ds[1..])
  }

  /** The drafts divide the files among them, each file going to the deepest directory. */
  ghost predicate Groups(paths: seq<Path>, ds: seq<Draft>, files: seq<nat>) {
    AllHold(paths, ds) && Apart(paths, ds) && multiset(Flat(ds)) == multiset(files)
  }

  ghost predicate AllBelow(ds: seq<Draft>, base: Path) {
    forall i :: 0 <= i < |ds| ==> base <= ds[i].path
  }

  lemma {:induction false} FlatConcat(a: seq<Draft>, b: seq<Draft>)
    ensures Flat(a + b) == Flat(a) + Flat(b)
  {
    if a == [] {
      NothingAfter(b);
      NothingAfter(Flat(b));
    } else {
      FlatConcat(a[1..], b);
      TailOfSum(a, b);
      Regroup(a[0].files, Flat(a[1..]), Flat(b));
    }
  }

  lemma {:induction false} InFlat(ds: seq<Draft>, f: nat)
    ensures f in Flat(ds) <==> exists i :: 0 <= i < |ds| && f in ds[i].files
  {
    if ds != [] {
      InFlat(ds[1..], f);
      if i :| 0 <= i < |ds| && f in ds[i].files {
        if i > 0 {
          assert ds[1..][i - 1] == ds[i];
        }
      }
      if f in Flat(ds[1..]) {
        var i :| 0 <= i < |ds[1..]| && f in ds[1..][i].files;
        assert ds[i + 1] == ds[1..][i];
      }
    }
  }

  lemma GroupMember(paths: seq<Path>, ds: seq<Draft>, files: seq<nat>, i: nat, f: nat)
    requires Groups(paths, ds, files) && i < |ds| && f in ds[i].files
    ensures f in files
  {
    InFlat(ds, f);
    assert f in multiset(Flat(ds));
  }

  lemma GroupCovers(paths: seq<Path>, ds: seq<Draft>, files: seq<nat>, f: nat) returns (i: nat)
    requires Groups(paths, ds, files) && f in files
    ensures i < |ds| && f in ds[i].files && f < |paths| && ds[i].path < paths[f]
  {
    InFlat(ds, f);
    assert f in multiset(files);
    i :| 0 <= i < |ds| && f in ds[i].files;
    assert Holds(paths, ds[i]);
  }

  ghost predicate CrossApart(paths: seq<Path>, a: seq<Draft>, b: seq<Draft>) {
    forall i, j :: 0 <= i < |a| && 0 <= j < |b| ==> Yields(paths, a[i], b[j])
  }

  lemma ApartConcat(paths: seq<Path>, a: seq<Draft>, b: seq<Draft>)
    requires Apart(paths, a) && Apart(paths, b) && CrossApart(paths, a, b) && CrossApart(paths, b, a)
    ensures Apart(paths, a + b)
  {
    var ds := a + b;
    forall i, j | 0 <= i < |ds| && 0 <= j < |ds| && i != j ensures Yields(paths, ds[i], ds[j]) {
      if i < |a| && j >= |a| {
        assert Yields(paths, a[i], b[j - |a|]);
      } else if i >= |a| && j < |a| {
        assert Yields(paths, b[i - |a|], a[j]);
      } else if i >= |a| {
        assert Yields(paths, b[i - |a|], b[j - |a|]);
      }
    }
  }

  lemma GroupsConcat(paths: seq<Path>, a: seq<Draft>, b: seq<Draft>, p: seq<nat>, q: seq<nat>)
    requires Groups(paths, a, p) && Groups(paths, b, q) && CrossApart(paths, a, b) && CrossApart(paths, b, a)
    ensures Groups(paths, a + b, p + q)
  {
    FlatConcat(a, b);
    ApartConcat(paths, a, b);
  }

  lemma SingleGroup(paths: seq<Path>, d: Draft)
    requires Holds(paths, d)
    ensures Groups(paths, [d], d.files)
  {
    assert [d][1..] == [];
    assert Flat([d]) == d.files + [];
  }

  lemma GroupsSameFiles(paths: seq<Path>, ds: seq<Draft>, p: seq<nat>, q: seq<nat>)
    requires Groups(paths, ds, p) && multiset(p) == multiset(q)
    ensures Groups(paths, ds, q)
  {
  }

  // ------------------------------------------------------------------ by children

  /** The draft is the one of the files directly in `base`, or lies under one of the named children. */
  ghost predicate UnderChildren(paths: seq<Path>, base: Path, names: seq<string>, d: Draft) {
    && base <= d.path
    && (|d.path| == |base| ==> forall f :: f in d.files && f < |paths| ==> |paths[f]| == |base| + 1)
    && (|d.path| > |base| ==> d.path[|base|] in names)
  }

  ghost predicate AllUnder(paths: seq<Path>, base: Path, names: seq<string>, ds: seq<Draft>) {
    forall i :: 0 <= i < |ds| ==> UnderChildren(paths, base, names, ds[i])
  }

  /** Drafts under a new child never contend with those under the children before it. */
  lemma NewChildApart(paths: seq<Path>, base: Path, names: seq<string>, child: string, a: seq<Draft>, b: seq<Draft>)
    requires child !in names && AllHold(paths, a) && AllHold(paths, b)
    requires AllUnder(paths, base, names, a) && AllBelow(b, base + [child])
    ensures CrossApart(paths, a, b) && CrossApart(paths, b, a)
  {
    forall i, j | 0 <= i < |a| && 0 <= j < |b|
      ensures Yields(paths, a[i], b[j]) && Yields(paths, b[j], a[i])
    {
      OneChildApart(paths, base, names, child, a[i], b[j]);
    }
  }

  lemma PrefixAt(p: Path, q: Path, k: nat)
    requires p <= q && k < |p|
    ensures k < |q| && p[k] == q[k]
  {
  }

  lemma OneChildApart(paths: seq<Path>, base: Path, names: seq<string>, child: string, d: Draft, e: Draft)
    requires child !in names && Holds(paths, d) && Holds(paths, e)
    requires UnderChildren(paths, base, names, d) && base + [child] <= e.path
    ensures Yields(paths, d, e) && Yields(paths, e, d)
  {
    var k := |base|;
    PrefixAt(base + [child], e.path, k);
    forall f | f in e.files && f < |paths| ensures d.path < paths[f] ==> |d.path| <= k {
    }
    forall f | f in d.files && f < |paths| ensures !(e.path < paths[f]) {
    }
  }

  lemma UnderMore(paths: seq<Path>, base: Path, names: seq<string>, child: string, a: seq<Draft>, b: seq<Draft>)
    requires AllUnder(paths, base, names, a) && AllBelow(b, base + [child])
    ensures AllUnder(paths, base, names + [child], a + b)
  {
    var ds := a + b;
    forall i | 0 <= i < |ds| ensures UnderChildren(paths, base, names + [child], ds[i]) {
      if i < |a| {
        assert UnderChildren(paths, base, names, a[i]);
      } else {
        PrefixAt(base + [child], b[i - |a|].path, |base|);
        assert base <= base + [child] <= ds[i].path;
      }
    }
  }

  // ------------------------------------------------------------ replacing a draft

  /** Splitting one draft into groups of its own files, below its own directory, disturbs no other. */
  lemma PartYields(paths: seq<Path>, other: Draft, e: Draft, part: Draft)
    requires Holds(paths, other) && Holds(paths, e) && Holds(paths, part)
    requires Yields(paths, other, e) && Yields(paths, e, other)
    requires e.path <= part.path && forall f :: f in part.files ==> f in e.files
    ensures Yields(paths, other, part) && Yields(paths, part, other)
  {
    forall f | f in other.files && f < |paths| && part.path < paths[f] ensures |part.path| < |other.path| {
      assert e.path < paths[f];
      if |other.path| <= |part.path| {
        var g := part.files[0];
        assert g in part.files && g in e.files && part.path < paths[g];
        PrefixesNest(other.path, part.path, paths[f], paths[g]);
      }
    }
  }

  lemma PrefixesNest(a: Path, b: Path, p: Path, q: Path)
    requires a < p && b < p && b < q && |a| <= |b|
    ensures a < q
  {
    assert a == p[..|a|] && b == p[..|b|];
    assert q[..|b|] == b;
    assert q[..|a|] == b[..|a|] == a;
  }

  lemma ReplaceDraft(paths: seq<Path>, a: seq<Draft>, e: Draft, parts: seq<Draft>, b: seq<Draft>, files: seq<nat>)
    requires Groups(paths, a + [e] + b, files) && Groups(paths, parts, e.files) && AllBelow(parts, e.path)
    ensures Groups(paths, a + parts + b, files)
  {
    var ds := a + [e] + b;
    var rest := a + b;
    FlatConcat(a + [e], b);
    FlatConcat(a, [e]);
    FlatConcat(a + parts, b);
    FlatConcat(a, parts);
    SingleFlat(e);
    assert multiset(Flat(a + parts + b)) == multiset(files);
    ReplaceHolds(paths, a, e, parts, b);
    ReplaceApart(paths, a, e, parts, b, files);
  }

  lemma SingleFlat(e: Draft)
    ensures Flat([e]) == e.files
  {
    assert [e][1..] == [];
    assert e.files + [] == e.files;
  }

  lemma ReplaceHolds(paths: seq<Path>, a: seq<Draft>, e: Draft, parts: seq<Draft>, b: seq<Draft>)
    requires AllHold(paths, a + [e] + b) && AllHold(paths, parts)
    ensures AllHold(paths, a + parts + b) && AllHold(paths, a) && AllHold(paths, b) && Holds(paths, e)
  {
    var ds := a + [e] + b;
    assert forall i :: 0 <= i < |a| ==> a[i] == ds[i];
    assert forall i :: 0 <= i < |b| ==> b[i] == ds[|a| + 1 + i];
    assert ds[|a|] == e;
  }

  ghost predicate MutualYields(paths: seq<Path>, d: Draft, e: Draft) {
    Yields(paths, d, e) && Yields(paths, e, d)
  }

  lemma ReplaceApart(paths: seq<Path>, a: seq<Draft>, e: Draft, parts: seq<Draft>, b: seq<Draft>, files: seq<nat>)
    requires Groups(paths, a + [e] + b, files) && Groups(paths, parts, e.files) && AllBelow(parts, e.path)
    ensures Apart(paths, a + parts + b)
  {
    var ds := a + [e] + b;
    ReplaceHolds(paths, a, e, parts, b);
    forall i, j | 0 <= i < |a| && 0 <= j < |b| ensures MutualYields(paths, a[i], b[j]) {
      assert ds[i] == a[i] && ds[|a| + 1 + j] == b[j];
    }
    forall i, k | 0 <= i < |a| && 0 <= k < |parts| ensures MutualYields(paths, a[i], parts[k]) {
      assert ds[i] == a[i] && ds[|a|] == e;
      PartOf(paths, parts, e, k);
      PartYields(paths, a[i], e, parts[k]);
    }
    forall j, k | 0 <= j < |b| && 0 <= k < |parts| ensures MutualYields(paths, b[j], parts[k]) {
      assert ds[|a| + 1 + j] == b[j] && ds[|a|] == e;
      PartOf(paths, parts, e, k);
      PartYields(paths, b[j], e, parts[k]);
    }
    assert Apart(paths, a) by { assert forall i :: 0 <= i < |a| ==> a[i] == ds[i]; }
    assert Apart(paths, b) by {
      forall i, j | 0 <= i < |b| && 0 <= j < |b| && i != j ensures Yields(paths, b[i], b[j]) {
        assert b[i] == ds[|a| + 1 + i] && b[j] == ds[|a| + 1 + j];
      }
    }
    ApartConcat(paths, a, parts);
    CrossConcat(paths, a, parts, b);
    ApartConcat(paths, a + parts, b);
  }

  lemma PartOf(paths: seq<Path>, parts: seq<Draft>, e: Draft, k: nat)
    requires Groups(paths, parts, e.files) && k < |parts|
    ensures forall f :: f in parts[k].files ==> f in e.files
  {
    forall f | f in parts[k].files ensures f in e.files {
      GroupMember(paths, parts, e.files, k, f);
    }
  }

  lemma CrossConcat(paths: seq<Path>, a: seq<Draft>, parts: seq<Draft>, b: seq<Draft>)
    requires forall i, j :: 0 <= i < |a| && 0 <= j < |b| ==> MutualYields(paths, a[i], b[j])
    requires forall j, k :: 0 <= j < |b| && 0 <= k < |parts| ==> MutualYields(paths, b[j], parts[k])
    ensures CrossApart(paths, a + parts, b) && CrossApart(paths, b, a + parts)
  {
    var c := a + parts;
    forall i, j | 0 <= i < |c| && 0 <= j < |b| ensures MutualYields(paths, c[i], b[j]) {
      if i < |a| {
        assert MutualYields(paths, a[i], b[j]);
      } else {
        assert MutualYields(paths, b[j], parts[i - |a|]);
      }
    }
  }

  /** Different drafts have different directories. */
  lemma DistinctPaths(paths: seq<Path>, ds: seq<Draft>, i: nat, j: nat)
    requires AllHold(paths, ds) && Apart(paths, ds) && i < |ds| && j < |ds| && i != j
    ensures ds[i].path != ds[j].path
  {
    assert Yields(paths, ds[i], ds[j]);
    var f := ds[j].files[0];
    assert f in ds[j].files && Holds(paths, ds[j]);
  }
}
