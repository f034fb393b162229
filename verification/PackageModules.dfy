/** The first drafts: one for each package with files of its own, and the directories of the other files. */
module PackageModules {
  import opened Basics
  import opened Wrappers
  import opened Sorting
  import opened PathText
  import opened ModuleConventions
  import opened ModuleDrafts
  import opened ModuleInference

  // ---------------------------------------------------------------------- packages

  /** The deepest package around the file, the first of those that share a directory. */
  ghost predicate Owns(packages: seq<Path>, p: nat, path: Path) {
    && p < |packages| && packages[p] != [] && packages[p] < path
    && (forall q :: 0 <= q < |packages| && packages[q] != [] && packages[q] < path ==> |packages[q]| <= |packages[p]|)
    && (forall q :: 0 <= q < |packages| && packages[q] == packages[p] ==> p <= q)
  }

  ghost predicate Unowned(packages: seq<Path>, path: Path) {
    forall q :: 0 <= q < |packages| && packages[q] != [] ==> !(packages[q] < path)
  }

  /** The directories of the packages, each with the first package there; the repository root is no
      boundary. */
  ghost predicate AreRoots(packages: seq<Path>, roots: map<Path, nat>) {
    && (forall d :: d in roots ==> d != [] && roots[d] < |packages| && packages[roots[d]] == d)
    && (forall q :: 0 <= q < |packages| && packages[q] != [] ==> packages[q] in roots && roots[packages[q]] <= q)
  }

  method PackageRoots(packages: seq<Path>) returns (roots: map<Path, nat>)
    ensures AreRoots(packages, roots)
  {
    roots := map[];
    var i := 0;
    while i < |packages|
      invariant i <= |packages|
      invariant forall d :: d in roots ==> d != [] && roots[d] < i && packages[roots[d]] == d
      invariant forall q :: 0 <= q < i && packages[q] != [] ==> packages[q] in roots && roots[packages[q]] <= q
    {
      if packages[i] != [] && packages[i] !in roots {
        roots := roots[packages[i] := i];
      }
      i := i + 1;
    }
  }

  method Owner(packages: seq<Path>, roots: map<Path, nat>, path: Path) returns (owner: Option<nat>)
    requires AreRoots(packages, roots) && path != []
    ensures owner.Some? ==> Owns(packages, owner.value, path)
    ensures owner.None? ==> Unowned(packages, path)
  {
    var k := |path| - 1;
    while k > 0
      invariant 0 <= k < |path|
      invariant forall d :: d in roots && d < path ==> |d| <= k
    {
      if path[..k] in roots {
        return Some(roots[path[..k]]);
      }
      forall d | d in roots && d < path ensures |d| <= k - 1 {
        assert d == path[..|d|];
      }
      k := k - 1;
    }
    owner := None;
  }

  // ------------------------------------------------------------- dividing by package

  ghost function Concat(owned: seq<seq<nat>>): seq<nat> {
    if owned == [] then [] else owned[0] + Concat(owned[1..])
  }

  lemma {:induction false} ConcatUpdate(owned: seq<seq<nat>>, p: nat, f: nat)
    requires p < |owned|
    ensures multiset(Concat(owned[p := owned[p] + [f]])) == multiset(Concat(owned)) + multiset{f}
  {
    var r := owned[p := owned[p] + [f]];
    if p == 0 {
      assert r[1..] == owned[1..];
    } else {
      ConcatUpdate(owned[1..], p - 1, f);
      assert r[1..] == owned[1..][p - 1 := owned[1..][p - 1] + [f]];
    }
  }

  ghost predicate OwnsAll(packages: seq<Path>, paths: seq<Path>, p: nat, files: seq<nat>) {
    forall i :: 0 <= i < |files| ==> files[i] < |paths| && Owns(packages, p, paths[files[i]])
  }

  ghost predicate AllOwned(packages: seq<Path>, paths: seq<Path>, owned: seq<seq<nat>>) {
    |owned| == |packages| && forall p :: 0 <= p < |owned| ==> OwnsAll(packages, paths, p, owned[p])
  }

  ghost predicate AllUnowned(packages: seq<Path>, paths: seq<Path>, unpackaged: seq<nat>) {
    forall i :: 0 <= i < |unpackaged| ==> unpackaged[i] < |paths| && Unowned(packages, paths[unpackaged[i]])
  }

  ghost predicate AllOnce(owned: seq<seq<nat>>, unpackaged: seq<nat>, n: nat) {
    multiset(Concat(owned) + unpackaged) == multiset(Indices(n))
  }

  ghost predicate Divided(packages: seq<Path>, paths: seq<Path>, owned: seq<seq<nat>>, unpackaged: seq<nat>, n: nat) {
    AllOwned(packages, paths, owned) && AllUnowned(packages, paths, unpackaged) && AllOnce(owned, unpackaged, n)
  }

  /** Where the next file goes. */
  lemma DividedNext(packages: seq<Path>, paths: seq<Path>, owned: seq<seq<nat>>, unpackaged: seq<nat>, f: nat, p: nat)
    requires Divided(packages, paths, owned, unpackaged, f) && f < |paths| && p < |packages|
    requires Owns(packages, p, paths[f])
    ensures Divided(packages, paths, owned[p := owned[p] + [f]], unpackaged, f + 1)
  {
    assert Indices(f + 1) == Indices(f) + [f];
    ConcatUpdate(owned, p, f);
    assert OwnsAll(packages, paths, p, owned[p]);
    assert OwnsAll(packages, paths, p, owned[p] + [f]);
  }

  lemma UndividedNext(packages: seq<Path>, paths: seq<Path>, owned: seq<seq<nat>>, unpackaged: seq<nat>, f: nat)
    requires Divided(packages, paths, owned, unpackaged, f) && f < |paths| && Unowned(packages, paths[f])
    ensures Divided(packages, paths, owned, unpackaged + [f], f + 1)
  {
    assert Indices(f + 1) == Indices(f) + [f];
    assert Concat(owned) + (unpackaged + [f]) == Concat(owned) + unpackaged + [f];
  }

  lemma NoFiles(packages: seq<Path>, paths: seq<Path>, owned: seq<seq<nat>>)
    requires owned == seq(|packages|, _ => [])
    ensures Divided(packages, paths, owned, [], 0)
  {
    EmptyConcat(owned);
    assert Indices(0) == [] && Concat(owned) + [] == [];
  }

  lemma {:induction false} EmptyConcat(owned: seq<seq<nat>>)
    requires forall p :: 0 <= p < |owned| ==> owned[p] == []
    ensures Concat(owned) == []
  {
    if owned != [] {
      EmptyConcat(owned[1..]);
    }
  }

  method DivideByPackage(packages: seq<Path>, paths: seq<Path>) returns (owned: seq<seq<nat>>, unpackaged: seq<nat>)
    requires forall f :: 0 <= f < |paths| ==> paths[f] != []
    ensures Divided(packages, paths, owned, unpackaged, |paths|)
  {
    var roots := PackageRoots(packages);
    owned, unpackaged := seq(|packages|, _ => []), [];
    NoFiles(packages, paths, owned);
    var f := 0;
    while f < |paths|
      invariant f <= |paths| && |owned| == |packages| && Divided(packages, paths, owned, unpackaged, f)
    {
      var owner := Owner(packages, roots, paths[f]);
      match owner {
        case Some(p) =>
          DividedNext(packages, paths, owned, unpackaged, f, p);
          owned := owned[p := owned[p] + [f]];
        case None =>
          UndividedNext(packages, paths, owned, unpackaged, f);
          unpackaged := unpackaged + [f];
      }
      f := f + 1;
    }
  }

  // ----------------------------------------------------------------- the first drafts

  function PackageDraft(packages: seq<Path>, owned: seq<seq<nat>>, p: nat): Draft
    requires p < |owned| == |packages|
  {
    Draft(packages[p], Package, Some(p), owned[p])
  }

  function PackageDrafts(packages: seq<Path>, owned: seq<seq<nat>>, k: nat): seq<Draft>
    requires k <= |owned| == |packages|
  {
    if k == 0 then []
    else
      PackageDrafts(packages, owned, k - 1)
      + if owned[k - 1] == [] then [] else [PackageDraft(packages, owned, k - 1)]
  }

  lemma {:induction false} PackageDraftAt(packages: seq<Path>, owned: seq<seq<nat>>, k: nat, i: nat) returns (p: nat)
    requires k <= |owned| == |packages| && i < |PackageDrafts(packages, owned, k)|
    ensures p < k && owned[p] != [] && PackageDrafts(packages, owned, k)[i] == PackageDraft(packages, owned, p)
    decreases k
  {
    if i < |PackageDrafts(packages, owned, k - 1)| {
      p := PackageDraftAt(packages, owned, k - 1, i);
    } else {
      p := k - 1;
    }
  }

  lemma OwnedFile(packages: seq<Path>, paths: seq<Path>, owned: seq<seq<nat>>, p: nat, f: nat)
    requires AllOwned(packages, paths, owned) && p < |packages| && f in owned[p]
    ensures f < |paths| && Owns(packages, p, paths[f])
  {
    var i :| 0 <= i < |owned[p]| && owned[p][i] == f;
    assert OwnsAll(packages, paths, p, owned[p]);
  }

  lemma PackagesYield(packages: seq<Path>, paths: seq<Path>, owned: seq<seq<nat>>, p: nat, q: nat)
    requires AllOwned(packages, paths, owned) && p < |packages| && q < |packages| && p != q && owned[p] != []
    requires owned[q] != []
    ensures |owned| == |packages|
    ensures Yields(paths, PackageDraft(packages, owned, p), PackageDraft(packages, owned, q))
  {
    OwnedFile(packages, paths, owned, p, owned[p][0]);
    forall f | f in owned[q] && f < |paths| && packages[p] < paths[f] ensures |packages[p]| < |packages[q]| {
      OwnedFile(packages, paths, owned, q, f);
    }
  }

  lemma NextPackageDrafts(packages: seq<Path>, owned: seq<seq<nat>>, k: nat)
    requires 0 < k <= |owned| == |packages|
    ensures owned[k - 1] == [] ==> PackageDrafts(packages, owned, k) == PackageDrafts(packages, owned, k - 1)
  {
    NothingAfter(PackageDrafts(packages, owned, k - 1));
  }

  lemma NoPackageGroups(packages: seq<Path>, paths: seq<Path>, owned: seq<seq<nat>>)
    requires |owned| == |packages|
    ensures Groups(paths, PackageDrafts(packages, owned, 0), Concat(owned[..0]))
    ensures AllFit(packages, PackageDrafts(packages, owned, 0))
  {
  }

  lemma {:induction false} PackageGroups(packages: seq<Path>, paths: seq<Path>, owned: seq<seq<nat>>, k: nat)
    requires |owned| == |packages| && AllOwned(packages, paths, owned) && k <= |packages|
    ensures Groups(paths, PackageDrafts(packages, owned, k), Concat(owned[..k]))
    ensures AllFit(packages, PackageDrafts(packages, owned, k))
    decreases k
  {
    hide Groups, AllFit, AllOwned, Concat, PackageDrafts;
    if k == 0 {
      NoPackageGroups(packages, paths, owned);
    } else {
      NextPackageDrafts(packages, owned, k);
      PackageGroups(packages, paths, owned, k - 1);
      ConcatNext(owned, k - 1);
      if owned[k - 1] != [] {
        PackageGroupsNext(packages, paths, owned, k);
      } else {
        NothingAfter(Concat(owned[..k - 1]));
      }
    }
  }

  lemma PackageGroupsNext(packages: seq<Path>, paths: seq<Path>, owned: seq<seq<nat>>, k: nat)
    requires AllOwned(packages, paths, owned) && 0 < k <= |packages| && owned[k - 1] != []
    requires Groups(paths, PackageDrafts(packages, owned, k - 1), Concat(owned[..k - 1]))
    requires AllFit(packages, PackageDrafts(packages, owned, k - 1))
    ensures Groups(paths, PackageDrafts(packages, owned, k), Concat(owned[..k - 1]) + owned[k - 1])
    ensures AllFit(packages, PackageDrafts(packages, owned, k))
  {
    hide Groups, Yields;
    var ds, d := PackageDrafts(packages, owned, k - 1), PackageDraft(packages, owned, k - 1);
    PackageHolds(packages, paths, owned, k - 1);
    SingleGroup(paths, d);
    forall i | 0 <= i < |ds| ensures Yields(paths, ds[i], d) && Yields(paths, d, ds[i]) {
      var p := PackageDraftAt(packages, owned, k - 1, i);
      PackagesYield(packages, paths, owned, p, k - 1);
      PackagesYield(packages, paths, owned, k - 1, p);
    }
    assert CrossApart(paths, ds, [d]) && CrossApart(paths, [d], ds);
    GroupsConcat(paths, ds, [d], Concat(owned[..k - 1]), owned[k - 1]);
  }

  lemma PackageHolds(packages: seq<Path>, paths: seq<Path>, owned: seq<seq<nat>>, p: nat)
    requires AllOwned(packages, paths, owned) && p < |packages| && owned[p] != []
    ensures Holds(paths, PackageDraft(packages, owned, p))
  {
    forall f | f in owned[p] ensures f < |paths| && packages[p] < paths[f] {
      OwnedFile(packages, paths, owned, p, f);
    }
  }

  lemma {:induction false} ConcatNext(owned: seq<seq<nat>>, k: nat)
    requires k < |owned|
    ensures Concat(owned[..k + 1]) == Concat(owned[..k]) + owned[k]
    decreases k
  {
    if k == 0 {
      assert owned[..1] == [owned[0]] && owned[..1][1..] == [];
      assert owned[0] + [] == owned[0];
    } else {
      ConcatNext(owned[1..], k - 1);
      assert owned[..k + 1][1..] == owned[1..][..k] && owned[..k][1..] == owned[1..][..k - 1];
    }
  }

  /** Packages and unpackaged directories do not contend. */
  lemma UnpackagedApart(packages: seq<Path>, paths: seq<Path>, owned: seq<seq<nat>>, unpackaged: seq<nat>,
                        ds: seq<Draft>)
    requires AllOwned(packages, paths, owned) && AllUnowned(packages, paths, unpackaged)
    requires Groups(paths, ds, unpackaged)
    ensures CrossApart(paths, PackageDrafts(packages, owned, |packages|), ds)
    ensures CrossApart(paths, ds, PackageDrafts(packages, owned, |packages|))
  {
    var ps := PackageDrafts(packages, owned, |packages|);
    forall i, j | 0 <= i < |ps| && 0 <= j < |ds| ensures Yields(paths, ps[i], ds[j]) && Yields(paths, ds[j], ps[i]) {
      var p := PackageDraftAt(packages, owned, |packages|, i);
      PackageVersusDirectory(packages, paths, owned, unpackaged, ds, p, j);
    }
  }

  lemma PackageVersusDirectory(packages: seq<Path>, paths: seq<Path>, owned: seq<seq<nat>>, unpackaged: seq<nat>,
                               ds: seq<Draft>, p: nat, j: nat)
    requires AllOwned(packages, paths, owned) && AllUnowned(packages, paths, unpackaged)
    requires Groups(paths, ds, unpackaged)
    requires p < |packages| && owned[p] != [] && j < |ds|
    ensures Yields(paths, PackageDraft(packages, owned, p), ds[j])
      && Yields(paths, ds[j], PackageDraft(packages, owned, p))
  {
    var d, root := ds[j], packages[p];
    OwnedFile(packages, paths, owned, p, owned[p][0]);
    assert Holds(paths, d);
    forall f | f in d.files ensures f < |paths| && !(root < paths[f]) {
      GroupMember(paths, ds, unpackaged, j, f);
      var i :| 0 <= i < |unpackaged| && unpackaged[i] == f;
      assert Unowned(packages, paths[f]);
    }
    var g := d.files[0];
    assert g in d.files;
    forall f | f in owned[p] && f < |paths| && d.path < paths[f] ensures |d.path| < |root| {
      OwnedFile(packages, paths, owned, p, f);
      if |root| <= |d.path| {
        PrefixesNest(root, d.path, paths[f], paths[g]);
      }
    }
  }

  // --------------------------------------------------------------- where files start

  ghost function Unpackaged(packages: seq<Path>, paths: seq<Path>): set<nat> {
    set f | 0 <= f < |paths| && Unowned(packages, paths[f])
  }

  /** A file starts in the draft of the deepest package around it, or else at its home directory among
      the files without a package. */
  ghost predicate StartsIn(packages: seq<Path>, paths: seq<Path>, f: nat, d: Draft) {
    f < |paths| &&
    if d.kind == Package
    then d.package.Some? && Owns(packages, d.package.value, paths[f]) && d.path == packages[d.package.value]
    else IsHome(paths, Unpackaged(packages, paths), 0, f, d.path)
  }

  ghost predicate AllStartIn(packages: seq<Path>, paths: seq<Path>, d: Draft) {
    forall f :: f in d.files ==> StartsIn(packages, paths, f, d)
  }

  ghost predicate AreInitial(packages: seq<Path>, paths: seq<Path>, ds: seq<Draft>) {
    forall i :: 0 <= i < |ds| ==> AllStartIn(packages, paths, ds[i])
  }

  lemma AreInitialConcat(packages: seq<Path>, paths: seq<Path>, a: seq<Draft>, b: seq<Draft>)
    requires AreInitial(packages, paths, a) && AreInitial(packages, paths, b)
    ensures AreInitial(packages, paths, a + b)
  {
  }

  lemma PackagesInitial(packages: seq<Path>, paths: seq<Path>, owned: seq<seq<nat>>)
    requires AllOwned(packages, paths, owned)
    ensures AreInitial(packages, paths, PackageDrafts(packages, owned, |packages|))
  {
    var ds := PackageDrafts(packages, owned, |packages|);
    forall i | 0 <= i < |ds| ensures AllStartIn(packages, paths, ds[i]) {
      var p := PackageDraftAt(packages, owned, |packages|, i);
      forall f | f in owned[p] ensures StartsIn(packages, paths, f, PackageDraft(packages, owned, p)) {
        OwnedFile(packages, paths, owned, p, f);
      }
    }
  }

  lemma {:induction false} InConcat(owned: seq<seq<nat>>, f: nat) returns (p: nat)
    requires f in Concat(owned)
    ensures p < |owned| && f in owned[p]
  {
    if f in owned[0] {
      p := 0;
    } else {
      p := InConcat(owned[1..], f);
      p := p + 1;
    }
  }

  /** The files without a package are exactly those no package contains. */
  lemma UnpackagedFiles(packages: seq<Path>, paths: seq<Path>, owned: seq<seq<nat>>, unpackaged: seq<nat>)
    requires Divided(packages, paths, owned, unpackaged, |paths|)
    ensures Members(unpackaged) == Unpackaged(packages, paths)
  {
    forall f | f in unpackaged ensures f < |paths| && Unowned(packages, paths[f]) {
      var i :| 0 <= i < |unpackaged| && unpackaged[i] == f;
    }
    forall f: nat | f < |paths| && Unowned(packages, paths[f]) ensures f in unpackaged {
      assert Indices(|paths|)[f] == f;
      assert f in multiset(Indices(|paths|));
      assert f in multiset(Concat(owned) + unpackaged);
      if f in Concat(owned) {
        var p := InConcat(owned, f);
        OwnedFile(packages, paths, owned, p, f);
        assert false;
      }
    }
  }

  lemma HomesInitial(packages: seq<Path>, paths: seq<Path>, ds: seq<Draft>)
    requires AllPlain(ds) && AllAtHome(paths, Unpackaged(packages, paths), 0, ds)
    ensures AreInitial(packages, paths, ds)
  {
    forall i | 0 <= i < |ds| ensures AllStartIn(packages, paths, ds[i]) {
      assert Plain(ds[i]);
      forall f | f in ds[i].files ensures StartsIn(packages, paths, f, ds[i]) {
        assert AtHome(paths, Unpackaged(packages, paths), 0, ds[i]);
        HomeContains(paths, Unpackaged(packages, paths), 0, f, ds[i].path);
      }
    }
  }

  /** The drafts of the packages that have files of their own. */
  method DraftPackages(packages: seq<Path>, ghost paths: seq<Path>, owned: seq<seq<nat>>) returns (drafts: seq<Draft>)
    requires AllOwned(packages, paths, owned)
    ensures drafts == PackageDrafts(packages, owned, |packages|)
    ensures Fitting(packages, paths, drafts, Concat(owned)) && AreInitial(packages, paths, drafts)
  {
    assert |owned| == |packages|;
    hide AllOwned, AreInitial, Groups, AllFit;
    drafts := [];
    var p := 0;
    while p < |packages|
      invariant p <= |packages| && |owned| == |packages| && drafts == PackageDrafts(packages, owned, p)
    {
      if owned[p] != [] {
        drafts := drafts + [PackageDraft(packages, owned, p)];
      }
      p := p + 1;
    }
    PackageGroups(packages, paths, owned, |packages|);
    PackagesInitial(packages, paths, owned);
    assert owned[..|packages|] == owned;
  }

  method InitialDrafts(packages: seq<Path>, paths: seq<Path>) returns (drafts: seq<Draft>)
    requires forall f :: 0 <= f < |paths| ==> paths[f] != []
    ensures Fitting(packages, paths, drafts, Indices(|paths|))
    ensures AreInitial(packages, paths, drafts)
  {
    hide AreInitial, AllOwned, AllUnowned, Groups, AllFit, AllAtHome;
    var owned, unpackaged := DivideByPackage(packages, paths);
    drafts := DraftPackages(packages, paths, owned);
    UnpackagedFiles(packages, paths, owned, unpackaged);
    if unpackaged != [] {
      InsideRoot(packages, paths, unpackaged);
      var ds := Partition(paths, [], unpackaged, 0);
      AddUnpackaged(packages, paths, owned, unpackaged, drafts, ds);
      drafts := drafts + ds;
    } else {
      assert Concat(owned) + [] == Concat(owned);
    }
    GroupsSameFiles(paths, drafts, Concat(owned) + unpackaged, Indices(|paths|));
  }

  lemma InsideRoot(packages: seq<Path>, paths: seq<Path>, unpackaged: seq<nat>)
    requires AllUnowned(packages, paths, unpackaged) && forall f :: 0 <= f < |paths| ==> paths[f] != []
    ensures Inside(paths, [], unpackaged)
  {
    forall f | f in unpackaged ensures f < |paths| && [] < paths[f] {
      var i :| 0 <= i < |unpackaged| && unpackaged[i] == f;
    }
  }

  lemma AddUnpackaged(packages: seq<Path>, paths: seq<Path>, owned: seq<seq<nat>>, unpackaged: seq<nat>,
                      drafts: seq<Draft>, ds: seq<Draft>)
    requires AllOwned(packages, paths, owned) && AllUnowned(packages, paths, unpackaged)
    requires drafts == PackageDrafts(packages, owned, |packages|) && Members(unpackaged) == Unpackaged(packages, paths)
    requires Fitting(packages, paths, drafts, Concat(owned)) && AreInitial(packages, paths, drafts)
    requires Divides(paths, [], unpackaged, ds) && AllAtHome(paths, Members(unpackaged), 0, ds)
    ensures Fitting(packages, paths, drafts + ds, Concat(owned) + unpackaged)
      && AreInitial(packages, paths, drafts + ds)
  {
    hide AreInitial, AllOwned, AllUnowned, Groups, AllPlain, AllAtHome;
    UnpackagedApart(packages, paths, owned, unpackaged, ds);
    GroupsConcat(paths, drafts, ds, Concat(owned), unpackaged);
    PlainFits(packages, ds);
    HomesInitial(packages, paths, ds);
    AreInitialConcat(packages, paths, drafts, ds);
  }

  lemma PlainFits(packages: seq<Path>, ds: seq<Draft>)
    requires AllPlain(ds)
    ensures AllFit(packages, ds)
  {
  }

  /** Splitting never takes a file out of the deepest package around it. */
  lemma PackagesHold(packages: seq<Path>, paths: seq<Path>, initial: seq<Draft>, ds: seq<Draft>, k: nat, f: nat, p: nat)
    requires AreInitial(packages, paths, initial) && IsSplit(paths, initial, ds)
    requires k < |ds| && f in ds[k].files && f < |paths| && Owns(packages, p, paths[f])
    ensures packages[p] <= ds[k].path
  {
    var i := SplitRefines(paths, initial, ds, k);
    assert AllStartIn(packages, paths, initial[i]) && StartsIn(packages, paths, f, initial[i]);
    assert !Unowned(packages, paths[f]);
    assert initial[i].kind == Package;
    var q := initial[i].package.value;
    assert packages[q] == paths[f][..|packages[q]|] == packages[p];
  }
}
