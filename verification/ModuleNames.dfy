/** Display names: the last components of a directory, as many as it takes to tell the modules apart. */
module ModuleNames {
  import opened PathText
  import opened ModuleDrafts

  const ROOT_MODULE: string := "(root)"

  /** The last `count` components. */
  function LastParts(path: Path, count: nat): Path {
    if count <= |path| then path[|path| - count..] else path
  }

  /** The package a module is named after. */
  predicate IsNamed(d: Draft, packageNames: seq<string>) {
    d.kind == Package ==> d.package.Some? && d.package.value < |packageNames|
  }

  ghost predicate AllNamed(ds: seq<Draft>, packageNames: seq<string>) {
    forall i :: 0 <= i < |ds| ==> IsNamed(ds[i], packageNames)
  }

  function NameOf(d: Draft, packageNames: seq<string>, count: nat): string
    requires IsNamed(d, packageNames)
  {
    match d.kind
    case Root => ROOT_MODULE
    case Package => packageNames[d.package.value]
    case Directory => Render(LastParts(d.path, count))
  }

  function NamesOf(ds: seq<Draft>, packageNames: seq<string>, counts: seq<nat>): (r: seq<string>)
    requires AllNamed(ds, packageNames) && |counts| == |ds|
  {
    seq(|ds|, i requires 0 <= i < |ds| => NameOf(ds[i], packageNames, counts[i]))
  }

  ghost predicate Clashes(names: seq<string>, i: nat)
    requires i < |names|
  {
    exists j :: 0 <= j < |names| && j != i && names[j] == names[i]
  }

  // ---------------------------------------------------------------------- one round

  /** A directory whose name clashes takes one more component while it has one. */
  ghost function Longer(d: Draft, clash: bool, count: nat): nat {
    if clash && d.kind == Directory && count < |d.path| then count + 1 else count
  }

  ghost function Round(ds: seq<Draft>, packageNames: seq<string>, counts: seq<nat>): (r: seq<nat>)
    requires AllNamed(ds, packageNames) && |counts| == |ds|
    ensures |r| == |ds|
  {
    var names := NamesOf(ds, packageNames, counts);
    seq(|ds|, i requires 0 <= i < |ds| => Longer(ds[i], Clashes(names, i), counts[i]))
  }

  ghost function Rounds(ds: seq<Draft>, packageNames: seq<string>, k: nat): (r: seq<nat>)
    requires AllNamed(ds, packageNames)
    ensures |r| == |ds|
  {
    if k == 0 then seq(|ds|, i => 1) else Round(ds, packageNames, Rounds(ds, packageNames, k - 1))
  }

  /** The indices of each name, every index once. */
  ghost predicate IsIndex(names: seq<string>, n: nat, seen: map<string, seq<nat>>) {
    && n <= |names|
    && (forall i :: 0 <= i < n ==> names[i] in seen && i in seen[names[i]])
    && (forall name, k :: name in seen && 0 <= k < |seen[name]| ==> seen[name][k] < n && names[seen[name][k]] == name)
    && (forall name, k, l :: name in seen && 0 <= k < l < |seen[name]| ==> seen[name][k] < seen[name][l])
  }

  method IndexNames(names: seq<string>) returns (seen: map<string, seq<nat>>)
    ensures IsIndex(names, |names|, seen)
  {
    seen := map[];
    var i := 0;
    while i < |names|
      invariant IsIndex(names, i, seen)
    {
      var name := names[i];
      seen := seen[name := (if name in seen then seen[name] else []) + [i]];
      i := i + 1;
    }
  }

  lemma ManyClash(names: seq<string>, seen: map<string, seq<nat>>, i: nat)
    requires IsIndex(names, |names|, seen) && i < |names|
    ensures names[i] in seen && (Clashes(names, i) <==> |seen[names[i]]| > 1)
  {
    var group := seen[names[i]];
    var k :| 0 <= k < |group| && group[k] == i;
    if |group| > 1 {
      var l := if k == 0 then 1 else 0;
      assert group[l] != i;
    }
    if j :| 0 <= j < |names| && j != i && names[j] == names[i] {
      assert j in group;
    }
  }

  /** The counts after the first `k` indices of a group have had their turn. */
  ghost predicate GroupGrown(ds: seq<Draft>, before: seq<nat>, counts: seq<nat>, group: seq<nat>, k: nat)
    requires |before| == |ds| && k <= |group|
  {
    && |counts| == |ds|
    && (forall i :: 0 <= i < |ds| ==> counts[i] == Longer(ds[i], i in group[..k], before[i]))
  }

  /** The directories of one name grow together. */
  method GrowGroup(ds: seq<Draft>, before: seq<nat>, group: seq<nat>) returns (counts: seq<nat>, changed: bool)
    requires |before| == |ds| && forall k :: 0 <= k < |group| ==> group[k] < |ds|
    requires forall k, l :: 0 <= k < l < |group| ==> group[k] < group[l]
    ensures GroupGrown(ds, before, counts, group, |group|)
    ensures changed <==> counts != before
  {
    counts, changed := before, false;
    var k := 0;
    while k < |group|
      invariant k <= |group| && GroupGrown(ds, before, counts, group, k)
      invariant changed <==> counts != before
    {
      var i := group[k];
      assert group[..k + 1] == group[..k] + [i];
      assert i !in group[..k];
      if ds[i].kind == Directory && counts[i] < |ds[i].path| {
        assert counts[i] == before[i];
        counts := counts[i := counts[i] + 1];
        assert counts[i] != before[i];
        changed := true;
      }
      k := k + 1;
    }
  }

  /** The counts once the names outside `pending` have had their turn. */
  ghost predicate NamesGrown(ds: seq<Draft>, names: seq<string>, before: seq<nat>, counts: seq<nat>,
                             pending: set<string>)
    requires |names| == |before| == |ds|
  {
    && |counts| == |ds|
    && forall i :: 0 <= i < |ds| ==>
         counts[i] == if names[i] in pending then before[i] else Longer(ds[i], Clashes(names, i), before[i])
  }

  lemma GroupIsName(ds: seq<Draft>, names: seq<string>, seen: map<string, seq<nat>>, before: seq<nat>, counts: seq<nat>,
                    grown: seq<nat>, pending: set<string>, name: string)
    requires |names| == |before| == |ds| && IsIndex(names, |names|, seen) && name in pending && name in seen
    requires NamesGrown(ds, names, before, counts, pending)
    requires if |seen[name]| > 1 then GroupGrown(ds, counts, grown, seen[name], |seen[name]|) else grown == counts
    ensures NamesGrown(ds, names, before, grown, pending - {name})
  {
    var group := seen[name];
    assert group[..|group|] == group;
    forall i | 0 <= i < |ds|
      ensures grown[i]
        == if names[i] in pending - {name} then before[i] else Longer(ds[i], Clashes(names, i), before[i])
    {
      ManyClash(names, seen, i);
      assert i in group <==> names[i] == name;
    }
  }

  /** Every module whose name clashes takes one more component, in any order of the names. */
  method GrowClashing(ds: seq<Draft>, ghost packageNames: seq<string>, names: seq<string>, before: seq<nat>)
    returns (counts: seq<nat>, changed: bool)
    requires AllNamed(ds, packageNames) && |before| == |ds| && names == NamesOf(ds, packageNames, before)
    ensures counts == Round(ds, packageNames, before)
    ensures changed <==> counts != before
  {
    var seen := IndexNames(names);
    hide IsIndex;
    var pending := seen.Keys;
    counts, changed := before, false;
    AllPending(ds, names, seen, before);
    while pending != {}
      invariant pending <= seen.Keys && NamesGrown(ds, names, before, counts, pending)
      invariant changed <==> counts != before
      decreases |pending|
    {
      var name :| name in pending;
      var grown, more := counts, false;
      if |seen[name]| > 1 {
        GroupInRange(names, seen, name);
        grown, more := GrowGroup(ds, counts, seen[name]);
      }
      GroupIsName(ds, names, seen, before, counts, grown, pending, name);
      StillDifferent(ds, names, before, counts, grown, pending, name);
      counts, changed, pending := grown, changed || more, pending - {name};
    }
  }

  lemma AllPending(ds: seq<Draft>, names: seq<string>, seen: map<string, seq<nat>>, before: seq<nat>)
    requires |names| == |before| == |ds| && IsIndex(names, |names|, seen)
    ensures NamesGrown(ds, names, before, before, seen.Keys)
  {
  }

  lemma GroupInRange(names: seq<string>, seen: map<string, seq<nat>>, name: string)
    requires IsIndex(names, |names|, seen) && name in seen
    ensures forall k :: 0 <= k < |seen[name]| ==> seen[name][k] < |names|
    ensures forall k, l :: 0 <= k < l < |seen[name]| ==> seen[name][k] < seen[name][l]
  {
  }

  lemma StillDifferent(ds: seq<Draft>, names: seq<string>, before: seq<nat>, counts: seq<nat>, grown: seq<nat>,
                       pending: set<string>, name: string)
    requires |names| == |before| == |ds| && name in pending
    requires NamesGrown(ds, names, before, counts, pending) && NamesGrown(ds, names, before, grown, pending - {name})
    ensures counts != before ==> grown != before
    ensures counts == before ==> (grown != before <==> grown != counts)
  {
    if counts != before {
      var i :| 0 <= i < |ds| && counts[i] != before[i];
      assert grown[i] == counts[i];
    }
  }

  // ------------------------------------------------------------------- all the rounds

  /** Components not yet used in a name. */
  ghost function Unused(ds: seq<Draft>, counts: seq<nat>): nat
    requires |counts| == |ds|
  {
    if ds == [] then 0
    else (if counts[0] < |ds[0].path| then |ds[0].path| - counts[0] else 0) + Unused(ds[1..], counts[1..])
  }

  ghost predicate OneMore(d: Draft, before: nat, after: nat) {
    after == before || (before < |d.path| && after == before + 1)
  }

  lemma {:induction false} UnusedShrinks(ds: seq<Draft>, before: seq<nat>, after: seq<nat>)
    requires |before| == |after| == |ds| && forall i :: 0 <= i < |ds| ==> OneMore(ds[i], before[i], after[i])
    ensures Unused(ds, after) <= Unused(ds, before)
    ensures after != before ==> Unused(ds, after) < Unused(ds, before)
  {
    if ds != [] {
      assert OneMore(ds[0], before[0], after[0]);
      UnusedShrinks(ds[1..], before[1..], after[1..]);
      assert before == [before[0]] + before[1..] && after == [after[0]] + after[1..];
    }
  }

  lemma RoundShrinks(ds: seq<Draft>, packageNames: seq<string>, counts: seq<nat>)
    requires AllNamed(ds, packageNames) && |counts| == |ds| && Round(ds, packageNames, counts) != counts
    ensures Unused(ds, Round(ds, packageNames, counts)) < Unused(ds, counts)
  {
    var r := Round(ds, packageNames, counts);
    forall i | 0 <= i < |ds| ensures OneMore(ds[i], counts[i], r[i]) {
    }
    UnusedShrinks(ds, counts, r);
  }

  /** The names when another round would change nothing. */
  ghost predicate AreNames(ds: seq<Draft>, packageNames: seq<string>, k: nat, names: seq<string>)
    requires AllNamed(ds, packageNames)
  {
    && Rounds(ds, packageNames, k + 1) == Rounds(ds, packageNames, k)
    && names == NamesOf(ds, packageNames, Rounds(ds, packageNames, k))
  }

  /** Rounds of growing names, until nothing changes. */
  method AssignNames(ds: seq<Draft>, packageNames: seq<string>) returns (names: seq<string>)
    requires AllNamed(ds, packageNames)
    ensures exists k: nat :: AreNames(ds, packageNames, k, names)
  {
    var counts: seq<nat> := seq(|ds|, i => 1);
    ghost var k := 0;
    while true
      invariant |counts| == |ds| && counts == Rounds(ds, packageNames, k)
      decreases Unused(ds, counts)
    {
      names := NamesOf(ds, packageNames, counts);
      var grown, changed := GrowClashing(ds, packageNames, names, counts);
      assert grown == Rounds(ds, packageNames, k + 1);
      if !changed {
        assert AreNames(ds, packageNames, k, names);
        return;
      }
      RoundShrinks(ds, packageNames, counts);
      counts, k := grown, k + 1;
    }
  }

  // ------------------------------------------------------------------- what names tell

  /** Where a round changes nothing, a directory that shares its name shows its full path. */
  lemma ClashShowsPath(ds: seq<Draft>, packageNames: seq<string>, k: nat, names: seq<string>, i: nat)
    requires AllNamed(ds, packageNames) && AreNames(ds, packageNames, k, names)
    requires i < |ds| && ds[i].kind == Directory && Clashes(names, i)
    ensures names[i] == Render(ds[i].path)
  {
    var counts := Rounds(ds, packageNames, k);
    assert Rounds(ds, packageNames, k + 1)[i] == Longer(ds[i], Clashes(names, i), counts[i]);
    RoundsPositive(ds, packageNames, k, i);
    assert ds[i].path[0..] == ds[i].path;
  }

  lemma {:induction false} RoundsPositive(ds: seq<Draft>, packageNames: seq<string>, k: nat, i: nat)
    requires AllNamed(ds, packageNames) && i < |ds|
    ensures Rounds(ds, packageNames, k)[i] >= 1
  {
    if k > 0 {
      RoundsPositive(ds, packageNames, k - 1, i);
    }
  }

  ghost predicate DistinctDirectories(ds: seq<Draft>) {
    forall i, j :: 0 <= i < j < |ds| ==> ds[i].path != ds[j].path
  }

  /** No two directories share a display name. */
  lemma DirectoryNamesDiffer(ds: seq<Draft>, packageNames: seq<string>, k: nat, names: seq<string>, i: nat, j: nat)
    requires AllNamed(ds, packageNames) && AreNames(ds, packageNames, k, names)
    requires DistinctDirectories(ds) && Directories(ds)
    requires i < j < |ds| && ds[i].kind == Directory && ds[j].kind == Directory
    ensures names[i] != names[j]
  {
    if names[i] == names[j] {
      assert Clashes(names, i) && Clashes(names, j);
      ClashShowsPath(ds, packageNames, k, names, i);
      ClashShowsPath(ds, packageNames, k, names, j);
      RenderInjective(ds[i].path, ds[j].path);
    }
  }

  /** The names that never grow. */
  ghost predicate IsFixed(d: Draft) {
    d.kind != Directory
  }

  ghost predicate FixedApart(ds: seq<Draft>, packageNames: seq<string>)
    requires AllNamed(ds, packageNames)
  {
    forall i, j :: 0 <= i < j < |ds| && IsFixed(ds[i]) && IsFixed(ds[j]) ==>
      NameOf(ds[i], packageNames, 1) != NameOf(ds[j], packageNames, 1)
  }

  ghost predicate AllDifferent(names: seq<string>) {
    forall i, j :: 0 <= i < j < |names| ==> names[i] != names[j]
  }

  // ------------------------------------------------------------------ the shortest tail

  /** Another directory ends in the last `count` components of this one. */
  ghost predicate SharesTail(ds: seq<Draft>, i: nat, count: nat, j: nat)
    requires i < |ds|
  {
    && j < |ds| && j != i && ds[j].kind == Directory && count <= |ds[j].path|
    && LastParts(ds[j].path, count) == LastParts(ds[i].path, count)
  }

  /** A package or the root is named like the last `count` components. */
  ghost predicate TakenName(ds: seq<Draft>, packageNames: seq<string>, i: nat, count: nat, j: nat)
    requires AllNamed(ds, packageNames) && i < |ds|
  {
    j < |ds| && IsFixed(ds[j]) && NameOf(ds[j], packageNames, 1) == Render(LastParts(ds[i].path, count))
  }

  /** The last `count` components do not tell the directory from all other modules. */
  ghost predicate Ambiguous(ds: seq<Draft>, packageNames: seq<string>, i: nat, count: nat)
    requires AllNamed(ds, packageNames) && i < |ds|
  {
    exists j :: SharesTail(ds, i, count, j) || TakenName(ds, packageNames, i, count, j)
  }

  /** The directories have names in them. */
  ghost predicate Directories(ds: seq<Draft>) {
    forall i :: 0 <= i < |ds| && ds[i].kind == Directory ==> ds[i].path != [] && IsPath(ds[i].path)
  }

  /** The shortest unambiguous tail: every shorter one is ambiguous, and so is this one only if it is the
      whole path. */
  ghost predicate ShortestTail(ds: seq<Draft>, packageNames: seq<string>, i: nat, count: nat)
    requires AllNamed(ds, packageNames) && i < |ds|
  {
    && 1 <= count <= |ds[i].path|
    && (forall b :: 1 <= b < count ==> Ambiguous(ds, packageNames, i, b))
    && (count == |ds[i].path| || !Ambiguous(ds, packageNames, i, count))
  }

  /** After `k` rounds a directory has grown in every one, or has found its shortest tail. */
  ghost predicate Growing(ds: seq<Draft>, packageNames: seq<string>, k: nat, i: nat)
    requires AllNamed(ds, packageNames) && i < |ds|
  {
    var count := Rounds(ds, packageNames, k)[i];
    || (count == k + 1 <= |ds[i].path| && forall b :: 1 <= b <= k ==> Ambiguous(ds, packageNames, i, b))
    || (count <= k && ShortestTail(ds, packageNames, i, count))
  }

  ghost predicate AllGrowing(ds: seq<Draft>, packageNames: seq<string>, k: nat)
    requires AllNamed(ds, packageNames)
  {
    forall i :: 0 <= i < |ds| && ds[i].kind == Directory ==> Growing(ds, packageNames, k, i)
  }

  lemma ShorterTail(p: Path, q: Path, count: nat, b: nat)
    requires b <= count <= |p| && count <= |q| && LastParts(p, count) == LastParts(q, count)
    ensures LastParts(p, b) == LastParts(q, b)
  {
    assert LastParts(p, count)[count - b..] == LastParts(p, b);
    assert LastParts(q, count)[count - b..] == LastParts(q, b);
  }

  /** A name shared by two directories has the same number of components in both. */
  lemma SameName(p: Path, m: nat, q: Path, n: nat)
    requires IsPath(p) && IsPath(q) && m <= |p| && n <= |q|
    ensures Render(LastParts(p, m)) == Render(LastParts(q, n)) <==> m == n && LastParts(p, m) == LastParts(q, n)
  {
    RenderInjective(LastParts(p, m), LastParts(q, n));
  }

  /** A name that clashes is ambiguous. */
  lemma ClashIsAmbiguous(ds: seq<Draft>, packageNames: seq<string>, k: nat, i: nat)
    requires AllNamed(ds, packageNames) && Directories(ds) && AllGrowing(ds, packageNames, k)
    requires i < |ds| && ds[i].kind == Directory
    requires Clashes(NamesOf(ds, packageNames, Rounds(ds, packageNames, k)), i)
    ensures Ambiguous(ds, packageNames, i, Rounds(ds, packageNames, k)[i])
  {
    hide Rounds, Ambiguous;
    var counts := Rounds(ds, packageNames, k);
    var names := NamesOf(ds, packageNames, counts);
    var j :| 0 <= j < |names| && j != i && names[j] == names[i];
    assert Growing(ds, packageNames, k, i);
    if ds[j].kind == Directory {
      assert Growing(ds, packageNames, k, j);
      SameName(ds[j].path, counts[j], ds[i].path, counts[i]);
      SharedIsAmbiguous(ds, packageNames, i, counts[i], j);
    } else {
      TakenIsAmbiguous(ds, packageNames, i, counts[i], j);
    }
  }

  lemma SharedIsAmbiguous(ds: seq<Draft>, packageNames: seq<string>, i: nat, count: nat, j: nat)
    requires AllNamed(ds, packageNames) && i < |ds| && SharesTail(ds, i, count, j)
    ensures Ambiguous(ds, packageNames, i, count)
  {
  }

  lemma TakenIsAmbiguous(ds: seq<Draft>, packageNames: seq<string>, i: nat, count: nat, j: nat)
    requires AllNamed(ds, packageNames) && i < |ds| && TakenName(ds, packageNames, i, count, j)
    ensures Ambiguous(ds, packageNames, i, count)
  {
  }

  /** A directory that shares a tail with one still growing has grown as often. */
  lemma GrownAlike(ds: seq<Draft>, packageNames: seq<string>, k: nat, i: nat, j: nat)
    requires AllNamed(ds, packageNames) && AllGrowing(ds, packageNames, k)
    requires i < |ds| && ds[i].kind == Directory && k + 1 <= |ds[i].path| && SharesTail(ds, i, k + 1, j)
    ensures Rounds(ds, packageNames, k)[j] == k + 1
  {
    hide Rounds, Ambiguous;
    var count := Rounds(ds, packageNames, k)[j];
    assert Growing(ds, packageNames, k, j);
    if count <= k {
      ShorterTail(ds[j].path, ds[i].path, k + 1, count);
      SharedIsAmbiguous(ds, packageNames, j, count, i);
    }
  }

  /** While a directory has grown in every round, an ambiguous name clashes. */
  lemma AmbiguousClashes(ds: seq<Draft>, packageNames: seq<string>, k: nat, i: nat)
    requires AllNamed(ds, packageNames) && AllGrowing(ds, packageNames, k)
    requires i < |ds| && ds[i].kind == Directory && Rounds(ds, packageNames, k)[i] == k + 1 <= |ds[i].path|
    requires Ambiguous(ds, packageNames, i, k + 1)
    ensures Clashes(NamesOf(ds, packageNames, Rounds(ds, packageNames, k)), i)
  {
    hide Rounds, AllGrowing;
    var names := NamesOf(ds, packageNames, Rounds(ds, packageNames, k));
    var j: nat :| SharesTail(ds, i, k + 1, j) || TakenName(ds, packageNames, i, k + 1, j);
    if SharesTail(ds, i, k + 1, j) {
      GrownAlike(ds, packageNames, k, i, j);
    }
    assert names[j] == names[i];
  }

  lemma GrowsOn(ds: seq<Draft>, packageNames: seq<string>, k: nat, i: nat)
    requires AllNamed(ds, packageNames) && Directories(ds) && AllGrowing(ds, packageNames, k)
    requires i < |ds| && ds[i].kind == Directory
    ensures Growing(ds, packageNames, k + 1, i)
  {
    hide Ambiguous, Clashes, Directories, AllNamed;
    var counts := Rounds(ds, packageNames, k);
    var names := NamesOf(ds, packageNames, counts);
    assert Growing(ds, packageNames, k, i);
    assert Rounds(ds, packageNames, k + 1)[i] == Longer(ds[i], Clashes(names, i), counts[i]);
    hide Rounds, AllGrowing, NamesOf;
    if Clashes(names, i) {
      ClashIsAmbiguous(ds, packageNames, k, i);
    } else if counts[i] == k + 1 && Ambiguous(ds, packageNames, i, k + 1) {
      AmbiguousClashes(ds, packageNames, k, i);
    }
  }

  lemma {:induction false} RoundsGrow(ds: seq<Draft>, packageNames: seq<string>, k: nat)
    requires AllNamed(ds, packageNames) && Directories(ds)
    ensures AllGrowing(ds, packageNames, k)
  {
    if k > 0 {
      RoundsGrow(ds, packageNames, k - 1);
      forall i | 0 <= i < |ds| && ds[i].kind == Directory ensures Growing(ds, packageNames, k, i) {
        GrowsOn(ds, packageNames, k - 1, i);
      }
    } else {
      forall i | 0 <= i < |ds| && ds[i].kind == Directory ensures Growing(ds, packageNames, 0, i) {
        assert ds[i].path != [];
      }
    }
  }

  /** The display name of a directory is its shortest tail that tells it from the other directories and from
      the fixed names, or its whole path if none does. */
  lemma NameIsShortestTail(ds: seq<Draft>, packageNames: seq<string>, k: nat, names: seq<string>, i: nat)
    returns (count: nat)
    requires AllNamed(ds, packageNames) && Directories(ds) && AreNames(ds, packageNames, k, names)
    requires i < |ds| && ds[i].kind == Directory
    ensures ShortestTail(ds, packageNames, i, count) && names[i] == Render(LastParts(ds[i].path, count))
  {
    RoundsGrow(ds, packageNames, k);
    RoundsGrow(ds, packageNames, k + 1);
    hide Rounds, Ambiguous;
    count := Rounds(ds, packageNames, k)[i];
    assert Growing(ds, packageNames, k, i) && Growing(ds, packageNames, k + 1, i);
  }

  /** A directory whose whole path is a fixed name can be told from it by a shorter tail. */
  ghost predicate PathsApart(ds: seq<Draft>, packageNames: seq<string>)
    requires AllNamed(ds, packageNames)
  {
    forall i, j :: 0 <= i < |ds| && 0 <= j < |ds| && ds[i].kind == Directory && IsFixed(ds[j]) ==>
      Render(ds[i].path) == NameOf(ds[j], packageNames, 1) ==> HasShorterTail(ds, packageNames, i)
  }

  ghost predicate HasShorterTail(ds: seq<Draft>, packageNames: seq<string>, i: nat)
    requires AllNamed(ds, packageNames) && i < |ds|
  {
    exists c :: 1 <= c < |ds[i].path| && !Ambiguous(ds, packageNames, i, c)
  }

  lemma DirectoryAgainstFixed(ds: seq<Draft>, packageNames: seq<string>, k: nat, names: seq<string>, i: nat, j: nat)
    requires AllNamed(ds, packageNames) && Directories(ds) && AreNames(ds, packageNames, k, names)
    requires i < |ds| && j < |ds| && ds[i].kind == Directory && IsFixed(ds[j])
    ensures names[i] == names[j] <==>
      Render(ds[i].path) == NameOf(ds[j], packageNames, 1) && !HasShorterTail(ds, packageNames, i)
  {
    hide Rounds, Ambiguous;
    var count := NameIsShortestTail(ds, packageNames, k, names, i);
    assert names[j] == NameOf(ds[j], packageNames, 1);
    assert LastParts(ds[i].path, |ds[i].path|) == ds[i].path;
    if names[i] == names[j] {
      TakenIsAmbiguous(ds, packageNames, i, count, j);
    }
  }

  /** All display names differ exactly if those of the packages and the root do, and every directory whose
      path is one of them has a shorter tail that is unambiguous. */
  lemma NamesDifferIff(ds: seq<Draft>, packageNames: seq<string>, k: nat, names: seq<string>)
    requires AllNamed(ds, packageNames) && AreNames(ds, packageNames, k, names)
    requires DistinctDirectories(ds) && Directories(ds)
    ensures AllDifferent(names) <==> FixedApart(ds, packageNames) && PathsApart(ds, packageNames)
  {
    hide AreNames, HasShorterTail, DistinctDirectories, Directories;
    NamesFixed(ds, packageNames, k, names);
    forall i, j | 0 <= i < |ds| && 0 <= j < |ds| && ds[i].kind == Directory && IsFixed(ds[j])
      ensures names[i] == names[j] <==>
        Render(ds[i].path) == NameOf(ds[j], packageNames, 1) && !HasShorterTail(ds, packageNames, i)
    {
      DirectoryAgainstFixed(ds, packageNames, k, names, i, j);
    }
    forall i, j | 0 <= i < j < |ds| && ds[i].kind == Directory && ds[j].kind == Directory
      ensures names[i] != names[j]
    {
      DirectoryNamesDiffer(ds, packageNames, k, names, i, j);
    }
    DifferByKind(ds, packageNames, names);
  }

  lemma NamesFixed(ds: seq<Draft>, packageNames: seq<string>, k: nat, names: seq<string>)
    requires AllNamed(ds, packageNames) && AreNames(ds, packageNames, k, names)
    ensures |names| == |ds|
    ensures forall j :: 0 <= j < |ds| && IsFixed(ds[j]) ==> names[j] == NameOf(ds[j], packageNames, 1)
  {
  }

  lemma DifferByKind(ds: seq<Draft>, packageNames: seq<string>, names: seq<string>)
    requires AllNamed(ds, packageNames) && |names| == |ds|
    requires forall j :: 0 <= j < |ds| && IsFixed(ds[j]) ==> names[j] == NameOf(ds[j], packageNames, 1)
    requires forall i, j :: 0 <= i < |ds| && 0 <= j < |ds| && ds[i].kind == Directory && IsFixed(ds[j]) ==>
      (names[i] == names[j] <==>
        Render(ds[i].path) == NameOf(ds[j], packageNames, 1) && !HasShorterTail(ds, packageNames, i))
    requires forall i, j :: 0 <= i < j < |ds| && ds[i].kind == Directory && ds[j].kind == Directory ==>
      names[i] != names[j]
    ensures AllDifferent(names) <==> FixedApart(ds, packageNames) && PathsApart(ds, packageNames)
  {
    hide HasShorterTail;
    if !FixedApart(ds, packageNames) {
      var i, j :| 0 <= i < j < |ds| && IsFixed(ds[i]) && IsFixed(ds[j])
        && NameOf(ds[i], packageNames, 1) == NameOf(ds[j], packageNames, 1);
      assert names[i] == names[j];
    } else if !PathsApart(ds, packageNames) {
      var i, j :| 0 <= i < |ds| && 0 <= j < |ds| && ds[i].kind == Directory && IsFixed(ds[j])
        && Render(ds[i].path) == NameOf(ds[j], packageNames, 1) && !HasShorterTail(ds, packageNames, i);
      assert names[i] == names[j];
    } else {
      forall i, j | 0 <= i < j < |names| ensures names[i] != names[j] {
        if IsFixed(ds[i]) != IsFixed(ds[j]) {
          var d, f := if IsFixed(ds[i]) then j else i, if IsFixed(ds[i]) then i else j;
          assert names[d] != names[f];
        }
      }
    }
  }

  /** A directory at the top of the repository always shares its name with a package named like it. */
  lemma TopLevelShares(ds: seq<Draft>, packageNames: seq<string>, k: nat, names: seq<string>, i: nat, j: nat)
    requires AllNamed(ds, packageNames) && Directories(ds) && AreNames(ds, packageNames, k, names)
    requires i < |ds| && ds[i].kind == Directory && |ds[i].path| == 1
    requires j < |ds| && IsFixed(ds[j]) && NameOf(ds[j], packageNames, 1) == ds[i].path[0]
    ensures names[i] == names[j]
  {
    DirectoryAgainstFixed(ds, packageNames, k, names, i, j);
  }
}
