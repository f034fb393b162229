/** The path index of the import resolver: files inside a directory, and files by the end of their path. */
module ResolverIndex {
  import opened Wrappers
  import opened Text
  import opened Sorting
  import opened PathText

  function PathOf(files: seq<string>, i: nat): string {
    if i < |files| then files[i] else ""
  }

  function LePath(files: seq<string>, i: nat, j: nat): bool {
    LeText(PathOf(files, i), PathOf(files, j))
  }

  lemma PathOrder(files: seq<string>)
    ensures TotalOrder((i: nat, j: nat) => LePath(files, i, j))
  {
    var le := (i: nat, j: nat) => LePath(files, i, j);
    forall a: nat, b: nat ensures le(a, b) || le(b, a) {
      LeTextTotal(PathOf(files, a), PathOf(files, b));
    }
    forall a: nat, b: nat, c: nat | le(a, b) && le(b, c) ensures le(a, c) {
      LeTextTransitive(PathOf(files, a), PathOf(files, b), PathOf(files, c));
    }
  }

  /** Every file once, in the order of the paths. */
  ghost predicate IsSorted(files: seq<string>, sorted: seq<nat>) {
    && multiset(sorted) == multiset(Indices(|files|))
    && (forall k :: 0 <= k < |sorted| ==> sorted[k] < |files|)
    && forall k, l :: 0 <= k < l < |sorted| ==> LePath(files, sorted[k], sorted[l])
  }

  method SortPaths(files: seq<string>) returns (sorted: seq<nat>)
    ensures IsSorted(files, sorted)
  {
    var le := (i: nat, j: nat) => LePath(files, i, j);
    sorted := Sort(Indices(|files|), le);
    PathOrder(files);
    SortSorted(Indices(|files|), le);
    SameMembers(Indices(|files|), sorted);
    forall k | 0 <= k < |sorted| ensures sorted[k] < |files| {
      assert sorted[k] in Indices(|files|);
    }
    forall k, l | 0 <= k < l < |sorted| ensures LePath(files, sorted[k], sorted[l]) {
      assert le(sorted[k], sorted[l]);
    }
  }

  // ------------------------------------------------------------- files in a directory

  predicate StartsWith(path: string, prefix: string) {
    |prefix| <= |path| && path[..|prefix|] == prefix
  }

  function Prefix(dir: string): string {
    if dir == "" then "" else dir + "/"
  }

  /** Starting with the directory and a slash is lying inside it. */
  lemma PrefixIsInside(path: string, dir: string)
    requires dir != ""
    ensures StartsWith(path, Prefix(dir)) <==> IsWithin(path, dir) && path != dir
  {
    if StartsWith(path, dir + "/") {
      assert path[..|dir|] == (dir + "/")[..|dir|] == dir;
      assert path[|dir|] == (dir + "/")[|dir|];
    }
    if |path| > |dir| && path[..|dir|] == dir && path[|dir|] == '/' {
      assert path[..|dir| + 1] == dir + "/";
    }
  }

  /** Texts with a prefix come at or after it. */
  lemma {:induction false} PrefixFirst(prefix: string, path: string)
    requires StartsWith(path, prefix)
    ensures LeText(prefix, path)
  {
    if prefix != "" {
      assert path[0] == prefix[0];
      assert path[1..][..|prefix| - 1] == prefix[1..];
      PrefixFirst(prefix[1..], path[1..]);
    }
  }

  /** A text between a prefix and a text that has it has it too. */
  lemma {:induction false} PrefixBetween(prefix: string, middle: string, path: string)
    requires LeText(prefix, middle) && LeText(middle, path) && StartsWith(path, prefix)
    ensures StartsWith(middle, prefix)
  {
    if prefix != "" {
      assert path[0] == prefix[0] && path[1..][..|prefix| - 1] == prefix[1..];
      PrefixBetween(prefix[1..], middle[1..], path[1..]);
      assert middle[..|prefix|] == [middle[0]] + middle[1..][..|prefix| - 1];
      assert prefix == [prefix[0]] + prefix[1..];
    }
  }

  predicate Before(path: string, prefix: string) {
    !LeText(prefix, path)
  }

  /** Binary search for the first path that does not come before the prefix. */
  method PartitionPoint(files: seq<string>, sorted: seq<nat>, prefix: string) returns (n: nat)
    requires IsSorted(files, sorted)
    ensures n <= |sorted|
    ensures forall k :: 0 <= k < n ==> Before(files[sorted[k]], prefix)
    ensures forall k :: n <= k < |sorted| ==> !Before(files[sorted[k]], prefix)
  {
    var low, high := 0, |sorted|;
    while low < high
      invariant low <= high <= |sorted|
      invariant forall k :: 0 <= k < low ==> Before(files[sorted[k]], prefix)
      invariant forall k :: high <= k < |sorted| ==> !Before(files[sorted[k]], prefix)
    {
      var middle := low + (high - low) / 2;
      SideOf(files, sorted, prefix, middle);
      if Before(files[sorted[middle]], prefix) {
        low := middle + 1;
      } else {
        high := middle;
      }
    }
    n := low;
  }

  lemma SideOf(files: seq<string>, sorted: seq<nat>, prefix: string, m: nat)
    requires IsSorted(files, sorted) && m < |sorted|
    ensures Before(files[sorted[m]], prefix) ==> forall k :: 0 <= k <= m ==> Before(files[sorted[k]], prefix)
    ensures !Before(files[sorted[m]], prefix) ==> forall k :: m <= k < |sorted| ==> !Before(files[sorted[k]], prefix)
  {
    forall k | 0 <= k < m && !Before(files[sorted[k]], prefix) ensures !Before(files[sorted[m]], prefix) {
      assert LePath(files, sorted[k], sorted[m]);
      LeTextTransitive(prefix, files[sorted[k]], files[sorted[m]]);
    }
    forall k | m < k < |sorted| && !Before(files[sorted[m]], prefix) ensures !Before(files[sorted[k]], prefix) {
      assert LePath(files, sorted[m], sorted[k]);
      LeTextTransitive(prefix, files[sorted[m]], files[sorted[k]]);
    }
  }

  /** The files with the property, in the order of the list. */
  function Filter(s: seq<nat>, p: nat -> bool): seq<nat> {
    if s == [] then [] else Filter(s[..|s| - 1], p) + if p(s[|s| - 1]) then [s[|s| - 1]] else []
  }

  lemma FilterNext(s: seq<nat>, i: nat, p: nat -> bool)
    requires i < |s|
    ensures Filter(s[..i + 1], p) == Filter(s[..i], p) + if p(s[i]) then [s[i]] else []
  {
    assert s[..i + 1][..i] == s[..i];
  }

  lemma {:induction false} FilterNothing(s: seq<nat>, i: nat, j: nat, p: nat -> bool)
    requires i <= j <= |s| && forall k :: i <= k < j ==> !p(s[k])
    ensures Filter(s[..j], p) == Filter(s[..i], p)
    decreases j - i
  {
    if i < j {
      FilterNothing(s, i, j - 1, p);
      FilterNext(s, j - 1, p);
    }
  }

  lemma {:induction false} InFilter(s: seq<nat>, p: nat -> bool, x: nat)
    ensures x in Filter(s, p) <==> x in s && p(x)
  {
    if s != [] {
      InFilter(s[..|s| - 1], p, x);
      assert s == s[..|s| - 1] + [s[|s| - 1]];
    }
  }

  /** The search and the scan find exactly the files inside the directory, in path order. */
  method FilesWithin(files: seq<string>, sorted: seq<nat>, dir: string) returns (r: seq<nat>)
    requires IsSorted(files, sorted)
    ensures r == Filter(sorted, (i: nat) => StartsWith(PathOf(files, i), Prefix(dir)))
  {
    var prefix := Prefix(dir);
    ghost var p := (i: nat) => StartsWith(PathOf(files, i), prefix);
    var start := PartitionPoint(files, sorted, prefix);
    forall k | 0 <= k < start ensures !p(sorted[k]) {
      if p(sorted[k]) {
        PrefixFirst(prefix, files[sorted[k]]);
      }
    }
    FilterNothing(sorted, 0, start, p);
    assert sorted[..0] == [];
    r := [];
    var i := start;
    while i < |sorted| && StartsWith(files[sorted[i]], prefix)
      invariant start <= i <= |sorted| && r == Filter(sorted[..i], p)
    {
      FilterNext(sorted, i, p);
      r := r + [sorted[i]];
      i := i + 1;
    }
    forall k | i <= k < |sorted| ensures !p(sorted[k]) {
      if p(sorted[k]) && i < k {
        assert LePath(files, sorted[i], sorted[k]);
        PrefixBetween(prefix, files[sorted[i]], files[sorted[k]]);
      }
    }
    FilterNothing(sorted, i, |sorted|, p);
    assert sorted[..|sorted|] == sorted;
  }

  /** A file is found exactly if it lies inside the directory; the empty directory holds all files. */
  lemma WithinExactly(files: seq<string>, sorted: seq<nat>, dir: string, i: nat)
    requires IsSorted(files, sorted)
    ensures i in Filter(sorted, (k: nat) => StartsWith(PathOf(files, k), Prefix(dir))) <==>
      i < |files| && (dir == "" || (IsWithin(files[i], dir) && files[i] != dir))
  {
    InFilter(sorted, (k: nat) => StartsWith(PathOf(files, k), Prefix(dir)), i);
    SameMembers(Indices(|files|), sorted);
    if i < |files| {
      assert Indices(|files|)[i] == i;
      if dir != "" {
        PrefixIsInside(files[i], dir);
      }
    }
  }

  // ------------------------------------------------------------- files by their ending

  function FileName(path: string): string {
    if '/' !in path then path else FileName(path[1..])
  }

  function TrimDotSlash(s: string): string {
    if StartsWith(s, "./") then TrimDotSlash(s[2..]) else s
  }

  /** Every leading dot with a slash is taken away, and nothing else. */
  lemma DotSlashTrimmed(s: string)
    ensures TrimDotSlash("./" + s) == TrimDotSlash(s)
    ensures !(|s| >= 2 && s[0] == '.' && s[1] == '/') ==> TrimDotSlash(s) == s
  {
    var longer := "./" + s;
    assert longer[..2] == "./" && longer[2..] == s;
    assert StartsWith(s, "./") ==> s[..2][0] == '.' && s[..2][1] == '/';
  }

  /** The path is the suffix or ends with it at a directory boundary. */
  predicate EndsAt(path: string, suffix: string) {
    path == suffix || (|path| > |suffix| && path[|path| - |suffix|..] == suffix && path[|path| - |suffix| - 1] == '/')
  }

  lemma SuffixEnds(head: Path, suffix: Path)
    requires suffix != []
    ensures EndsAt(Render(head + suffix), Render(suffix))
  {
    if head == [] {
      assert head + suffix == suffix;
    } else {
      RenderConcat(head, suffix);
      hide Render;
      Bounded(Render(head), Render(suffix));
    }
  }

  lemma Bounded(head: string, tail: string)
    ensures EndsAt(head + "/" + tail, tail)
  {
    var path := head + "/" + tail;
    assert path[|path| - |tail|..] == tail && path[|head|] == '/';
  }

  lemma EndsSplit(path: string, suffix: string)
    requires EndsAt(path, suffix) && path != suffix
    ensures Split(path, '/') == Split(path[..|path| - |suffix| - 1], '/') + Split(suffix, '/')
  {
    var head := path[..|path| - |suffix| - 1];
    assert path == head + ['/'] + suffix;
    SplitConcat(head, suffix, '/');
  }

  /** For paths this is ending in the components of the suffix. */
  lemma EndsIsSuffix(path: Path, suffix: Path)
    requires IsPath(path) && IsPath(suffix) && path != [] && suffix != []
    ensures EndsAt(Render(path), Render(suffix)) <==> |suffix| <= |path| && path[|path| - |suffix|..] == suffix
  {
    RenderInjective(path, suffix);
    RenderSplits(path);
    RenderSplits(suffix);
    hide Render, Split, EndsAt, IsPath;
    if |suffix| <= |path| && path[|path| - |suffix|..] == suffix {
      var head := path[..|path| - |suffix|];
      assert head + suffix == path;
      SuffixEnds(head, suffix);
    }
    if EndsAt(Render(path), Render(suffix)) && path != suffix {
      EndsSplit(Render(path), Render(suffix));
    }
  }

  lemma {:induction false} NameOfEnd(head: string, suffix: string)
    ensures FileName(head + "/" + suffix) == FileName(suffix)
  {
    var path := head + "/" + suffix;
    assert path[|head|] == '/';
    if head == "" {
      assert path[1..] == suffix;
      if '/' !in suffix {
        assert FileName(path) == FileName(suffix);
      } else {
        assert FileName(path) == FileName(suffix);
      }
    } else {
      NameOfEnd(head[1..], suffix);
      assert path[1..] == head[1..] + "/" + suffix;
    }
  }

  /** The file name of a path is its last component. */
  lemma NameIsLast(path: Path)
    requires IsPath(path) && path != []
    ensures FileName(Render(path)) == path[|path| - 1]
  {
    var front, name := path[..|path| - 1], path[|path| - 1];
    assert path == front + [name];
    assert IsPart(name) && Render([name]) == name;
    if front != [] {
      RenderConcat(front, [name]);
      NameOfEnd(Render(front), name);
    }
  }

  /** A path that ends with the suffix has its file name. */
  lemma EndsShareName(path: string, suffix: string)
    requires EndsAt(path, suffix)
    ensures FileName(path) == FileName(suffix)
  {
    if path != suffix {
      var head := path[..|path| - |suffix| - 1];
      assert path == head + "/" + suffix;
      NameOfEnd(head, suffix);
    }
  }

  /** The files of each name, in path order. */
  ghost predicate IsNameIndex(files: seq<string>, s: seq<nat>, names: map<string, seq<nat>>) {
    forall name :: (if name in names then names[name] else [])
      == Filter(s, (i: nat) => FileName(PathOf(files, i)) == name)
  }

  method IndexNames(files: seq<string>, sorted: seq<nat>) returns (names: map<string, seq<nat>>)
    requires IsSorted(files, sorted)
    ensures IsNameIndex(files, sorted, names)
  {
    names := map[];
    var k := 0;
    while k < |sorted|
      invariant k <= |sorted| && IsNameIndex(files, sorted[..k], names)
    {
      var name := FileName(files[sorted[k]]);
      var was := names;
      names := names[name := (if name in names then names[name] else []) + [sorted[k]]];
      forall n
        ensures (if n in names then names[n] else [])
          == Filter(sorted[..k + 1], (i: nat) => FileName(PathOf(files, i)) == n)
      {
        FilterNext(sorted, k, (i: nat) => FileName(PathOf(files, i)) == n);
        assert (if n in was then was[n] else []) == Filter(sorted[..k], (i: nat) => FileName(PathOf(files, i)) == n);
      }
      k := k + 1;
    }
    assert sorted[..k] == sorted;
  }

  predicate Better(files: seq<string>, i: nat, j: nat) {
    var a, b := PathOf(files, i), PathOf(files, j);
    ByteLength(a) < ByteLength(b) || (ByteLength(a) == ByteLength(b) && LeText(a, b))
  }

  /** Among all files, the file is a shortest one that ends with the suffix, the first of these in path
      order, and it is known whether it is the only one. */
  ghost predicate IsSuffixMatch(files: seq<string>, suffix: string, best: nat, only: bool) {
    && best < |files| && EndsAt(files[best], suffix)
    && (forall i :: 0 <= i < |files| && EndsAt(files[i], suffix) ==>
          || ByteLength(files[best]) < ByteLength(files[i])
          || (ByteLength(files[best]) == ByteLength(files[i]) && LeText(files[best], files[i])))
    && (only <==> forall i :: 0 <= i < |files| && EndsAt(files[i], suffix) ==> i == best)
  }

  ghost predicate NoSuffixMatch(files: seq<string>, suffix: string) {
    forall i :: 0 <= i < |files| ==> !EndsAt(files[i], suffix)
  }

  lemma CandidatesCover(files: seq<string>, sorted: seq<nat>, candidates: seq<nat>, suffix: string, i: nat)
    requires IsSorted(files, sorted) && i < |files|
    requires candidates == Filter(sorted, (k: nat) => FileName(PathOf(files, k)) == FileName(suffix))
    ensures i in candidates <==> FileName(files[i]) == FileName(suffix)
    ensures EndsAt(files[i], suffix) ==> i in candidates
  {
    SameMembers(Indices(|files|), sorted);
    assert Indices(|files|)[i] == i;
    InFilter(sorted, (k: nat) => FileName(PathOf(files, k)) == FileName(suffix), i);
    if EndsAt(files[i], suffix) {
      EndsShareName(files[i], suffix);
    }
  }

  lemma {:induction false} FilterDistinct(s: seq<nat>, p: nat -> bool)
    requires NoDuplicates(s)
    ensures NoDuplicates(Filter(s, p))
  {
    if s != [] {
      var t, x := s[..|s| - 1], s[|s| - 1];
      assert s == t + [x];
      NoDuplicatesNext(t, x);
      FilterDistinct(t, p);
      InFilter(t, p, x);
      NoDuplicatesNext(Filter(t, p), x);
    }
  }

  /** The candidates that end with the suffix are all the files that do, each once. */
  ghost predicate AreMatching(files: seq<string>, suffix: string, matching: seq<nat>) {
    && NoDuplicates(matching)
    && (forall i :: i in matching ==> i < |files| && EndsAt(files[i], suffix))
    && (forall i: nat :: i < |files| && EndsAt(files[i], suffix) ==> i in matching)
  }

  lemma SortedDistinct(files: seq<string>, sorted: seq<nat>)
    requires IsSorted(files, sorted)
    ensures NoDuplicates(sorted)
  {
    NoDuplicatesMultiset(sorted);
    NoDuplicatesMultiset(Indices(|files|));
  }

  lemma Matching(files: seq<string>, sorted: seq<nat>, candidates: seq<nat>, suffix: string)
    requires IsSorted(files, sorted)
    requires candidates == Filter(sorted, (k: nat) => FileName(PathOf(files, k)) == FileName(suffix))
    ensures AreMatching(files, suffix, Filter(candidates, (k: nat) => EndsAt(PathOf(files, k), suffix)))
  {
    var ends := (k: nat) => EndsAt(PathOf(files, k), suffix);
    SortedDistinct(files, sorted);
    FilterDistinct(sorted, (k: nat) => FileName(PathOf(files, k)) == FileName(suffix));
    FilterDistinct(candidates, ends);
    hide EndsAt, NoDuplicates;
    forall i | i in Filter(candidates, ends) ensures i < |files| && EndsAt(files[i], suffix) {
      InFilter(candidates, ends, i);
      InFilter(sorted, (k: nat) => FileName(PathOf(files, k)) == FileName(suffix), i);
      assert i in sorted;
    }
    forall i: nat | i < |files| && EndsAt(files[i], suffix) ensures i in Filter(candidates, ends) {
      CandidatesCover(files, sorted, candidates, suffix, i);
      InFilter(candidates, ends, i);
    }
  }

  /** The file to prefer, the first of the best. */
  method Shortest(files: seq<string>, matching: seq<nat>) returns (best: nat)
    requires matching != []
    ensures best in matching && forall i :: i in matching ==> Better(files, best, i)
  {
    best := matching[0];
    var k := 1;
    BetterItself(files, best);
    while k < |matching|
      invariant 1 <= k <= |matching| && best in matching
      invariant forall l :: 0 <= l < k ==> Better(files, best, matching[l])
    {
      if !Better(files, best, matching[k]) {
        forall l | 0 <= l < k ensures Better(files, matching[k], matching[l]) {
          BetterTransitive(files, matching[k], best, matching[l]);
        }
        best := matching[k];
        BetterItself(files, best);
      }
      k := k + 1;
    }
  }

  lemma BetterItself(files: seq<string>, i: nat)
    ensures Better(files, i, i)
  {
    LeTextTotal(PathOf(files, i), PathOf(files, i));
  }

  lemma BetterTransitive(files: seq<string>, i: nat, j: nat, k: nat)
    requires !Better(files, j, i) && Better(files, j, k)
    ensures Better(files, i, k)
  {
    LeTextTotal(PathOf(files, i), PathOf(files, j));
    if ByteLength(PathOf(files, j)) == ByteLength(PathOf(files, k)) == ByteLength(PathOf(files, i)) {
      LeTextTransitive(PathOf(files, i), PathOf(files, j), PathOf(files, k));
    }
  }

  lemma OnlyOne(files: seq<string>, suffix: string, matching: seq<nat>, best: nat)
    requires AreMatching(files, suffix, matching) && best in matching
    ensures |matching| == 1 <==> forall i :: 0 <= i < |files| && EndsAt(files[i], suffix) ==> i == best
  {
    if |matching| > 1 {
      var other := if matching[0] == best then matching[1] else matching[0];
      assert matching[0] != matching[1] && other in matching;
    } else {
      assert matching == [best];
    }
  }

  lemma MatchFound(files: seq<string>, suffix: string, matching: seq<nat>, best: nat)
    requires AreMatching(files, suffix, matching) && best in matching
    requires forall i :: i in matching ==> Better(files, best, i)
    ensures IsSuffixMatch(files, suffix, best, |matching| == 1)
  {
    OnlyOne(files, suffix, matching, best);
    hide NoDuplicates, EndsAt;
    forall i: nat | i < |files| && EndsAt(files[i], suffix)
      ensures ByteLength(files[best]) < ByteLength(files[i])
        || (ByteLength(files[best]) == ByteLength(files[i]) && LeText(files[best], files[i]))
    {
      assert Better(files, best, i);
    }
  }

  /** Looking only at the files with the same name finds what a scan of all files would. */
  method SuffixMatch(files: seq<string>, sorted: seq<nat>, names: map<string, seq<nat>>, text: string)
    returns (r: Option<(nat, bool)>)
    requires IsSorted(files, sorted) && IsNameIndex(files, sorted, names)
    ensures r.None? ==> NoSuffixMatch(files, TrimDotSlash(text))
    ensures r.Some? ==> IsSuffixMatch(files, TrimDotSlash(text), r.value.0, r.value.1)
  {
    var suffix := TrimDotSlash(text);
    var name := FileName(suffix);
    ghost var candidates := if name in names then names[name] else [];
    assert candidates == Filter(sorted, (i: nat) => FileName(PathOf(files, i)) == name);
    Matching(files, sorted, candidates, suffix);
    hide IsSorted, IsNameIndex, EndsAt, Better, IsSuffixMatch;
    if name !in names {
      return None;
    }
    var matching := Filter(names[name], (k: nat) => EndsAt(PathOf(files, k), suffix));
    if matching == [] {
      return None;
    }
    var best := Shortest(files, matching);
    MatchFound(files, suffix, matching, best);
    r := Some((best, |matching| == 1));
  }
}
