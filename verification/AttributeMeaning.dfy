/** What moving a `.gitattributes` pattern to the repository root does to its meaning. */
module AttributeMeaning {
  import opened Wrappers
  import opened Text
  import opened PathText
  import opened GlobTokens
  import opened GlobPatterns
  import opened GlobTexts
  import opened GlobNames
  import opened Attributes

  /** The text matches the name, read as a pattern. */
  ghost predicate NameMatches(name: string, text: string) {
    SegmentTokens(name).Ok? && Matches(SegmentTokens(name).value, text, false)
  }

  /** The leading parts match the names, read as patterns. */
  ghost predicate Reads(names: seq<string>, parts: seq<string>) {
    |names| <= |parts| && forall i :: 0 <= i < |names| ==> NameMatches(names[i], parts[i])
  }

  lemma ReadsTail(names: seq<string>, parts: seq<string>)
    requires names != [] && parts != []
    ensures Reads(names, parts) <==> NameMatches(names[0], parts[0]) && Reads(names[1..], parts[1..])
  {
    hide NameMatches;
    var rest, tail := names[1..], parts[1..];
    if NameMatches(names[0], parts[0]) && Reads(rest, tail) {
      forall i | 0 < i < |names| ensures NameMatches(names[i], parts[i]) {
        assert NameMatches(rest[i - 1], tail[i - 1]);
      }
    }
    if Reads(names, parts) {
      forall i | 0 <= i < |rest| ensures NameMatches(rest[i], tail[i]) {
        assert NameMatches(names[i + 1], parts[i + 1]);
      }
    }
  }

  /** Directory names in front of segments read the leading parts. */
  lemma {:induction false} PrefixMatch(names: seq<string>, segments: seq<Segment>, parts: seq<string>)
    requires AllCompile(names)
    ensures SegmentsMatch(DirectorySegments(names) + segments, parts) <==>
              Reads(names, parts) && SegmentsMatch(segments, parts[|names|..])
    decreases |names|
  {
    var all := DirectorySegments(names) + segments;
    if names == [] {
      assert all == segments && parts[0..] == parts;
    } else {
      AllCompileHead(names);
      assert all[1..] == DirectorySegments(names[1..]) + segments;
      if parts != [] {
        ReadsTail(names, parts);
        PrefixMatch(names[1..], segments, parts[1..]);
        if |names| <= |parts| {
          assert parts[1..][|names| - 1..] == parts[|names|..];
        }
      }
    }
  }

  ghost predicate IsMoved(directory: string, glob: Glob, moved: Glob) {
    var names := PathParts(directory);
    && names != [] && AllCompile(names)
    && moved.segments == DirectorySegments(names) + glob.segments
    && moved.directoryOnly == glob.directoryOnly
  }

  /** Some leading parts match, possibly none. */
  ghost predicate CoversOrEmpty(glob: Glob, parts: seq<string>) {
    exists l :: 0 <= l <= Longest(glob, parts) && SegmentsMatch(glob.segments, parts[..l])
  }

  /** What a moved glob means: the directory, read as a pattern, matches the leading parts, and the pattern
      matches the others or leading parts of them. */
  lemma MovedMeans(directory: string, glob: Glob, moved: Glob, parts: seq<string>)
    requires IsMoved(directory, glob, moved)
    ensures CoversParts(moved, parts) <==>
      Reads(PathParts(directory), parts) && CoversOrEmpty(glob, parts[|PathParts(directory)|..])
  {
    hide NameMatches, Reads, SegmentsMatch, DirectorySegments, PathParts;
    var names := PathParts(directory);
    var n := |names|;
    if length :| 1 <= length <= Longest(moved, parts) && SegmentsMatch(moved.segments, parts[..length]) {
      PrefixMatch(names, glob.segments, parts[..length]);
      ReadsMore(names, parts, length);
      assert parts[..length][n..] == parts[n..][..length - n];
    }
    if Reads(names, parts) {
      ReadsMore(names, parts, |parts|);
      if l :| 0 <= l <= Longest(glob, parts[n..]) && SegmentsMatch(glob.segments, parts[n..][..l]) {
        assert parts[..n + l][n..] == parts[n..][..l];
        ReadsMore(names, parts, n + l);
        PrefixMatch(names, glob.segments, parts[..n + l]);
      }
    }
  }

  lemma ReadsMore(names: seq<string>, parts: seq<string>, length: nat)
    requires length <= |parts|
    ensures Reads(names, parts[..length]) <==> |names| <= length && Reads(names, parts)
    ensures Reads(names, parts) ==> |names| <= |parts|
  {
    hide NameMatches;
    if |names| <= length {
      assert forall i :: 0 <= i < |names| ==> parts[..length][i] == parts[i];
    }
  }

  lemma NotEmptyIfNamed(glob: Glob, parts: seq<string>)
    requires HasName(glob.segments)
    ensures CoversOrEmpty(glob, parts) <==> CoversParts(glob, parts)
  {
    NamesNeedParts(glob.segments);
    assert parts[..0] == [];
  }

  /** Inside the directory a pattern that names something means what it meant before, if every name of the
      directory matches itself; otherwise it means nothing there. */
  lemma MovedInside(directory: string, glob: Glob, moved: Glob, inside: string)
    requires IsMoved(directory, glob, moved) && HasName(glob.segments)
    ensures Covers(moved, directory + "/" + inside) <==>
      Reads(PathParts(directory), PathParts(directory)) && Covers(glob, inside)
  {
    InsideMeans(directory, glob, moved, inside);
    NotEmptyIfNamed(glob, PathParts(inside));
  }

  /** Inside the directory, with the directory itself counting as an empty path. */
  lemma InsideMeans(directory: string, glob: Glob, moved: Glob, inside: string)
    requires IsMoved(directory, glob, moved)
    ensures Covers(moved, directory + "/" + inside) <==>
      Reads(PathParts(directory), PathParts(directory)) && CoversOrEmpty(glob, PathParts(inside))
  {
    var names := PathParts(directory);
    PathConcat(directory, inside);
    var parts := names + PathParts(inside);
    MovedMeans(directory, glob, moved, parts);
    assert parts[|names|..] == PathParts(inside);
    assert forall i :: 0 <= i < |names| ==> parts[i] == names[i];
    hide NameMatches;
  }

  /** Whatever it matches lies strictly below a directory that the names, read as patterns, match. */
  lemma MovedOutside(directory: string, glob: Glob, moved: Glob, path: string)
    requires IsMoved(directory, glob, moved) && HasName(glob.segments) && Covers(moved, path)
    ensures Reads(PathParts(directory), PathParts(path)) && |PathParts(directory)| < |PathParts(path)|
  {
    MovedMeans(directory, glob, moved, PathParts(path));
    NotEmptyIfNamed(glob, PathParts(path)[|PathParts(directory)|..]);
  }

  /** A pattern of nothing but `**` matches, once it is moved, exactly what lies in such a directory, and the
      directory itself unless the pattern is for directories. */
  lemma OnlyAnyMoved(directory: string, glob: Glob, moved: Glob, path: string)
    requires IsMoved(directory, glob, moved) && glob.segments != [] && !HasName(glob.segments)
    ensures Covers(moved, path) <==>
      Reads(PathParts(directory), PathParts(path)) && |PathParts(directory)| <= Longest(moved, PathParts(path))
  {
    MovedMeans(directory, glob, moved, PathParts(path));
    if Reads(PathParts(directory), PathParts(path)) {
      AnyMatchesAll(glob.segments, PathParts(path)[|PathParts(directory)|..][..0]);
    }
  }

  ghost predicate SameInside(directory: string, glob: Glob, moved: Glob) {
    forall inside :: PathParts(inside) != [] ==> (Covers(moved, directory + "/" + inside) <==> Covers(glob, inside))
  }

  /** A glob means inside the directory what another pattern means at the root. */
  ghost predicate SameCoverOrEmpty(glob: Glob, inner: Glob) {
    forall parts :: IsPath(parts) && parts != [] ==> (CoversOrEmpty(inner, parts) <==> CoversParts(glob, parts))
  }

  lemma SameInsideMeans(directory: string, glob: Glob, inner: Glob, moved: Glob)
    requires IsMoved(directory, inner, moved) && glob.segments != []
    ensures SameInside(directory, glob, moved) <==>
      if Reads(PathParts(directory), PathParts(directory)) then SameCoverOrEmpty(glob, inner)
      else Hopeless(glob.segments)
  {
    hide Reads, CoversOrEmpty, CoversParts, Hopeless, PathParts, IsMoved;
    forall inside
      ensures Covers(moved, directory + "/" + inside) <==>
        Reads(PathParts(directory), PathParts(directory)) && CoversOrEmpty(inner, PathParts(inside))
    {
      InsideMeans(directory, inner, moved, inside);
    }
    CoversNothingIff(glob);
    ForPathsAndParts(glob, inner);
  }

  /** What holds for the parts of every path holds for every list of names. */
  lemma ForPathsAndParts(glob: Glob, inner: Glob)
    ensures SameCoverOrEmpty(glob, inner) <==>
      forall inside :: PathParts(inside) != [] ==> (CoversOrEmpty(inner, PathParts(inside)) <==> Covers(glob, inside))
    ensures CoversNothing(glob) <==> forall inside :: PathParts(inside) != [] ==> !Covers(glob, inside)
  {
    hide CoversOrEmpty, CoversParts, PathParts;
    forall inside ensures IsPath(PathParts(inside)) {
      PartsAreNames(inside);
    }
    forall parts | IsPath(parts) && parts != [] ensures PathParts(Render(parts)) == parts {
      PartsOfText(parts);
    }
    if !SameCoverOrEmpty(glob, inner) {
      var parts :| IsPath(parts) && parts != [] && CoversOrEmpty(inner, parts) != CoversParts(glob, parts);
      assert PathParts(Render(parts)) == parts;
    }
    if !CoversNothing(glob) {
      var parts :| IsPath(parts) && parts != [] && CoversParts(glob, parts);
      assert PathParts(Render(parts)) == parts && Covers(glob, Render(parts));
    }
  }

  /** With its own segments, a pattern keeps its meaning exactly if it names something or is not restricted to
      directories. */
  lemma SameOrEmptyIff(glob: Glob, inner: Glob)
    requires inner.segments == glob.segments != [] && inner.directoryOnly == glob.directoryOnly
    ensures SameCoverOrEmpty(glob, inner) <==> HasName(glob.segments) || !glob.directoryOnly
  {
    forall parts: seq<string> ensures CoversOrEmpty(inner, parts) <==> CoversOrEmpty(glob, parts) {
    }
    if HasName(glob.segments) {
      forall parts ensures CoversOrEmpty(glob, parts) <==> CoversParts(glob, parts) {
        NotEmptyIfNamed(glob, parts);
      }
    } else {
      forall parts: seq<string> | parts != []
        ensures CoversOrEmpty(glob, parts) && (CoversParts(glob, parts) <==> 1 <= Longest(glob, parts))
      {
        AnyMatchesAll(glob.segments, parts[..0]);
        AnyMatchesAll(glob.segments, parts[..1]);
      }
      assert IsPart("x") && IsPath(["x"]);
    }
  }

  lemma SegmentsNotEmpty(pattern: string, glob: Glob)
    requires Solid(pattern) && Compile(pattern) == Ok(glob)
    ensures glob.segments != []
  {
    CompiledField(pattern, glob);
    var parts := PathParts(Slashed(pattern));
    FirstSegment(parts);
    CompileAfterAny(parts);
  }

  // --------------------------------------------------------------- when anchors agree

  lemma {:induction false} PopIsTrim(s: string)
    requires TrimEndOf(s, '/') != ""
    ensures PopSlashes(s) == TrimEndOf(s, '/')
  {
    if s[|s| - 1] == '/' {
      PopIsTrim(s[..|s| - 1]);
    }
  }

  lemma {:induction false} TrimEndKeeps(s: string)
    requires s != "" && s[0] != '/'
    ensures TrimEndOf(s, '/') != "" && TrimEndOf(s, '/')[0] == s[0]
  {
    if s[|s| - 1] == '/' {
      TrimEndKeeps(s[..|s| - 1]);
    }
  }

  /** Without backslashes the two notions of an anchored pattern are one. */
  lemma NoBackslashAgrees(pattern: string)
    requires pattern != "" && '\\' !in pattern
    ensures AnchorsAgree(pattern)
  {
    assert Slashed(pattern) == pattern;
    if StartsWithSlash(pattern) {
      assert StartsWithSlash(PopSlashes(pattern));
    } else {
      TrimEndKeeps(pattern);
      PopIsTrim(pattern);
    }
  }
}
