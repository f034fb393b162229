/** What translating a `.gitattributes` pattern to the root does to its meaning, for every pattern and directory:
    the slashes and backslashes of the pattern may disagree on anchoring, and the directory is itself read as a
    pattern. */
module AttributeAnchors {
  import opened Wrappers
  import opened Text
  import opened PathText
  import opened GlobTokens
  import opened GlobPatterns
  import opened GlobTexts
  import opened GlobNames
  import opened Attributes
  import opened AttributeMeaning

  // --------------------------------------------------------- patterns read differently

  /** The segments of a pattern as written, without the `**` that stands for any depth. */
  function Own(pattern: string): seq<Segment> {
    match CompileParts([], PathParts(Slashed(pattern)))
    case Ok(segments) => segments
    case Err(_) => []
  }

  /** If the two readings of the anchor disagree, one of the pattern and its translation has the added `**` and
      the other has not. */
  lemma Disagreeing(pattern: string, glob: Glob)
    requires Solid(pattern) && Compile(pattern) == Ok(glob) && !AnchorsAgree(pattern)
    ensures Own(pattern) != [] && Own(pattern)[0].Pattern?
    ensures glob.segments == if RawAnchored(pattern) then Deep(Own(pattern)) else Own(pattern)
    ensures Inner(pattern) == Ok(if RawAnchored(pattern) then Own(pattern) else Deep(Own(pattern)))
  {
    hide Compile, PathParts, Slashed, RawAnchored, CompiledAnchored, EndsWithSlash;
    var parts := PathParts(Slashed(pattern));
    CompiledField(pattern, glob);
    CompileAfterAny(parts);
    FirstSegment(parts);
  }

  /** What the pattern means behind the names of the directory. */
  function InnerGlob(pattern: string, glob: Glob): Glob
    requires Inner(pattern).Ok?
  {
    glob.(segments := Inner(pattern).value)
  }

  lemma NamedBoth(segments: seq<Segment>)
    requires segments != [] && segments[0].Pattern?
    ensures HasName(segments) && HasName(Deep(segments))
  {
    assert Deep(segments)[1] == segments[0];
  }

  lemma InnerFacts(pattern: string, glob: Glob)
    requires Solid(pattern) && Compile(pattern) == Ok(glob)
    ensures glob.segments != [] && Inner(pattern).Ok? && Inner(pattern).value != []
    ensures HasName(Inner(pattern).value) <==> HasName(glob.segments)
  {
    hide Compile, CompileParts, AnchorsAgree, RawAnchored, HasName, Inner;
    SegmentsNotEmpty(pattern, glob);
    AnchorsDecide(pattern, glob);
    if !AnchorsAgree(pattern) {
      Disagreeing(pattern, glob);
      NamedBoth(Own(pattern));
    }
  }

  /** The translation compiles exactly if every name of the directory does, as a pattern of its own; it is then
      these patterns followed by the pattern moved. */
  lemma TranslationIs(directory: string, pattern: string, glob: Glob)
    requires Solid(pattern) && IsDirectory(directory) && Compile(pattern) == Ok(glob)
    ensures Compile(ToGlob(directory, pattern)).Ok? <==> AllCompile(PathParts(directory))
    ensures AllCompile(PathParts(directory)) ==>
      Inner(pattern).Ok? && IsMoved(directory, InnerGlob(pattern, glob), Compile(ToGlob(directory, pattern)).value)
  {
    hide Compile, CompileParts, ToGlob, AllCompile, Inner;
    MovedSegments(directory, pattern, glob);
  }

  /** When a pattern means in a plain directory what it meant before. If the slashes of the text and those the
      compiler sees agree on anchoring, it does unless it is `**` for directories only; if they do not, it does
      exactly if the depth makes no difference to it. */
  ghost predicate Portable(pattern: string, glob: Glob) {
    if AnchorsAgree(pattern) then HasName(glob.segments) || !glob.directoryOnly
    else OpenHead(Own(pattern)) || Hopeless(Own(pattern))
  }

  lemma SameCoverTurned(a: Glob, b: Glob)
    ensures SameCover(a, b) <==> SameCover(b, a)
  {
  }

  lemma PortableIff(pattern: string, glob: Glob)
    requires Solid(pattern) && Compile(pattern) == Ok(glob)
    ensures Inner(pattern).Ok?
    ensures SameCoverOrEmpty(glob, InnerGlob(pattern, glob)) <==> Portable(pattern, glob)
  {
    hide Compile, AnchorsAgree, RawAnchored, Own, Inner, HasName, OpenHead, Hopeless;
    InnerFacts(pattern, glob);
    AnchorsDecide(pattern, glob);
    if AnchorsAgree(pattern) {
      SameOrEmptyIff(glob, InnerGlob(pattern, glob));
    } else {
      DisagreeingPortable(pattern, glob);
    }
  }

  lemma DisagreeingPortable(pattern: string, glob: Glob)
    requires Solid(pattern) && Compile(pattern) == Ok(glob) && !AnchorsAgree(pattern)
    ensures Inner(pattern).Ok?
    ensures SameCoverOrEmpty(glob, InnerGlob(pattern, glob)) <==> OpenHead(Own(pattern)) || Hopeless(Own(pattern))
  {
    hide Compile, AnchorsAgree, RawAnchored, Own, Inner, HasName, OpenHead, Hopeless, CoversOrEmpty, CoversParts;
    Disagreeing(pattern, glob);
    NamedBoth(Own(pattern));
    var inner := InnerGlob(pattern, glob);
    forall parts ensures CoversOrEmpty(inner, parts) <==> CoversParts(inner, parts) {
      NotEmptyIfNamed(inner, parts);
    }
    if RawAnchored(pattern) {
      SameCoverIff(inner, glob);
      SameCoverTurned(inner, glob);
    } else {
      SameCoverIff(glob, inner);
    }
  }

  /** For every compilable pattern and directory: when the translation preserves the meaning inside the directory.
      If every name of the directory matches itself, exactly for the portable patterns; otherwise only for
      patterns that match nothing anyway. */
  lemma ToGlobKeepsMeaning(directory: string, pattern: string, glob: Glob)
    requires Solid(pattern) && IsDirectory(directory) && Compile(pattern) == Ok(glob)
    ensures Compile(ToGlob(directory, pattern)).Ok? <==> AllCompile(PathParts(directory))
    ensures var names := PathParts(directory); AllCompile(names) ==>
      (SameInside(directory, glob, Compile(ToGlob(directory, pattern)).value) <==>
         if Reads(names, names) then Portable(pattern, glob) else Hopeless(glob.segments))
  {
    hide Compile, ToGlob, AllCompile, Reads, Portable, Hopeless, SameInside, Inner, SameCoverOrEmpty;
    TranslationIs(directory, pattern, glob);
    if AllCompile(PathParts(directory)) {
      InnerFacts(pattern, glob);
      PortableIff(pattern, glob);
      SameInsideMeans(directory, glob, InnerGlob(pattern, glob), Compile(ToGlob(directory, pattern)).value);
    }
  }

  // ------------------------------------------------------------- outside the directory

  /** Read as patterns, the names match no other names. */
  ghost predicate MatchNoOther(names: seq<string>) {
    forall i, name :: 0 <= i < |names| && IsPart(name) && NameMatches(names[i], name) ==> name == names[i]
  }

  /** Every path the glob covers lies below the directory, or if allowed, is the directory. */
  ghost predicate StaysInside(names: seq<string>, moved: Glob, strictly: bool) {
    forall path :: Covers(moved, path) ==> if strictly then names < PathParts(path) else names <= PathParts(path)
  }

  lemma ReadsOnlyItself(names: seq<string>, parts: seq<string>)
    requires MatchNoOther(names) && Reads(names, parts) && IsPath(parts)
    ensures names <= parts
  {
    hide NameMatches;
    forall i | 0 <= i < |names| ensures names[i] == parts[i] {
      assert NameMatches(names[i], parts[i]) && IsPart(parts[i]);
    }
  }

  lemma NothingOutside(directory: string, inner: Glob, moved: Glob)
    requires IsMoved(directory, inner, moved) && inner.segments != []
    requires Hopeless(moved.segments) || MatchNoOther(PathParts(directory))
    ensures StaysInside(PathParts(directory), moved, HasName(inner.segments))
  {
    hide Reads, MatchNoOther, Hopeless, PathParts, HasName;
    forall path | Covers(moved, path)
      ensures if HasName(inner.segments) then PathParts(directory) < PathParts(path)
        else PathParts(directory) <= PathParts(path)
    {
      PartsAreNames(path);
      if Hopeless(moved.segments) {
        HopelessCovers(moved, path);
        assert false;
      }
      if HasName(inner.segments) {
        MovedOutside(directory, inner, moved, path);
      } else {
        OnlyAnyMoved(directory, inner, moved, path);
      }
      ReadsOnlyItself(PathParts(directory), PathParts(path));
    }
  }

  lemma HopelessCovers(glob: Glob, path: string)
    requires Hopeless(glob.segments)
    ensures !Covers(glob, path)
  {
    PartsAreNames(path);
    CoversNothingIff(glob);
  }

  /** Another name for one of the directory's gives a path outside. */
  lemma SomethingOutside(directory: string, inner: Glob, moved: Glob, i: nat, name: string)
    requires IsMoved(directory, inner, moved) && !Hopeless(moved.segments) && i < |PathParts(directory)|
    requires IsPart(name) && NameMatches(PathParts(directory)[i], name) && name != PathParts(directory)[i]
    ensures !StaysInside(PathParts(directory), moved, HasName(inner.segments))
  {
    hide NameMatches, Hopeless, Witness, PathParts, HasName, SegmentsMatch;
    var names, found := PathParts(directory), Witness(moved.segments);
    var n := |names|;
    WitnessMatches(moved.segments);
    PrefixMatch(names, inner.segments, found);
    var changed := found[i := name];
    var parts := changed + ["x"];
    assert IsPart("x") && IsPath(parts);
    assert Reads(names, parts);
    assert parts[n..][..|found| - n] == found[n..];
    MovedMeans(directory, inner, moved, parts);
    PartsOfText(parts);
    assert Covers(moved, Render(parts));
    assert parts[i] == name;
  }

  lemma StaysInsideIff(directory: string, inner: Glob, moved: Glob)
    requires IsMoved(directory, inner, moved) && inner.segments != []
    ensures StaysInside(PathParts(directory), moved, HasName(inner.segments)) <==>
      Hopeless(moved.segments) || MatchNoOther(PathParts(directory))
  {
    hide NameMatches, Hopeless, PathParts, HasName, StaysInside;
    if Hopeless(moved.segments) || MatchNoOther(PathParts(directory)) {
      NothingOutside(directory, inner, moved);
    } else {
      var i: nat, name :| i < |PathParts(directory)| && IsPart(name)
        && NameMatches(PathParts(directory)[i], name) && name != PathParts(directory)[i];
      SomethingOutside(directory, inner, moved, i, name);
    }
  }

  /** The translation matches nothing outside the directory exactly if it matches nothing at all, or every name of
      the directory, read as a pattern, matches no other name. It then matches the directory itself only if the
      pattern is nothing but `**`. */
  lemma ToGlobStaysInside(directory: string, pattern: string, glob: Glob)
    requires Solid(pattern) && IsDirectory(directory) && Compile(pattern) == Ok(glob)
    requires AllCompile(PathParts(directory))
    ensures Compile(ToGlob(directory, pattern)).Ok?
    ensures var moved := Compile(ToGlob(directory, pattern)).value;
      StaysInside(PathParts(directory), moved, HasName(glob.segments)) <==>
        Hopeless(moved.segments) || MatchNoOther(PathParts(directory))
  {
    hide Compile, ToGlob, AllCompile, MatchNoOther, Hopeless, StaysInside, Inner;
    TranslationIs(directory, pattern, glob);
    InnerFacts(pattern, glob);
    StaysInsideIff(directory, InnerGlob(pattern, glob), Compile(ToGlob(directory, pattern)).value);
  }

  /** So in a directory without glob metacharacters both hold of every portable pattern. */
  lemma PlainDirectoryIsSafe(directory: string, pattern: string, glob: Glob)
    requires Solid(pattern) && PlainDirectory(directory) && Compile(pattern) == Ok(glob)
    ensures Compile(ToGlob(directory, pattern)).Ok?
    ensures var moved := Compile(ToGlob(directory, pattern)).value;
      && (SameInside(directory, glob, moved) <==> Portable(pattern, glob))
      && StaysInside(PathParts(directory), moved, HasName(glob.segments))
  {
    hide Compile, ToGlob, Portable, Hopeless, StaysInside, SameInside, PathParts, MatchNoOther, Reads;
    PlainSlashed(directory);
    PlainNamesMatch(PathParts(directory));
    ToGlobKeepsMeaning(directory, pattern, glob);
    ToGlobStaysInside(directory, pattern, glob);
  }

  lemma PlainNamesMatch(names: seq<string>)
    requires AllPlain(names)
    ensures Reads(names, names) && MatchNoOther(names)
  {
    forall i, name: string | 0 <= i < |names| ensures NameMatches(names[i], name) <==> name == names[i] {
      PlainNameMatches(names[i], name);
    }
    hide NameMatches;
  }

  lemma PlainNameMatches(name: string, text: string)
    requires Plain(name)
    ensures NameMatches(name, text) <==> text == name
  {
    PlainSegment(name);
    LiteralsMatch(name, text);
  }

  // ---------------------------------------------------------- patterns at the root

  lemma RootDisagreeing(pattern: string, glob: Glob)
    requires Solid(pattern) && Compile(pattern) == Ok(glob) && RawAnchored(pattern) && !AnchorsAgree(pattern)
    ensures Own(pattern) != [] && Own(pattern)[0].Pattern? && glob.segments == Deep(Own(pattern))
    ensures Compile(ToGlob("", pattern)).Ok?
    ensures var moved := Compile(ToGlob("", pattern)).value;
      moved.segments == Own(pattern) && moved.directoryOnly == glob.directoryOnly
  {
    hide Compile, CompileParts, PathParts, Slashed, RawAnchored, CompiledAnchored, EndsWithSlash;
    var parts := PathParts(Slashed(pattern));
    CompiledField(pattern, glob);
    CompileAfterAny(parts);
    FirstSegment(parts);
    RootSegments(pattern, glob);
  }

  /** In the file at the root a pattern keeps its meaning, unless it is anchored by the slashes of the text
      but not by those the compiler sees, and the depth makes a difference to it. */
  lemma RootKeepsMeaning(pattern: string, glob: Glob)
    requires Solid(pattern) && Compile(pattern) == Ok(glob)
    ensures Compile(ToGlob("", pattern)).Ok?
    ensures var moved := Compile(ToGlob("", pattern)).value;
      (forall path :: PathParts(path) != [] ==> (Covers(moved, path) <==> Covers(glob, path))) <==>
        !RawAnchored(pattern) || AnchorsAgree(pattern) || OpenHead(Own(pattern)) || Hopeless(Own(pattern))
  {
    hide Compile, CompileParts, ToGlob, RawAnchored, AnchorsAgree, Solid, Own, PathParts;
    hide SameCover, OpenHead, Hopeless, Covers, CoversParts;
    RootPatternKept(pattern, glob);
    var moved := Compile(ToGlob("", pattern)).value;
    SamePathsIff(moved, glob);
    if RawAnchored(pattern) && !AnchorsAgree(pattern) {
      RootDisagreeing(pattern, glob);
      SameCoverIff(moved, glob);
    } else {
      SameSegments(moved, glob);
    }
  }

  lemma SameSegments(a: Glob, b: Glob)
    requires a.segments == b.segments && a.directoryOnly == b.directoryOnly
    ensures SameCover(a, b)
  {
  }

  // ------------------------------------------------------------ patterns with a backslash

  /** A pattern that only the compiler takes for anchored matches at any depth once it is moved. */
  lemma BackslashAtAnyDepth(directory: string, pattern: string, glob: Glob, inside: string)
    requires Solid(pattern) && IsDirectory(directory) && Compile(pattern) == Ok(glob)
    requires !AnchorsAgree(pattern) && !RawAnchored(pattern) && AllCompile(PathParts(directory))
    ensures Compile(ToGlob(directory, pattern)).Ok?
    ensures Covers(Compile(ToGlob(directory, pattern)).value, directory + "/" + inside) <==>
      && Reads(PathParts(directory), PathParts(directory))
      && exists k :: 0 <= k < |PathParts(inside)| && CoversParts(glob, PathParts(inside)[k..])
  {
    hide Compile, CompileParts, ToGlob, AnchorsAgree, Own, Inner, PathParts, HasName, CoversParts, Reads, AllCompile;
    TranslationIs(directory, pattern, glob);
    Disagreeing(pattern, glob);
    NamedBoth(Own(pattern));
    var deeper := InnerGlob(pattern, glob);
    MovedInside(directory, deeper, Compile(ToGlob(directory, pattern)).value, inside);
    DeeperIff(glob, deeper, PathParts(inside));
  }

  const BACKSLASHED := "a\\b"

  lemma BackslashedText()
    ensures Slashed(BACKSLASHED) == "a/b" && Solid(BACKSLASHED)
    ensures CompiledAnchored(BACKSLASHED) && !RawAnchored(BACKSLASHED)
    ensures PathParts("a/b") == ["a", "b"]
  {
    assert Slashed(BACKSLASHED) == "a/b" == "a" + "/" + "b";
    assert PopSlashes("a/b") == "a/b" && TrimStartOf("a/b", '/') == "a/b";
    assert TrimEndOf(BACKSLASHED, '/') == BACKSLASHED;
    SinglePart("a");
    SinglePart("b");
    PathConcat("a", "b");
  }

  lemma BackslashedCompiles()
    ensures AllPlain(["a", "b"]) && AllCompile(["a", "b"])
    ensures Compile(BACKSLASHED) == Ok(Glob(BACKSLASHED, DirectorySegments(["a", "b"]), false))
  {
    BackslashedText();
    CompileByParts(BACKSLASHED);
    assert PopSlashes("a/b") == "a/b" && TrimStartOf("a/b", '/') == "a/b";
    assert Plain("a") && Plain("b");
    PlainCompiles(["a", "b"]);
    CompileDirectory([], ["a", "b"], []);
    assert ["a", "b"] + [] == ["a", "b"] && [] + DirectorySegments(["a", "b"]) == DirectorySegments(["a", "b"]);
  }

  lemma NamesMatch(names: seq<string>, parts: seq<string>)
    requires AllPlain(names)
    ensures AllCompile(names) && (SegmentsMatch(DirectorySegments(names), parts) <==> names == parts)
  {
    PlainCompiles(names);
    PrefixMatch(names, [], parts);
    assert DirectorySegments(names) + [] == DirectorySegments(names);
    forall i, name: string | 0 <= i < |names| ensures NameMatches(names[i], name) <==> name == names[i] {
      PlainNameMatches(names[i], name);
    }
    hide NameMatches;
  }

  /** One such pattern: `a\b` is relative to its directory, but not once it is moved. */
  lemma BackslashChangesMeaning()
    ensures Solid(BACKSLASHED) && !AnchorsAgree(BACKSLASHED)
    ensures Compile(BACKSLASHED).Ok? && !Covers(Compile(BACKSLASHED).value, "x" + "/" + "a/b")
    ensures Compile(ToGlob("d", BACKSLASHED)).Ok?
    ensures Covers(Compile(ToGlob("d", BACKSLASHED)).value, "d" + "/" + ("x" + "/" + "a/b"))
  {
    hide Compile, ToGlob, Solid, RawAnchored, CompiledAnchored, PathParts, SegmentsMatch;
    BackslashedText();
    BackslashedCompiles();
    var glob := Compile(BACKSLASHED).value;
    SinglePart("x");
    SinglePart("d");
    PathConcat("x", "a/b");
    var parts := ["x"] + ["a", "b"];
    forall k | 1 <= k <= 3 ensures !SegmentsMatch(glob.segments, parts[..k]) {
      NamesMatch(["a", "b"], parts[..k]);
      assert parts[..k][0] == "x" && "x"[0] != "a"[0];
    }
    NamesMatch(["a", "b"], parts[1..][..2]);
    assert parts[1..][..2] == ["a", "b"];
    assert PlainDirectory("d");
    PlainSlashed("d");
    PlainNamesMatch(["d"]);
    BackslashAtAnyDepth("d", BACKSLASHED, glob, "x" + "/" + "a/b");
  }

  // ----------------------------------------------- directories with pattern characters

  const BRACKETED := "[id]"

  lemma BracketedTokens()
    ensures SegmentTokens(BRACKETED) == Ok([Class(false, [('i', 'i'), ('d', 'd')])])
  {
    assert RangesFrom(BRACKETED, 3, false) == Ok(Ranges([], 4));
    assert RangesFrom(BRACKETED, 2, false) == Ok(Ranges([('d', 'd')] + [], 4));
    assert RangesFrom(BRACKETED, 1, true) == Ok(Ranges([('i', 'i')] + ([('d', 'd')] + []), 4));
    var token := Class(false, [('i', 'i'), ('d', 'd')]);
    assert [('i', 'i')] + ([('d', 'd')] + []) == [('i', 'i'), ('d', 'd')];
    assert ClassAt(BRACKETED, 0) == Ok((token, 4));
    assert TokensFrom(BRACKETED, 4) == Ok([]);
    assert TokensFrom(BRACKETED, 0) == Ok([token] + []);
    assert [token] + [] == [token];
    CollapseNothing([token]);
  }

  lemma OneCharacter(token: Token, text: string)
    requires !token.AnySequence?
    ensures Matches([token], text, false) <==> |text| == 1 && Accepts(token, text[0], false)
  {
    NaiveIsMeaning([token], text, false);
  }

  lemma BracketedName()
    ensures IsDirectory(BRACKETED) && PathParts(BRACKETED) == [BRACKETED] && AllCompile([BRACKETED])
    ensures !NameMatches(BRACKETED, BRACKETED) && NameMatches(BRACKETED, "i")
  {
    SinglePart(BRACKETED);
    BracketedTokens();
    var token := Class(false, [('i', 'i'), ('d', 'd')]);
    OneCharacter(token, BRACKETED);
    OneCharacter(token, "i");
    assert token.ranges[0].0 <= 'i' <= token.ranges[0].1;
    assert BRACKETED != "**" by {
      assert BRACKETED[0] != "**"[0];
    }
  }

  /** One such directory: no pattern of a `.gitattributes` file in `[id]` means anything for its files, but what
      names something matches files of `i` instead. */
  lemma BracketsMatchElsewhere(pattern: string, glob: Glob, inside: string)
    requires Solid(pattern) && Compile(pattern) == Ok(glob) && AnchorsAgree(pattern) && HasName(glob.segments)
    ensures Compile(ToGlob(BRACKETED, pattern)).Ok?
    ensures var moved := Compile(ToGlob(BRACKETED, pattern)).value;
      !Covers(moved, BRACKETED + "/" + inside) && (Covers(moved, "i" + "/" + inside) <==> Covers(glob, inside))
  {
    hide Compile, ToGlob, PathParts, HasName, CoversParts, AnchorsAgree, Inner, NameMatches, AllCompile;
    BracketedName();
    TranslationIs(BRACKETED, pattern, glob);
    AnchorsDecide(pattern, glob);
    var moved := Compile(ToGlob(BRACKETED, pattern)).value;
    MovedInside(BRACKETED, glob, moved, inside);
    SinglePart("i");
    PathConcat("i", inside);
    var parts := ["i"] + PathParts(inside);
    assert parts[1..] == PathParts(inside);
    MovedMeans(BRACKETED, glob, moved, parts);
    NotEmptyIfNamed(glob, PathParts(inside));
  }

  /** So `x` in `[id]` matches `i/x`, and not `[id]/x`. */
  lemma BracketsChangeMeaning()
    ensures Compile("x").Ok? && Covers(Compile("x").value, "x")
    ensures Compile(ToGlob(BRACKETED, "x")).Ok?
    ensures var moved := Compile(ToGlob(BRACKETED, "x")).value;
      !Covers(moved, BRACKETED + "/" + "x") && Covers(moved, "i" + "/" + "x")
  {
    hide Compile, ToGlob, PathParts, SegmentTokens, Matches;
    PlainNameCompiles("x");
    NoBackslashAgrees("x");
    BracketsMatchElsewhere("x", Compile("x").value, "x");
  }

  lemma PlainNameCompiles(name: string)
    requires Plain(name) && Solid(name) && '/' !in name
    ensures Compile(name).Ok? && HasName(Compile(name).value.segments) && Covers(Compile(name).value, name)
  {
    hide Compile, PathParts, SegmentTokens, Matches, Trim;
    forall i | 0 <= i < |name| ensures Slashed(name)[i] == name[i] {
      NotMeta(name[i]);
    }
    assert Slashed(name) == name;
    FieldTrims(name);
    SinglePart(name);
    PlainSegment(name);
    PlainNameMatches(name, name);
    var glob, restricted := NameAtAnyDepth(name, Literals(name), name);
    assert Matches(Literals(name), PathParts(name)[0], false) by {
      LiteralsMatch(name, name);
    }
    assert glob.segments[1].Pattern?;
  }

  // ------------------------------------------------------------- `**` for directories

  const ANY_ONLY := "**/"

  /** A pattern of nothing but `**` that is for directories: moved, it also matches the files of the directory
      itself. */
  lemma AnyOnlyChangesMeaning()
    ensures Compile(ANY_ONLY) == Ok(Glob(ANY_ONLY, [AnyDirectories], true))
    ensures !Covers(Compile(ANY_ONLY).value, "x")
    ensures Compile(ToGlob("d", ANY_ONLY)).Ok?
    ensures Covers(Compile(ToGlob("d", ANY_ONLY)).value, "d" + "/" + "x")
  {
    hide Compile, ToGlob, PathParts, AnchorsAgree, Inner, Trim, SegmentsMatch;
    AnyCompiles("**");
    assert Slashed("**") == "**";
    TrimSolid("**");
    TrailingSlash("**", Ok(Glob("**", [AnyDirectories], false)));
    assert "**" + "/" == ANY_ONLY;
    var glob := Compile(ANY_ONLY).value;
    NoBackslashAgrees(ANY_ONLY);
    SinglePart("x");
    AnyOnlyMoved("d", ANY_ONLY, glob);
  }

  lemma AnyOnlyMoved(directory: string, pattern: string, glob: Glob)
    requires Solid(pattern) && directory == "d" && Compile(pattern) == Ok(glob) && AnchorsAgree(pattern)
    requires glob.segments == [AnyDirectories]
    ensures Compile(ToGlob(directory, pattern)).Ok?
    ensures Covers(Compile(ToGlob(directory, pattern)).value, directory + "/" + "x")
  {
    hide Compile, ToGlob, PathParts, AnchorsAgree, Inner;
    SinglePart(directory);
    SinglePart("x");
    assert PlainDirectory(directory);
    PlainSlashed(directory);
    TranslationIs(directory, pattern, glob);
    AnchorsDecide(pattern, glob);
    PlainNamesMatch([directory]);
    InsideMeans(directory, glob, Compile(ToGlob(directory, pattern)).value, "x");
    AnyMatchesAll(glob.segments, ["x"][..0]);
  }
}
