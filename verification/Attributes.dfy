/** Patterns of `.gitattributes` files, moved to the repository root. */
module Attributes {
  import opened Wrappers
  import opened Text
  import opened GlobTokens
  import opened GlobPatterns
  import opened GlobTexts

  /** A slash at the start or inside, not counting trailing ones. */
  predicate RawAnchored(pattern: string) {
    StartsWithSlash(pattern) || '/' in TrimEndOf(pattern, '/')
  }

  function ToGlob(directory: string, pattern: string): string {
    var anchored := RawAnchored(pattern);
    var relative := TrimStartOf(pattern, '/');
    if directory == "" then (if anchored then "/" + relative else relative)
    else if anchored then "/" + directory + "/" + relative
    else "/" + directory + "/**/" + relative
  }

  /** A directory path: some name in it, no backslash, and no name that stands for any directories. */
  predicate IsDirectory(directory: string) {
    PathParts(directory) != [] && '\\' !in directory && "**" !in PathParts(directory)
  }

  /** A directory path without glob metacharacters. */
  predicate PlainDirectory(directory: string) {
    && PathParts(directory) != []
    && forall i :: 0 <= i < |directory| ==> directory[i] !in "*?[\\"
  }

  // ----------------------------------------------------- strings through the compiler

  lemma {:induction false} ReplaceTrimStart(s: string)
    ensures PathParts(Replace(TrimStartOf(s, '/'), '\\', '/')) == PathParts(Replace(s, '\\', '/'))
  {
    if s != "" && s[0] == '/' {
      ReplaceTrimStart(s[1..]);
      SlashHead(s);
    }
  }

  lemma SlashHead(s: string)
    requires s != "" && s[0] == '/'
    ensures PathParts(Replace(s, '\\', '/')) == PathParts(Replace(s[1..], '\\', '/'))
  {
    var tail := Replace(s[1..], '\\', '/');
    assert Replace(s, '\\', '/') == ['/'] + tail;
    FirstSeparator(tail, Replace(s, '\\', '/'), '/');
  }

  // ------------------------------------------------------------- the directory prefix

  /** Each of the names compiles as a pattern of its own. */
  predicate AllCompile(names: seq<string>) {
    forall i :: 0 <= i < |names| ==> SegmentTokens(names[i]).Ok?
  }

  /** The names of a directory, read as patterns. */
  function DirectorySegments(names: seq<string>): seq<Segment>
    requires AllCompile(names)
  {
    seq(|names|, i requires 0 <= i < |names| => Pattern(SegmentTokens(names[i]).value))
  }

  function Literals(part: string): seq<Token> {
    seq(|part|, i requires 0 <= i < |part| => Literal(part[i]))
  }

  predicate Plain(part: string) {
    part != "" && forall i :: 0 <= i < |part| ==> part[i] !in "*?[\\"
  }

  lemma NotMeta(c: char)
    requires c !in "*?[\\"
    ensures c != '*' && c != '?' && c != '[' && c != '\\'
  {
    var meta := "*?[\\";
    assert meta[0] == '*' && meta[1] == '?' && meta[2] == '[' && meta[3] == '\\';
  }

  lemma {:induction false} PlainTokensFrom(part: string, index: nat)
    requires Plain(part) && index <= |part|
    ensures TokensFrom(part, index) == Ok(Literals(part)[index..])
    decreases |part| - index
  {
    if index < |part| {
      PlainTokensFrom(part, index + 1);
      NotMeta(part[index]);
      assert TokenOf(part[index]) == Literal(part[index]);
      assert TokensFrom(part, index) == PutFirst([Literal(part[index])], Ok(Literals(part)[index + 1..]));
      assert Literals(part)[index..] == [Literal(part[index])] + Literals(part)[index + 1..];
    } else {
      assert Literals(part)[index..] == [];
    }
  }

  lemma {:induction false} CollapseNothing(tokens: seq<Token>)
    requires forall i :: 0 <= i < |tokens| ==> !tokens[i].AnySequence?
    ensures Collapse(tokens) == tokens
  {
    if tokens != [] {
      CollapseNothing(tokens[..|tokens| - 1]);
    }
  }

  lemma PlainSegment(part: string)
    requires Plain(part)
    ensures SegmentTokens(part) == Ok(Literals(part)) && part != "**"
  {
    PlainTokensFrom(part, 0);
    assert Literals(part)[0..] == Literals(part);
    CollapseNothing(Literals(part));
    NotMeta(part[0]);
  }

  lemma {:induction false} LiteralsFrom(part: string, i: nat, text: string, j: nat)
    requires i <= |part| && j <= |text|
    ensures From(Literals(part), i, text, j, false) <==> part[i..] == text[j..]
    decreases |part| - i
  {
    if i < |part| {
      if j < |text| {
        LiteralsFrom(part, i + 1, text, j + 1);
        assert part[i..] == [part[i]] + part[i + 1..];
        assert text[j..] == [text[j]] + text[j + 1..];
      }
    }
  }

  lemma LiteralsMatch(part: string, text: string)
    ensures Matches(Literals(part), text, false) <==> part == text
  {
    NaiveIsMeaning(Literals(part), text, false);
    LiteralsFrom(part, 0, text, 0);
    assert part[0..] == part && text[0..] == text;
  }

  ghost predicate AllPlain(parts: seq<string>) {
    forall i :: 0 <= i < |parts| ==> Plain(parts[i])
  }

  lemma PlainCompiles(names: seq<string>)
    requires AllPlain(names)
    ensures AllCompile(names) && "**" !in names
  {
    forall i | 0 <= i < |names| ensures SegmentTokens(names[i]).Ok? && names[i] != "**" {
      PlainSegment(names[i]);
    }
  }

  predicate NamesOnly(names: seq<string>) {
    "" !in names && "**" !in names
  }

  /** Names compile to one segment each. */
  lemma {:induction false} CompileDirectory(segments: seq<Segment>, names: seq<string>, parts: seq<string>)
    requires NamesOnly(names)
    ensures if AllCompile(names)
      then CompileParts(segments, names + parts) == CompileParts(segments + DirectorySegments(names), parts)
      else CompileParts(segments, names + parts).Err?
    decreases |names|
  {
    if names == [] {
      assert names + parts == parts && segments + DirectorySegments(names) == segments;
    } else {
      var rest := names[1..];
      assert (names + parts)[0] == names[0] && (names + parts)[1..] == rest + parts;
      AllCompileHead(names);
      if SegmentTokens(names[0]).Ok? {
        var first := [Pattern(SegmentTokens(names[0]).value)];
        CompileDirectory(segments + first, rest, parts);
        if AllCompile(names) {
          assert segments + first + DirectorySegments(rest) == segments + DirectorySegments(names);
        }
      }
    }
  }

  lemma AllCompileHead(names: seq<string>)
    requires names != []
    ensures AllCompile(names) <==> SegmentTokens(names[0]).Ok? && AllCompile(names[1..])
  {
    if SegmentTokens(names[0]).Ok? && AllCompile(names[1..]) {
      forall i | 0 < i < |names| ensures SegmentTokens(names[i]).Ok? {
        assert names[1..][i - 1] == names[i];
      }
    }
  }

  // ----------------------------------------------------------------- the moved pattern

  /** The two notions of an anchored pattern agree, or `**` in front makes no difference. */
  predicate AnchorsAgree(pattern: string) {
    || RawAnchored(pattern) == CompiledAnchored(pattern)
    || (PathParts(Slashed(pattern)) != [] && PathParts(Slashed(pattern))[0] == "**")
  }

  lemma PlainSlashed(directory: string)
    requires PlainDirectory(directory)
    ensures IsDirectory(directory) && AllPlain(PathParts(directory)) && AllCompile(PathParts(directory))
  {
    forall i | 0 <= i < |directory| ensures directory[i] != '\\' {
      NotMeta(directory[i]);
    }
    PlainParts(directory);
    PlainCompiles(PathParts(directory));
  }

  lemma {:induction false} PlainParts(s: string)
    requires forall i :: 0 <= i < |s| ==> s[i] !in "*?[\\"
    ensures AllPlain(PathParts(s))
  {
    SplitPlain(s);
    KeepPlain(Split(s, '/'));
  }

  ghost predicate NoMeta(parts: seq<string>) {
    forall i, j :: 0 <= i < |parts| && 0 <= j < |parts[i]| ==> parts[i][j] !in "*?[\\"
  }

  lemma {:induction false} SplitPlain(s: string)
    requires forall i :: 0 <= i < |s| ==> s[i] !in "*?[\\"
    ensures NoMeta(Split(s, '/'))
  {
    if s != "" {
      SplitPlain(s[1..]);
    }
  }

  lemma {:induction false} KeepPlain(parts: seq<string>)
    requires NoMeta(parts)
    ensures AllPlain(NonEmpty(parts))
  {
    if parts != [] {
      KeepPlain(parts[1..]);
    }
  }

  lemma LastOfSuffix(s: string, r: string)
    requires |r| <= |s| && r == s[|s| - |r|..] && r != ""
    ensures s != "" && r[|r| - 1] == s[|s| - 1]
  {
  }

  lemma SlashedJoin(a: string, b: string)
    ensures PathParts(Slashed(a + "/" + b)) == PathParts(Slashed(a)) + PathParts(Slashed(b))
  {
    ReplaceConcat(a + "/", b, '\\', '/');
    ReplaceConcat(a, "/", '\\', '/');
    assert Slashed("/") == "/";
    PathConcat(Slashed(a), Slashed(b));
  }

  lemma RootedDirectory(directory: string)
    requires IsDirectory(directory)
    ensures PathParts(Slashed("/" + directory)) == PathParts(directory)
  {
    assert "" + "/" + directory == "/" + directory;
    SlashedJoin("", directory);
    assert Slashed(directory) == directory;
    assert Slashed("") == "";
    NonEmptySingle("");
    assert [] + PathParts(directory) == PathParts(directory);
  }

  lemma AnyPart()
    ensures PathParts(Slashed("**")) == ["**"]
  {
    assert Slashed("**") == "**";
    SinglePart("**");
  }

  lemma PartsUnderDirectory(directory: string, relative: string)
    requires IsDirectory(directory)
    ensures PathParts(Slashed("/" + directory + "/" + relative)) == PathParts(directory) + PathParts(Slashed(relative))
  {
    RootedDirectory(directory);
    SlashedJoin("/" + directory, relative);
  }

  lemma PartsBelowDirectory(directory: string, relative: string)
    requires IsDirectory(directory)
    ensures PathParts(Slashed("/" + directory + "/**/" + relative))
         == PathParts(directory) + (["**"] + PathParts(Slashed(relative)))
  {
    AnyPart();
    SlashedJoin("**", relative);
    PartsUnderDirectory(directory, "**/" + relative);
    assert "**" + "/" + relative == "**/" + relative;
    assert "/" + directory + "/" + ("**/" + relative) == "/" + directory + "/**/" + relative;
  }

  /** The parts of the moved pattern. */
  lemma MovedParts(directory: string, pattern: string)
    requires IsDirectory(directory)
    ensures PathParts(Slashed(ToGlob(directory, pattern))) == PathParts(directory)
              + ((if RawAnchored(pattern) then [] else ["**"]) + PathParts(Slashed(pattern)))
  {
    NonEmptySingle("");
    ReplaceTrimStart(pattern);
    if RawAnchored(pattern) {
      PartsUnderDirectory(directory, TrimStartOf(pattern, '/'));
      assert [] + PathParts(Slashed(pattern)) == PathParts(Slashed(pattern));
    } else {
      PartsBelowDirectory(directory, TrimStartOf(pattern, '/'));
    }
  }

  lemma MovedEnds(directory: string, pattern: string)
    requires Solid(pattern) && directory != "" && TrimStartOf(pattern, '/') != ""
    ensures var moved := ToGlob(directory, pattern);
      |moved| > 1 && moved[0] == '/' && moved[|moved| - 1] == pattern[|pattern| - 1]
  {
    var relative := TrimStartOf(pattern, '/');
    LastOfSuffix(pattern, relative);
    hide TrimStartOf, RawAnchored;
    var front := if RawAnchored(pattern) then "/" + directory + "/" else "/" + directory + "/**/";
    assert ToGlob(directory, pattern) == front + relative;
  }

  lemma NothingLeft(pattern: string)
    requires PathParts(Slashed(pattern)) != []
    ensures TrimStartOf(pattern, '/') != ""
  {
    ReplaceTrimStart(pattern);
    assert Slashed("") == "";
    NonEmptySingle("");
  }

  /** A pattern that is a slash followed by nothing does not compile. */
  lemma SlashCount(pattern: string)
    requires PathParts(Slashed(pattern)) != []
    ensures |pattern| == 1 ==> |Slashed(pattern)| > 0 && Slashed(pattern)[0] != '/'
  {
    if |pattern| == 1 && Slashed(pattern)[0] == '/' {
      assert Slashed(pattern) == ['/'] + "";
      FirstSeparator("", Slashed(pattern), '/');
      NonEmptySingle("");
    }
  }

  lemma LastDecides(moved: string, pattern: string)
    requires |moved| > 1 && pattern != "" && moved[|moved| - 1] == pattern[|pattern| - 1]
    requires |pattern| == 1 ==> |Slashed(pattern)| > 0 && Slashed(pattern)[0] != '/'
    ensures EndsWithSlash(Slashed(moved)) == EndsWithSlash(Slashed(pattern))
  {
  }

  lemma SameEnding(directory: string, pattern: string)
    requires Solid(pattern) && directory != "" && PathParts(Slashed(pattern)) != []
    ensures EndsWithSlash(Slashed(ToGlob(directory, pattern))) == EndsWithSlash(Slashed(pattern))
  {
    hide Slashed, EndsWithSlash, PathParts, ToGlob, TrimStartOf;
    NothingLeft(pattern);
    MovedEnds(directory, pattern);
    SlashCount(pattern);
    LastDecides(ToGlob(directory, pattern), pattern);
  }

  /** What a moved pattern compiles to behind the names of the directory: the pattern, with `**` in front if the
      text does not read as anchored. */
  function Inner(pattern: string): Compiled<seq<Segment>> {
    CompileParts(if RawAnchored(pattern) then [] else [AnyDirectories], PathParts(Slashed(pattern)))
  }

  /** The segments of a moved pattern. */
  function Moved(directory: string, pattern: string): Compiled<seq<Segment>>
    requires AllCompile(PathParts(directory))
  {
    Behind(DirectorySegments(PathParts(directory)), Inner(pattern))
  }

  lemma CompileUnder(names: seq<string>, parts: seq<string>)
    requires NamesOnly(names)
    ensures if AllCompile(names)
      then CompileParts([], names + parts) == Behind(DirectorySegments(names), CompileParts([], parts))
      else CompileParts([], names + parts).Err?
  {
    CompileDirectory([], names, parts);
    if AllCompile(names) {
      var before := DirectorySegments(names);
      assert [] + before == before && before + [] == before;
      CompileBehind(before, [], parts);
    }
  }

  lemma CompileBelow(names: seq<string>, parts: seq<string>)
    requires NamesOnly(names)
    ensures if AllCompile(names)
      then CompileParts([], names + (["**"] + parts))
        == Behind(DirectorySegments(names), CompileParts([AnyDirectories], parts))
      else CompileParts([], names + (["**"] + parts)).Err?
  {
    CompileUnder(names, ["**"] + parts);
    assert (["**"] + parts)[1..] == parts;
    assert PushAnyDirectories([]) == [AnyDirectories];
  }

  lemma MovedCompiles(directory: string, pattern: string)
    requires IsDirectory(directory)
    ensures var r := CompileParts([], PathParts(Slashed(ToGlob(directory, pattern))));
      if AllCompile(PathParts(directory)) then r == Moved(directory, pattern) else r.Err?
  {
    var names, parts := PathParts(directory), PathParts(Slashed(pattern));
    MovedParts(directory, pattern);
    hide PathParts, ToGlob, CompileParts, Slashed;
    if RawAnchored(pattern) {
      assert [] + parts == parts;
      CompileUnder(names, parts);
    } else {
      CompileBelow(names, parts);
    }
  }

  lemma CancelPrefix(before: seq<Segment>, a: seq<Segment>, b: seq<Segment>)
    ensures before + a == before + b <==> a == b
  {
    if before + a == before + b {
      assert a == (before + a)[|before|..];
      assert b == (before + b)[|before|..];
    }
  }

  /** The moved pattern compiles exactly if every name of the directory does, and then to the names and what its
      parts compile to. */
  lemma MovedSegments(directory: string, pattern: string, glob: Glob)
    requires Solid(pattern) && IsDirectory(directory) && Compile(pattern) == Ok(glob)
    ensures Compile(ToGlob(directory, pattern)).Ok? <==> AllCompile(PathParts(directory))
    ensures Inner(pattern).Ok?
    ensures AllCompile(PathParts(directory)) ==>
      var moved := Compile(ToGlob(directory, pattern)).value;
      && moved.directoryOnly == glob.directoryOnly
      && moved.segments == DirectorySegments(PathParts(directory)) + Inner(pattern).value
  {
    hide Compile, CompileParts, PathParts, Slashed, ToGlob, RawAnchored, CompiledAnchored, AnchorsAgree, EndsWithSlash;
    CompiledField(pattern, glob);
    MovedCompiles(directory, pattern);
    DirectoryNotEmpty(directory);
    SameEnding(directory, pattern);
    AnchorsDecide(pattern, glob);
    MovedIsRooted(directory, pattern);
  }

  lemma DirectoryNotEmpty(directory: string)
    requires IsDirectory(directory)
    ensures directory != ""
  {
    NonEmptySingle("");
  }

  /** Moving a pattern puts the names of the directory in front of its segments, and does nothing
      else exactly when the two notions of an anchored pattern agree. */
  lemma SegmentsMoved(directory: string, pattern: string, glob: Glob)
    requires Solid(pattern) && IsDirectory(directory) && Compile(pattern) == Ok(glob)
    ensures var moved := Compile(ToGlob(directory, pattern)); var names := PathParts(directory);
      && (moved.Ok? <==> AllCompile(names))
      && (moved.Ok? ==> moved.value.directoryOnly == glob.directoryOnly)
      && (moved.Ok? ==>
            (moved.value.segments == DirectorySegments(names) + glob.segments <==> AnchorsAgree(pattern)))
  {
    hide Compile, CompileParts, PathParts, Slashed, ToGlob, RawAnchored, CompiledAnchored, AnchorsAgree, EndsWithSlash;
    MovedSegments(directory, pattern, glob);
    AnchorsDecide(pattern, glob);
    if AllCompile(PathParts(directory)) {
      CancelPrefix(DirectorySegments(PathParts(directory)), Inner(pattern).value, glob.segments);
    }
  }

  lemma MovedIsRooted(directory: string, pattern: string)
    requires Solid(pattern) && IsDirectory(directory) && PathParts(Slashed(pattern)) != []
    ensures var moved := ToGlob(directory, pattern);
      Compile(moved) ==
        match CompileParts([], PathParts(Slashed(moved)))
        case Ok(segments) => Ok(Glob(moved, segments, EndsWithSlash(Slashed(moved))))
        case Err(e) => Err(e)
  {
    NothingLeft(pattern);
    MovedEnds(directory, pattern);
    MovedParts(directory, pattern);
    CompileRooted(ToGlob(directory, pattern), PathParts(Slashed(ToGlob(directory, pattern))));
  }

  /** With and without `**` in front, the parts compile to the same segments only if they start with
      `**` themselves. */
  lemma AnchorsDecide(pattern: string, glob: Glob)
    requires Solid(pattern) && Compile(pattern) == Ok(glob)
    ensures Inner(pattern).Ok? && (Inner(pattern).value == glob.segments <==> AnchorsAgree(pattern))
  {
    hide Compile, PathParts, Slashed, RawAnchored, CompiledAnchored, EndsWithSlash, CompileParts;
    var parts := PathParts(Slashed(pattern));
    CompiledField(pattern, glob);
    CompileAfterAny(parts);
    FirstSegment(parts);
  }

  // ---------------------------------------------------------- patterns at the root

  lemma RootedText(pattern: string)
    requires Solid(pattern) && TrimStartOf(pattern, '/') != ""
    ensures var moved := "/" + TrimStartOf(pattern, '/');
      && |moved| > 1 && moved[0] == '/' && moved[|moved| - 1] == pattern[|pattern| - 1]
      && PathParts(Slashed(moved)) == PathParts(Slashed(pattern))
  {
    var relative := TrimStartOf(pattern, '/');
    LastOfSuffix(pattern, relative);
    ReplaceTrimStart(pattern);
    SlashHead("/" + relative);
    assert ("/" + relative)[1..] == relative;
  }

  /** A pattern of the file at the root that starts with a slash or has one inside. */
  lemma RootSegments(pattern: string, glob: Glob)
    requires Solid(pattern) && Compile(pattern) == Ok(glob) && RawAnchored(pattern)
    ensures Compile(ToGlob("", pattern)).Ok?
    ensures var moved := Compile(ToGlob("", pattern)).value;
      moved.directoryOnly == glob.directoryOnly && CompileParts([], PathParts(Slashed(pattern))) == Ok(moved.segments)
  {
    hide Compile, PathParts, Slashed, CompileParts, RawAnchored, CompiledAnchored, AnchorsAgree, EndsWithSlash;
    hide TrimStartOf;
    CompiledField(pattern, glob);
    NothingLeft(pattern);
    RootedText(pattern);
    SlashCount(pattern);
    AnchorsDecide(pattern, glob);
    CompileRooted("/" + TrimStartOf(pattern, '/'), PathParts(Slashed(pattern)));
    LastDecides("/" + TrimStartOf(pattern, '/'), pattern);
  }

  /** In the file at the root a pattern keeps its segments, unless it is anchored by the slashes of the
      text but not by those the compiler sees. */
  lemma RootPatternKept(pattern: string, glob: Glob)
    requires Solid(pattern) && Compile(pattern) == Ok(glob)
    ensures var moved := Compile(ToGlob("", pattern));
      && moved.Ok? && moved.value.directoryOnly == glob.directoryOnly
      && (moved.value.segments == glob.segments <==> !RawAnchored(pattern) || AnchorsAgree(pattern))
  {
    if RawAnchored(pattern) {
      hide PathParts, Slashed, CompileParts, Compile, ToGlob, CompiledAnchored, AnchorsAgree;
      RootSegments(pattern, glob);
      AnchorsDecide(pattern, glob);
    } else {
      assert TrimStartOf(pattern, '/') == pattern;
    }
  }
}
