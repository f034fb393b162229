/** Compiling pattern texts: what their slashes do. */
module GlobTexts {
  import opened Wrappers
  import opened Text
  import opened GlobTokens
  import opened GlobPatterns

  function Slashed(pattern: string): string {
    Replace(pattern, '\\', '/')
  }

  predicate StartsSlashed(text: string) {
    StartsWithSlash(Slashed(text))
  }

  predicate EndsSlashed(text: string) {
    Slashed(text) != "" && Slashed(text)[|Slashed(text)| - 1] == '/'
  }

  /** A text without whitespace around it. */
  predicate Trimmed(text: string) {
    text != "" && Trim(text) == text
  }

  // ------------------------------------------------------------- compiling in parts

  lemma {:induction false} PopSlashesParts(s: string)
    ensures PathParts(PopSlashes(s)) == PathParts(s)
  {
    if |s| > 1 && s[|s| - 1] == '/' {
      PopSlashesParts(s[..|s| - 1]);
      LastSeparator(s[..|s| - 1], s, '/');
    }
  }

  lemma {:induction false} SkipEmpty(segments: seq<Segment>, parts: seq<string>)
    ensures CompileParts(segments, parts) == CompileParts(segments, NonEmpty(parts))
    decreases |parts|
  {
    if parts != [] {
      if parts[0] == "" {
        SkipEmpty(segments, parts[1..]);
        assert [] + NonEmpty(parts[1..]) == NonEmpty(parts[1..]);
      } else {
        var r := NonEmpty(parts);
        assert r[0] == parts[0] && r[1..] == NonEmpty(parts[1..]);
        if parts[0] == "**" {
          SkipEmpty(PushAnyDirectories(segments), parts[1..]);
        } else if SegmentTokens(parts[0]).Ok? {
          SkipEmpty(segments + [Pattern(SegmentTokens(parts[0]).value)], parts[1..]);
        }
      }
    }
  }

  /** Compilation in terms of the non-empty parts. */
  lemma CompileByParts(pattern: string)
    requires Solid(pattern) || Trimmed(pattern)
    ensures var slashed := Replace(pattern, '\\', '/');
      var parts := PathParts(slashed);
      var popped := PopSlashes(slashed);
      var first := if StartsWithSlash(popped) || '/' in TrimStartOf(popped, '/') then [] else [AnyDirectories];
      Compile(pattern) ==
        if TrimStartOf(PopSlashes(slashed), '/') == "" then Err(MatchesNothing)
        else match CompileParts(first, parts)
          case Ok(segments) => Ok(Glob(pattern, segments, EndsWithSlash(slashed)))
          case Err(e) => Err(e)
  {
    hide Solid, Trim, Replace, PopSlashes, TrimStartOf;
    hide Split, NonEmpty, CompileParts, CompileBody, EndsWithSlash, StartsWithSlash;
    FieldTrims(pattern);
    var slashed := Replace(pattern, '\\', '/');
    var popped := PopSlashes(slashed);
    PopSlashesParts(slashed);
    TrimStartParts(popped, '/');
    BodyByParts(pattern, EndsWithSlash(slashed), StartsWithSlash(popped), TrimStartOf(popped, '/'));
  }

  lemma FieldTrims(pattern: string)
    requires Solid(pattern) || Trimmed(pattern)
    ensures Trimmed(pattern)
  {
    if Solid(pattern) {
      TrimSolid(pattern);
    }
  }

  lemma BodyByParts(source: string, directoryOnly: bool, anchored: bool, body: string)
    ensures CompileBody(source, directoryOnly, anchored, body) ==
      if body == "" then Err(MatchesNothing)
      else match CompileParts(if anchored || '/' in body then [] else [AnyDirectories], PathParts(body))
        case Ok(segments) => Ok(Glob(source, segments, directoryOnly))
        case Err(e) => Err(e)
  {
    hide CompileParts, Split, NonEmpty;
    SkipEmpty(if anchored || '/' in body then [] else [AnyDirectories], Split(body, '/'));
  }

  function Behind(before: seq<Segment>, r: Compiled<seq<Segment>>): Compiled<seq<Segment>> {
    match r
    case Ok(segments) => Ok(before + segments)
    case Err(e) => Err(e)
  }

  /** What comes before a compilation stays before it, unless it ends in `**`. */
  lemma {:induction false} CompileBehind(before: seq<Segment>, segments: seq<Segment>, parts: seq<string>)
    requires segments != [] || before == [] || !before[|before| - 1].AnyDirectories?
    ensures CompileParts(before + segments, parts) == Behind(before, CompileParts(segments, parts))
    decreases |parts|
  {
    if parts != [] {
      if parts[0] == "" {
        CompileBehind(before, segments, parts[1..]);
      } else if parts[0] == "**" {
        CompileBehind(before, PushAnyDirectories(segments), parts[1..]);
        assert PushAnyDirectories(before + segments) == before + PushAnyDirectories(segments);
      } else if SegmentTokens(parts[0]).Ok? {
        var next := [Pattern(SegmentTokens(parts[0]).value)];
        CompileBehind(before, segments + next, parts[1..]);
        assert before + segments + next == before + (segments + next);
      }
    }
  }

  lemma CompileKeeps(segments: seq<Segment>, parts: seq<string>)
    requires segments != []
    ensures var r := CompileParts(segments, parts); r.Ok? ==> segments <= r.value
    decreases |parts|
  {
    if parts != [] {
      if parts[0] == "" {
        CompileKeeps(segments, parts[1..]);
      } else if parts[0] == "**" {
        CompileKeeps(PushAnyDirectories(segments), parts[1..]);
      } else if SegmentTokens(parts[0]).Ok? {
        CompileKeeps(segments + [Pattern(SegmentTokens(parts[0]).value)], parts[1..]);
      }
    }
  }

  /** Compiling after `**`: nothing is added if the pattern starts with `**` itself. */
  lemma CompileAfterAny(parts: seq<string>)
    requires parts != [] && parts[0] != ""
    ensures var r := CompileParts([], parts); var after := CompileParts([AnyDirectories], parts);
      if r.Err? then after == r
      else r.value != [] && after == Ok(if r.value[0].AnyDirectories? then r.value else [AnyDirectories] + r.value)
  {
    if parts[0] == "**" {
      assert PushAnyDirectories([]) == [AnyDirectories] == PushAnyDirectories([AnyDirectories]);
      CompileKeeps([AnyDirectories], parts[1..]);
    } else if SegmentTokens(parts[0]).Ok? {
      var first := [Pattern(SegmentTokens(parts[0]).value)];
      assert [] + first == first;
      CompileKeeps(first, parts[1..]);
      CompileBehind([AnyDirectories], first, parts[1..]);
    }
  }

  lemma FirstSegment(parts: seq<string>)
    requires parts != [] && parts[0] != ""
    ensures var r := CompileParts([], parts); r.Ok? ==>
      r.value != [] && (r.value[0].AnyDirectories? <==> parts[0] == "**")
  {
    if parts[0] == "**" {
      assert PushAnyDirectories([]) == [AnyDirectories];
      CompileKeeps([AnyDirectories], parts[1..]);
    } else if SegmentTokens(parts[0]).Ok? {
      var first := [Pattern(SegmentTokens(parts[0]).value)];
      assert [] + first == first;
      CompileKeeps(first, parts[1..]);
    }
  }

  // ------------------------------------------------------------- slashes of the text

  /** Whether the compiler reads the pattern as relative to the directory rather than as matching at
      any depth; backslashes count as slashes here. */
  predicate CompiledAnchored(pattern: string) {
    StartsWithSlash(PopSlashes(Slashed(pattern))) || '/' in TrimStartOf(PopSlashes(Slashed(pattern)), '/')
  }

  lemma {:induction false} HeadPart(s: string)
    requires s != "" && s[0] != '/'
    ensures PathParts(s) != [] && PathParts(s)[0] != ""
  {
    var rest := Split(s[1..], '/');
    assert Split(s, '/') == [[s[0]] + rest[0]] + rest[1..];
    assert NonEmpty(Split(s, '/'))[0] == [s[0]] + rest[0];
  }

  /** A compilable pattern has a part; its compilation follows from its parts. */
  lemma CompiledField(pattern: string, glob: Glob)
    requires Solid(pattern) && Compile(pattern) == Ok(glob)
    ensures var parts := PathParts(Slashed(pattern));
      && parts != [] && parts[0] != ""
      && CompileParts(if CompiledAnchored(pattern) then [] else [AnyDirectories], parts) == Ok(glob.segments)
      && glob.directoryOnly == EndsWithSlash(Slashed(pattern))
  {
    CompileByParts(pattern);
    var popped := PopSlashes(Slashed(pattern));
    PopSlashesParts(Slashed(pattern));
    TrimStartParts(popped, '/');
    HeadPart(TrimStartOf(popped, '/'));
  }

  /** A pattern that starts with a slash and a name. */
  lemma CompileRooted(pattern: string, parts: seq<string>)
    requires |pattern| > 1 && pattern[0] == '/' && !IsWhitespace(pattern[|pattern| - 1])
    requires PathParts(Slashed(pattern)) == parts != []
    ensures Compile(pattern) ==
      match CompileParts([], parts)
      case Ok(segments) => Ok(Glob(pattern, segments, EndsWithSlash(Slashed(pattern))))
      case Err(e) => Err(e)
  {
    TrimSolid(pattern);
    CompileByParts(pattern);
    var popped := PopSlashes(Slashed(pattern));
    assert popped[0] == '/';
    PopSlashesParts(Slashed(pattern));
    TrimStartParts(popped, '/');
    assert PathParts("") == [] by {
      NonEmptySingle("");
    }
  }

  // ------------------------------------------------- what the slashes of a text mean

  lemma TrimmedEnds(text: string)
    requires Trimmed(text)
    ensures !IsWhitespace(text[0]) && !IsWhitespace(text[|text| - 1])
  {
    assert Trim(text)[0] == TrimStart(text)[0];
  }

  /** What parts compile to. */
  function Built(source: string, anchored: bool, parts: seq<string>, directoryOnly: bool): Compiled<Glob> {
    match CompileParts(if anchored then [] else [AnyDirectories], parts)
    case Ok(segments) => Ok(Glob(source, segments, directoryOnly))
    case Err(e) => Err(e)
  }

  lemma CompileIsBuilt(text: string)
    requires Trimmed(text)
    ensures Compile(text) ==
      if PathParts(Slashed(text)) == [] then Err(MatchesNothing)
      else Built(text, CompiledAnchored(text), PathParts(Slashed(text)), EndsWithSlash(Slashed(text)))
  {
    CompileByParts(text);
    hide Compile, CompileParts, PathParts, PopSlashes, TrimStartOf;
    SomethingLeft(text);
  }

  lemma SomethingLeft(text: string)
    ensures TrimStartOf(PopSlashes(Slashed(text)), '/') == "" <==> PathParts(Slashed(text)) == []
  {
    var body := TrimStartOf(PopSlashes(Slashed(text)), '/');
    PopSlashesParts(Slashed(text));
    TrimStartParts(PopSlashes(Slashed(text)), '/');
    NonEmptySingle("");
    if body != "" {
      HeadPart(body);
    }
  }

  /** A trailing slash only restricts the pattern to directories. */
  lemma TrailingSlash(text: string, r: Compiled<Glob>)
    requires Trimmed(text) && !EndsSlashed(text) && Compile(text) == r
    ensures r.Ok? ==> !r.value.directoryOnly
    ensures Compile(text + "/") ==
      match r
      case Ok(glob) => Ok(glob.(source := text + "/", directoryOnly := true))
      case Err(e) => Err(e)
  {
    hide Compile, CompileParts, PathParts, Trim, Slashed, CompiledAnchored, EndsWithSlash;
    TrimmedEnds(text);
    TrimSolid(text + "/");
    TrailingParts(text);
    CompileIsBuilt(text);
    CompileIsBuilt(text + "/");
  }

  lemma TrailingParts(text: string)
    requires text != "" && !EndsSlashed(text)
    ensures PathParts(Slashed(text + "/")) == PathParts(Slashed(text))
    ensures CompiledAnchored(text + "/") == CompiledAnchored(text)
    ensures EndsWithSlash(Slashed(text + "/")) && !EndsWithSlash(Slashed(text))
  {
    var s := Slashed(text);
    ReplaceConcat(text, "/", '\\', '/');
    assert Slashed("/") == "/" && Slashed(text + "/") == s + "/";
    assert (s + "/")[..|s|] == s && PopSlashes(s + "/") == PopSlashes(s);
    LastSeparator(s, s + "/", '/');
  }

  lemma TextHasPart(text: string)
    requires text != "" && !StartsSlashed(text)
    ensures PathParts(Slashed(text)) != [] && PathParts(Slashed(text))[0] != ""
  {
    HeadPart(Slashed(text));
  }

  lemma LeadingParts(text: string)
    requires text != "" && !StartsSlashed(text)
    ensures PathParts(Slashed("/" + text)) == PathParts(Slashed(text))
    ensures CompiledAnchored("/" + text) && EndsWithSlash(Slashed("/" + text)) == EndsWithSlash(Slashed(text))
  {
    ReplaceConcat("/", text, '\\', '/');
    assert Slashed("/") == "/" && "/" + Slashed(text) == ['/'] + Slashed(text);
    FirstSeparator(Slashed(text), "/" + Slashed(text), '/');
  }

  /** A leading slash takes away the `**` that stands for any depth, and changes nothing in a text with a slash
      inside. */
  lemma LeadingSlash(text: string, glob: Glob) returns (rooted: Glob)
    requires Trimmed(text) && !StartsSlashed(text) && Compile(text) == Ok(glob)
    ensures Compile("/" + text) == Ok(rooted)
    ensures rooted.directoryOnly == glob.directoryOnly && rooted.segments != []
    ensures glob.segments == if CompiledAnchored(text) || rooted.segments[0].AnyDirectories?
      then rooted.segments else [AnyDirectories] + rooted.segments
  {
    hide Compile, CompileParts, PathParts, Trim, CompiledAnchored, EndsWithSlash, Slashed;
    TrimmedEnds(text);
    TrimSolid("/" + text);
    TextHasPart(text);
    LeadingParts(text);
    CompileIsBuilt(text);
    CompileIsBuilt("/" + text);
    CompileAfterAny(PathParts(Slashed(text)));
    rooted := Compile("/" + text).value;
  }

  /** A text without a slash inside compiles like the same text behind a `**` and a slash. */
  lemma NoSlashIsAnyDepth(text: string, r: Compiled<Glob>)
    requires Trimmed(text) && !StartsSlashed(text) && !CompiledAnchored(text) && Compile(text) == r
    ensures Compile("**/" + text) ==
      match r
      case Ok(glob) => Ok(glob.(source := "**/" + text))
      case Err(e) => Err(e)
  {
    hide Compile, PathParts, Trim, CompiledAnchored;
    TrimmedEnds(text);
    TrimSolid("**/" + text);
    TextHasPart(text);
    AnyParts(text);
    AnyAnchored(text);
    CompileIsBuilt(text);
    CompileIsBuilt("**/" + text);
    var parts := PathParts(Slashed(text));
    assert (["**"] + parts)[1..] == parts && PushAnyDirectories([]) == [AnyDirectories];
  }

  lemma AnyParts(text: string)
    ensures Slashed("**/" + text) == "**/" + Slashed(text)
    ensures PathParts(Slashed("**/" + text)) == ["**"] + PathParts(Slashed(text))
  {
    ReplaceConcat("**/", text, '\\', '/');
    assert Slashed("**/") == "**/";
    PathConcat("**", Slashed(text));
    assert "**" + "/" + Slashed(text) == "**/" + Slashed(text);
    SinglePart("**");
  }

  lemma AnyAnchored(text: string)
    requires text != "" && !StartsSlashed(text)
    ensures CompiledAnchored("**/" + text)
    ensures EndsWithSlash(Slashed("**/" + text)) == EndsWithSlash(Slashed(text))
  {
    var s := Slashed(text);
    AnyParts(text);
    PopKeeps("**/", s);
    assert ("**/" + PopSlashes(s))[2] == '/';
  }

  lemma {:induction false} PopKeeps(front: string, s: string)
    requires s != "" && s[0] != '/'
    ensures PopSlashes(front + s) == front + PopSlashes(s)
  {
    if s[|s| - 1] == '/' {
      PopKeeps(front, s[..|s| - 1]);
      assert (front + s)[..|front + s| - 1] == front + s[..|s| - 1];
    }
  }

  lemma NameCompiles(name: string)
    requires Trimmed(name) && '/' !in Slashed(name) && name != "**"
    ensures Compile(name) ==
      if SegmentTokens(name).Ok? then Ok(Glob(name, [AnyDirectories, Pattern(SegmentTokens(name).value)], false))
      else Err(SegmentTokens(name).error)
  {
    hide Compile, CompileParts, PathParts, Trim;
    CompileIsBuilt(name);
    OneName(name);
    CompileOne([AnyDirectories], name);
    if SegmentTokens(name).Ok? {
      var named := Pattern(SegmentTokens(name).value);
      assert [AnyDirectories] + [named] == [AnyDirectories, named];
    }
  }

  lemma CompileOne(segments: seq<Segment>, part: string)
    requires part != "" && part != "**"
    ensures CompileParts(segments, [part]) ==
      if SegmentTokens(part).Ok? then Ok(segments + [Pattern(SegmentTokens(part).value)])
      else Err(SegmentTokens(part).error)
  {
    hide SegmentTokens;
    assert [part][1..] == [];
  }

  lemma OneName(name: string)
    requires name != "" && '/' !in Slashed(name)
    ensures PathParts(Slashed(name)) == [name]
    ensures !CompiledAnchored(name) && !EndsWithSlash(Slashed(name))
  {
    NoBackslash(name);
    SinglePart(name);
    assert PopSlashes(name) == name && TrimStartOf(name, '/') == name;
  }

  lemma AnyCompiles(text: string)
    requires text == "**"
    ensures Compile(text) == Ok(Glob(text, [AnyDirectories], false))
  {
    TrimSolid(text);
    assert Slashed(text) == text;
    hide Compile, PathParts, Trim, CompiledAnchored, CompileParts, EndsWithSlash;
    OneName(text);
    CompileIsBuilt(text);
    CompileAny(text);
  }

  lemma CompileAny(part: string)
    requires part == "**"
    ensures CompileParts([AnyDirectories], [part]) == Ok([AnyDirectories])
  {
    assert [part][1..] == [] && PushAnyDirectories([AnyDirectories]) == [AnyDirectories];
  }

  lemma NoBackslash(name: string)
    requires '/' !in Slashed(name)
    ensures Slashed(name) == name
  {
    forall i | 0 <= i < |name| ensures name[i] != '\\' {
      assert Slashed(name)[i] in Slashed(name);
    }
  }

  /** A name matches at any depth, and with a trailing slash, directories at any depth. */
  lemma NameAtAnyDepth(name: string, tokens: seq<Token>, path: string) returns (glob: Glob, restricted: Glob)
    requires Trimmed(name) && '/' !in Slashed(name) && name != "**" && SegmentTokens(name) == Ok(tokens)
    ensures Compile(name) == Ok(glob) && Compile(name + "/") == Ok(restricted)
    ensures glob.segments == [AnyDirectories, Pattern(tokens)]
    ensures Covers(glob, path) <==>
      exists i :: 0 <= i < |PathParts(path)| && Matches(tokens, PathParts(path)[i], false)
    ensures Covers(restricted, path) <==>
      exists i :: 0 <= i < |PathParts(path)| - 1 && Matches(tokens, PathParts(path)[i], false)
  {
    hide Compile, PathParts, SegmentTokens, Trim, Matches, Covers;
    NameCompiles(name);
    glob := Glob(name, [AnyDirectories, Pattern(tokens)], false);
    TrailingSlash(name, Ok(glob));
    restricted := glob.(source := name + "/", directoryOnly := true);
    MatchesAtAnyDepth(glob, tokens, path);
    MatchesAtAnyDepth(restricted, tokens, path);
  }

  /** A text with a trailing slash matches a file exactly if the text without it matches its directory. */
  lemma SlashMeansDirectory(text: string, glob: Glob, directory: string, name: string) returns (restricted: Glob)
    requires Trimmed(text) && !EndsSlashed(text) && Compile(text) == Ok(glob)
    requires name != "" && '/' !in name
    ensures Compile(text + "/") == Ok(restricted)
    ensures Covers(restricted, directory + "/" + name) <==> Covers(glob, directory)
  {
    hide Compile, PathParts, Trim;
    TrailingSlash(text, Ok(glob));
    restricted := glob.(source := text + "/", directoryOnly := true);
    DirectoryOnly(restricted, directory, name);
  }
}
