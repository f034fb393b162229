/** Path patterns: compiling them to segments and matching them against repository paths. */
module GlobPatterns {
  import opened Wrappers
  import opened Text
  import opened GlobTokens

  datatype Segment = AnyDirectories | Pattern(tokens: seq<Token>)

  datatype GlobError = PatternEmpty | MatchesNothing | UnterminatedClass | ReversedRange

  type Compiled<T> = Result<T, GlobError>

  datatype Glob = Glob(source: string, segments: seq<Segment>, directoryOnly: bool)

  // ------------------------------------------------------------ tokens of a segment

  datatype Ranges = Ranges(list: seq<(char, char)>, next: nat)

  /** The members of a character class from `index` on, up to and including the closing bracket; a
      bracket in first place is a member. */
  function RangesFrom(chars: string, index: nat, first: bool): (r: Compiled<Ranges>)
    ensures r.Ok? ==> index < r.value.next <= |chars|
    decreases |chars| - index
  {
    if index >= |chars| then Err(UnterminatedClass)
    else
      var c := chars[index];
      if c == ']' && !first then Ok(Ranges([], index + 1))
      else if index + 2 < |chars| && chars[index + 1] == '-' && chars[index + 2] != ']' then
        if chars[index + 2] < c then Err(ReversedRange)
        else Prepended((c, chars[index + 2]), RangesFrom(chars, index + 3, false))
      else Prepended((c, c), RangesFrom(chars, index + 1, false))
  }

  function Prepended(range: (char, char), r: Compiled<Ranges>): Compiled<Ranges> {
    match r
    case Ok(v) => Ok(Ranges([range] + v.list, v.next))
    case Err(e) => Err(e)
  }

  predicate NegatedAt(chars: string, start: nat) {
    start + 1 < |chars| && (chars[start + 1] == '!' || chars[start + 1] == '^')
  }

  /** The class that opens at `start`, and the index after it. */
  function ClassAt(chars: string, start: nat): (r: Compiled<(Token, nat)>)
    ensures r.Ok? ==> start < r.value.1 <= |chars|
  {
    var negated := NegatedAt(chars, start);
    match RangesFrom(chars, start + 1 + (if negated then 1 else 0), true)
    case Ok(v) => Ok((Class(negated, v.list), v.next))
    case Err(e) => Err(e)
  }

  method ParseClass(chars: string, start: nat) returns (r: Compiled<(Token, nat)>)
    requires start < |chars|
    ensures r == ClassAt(chars, start)
  {
    var index := start + 1;
    var negated := index < |chars| && (chars[index] == '!' || chars[index] == '^');
    if negated {
      index := index + 1;
    }
    ghost var goal := RangesFrom(chars, index, true);
    var ranges: seq<(char, char)> := [];
    var first := true;
    AfterNothing(goal);
    while true
      invariant start < index
      invariant goal == After(ranges, RangesFrom(chars, index, first))
      decreases |chars| - index
    {
      if index >= |chars| {
        return Err(UnterminatedClass);
      }
      var c := chars[index];
      if c == ']' && !first {
        assert ranges + [] == ranges;
        return Ok((Class(negated, ranges), index + 1));
      }
      first := false;
      if index + 2 < |chars| && chars[index + 1] == '-' && chars[index + 2] != ']' {
        var end := chars[index + 2];
        if end < c {
          return Err(ReversedRange);
        }
        Regroup(ranges, (c, end), RangesFrom(chars, index + 3, false));
        ranges := ranges + [(c, end)];
        index := index + 3;
      } else {
        Regroup(ranges, (c, c), RangesFrom(chars, index + 1, false));
        ranges := ranges + [(c, c)];
        index := index + 1;
      }
    }
  }

  function After(ranges: seq<(char, char)>, r: Compiled<Ranges>): Compiled<Ranges> {
    match r
    case Ok(v) => Ok(Ranges(ranges + v.list, v.next))
    case Err(e) => Err(e)
  }

  lemma AfterNothing(r: Compiled<Ranges>)
    ensures After([], r) == r
  {
    if r.Ok? {
      assert [] + r.value.list == r.value.list;
    }
  }

  lemma Regroup(ranges: seq<(char, char)>, range: (char, char), r: Compiled<Ranges>)
    ensures After(ranges, Prepended(range, r)) == After(ranges + [range], r)
  {
    if r.Ok? {
      assert ranges + ([range] + r.value.list) == ranges + [range] + r.value.list;
    }
  }

  /** The tokens a segment spells, star by star. */
  function TokensFrom(chars: string, index: nat): (r: Compiled<seq<Token>>)
    requires index <= |chars|
    decreases |chars| - index
  {
    if index == |chars| then Ok([])
    else if chars[index] == '[' then
      match ClassAt(chars, index)
      case Ok(v) => PutFirst([v.0], TokensFrom(chars, v.1))
      case Err(e) => Err(e)
    else PutFirst([TokenOf(chars[index])], TokensFrom(chars, index + 1))
  }

  function PutFirst(tokens: seq<Token>, r: Compiled<seq<Token>>): Compiled<seq<Token>> {
    match r
    case Ok(rest) => Ok(tokens + rest)
    case Err(e) => Err(e)
  }

  /** A star after a star adds nothing. */
  function Push(tokens: seq<Token>, token: Token): seq<Token> {
    if token.AnySequence? && tokens != [] && tokens[|tokens| - 1].AnySequence? then tokens
    else tokens + [token]
  }

  function Collapse(tokens: seq<Token>): seq<Token> {
    if tokens == [] then [] else Push(Collapse(tokens[..|tokens| - 1]), tokens[|tokens| - 1])
  }

  /** The tokens a segment compiles to. */
  function SegmentTokens(segment: string): Compiled<seq<Token>> {
    match TokensFrom(segment, 0)
    case Ok(tokens) => Ok(Collapse(tokens))
    case Err(e) => Err(e)
  }

  method ParseSegment(segment: string) returns (r: Compiled<seq<Token>>)
    ensures r == SegmentTokens(segment)
  {
    var tokens: seq<Token> := [];
    ghost var spelled: seq<Token> := [];
    var index := 0;
    PutNothing(TokensFrom(segment, 0));
    while index < |segment|
      invariant index <= |segment|
      invariant tokens == Collapse(spelled)
      invariant TokensFrom(segment, 0) == PutFirst(spelled, TokensFrom(segment, index))
    {
      ghost var more: Token;
      var next;
      match segment[index] {
        case '*' =>
          more := AnySequence;
          if tokens == [] || tokens[|tokens| - 1] != AnySequence {
            tokens := tokens + [AnySequence];
          }
          next := index + 1;
        case '?' =>
          more := AnyChar;
          tokens := tokens + [AnyChar];
          next := index + 1;
        case '[' =>
          var parsed := ParseClass(segment, index);
          if parsed.Err? {
            return Err(parsed.error);
          }
          more := parsed.value.0;
          tokens := tokens + [parsed.value.0];
          next := parsed.value.1;
        case other =>
          more := Literal(other);
          tokens := tokens + [Literal(other)];
          next := index + 1;
      }
      PutTwice(spelled, more, TokensFrom(segment, next));
      assert (spelled + [more])[..|spelled|] == spelled;
      spelled := spelled + [more];
      index := next;
    }
    assert spelled + [] == spelled;
    r := Ok(tokens);
  }

  lemma PutNothing(r: Compiled<seq<Token>>)
    ensures PutFirst([], r) == r
  {
    if r.Ok? {
      assert [] + r.value == r.value;
    }
  }

  lemma PutTwice(spelled: seq<Token>, more: Token, r: Compiled<seq<Token>>)
    ensures PutFirst(spelled, PutFirst([more], r)) == PutFirst(spelled + [more], r)
  {
    if r.Ok? {
      assert spelled + ([more] + r.value) == spelled + [more] + r.value;
    }
  }

  // ------------------------------------------------- collapsing stars keeps the meaning

  ghost predicate LastPiece(tokens: seq<Token>, token: Token, text: string, cross: bool, k: nat) {
    k <= |text| && Matches(tokens, text[..k], cross) && PieceOf(token, text[k..], cross)
  }

  lemma {:induction false} ConcatSnoc(p: seq<string>, q: string)
    ensures Concat(p + [q]) == Concat(p) + q
  {
    if p == [] {
      assert Concat([q]) == q + Concat([]);
    } else {
      ConcatSnoc(p[1..], q);
      assert (p + [q])[1..] == p[1..] + [q];
    }
  }

  /** What one more token at the end means. */
  lemma MatchesSnoc(tokens: seq<Token>, token: Token, text: string, cross: bool)
    ensures Matches(tokens + [token], text, cross) <==> exists k: nat :: LastPiece(tokens, token, text, cross, k)
  {
    var all := tokens + [token];
    if Matches(all, text, cross) {
      var p :| Denotes(all, p, cross) && Concat(p) == text;
      var n := |tokens|;
      assert p == p[..n] + [p[n]];
      ConcatSnoc(p[..n], p[n]);
      assert Denotes(tokens, p[..n], cross);
      var k := |Concat(p[..n])|;
      assert text[..k] == Concat(p[..n]) && text[k..] == p[n];
      assert LastPiece(tokens, token, text, cross, k);
    }
    if k: nat :| LastPiece(tokens, token, text, cross, k) {
      var p :| Denotes(tokens, p, cross) && Concat(p) == text[..k];
      ConcatSnoc(p, text[k..]);
      assert Denotes(all, p + [text[k..]], cross);
      assert text[..k] + text[k..] == text;
    }
  }

  /** Two stars in a row mean one. */
  lemma TwoStars(tokens: seq<Token>, text: string, cross: bool)
    ensures Matches(tokens + [AnySequence] + [AnySequence], text, cross) <==>
      Matches(tokens + [AnySequence], text, cross)
  {
    MatchesSnoc(tokens + [AnySequence], AnySequence, text, cross);
    MatchesSnoc(tokens, AnySequence, text, cross);
    if k: nat :| LastPiece(tokens + [AnySequence], AnySequence, text, cross, k) {
      MatchesSnoc(tokens, AnySequence, text[..k], cross);
      var i: nat :| LastPiece(tokens, AnySequence, text[..k], cross, i);
      assert text[..k][..i] == text[..i];
      forall j | 0 <= j < |text[i..]| ensures Absorbs(text[i..][j], cross) {
        if i + j < k {
          assert text[..k][i..][j] == text[i + j];
        } else {
          assert text[k..][i + j - k] == text[i + j];
        }
      }
      assert LastPiece(tokens, AnySequence, text, cross, i);
    }
    if Matches(tokens + [AnySequence], text, cross) {
      assert text[..|text|] == text && text[|text|..] == "";
      assert LastPiece(tokens + [AnySequence], AnySequence, text, cross, |text|);
    }
  }

  lemma SnocSame(a: seq<Token>, b: seq<Token>, token: Token, text: string, cross: bool)
    requires forall s :: Matches(a, s, cross) <==> Matches(b, s, cross)
    ensures Matches(a + [token], text, cross) <==> Matches(b + [token], text, cross)
  {
    MatchesSnoc(a, token, text, cross);
    MatchesSnoc(b, token, text, cross);
    if k: nat :| LastPiece(a, token, text, cross, k) {
      assert LastPiece(b, token, text, cross, k);
    }
    if k: nat :| LastPiece(b, token, text, cross, k) {
      assert LastPiece(a, token, text, cross, k);
    }
  }

  /** The collapsed tokens match exactly what the tokens as spelled match. */
  lemma {:induction false} CollapseKeepsMeaning(tokens: seq<Token>, text: string, cross: bool)
    ensures Matches(Collapse(tokens), text, cross) <==> Matches(tokens, text, cross)
    decreases |tokens|
  {
    if tokens != [] {
      var n := |tokens| - 1;
      var head, token := tokens[..n], tokens[n];
      var collapsed := Collapse(head);
      forall s ensures Matches(collapsed, s, cross) <==> Matches(head, s, cross) {
        CollapseKeepsMeaning(head, s, cross);
      }
      SnocSame(collapsed, head, token, text, cross);
      assert head + [token] == tokens;
      if token.AnySequence? && collapsed != [] && collapsed[|collapsed| - 1].AnySequence? {
        var rest := collapsed[..|collapsed| - 1];
        assert collapsed == rest + [AnySequence];
        TwoStars(rest, text, cross);
      }
    }
  }

  // ------------------------------------------------------------------- compiling

  /** Drops trailing slashes, but never the only character. */
  function PopSlashes(s: string): (r: string)
    ensures r <= s && (s != "" ==> r != "")
  {
    if |s| > 1 && s[|s| - 1] == '/' then PopSlashes(s[..|s| - 1]) else s
  }

  function PushAnyDirectories(segments: seq<Segment>): seq<Segment> {
    if segments != [] && segments[|segments| - 1].AnyDirectories? then segments else segments + [AnyDirectories]
  }

  /** Adds the segments of the parts to those before them. */
  function CompileParts(segments: seq<Segment>, parts: seq<string>): Compiled<seq<Segment>>
    decreases |parts|
  {
    if parts == [] then Ok(segments)
    else if parts[0] == "" then CompileParts(segments, parts[1..])
    else if parts[0] == "**" then CompileParts(PushAnyDirectories(segments), parts[1..])
    else
      match SegmentTokens(parts[0])
      case Ok(tokens) => CompileParts(segments + [Pattern(tokens)], parts[1..])
      case Err(e) => Err(e)
  }

  predicate EndsWithSlash(s: string) {
    |s| > 1 && s[|s| - 1] == '/'
  }

  predicate StartsWithSlash(s: string) {
    s != "" && s[0] == '/'
  }

  /** What a pattern compiles to. */
  function Compile(pattern: string): Compiled<Glob> {
    if Trim(pattern) == "" then Err(PatternEmpty)
    else
      var slashed := Replace(Trim(pattern), '\\', '/');
      var popped := PopSlashes(slashed);
      CompileBody(pattern, EndsWithSlash(slashed), StartsWithSlash(popped), TrimStartOf(popped, '/'))
  }

  /** From the pattern without its outer slashes. */
  function CompileBody(source: string, directoryOnly: bool, anchored: bool, body: string): Compiled<Glob> {
    if body == "" then Err(MatchesNothing)
    else
      var first := if !anchored && '/' !in body then [AnyDirectories] else [];
      match CompileParts(first, Split(body, '/'))
      case Ok(segments) => Ok(Glob(source, segments, directoryOnly))
      case Err(e) => Err(e)
  }

  method DropTrailing(s: string) returns (body: string)
    ensures body == PopSlashes(s)
  {
    body := s;
    while EndsWithSlash(body)
      invariant PopSlashes(body) == PopSlashes(s)
      decreases |body|
    {
      body := body[..|body| - 1];
    }
  }

  method New(pattern: string) returns (r: Compiled<Glob>)
    ensures r == Compile(pattern)
  {
    var trimmed := Trim(pattern);
    if trimmed == "" {
      return Err(PatternEmpty);
    }
    var slashed := Replace(trimmed, '\\', '/');
    var body := DropTrailing(slashed);
    r := NewBody(pattern, EndsWithSlash(slashed), StartsWithSlash(body), TrimStartOf(body, '/'));
  }

  method NewBody(source: string, directoryOnly: bool, anchored: bool, body: string) returns (r: Compiled<Glob>)
    ensures r == CompileBody(source, directoryOnly, anchored, body)
  {
    if body == "" {
      return Err(MatchesNothing);
    }
    var segments: seq<Segment> := [];
    if !anchored && '/' !in body {
      segments := [AnyDirectories];
    }
    var compiled := AddParts(segments, Split(body, '/'));
    match compiled
    case Ok(all) => r := Ok(Glob(source, all, directoryOnly));
    case Err(e) => r := Err(e);
  }

  method AddParts(first: seq<Segment>, parts: seq<string>) returns (r: Compiled<seq<Segment>>)
    ensures r == CompileParts(first, parts)
  {
    var segments := first;
    var i := 0;
    while i < |parts|
      invariant i <= |parts| && CompileParts(first, parts) == CompileParts(segments, parts[i..])
    {
      assert parts[i..][1..] == parts[i + 1..];
      if parts[i] == "" {
      } else if parts[i] == "**" {
        if segments == [] || segments[|segments| - 1] != AnyDirectories {
          segments := segments + [AnyDirectories];
        }
      } else {
        var tokens := ParseSegment(parts[i]);
        if tokens.Err? {
          return Err(tokens.error);
        }
        segments := segments + [Pattern(tokens.value)];
      }
      i := i + 1;
    }
    r := Ok(segments);
  }

  // -------------------------------------------------------------------- matching

  ghost predicate SegmentsMatch(segments: seq<Segment>, parts: seq<string>) {
    if segments == [] then parts == []
    else
      match segments[0]
      case AnyDirectories => exists k :: 0 <= k <= |parts| && SegmentsMatch(segments[1..], parts[k..])
      case Pattern(tokens) =>
        parts != [] && Matches(tokens, parts[0], false) && SegmentsMatch(segments[1..], parts[1..])
  }

  method MatchSegments(segments: seq<Segment>, parts: seq<string>) returns (matched: bool)
    ensures matched <==> SegmentsMatch(segments, parts)
    decreases |segments|
  {
    if segments == [] {
      return parts == [];
    }
    var rest := segments[1..];
    match segments[0] {
      case AnyDirectories =>
        var skip := 0;
        while skip <= |parts|
          invariant skip <= |parts| + 1
          invariant forall k :: 0 <= k < skip ==> !SegmentsMatch(rest, parts[k..])
        {
          matched := MatchSegments(rest, parts[skip..]);
          if matched {
            return;
          }
          skip := skip + 1;
        }
        return false;
      case Pattern(tokens) =>
        if parts == [] {
          return false;
        }
        matched := MatchTokens(tokens, parts[0], false);
        if matched {
          matched := MatchSegments(rest, parts[1..]);
        }
    }
  }

  function PathParts(path: string): seq<string> {
    NonEmpty(Split(path, '/'))
  }

  /** How many leading parts of the path may be matched: a pattern for directories never takes the
      whole path. */
  function Longest(glob: Glob, parts: seq<string>): int {
    if glob.directoryOnly then |parts| - 1 else |parts|
  }

  ghost predicate CoversParts(glob: Glob, parts: seq<string>) {
    exists length :: 1 <= length <= Longest(glob, parts) && SegmentsMatch(glob.segments, parts[..length])
  }

  ghost predicate Covers(glob: Glob, path: string) {
    CoversParts(glob, PathParts(path))
  }

  /** Whether the path or one of its parent directories matches. */
  method GlobMatches(glob: Glob, path: string) returns (matched: bool)
    ensures matched <==> Covers(glob, path)
  {
    var parts := PathParts(path);
    if parts == [] {
      return false;
    }
    var last := Longest(glob, parts);
    var length := 1;
    while length <= last
      invariant 1 <= length <= last + 1
      invariant forall k :: 1 <= k < length && k <= last ==> !SegmentsMatch(glob.segments, parts[..k])
    {
      matched := MatchSegments(glob.segments, parts[..length]);
      if matched {
        return;
      }
      length := length + 1;
    }
    return false;
  }

  lemma PathConcat(directory: string, inside: string)
    ensures PathParts(directory + "/" + inside) == PathParts(directory) + PathParts(inside)
  {
    assert directory + "/" + inside == directory + ['/'] + inside;
    SplitConcat(directory, inside, '/');
    NonEmptyConcat(Split(directory, '/'), Split(inside, '/'));
  }

  lemma SinglePart(name: string)
    requires '/' !in name && name != ""
    ensures PathParts(name) == [name]
  {
    SplitNothing(name, '/');
    NonEmptySingle(name);
  }

  /** A pattern that matches a directory matches everything inside it. */
  lemma DirectoryCoversContents(glob: Glob, directory: string, inside: string)
    requires Covers(glob, directory)
    ensures Covers(glob, directory + "/" + inside)
  {
    PathConcat(directory, inside);
    var parts := PathParts(directory);
    var length :| 1 <= length <= Longest(glob, parts) && SegmentsMatch(glob.segments, parts[..length]);
    var all := parts + PathParts(inside);
    assert all[..length] == parts[..length];
  }

  /** A pattern for directories matches a path exactly when the pattern without its trailing slash
      matches the directory of the path. */
  lemma DirectoryOnly(glob: Glob, directory: string, name: string)
    requires glob.directoryOnly && name != "" && '/' !in name
    ensures Covers(glob, directory + "/" + name) <==> Covers(glob.(directoryOnly := false), directory)
  {
    PathConcat(directory, name);
    SinglePart(name);
    var parts := PathParts(directory);
    var all := parts + [name];
    assert forall k :: 0 <= k <= |parts| ==> all[..k] == parts[..k];
  }

  /** A pattern of one segment without a leading slash matches at any depth: some directory or the
      file itself has a matching name. */
  lemma MatchesAtAnyDepth(glob: Glob, tokens: seq<Token>, path: string)
    requires glob.segments == [AnyDirectories, Pattern(tokens)]
    ensures Covers(glob, path) <==>
              exists i :: 0 <= i < Longest(glob, PathParts(path)) && Matches(tokens, PathParts(path)[i], false)
  {
    var parts := PathParts(path);
    var single := [Pattern(tokens)];
    assert glob.segments[1..] == single && single[1..] == [];
    if Covers(glob, path) {
      var length :| 1 <= length <= Longest(glob, parts) && SegmentsMatch(glob.segments, parts[..length]);
      var k :| 0 <= k <= length && SegmentsMatch(single, parts[..length][k..]);
      assert SegmentsMatch([], parts[..length][k..][1..]);
      assert parts[..length][k..][0] == parts[k];
    }
    if i :| 0 <= i < Longest(glob, parts) && Matches(tokens, parts[i], false) {
      var prefix := parts[..i + 1];
      assert prefix[i..] == [parts[i]];
      assert SegmentsMatch([], prefix[i..][1..]);
      assert SegmentsMatch(single, prefix[i..]);
      assert SegmentsMatch(glob.segments, prefix);
    }
  }
}
