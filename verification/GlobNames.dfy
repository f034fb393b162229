/** Segments of patterns against names: what `**` in front of a pattern does, and which patterns match nothing. */
module GlobNames {
  import opened Text
  import opened PathText
  import opened GlobTokens
  import opened GlobPatterns

  /** The pattern names something: it is not only `**`. */
  ghost predicate HasName(segments: seq<Segment>) {
    exists i :: 0 <= i < |segments| && segments[i].Pattern?
  }

  lemma {:induction false} NamesNeedParts(segments: seq<Segment>)
    requires HasName(segments)
    ensures !SegmentsMatch(segments, [])
  {
    if segments[0].AnyDirectories? {
      var i :| 0 <= i < |segments| && segments[i].Pattern?;
      assert segments[1..][i - 1].Pattern?;
      NamesNeedParts(segments[1..]);
      var none: seq<string> := [];
      assert none[0..] == none;
    }
  }

  lemma {:induction false} AnyMatchesAll(segments: seq<Segment>, parts: seq<string>)
    requires segments != [] && !HasName(segments)
    ensures SegmentsMatch(segments, parts)
    decreases |segments|
  {
    var rest := segments[1..];
    if rest == [] {
      assert SegmentsMatch(rest, parts[|parts|..]);
    } else {
      assert forall i :: 0 <= i < |rest| ==> rest[i] == segments[i + 1];
      AnyMatchesAll(rest, parts[0..]);
    }
  }

  // ----------------------------------------------------------- with and without `**`

  ghost predicate MatchesEveryName(segment: Segment) {
    segment.AnyDirectories? || forall name :: IsPart(name) ==> Matches(segment.tokens, name, false)
  }

  ghost predicate MatchesNoName(segment: Segment) {
    segment.Pattern? && forall name :: IsPart(name) ==> !Matches(segment.tokens, name, false)
  }

  /** The segments before the first `**`. */
  function Head(segments: seq<Segment>): (n: nat)
    ensures n <= |segments|
    ensures forall i :: 0 <= i < n ==> segments[i].Pattern?
    ensures n < |segments| ==> segments[n].AnyDirectories?
  {
    if segments == [] || segments[0].AnyDirectories? then 0 else 1 + Head(segments[1..])
  }

  /** Every segment before the first `**` matches every name. */
  ghost predicate OpenHead(segments: seq<Segment>) {
    forall i :: 0 <= i < Head(segments) ==> MatchesEveryName(segments[i])
  }

  /** Some segment matches no name at all. */
  ghost predicate Hopeless(segments: seq<Segment>) {
    exists i :: 0 <= i < |segments| && MatchesNoName(segments[i])
  }

  function Deep(segments: seq<Segment>): seq<Segment> {
    [AnyDirectories] + segments
  }

  lemma DeepMatch(segments: seq<Segment>, parts: seq<string>)
    ensures SegmentsMatch(Deep(segments), parts) <==>
      exists k :: 0 <= k <= |parts| && SegmentsMatch(segments, parts[k..])
  {
    assert Deep(segments)[1..] == segments;
  }

  /** The first `n` segments, each matching one part, in front of the others. */
  lemma {:induction false} HeadMatch(segments: seq<Segment>, n: nat, parts: seq<string>)
    requires n <= Head(segments)
    ensures SegmentsMatch(segments, parts) <==>
      && n <= |parts| && (forall i :: 0 <= i < n ==> Matches(segments[i].tokens, parts[i], false))
      && SegmentsMatch(segments[n..], parts[n..])
    decreases n
  {
    if n == 0 {
      assert segments[0..] == segments && parts[0..] == parts;
    } else if parts != [] {
      var rest := segments[1..];
      HeadMatch(rest, n - 1, parts[1..]);
      assert rest[n - 1..] == segments[n..];
      if n <= |parts| {
        assert parts[1..][n - 1..] == parts[n..];
        HeadShift(segments, n, parts);
      }
    }
  }

  lemma HeadShift(segments: seq<Segment>, n: nat, parts: seq<string>)
    requires 0 < n <= Head(segments) && n <= |parts|
    ensures (forall i :: 0 <= i < n ==> Matches(segments[i].tokens, parts[i], false)) <==>
      && Matches(segments[0].tokens, parts[0], false)
      && forall i :: 0 <= i < n - 1 ==> Matches(segments[1..][i].tokens, parts[1..][i], false)
  {
    hide Matches, Head;
    var tail, after := segments[1..], parts[1..];
    forall i | 0 <= i < n - 1 ensures tail[i] == segments[i + 1] && after[i] == parts[i + 1] {
    }
    forall i | 0 < i < n ensures segments[i] == tail[i - 1] && parts[i] == after[i - 1] {
    }
  }

  lemma {:induction false} HopelessMatchesNothing(segments: seq<Segment>, i: nat, parts: seq<string>)
    requires i < |segments| && MatchesNoName(segments[i]) && IsPath(parts)
    ensures !SegmentsMatch(segments, parts)
    decreases |segments|
  {
    if segments[0].AnyDirectories? {
      forall k | 0 <= k <= |parts| ensures !SegmentsMatch(segments[1..], parts[k..]) {
        HopelessMatchesNothing(segments[1..], i - 1, parts[k..]);
      }
    } else if parts != [] {
      assert IsPart(parts[0]);
      if i > 0 {
        HopelessMatchesNothing(segments[1..], i - 1, parts[1..]);
      }
    }
  }

  /** If the segments before the first `**` match every name, a match further down is one at the top. */
  lemma OpenHeadLifts(segments: seq<Segment>, k: nat, parts: seq<string>) returns (length: nat)
    requires segments != [] && segments[0].Pattern? && OpenHead(segments) && IsPath(parts)
    requires k <= |parts| && SegmentsMatch(segments, parts[k..])
    ensures 1 <= length <= |parts| && SegmentsMatch(segments, parts[..length])
  {
    var n := Head(segments);
    HeadMatch(segments, n, parts[k..]);
    length := if n == |segments| then n else |parts|;
    var prefix := parts[..length];
    forall i | 0 <= i < n ensures Matches(segments[i].tokens, prefix[i], false) {
      assert MatchesEveryName(segments[i]) && IsPart(parts[i]);
    }
    var rest := segments[n..];
    if rest == [] {
      assert prefix[n..] == [];
    } else {
      assert rest[0].AnyDirectories?;
      var tail := parts[k..][n..];
      var j :| 0 <= j <= |tail| && SegmentsMatch(rest[1..], tail[j..]);
      assert prefix[n..][k + j..] == tail[j..];
    }
    HeadMatch(segments, n, prefix);
  }

  /** One name for every segment that needs one. */
  ghost function Witness(segments: seq<Segment>): (r: seq<string>)
    requires !Hopeless(segments)
    ensures IsPath(r)
  {
    if segments == [] then []
    else
      assert !Hopeless(segments[1..]) by {
        assert forall i :: 0 <= i < |segments[1..]| ==> segments[1..][i] == segments[i + 1];
      }
      if segments[0].AnyDirectories? then Witness(segments[1..])
      else
        assert !MatchesNoName(segments[0]);
        var name :| IsPart(name) && Matches(segments[0].tokens, name, false);
        [name] + Witness(segments[1..])
  }

  lemma {:induction false} WitnessMatches(segments: seq<Segment>)
    requires !Hopeless(segments)
    ensures SegmentsMatch(segments, Witness(segments))
  {
    if segments != [] {
      assert !Hopeless(segments[1..]) by {
        assert forall i :: 0 <= i < |segments[1..]| ==> segments[1..][i] == segments[i + 1];
      }
      WitnessMatches(segments[1..]);
      if segments[0].AnyDirectories? {
        assert Witness(segments)[0..] == Witness(segments);
      } else {
        assert !MatchesNoName(segments[0]);
        assert Witness(segments)[1..] == Witness(segments[1..]);
      }
    }
  }

  ghost predicate SameCover(a: Glob, b: Glob) {
    forall parts :: IsPath(parts) && parts != [] ==> (CoversParts(a, parts) <==> CoversParts(b, parts))
  }

  /** Both globs, with and without `**` in front. */
  ghost predicate IsDeeper(glob: Glob, deeper: Glob) {
    && glob.segments != [] && glob.segments[0].Pattern?
    && deeper.segments == Deep(glob.segments) && deeper.directoryOnly == glob.directoryOnly
  }

  lemma DeeperCovers(glob: Glob, deeper: Glob, parts: seq<string>)
    requires IsDeeper(glob, deeper) && CoversParts(glob, parts)
    ensures CoversParts(deeper, parts)
  {
    var length :| 1 <= length <= Longest(glob, parts) && SegmentsMatch(glob.segments, parts[..length]);
    DeepMatch(glob.segments, parts[..length]);
    assert parts[..length][0..] == parts[..length];
  }

  lemma CoversDeeper(glob: Glob, deeper: Glob, parts: seq<string>)
    requires IsDeeper(glob, deeper) && IsPath(parts) && CoversParts(deeper, parts)
    requires OpenHead(glob.segments) || Hopeless(glob.segments)
    ensures CoversParts(glob, parts)
  {
    var length :| 1 <= length <= Longest(deeper, parts) && SegmentsMatch(deeper.segments, parts[..length]);
    DeepMatch(glob.segments, parts[..length]);
    var k :| 0 <= k <= length && SegmentsMatch(glob.segments, parts[..length][k..]);
    if i :| 0 <= i < |glob.segments| && MatchesNoName(glob.segments[i]) {
      HopelessMatchesNothing(glob.segments, i, parts[..length][k..]);
      assert false;
    } else {
      var shorter := OpenHeadLifts(glob.segments, k, parts[..length]);
      assert parts[..length][..shorter] == parts[..shorter];
    }
  }

  /** A path that tells the two apart: a name the head refuses, as deep as the head, and then a match. */
  lemma DeeperDiffers(glob: Glob, deeper: Glob) returns (parts: seq<string>)
    requires IsDeeper(glob, deeper) && !OpenHead(glob.segments) && !Hopeless(glob.segments)
    ensures IsPath(parts) && parts != [] && CoversParts(deeper, parts) && !CoversParts(glob, parts)
  {
    var segments := glob.segments;
    var j :| 0 <= j < Head(segments) && !MatchesEveryName(segments[j]);
    var refused :| IsPart(refused) && !Matches(segments[j].tokens, refused, false);
    var front, below := seq(j + 1, _ => refused), Witness(segments);
    WitnessMatches(segments);
    hide SegmentsMatch, Witness, Matches, OpenHead, Hopeless, Head;
    parts := front + below + [refused];
    BelowCovers(glob, deeper, front, below, refused);
    assert parts[j] == refused;
    forall l | 1 <= l <= Longest(glob, parts) ensures !SegmentsMatch(segments, parts[..l]) {
      Refused(segments, j, parts[..l], refused);
    }
  }

  lemma BelowCovers(glob: Glob, deeper: Glob, front: seq<string>, below: seq<string>, last: string)
    requires IsDeeper(glob, deeper) && front != [] && SegmentsMatch(glob.segments, below)
    ensures CoversParts(deeper, front + below + [last])
  {
    var parts, length := front + below + [last], |front| + |below|;
    assert parts[..length][|front|..] == below;
    DeepMatch(glob.segments, parts[..length]);
  }

  lemma Refused(segments: seq<Segment>, j: nat, parts: seq<string>, name: string)
    requires j < Head(segments) && !Matches(segments[j].tokens, name, false)
    requires j < |parts| ==> parts[j] == name
    ensures !SegmentsMatch(segments, parts)
  {
    HeadMatch(segments, Head(segments), parts);
  }

  /** `**` in front changes nothing exactly if the segments before the first `**` match every name, or
      some segment matches none. */
  lemma SameCoverIff(glob: Glob, deeper: Glob)
    requires IsDeeper(glob, deeper)
    ensures SameCover(glob, deeper) <==> OpenHead(glob.segments) || Hopeless(glob.segments)
  {
    if OpenHead(glob.segments) || Hopeless(glob.segments) {
      forall parts | IsPath(parts) && parts != [] ensures CoversParts(glob, parts) <==> CoversParts(deeper, parts) {
        if CoversParts(glob, parts) {
          DeeperCovers(glob, deeper, parts);
        } else if CoversParts(deeper, parts) {
          CoversDeeper(glob, deeper, parts);
        }
      }
    } else {
      var parts := DeeperDiffers(glob, deeper);
    }
  }

  /** With `**` in front a pattern matches at any depth. */
  lemma DeeperIff(glob: Glob, deeper: Glob, parts: seq<string>)
    requires IsDeeper(glob, deeper)
    ensures CoversParts(deeper, parts) <==> exists k :: 0 <= k < |parts| && CoversParts(glob, parts[k..])
  {
    if length :| 1 <= length <= Longest(deeper, parts) && SegmentsMatch(deeper.segments, parts[..length]) {
      DeepMatch(glob.segments, parts[..length]);
      var k :| 0 <= k <= length && SegmentsMatch(glob.segments, parts[..length][k..]);
      assert parts[..length][k..] == parts[k..][..length - k];
      assert CoversParts(glob, parts[k..]);
    }
    if k :| 0 <= k < |parts| && CoversParts(glob, parts[k..]) {
      var tail := parts[k..];
      var l :| 1 <= l <= Longest(glob, tail) && SegmentsMatch(glob.segments, tail[..l]);
      DeepMatch(glob.segments, parts[..k + l]);
      assert parts[..k + l][k..] == tail[..l];
    }
  }

  // ------------------------------------------------------------------ paths and parts

  lemma {:induction false} PartsAreNames(path: string)
    ensures IsPath(PathParts(path))
  {
    SplitParts(path, '/');
    KeptNames(Split(path, '/'));
  }

  lemma {:induction false} KeptNames(parts: seq<string>)
    requires forall i :: 0 <= i < |parts| ==> '/' !in parts[i]
    ensures IsPath(NonEmpty(parts))
  {
    if parts != [] {
      KeptNames(parts[1..]);
    }
  }

  lemma {:induction false} AllKept(parts: seq<string>)
    requires IsPath(parts)
    ensures NonEmpty(parts) == parts
  {
    if parts != [] {
      AllKept(parts[1..]);
      assert IsPart(parts[0]);
    }
  }

  lemma PartsOfText(parts: seq<string>)
    requires IsPath(parts) && parts != []
    ensures PathParts(Render(parts)) == parts
  {
    RenderSplits(parts);
    AllKept(parts);
  }

  /** Two globs cover the same paths exactly if they cover the same lists of names. */
  lemma SamePathsIff(a: Glob, b: Glob)
    ensures (forall path :: PathParts(path) != [] ==> (Covers(a, path) <==> Covers(b, path))) <==> SameCover(a, b)
  {
    if SameCover(a, b) {
      forall path | PathParts(path) != [] ensures Covers(a, path) <==> Covers(b, path) {
        PartsAreNames(path);
      }
    } else {
      var parts :| IsPath(parts) && parts != [] && CoversParts(a, parts) != CoversParts(b, parts);
      PartsOfText(parts);
      assert Covers(a, Render(parts)) != Covers(b, Render(parts));
    }
  }

  // ------------------------------------------------------------- patterns for nothing

  ghost predicate CoversNothing(glob: Glob) {
    forall parts :: IsPath(parts) && parts != [] ==> !CoversParts(glob, parts)
  }

  /** A pattern covers nothing at all exactly if some segment matches no name. */
  lemma CoversNothingIff(glob: Glob)
    requires glob.segments != []
    ensures CoversNothing(glob) <==> Hopeless(glob.segments)
  {
    if i :| 0 <= i < |glob.segments| && MatchesNoName(glob.segments[i]) {
      forall parts | IsPath(parts) && parts != [] ensures !CoversParts(glob, parts) {
        forall l | 1 <= l <= Longest(glob, parts) ensures !SegmentsMatch(glob.segments, parts[..l]) {
          HopelessMatchesNothing(glob.segments, i, parts[..l]);
        }
      }
    }
    if !Hopeless(glob.segments) {
      var parts := SomethingCovered(glob);
    }
  }

  lemma SomethingCovered(glob: Glob) returns (parts: seq<string>)
    requires glob.segments != [] && !Hopeless(glob.segments)
    ensures IsPath(parts) && parts != [] && CoversParts(glob, parts)
  {
    assert IsPart("x");
    if HasName(glob.segments) {
      var names := Witness(glob.segments);
      WitnessMatches(glob.segments);
      NamesNeedParts(glob.segments);
      parts := names + ["x"];
      assert parts[..|names|] == names;
    } else {
      parts := ["x", "x"];
      AnyMatchesAll(glob.segments, parts[..1]);
    }
  }

  // ----------------------------------------------------------- names in terms of tokens

  /** How many tokens stand for exactly one character. */
  function Singles(tokens: seq<Token>): nat {
    if tokens == [] then 0
    else Singles(tokens[..|tokens| - 1]) + if tokens[|tokens| - 1].AnySequence? then 0 else 1
  }

  ghost predicate AcceptsAll(token: Token) {
    forall c :: c != '/' ==> Accepts(token, c, false)
  }

  ghost predicate AcceptsNothing(token: Token) {
    !token.AnySequence? && forall c :: c != '/' ==> !Accepts(token, c, false)
  }

  predicate NoSlash(text: string) {
    '/' !in text
  }

  /** A star, and at most one other token, which accepts every character of a name. */
  ghost predicate IsOpen(tokens: seq<Token>) {
    && AnySequence in tokens && Singles(tokens) <= 1
    && forall i :: 0 <= i < |tokens| && !tokens[i].AnySequence? ==> AcceptsAll(tokens[i])
  }

  lemma {:induction false} SinglesSome(tokens: seq<Token>, i: nat)
    requires i < |tokens| && !tokens[i].AnySequence?
    ensures Singles(tokens) >= 1
  {
    if i < |tokens| - 1 {
      SinglesSome(tokens[..|tokens| - 1], i);
    }
  }

  lemma {:induction false} SinglesAll(tokens: seq<Token>)
    requires AnySequence !in tokens
    ensures Singles(tokens) == |tokens|
  {
    if tokens != [] {
      assert forall t :: t in tokens[..|tokens| - 1] ==> t in tokens;
      SinglesAll(tokens[..|tokens| - 1]);
      assert tokens[|tokens| - 1] in tokens;
    }
  }

  lemma {:induction false} MatchLength(tokens: seq<Token>, text: string)
    requires Matches(tokens, text, false)
    ensures |text| >= Singles(tokens)
    ensures AnySequence !in tokens ==> |text| == |tokens|
  {
    if tokens == [] {
      NothingMatches(text);
    } else {
      var init, last := tokens[..|tokens| - 1], tokens[|tokens| - 1];
      assert tokens == init + [last];
      MatchesSnoc(init, last, text, false);
      var k: nat :| LastPiece(init, last, text, false, k);
      MatchLength(init, text[..k]);
    }
  }

  lemma NothingMatches(text: string)
    ensures Matches([], text, false) <==> text == ""
  {
    NaiveIsMeaning([], text, false);
  }

  lemma Snoc(init: seq<Token>, last: Token, text: string, k: nat)
    requires k <= |text| && Matches(init, text[..k], false) && PieceOf(last, text[k..], false)
    ensures Matches(init + [last], text, false)
  {
    MatchesSnoc(init, last, text, false);
    assert LastPiece(init, last, text, false, k);
  }

  lemma {:induction false} StarsMatch(tokens: seq<Token>, text: string)
    requires tokens != [] && Singles(tokens) == 0 && NoSlash(text)
    ensures Matches(tokens, text, false)
  {
    var init := tokens[..|tokens| - 1];
    assert tokens == init + [AnySequence];
    if init == [] {
      NothingMatches(text[..0]);
      Snoc(init, AnySequence, text, 0);
    } else {
      assert text[..|text|] == text;
      StarsMatch(init, text);
      Snoc(init, AnySequence, text, |text|);
    }
  }

  lemma {:induction false} OpenMatches(tokens: seq<Token>, name: string)
    requires IsOpen(tokens) && IsPart(name)
    ensures Matches(tokens, name, false)
  {
    hide Matches;
    var init, last := tokens[..|tokens| - 1], tokens[|tokens| - 1];
    assert tokens == init + [last];
    if Singles(tokens) == 0 {
      StarsMatch(tokens, name);
    } else if !last.AnySequence? {
      StarsMatch(init, name[..|name| - 1]);
      Snoc(init, last, name, |name| - 1);
    } else if AnySequence in init {
      OpenMatches(init, name);
      assert name[..|name|] == name;
      Snoc(init, last, name, |name|);
    } else {
      SinglesAll(init);
      assert init == [init[0]] && init[0] == tokens[0];
      FirstMatches(init[0], name[..1]);
      Snoc(init, last, name, 1);
    }
  }

  lemma FirstMatches(token: Token, text: string)
    requires !token.AnySequence? && |text| == 1 && Accepts(token, text[0], false)
    ensures Matches([token], text, false)
  {
    NothingMatches(text[..0]);
    Snoc([], token, text, 0);
    assert [] + [token] == [token];
  }

  /** A character that a token has to accept, when the text is as short as it can be. */
  lemma {:induction false} OnlyCharacter(tokens: seq<Token>, i: nat, c: char)
    requires Matches(tokens, [c], false) && i < |tokens| && !tokens[i].AnySequence?
    ensures Accepts(tokens[i], c, false)
  {
    var init, last := tokens[..|tokens| - 1], tokens[|tokens| - 1];
    assert tokens == init + [last];
    MatchesSnoc(init, last, [c], false);
    var k: nat :| LastPiece(init, last, [c], false, k);
    if i < |tokens| - 1 {
      SinglesSome(init, i);
      MatchLength(init, [c][..k]);
      assert [c][..k] == [c];
      OnlyCharacter(init, i, c);
    }
  }

  /** A segment matches every name exactly if it has a star and at most one other token, which accepts every
      character of a name. */
  lemma MatchesEveryNameIff(tokens: seq<Token>)
    ensures MatchesEveryName(Pattern(tokens)) <==> IsOpen(tokens)
  {
    hide Matches;
    if MatchesEveryName(Pattern(tokens)) {
      assert IsPart("x") && IsPart("xx");
      MatchLength(tokens, "x");
      MatchLength(tokens, "xx");
      forall i, c: char | 0 <= i < |tokens| && !tokens[i].AnySequence? && c != '/'
        ensures Accepts(tokens[i], c, false)
      {
        assert IsPart([c]);
        OnlyCharacter(tokens, i, c);
      }
    }
    if IsOpen(tokens) {
      forall name | IsPart(name) ensures Matches(tokens, name, false) {
        OpenMatches(tokens, name);
      }
    }
  }

  lemma {:induction false} HopelessToken(tokens: seq<Token>, i: nat, text: string)
    requires i < |tokens| && AcceptsNothing(tokens[i]) && NoSlash(text)
    ensures !Matches(tokens, text, false)
  {
    var init, last := tokens[..|tokens| - 1], tokens[|tokens| - 1];
    assert tokens == init + [last];
    MatchesSnoc(init, last, text, false);
    if k: nat :| LastPiece(init, last, text, false, k) {
      if i < |tokens| - 1 {
        HopelessToken(init, i, text[..k]);
      }
    }
  }

  lemma {:induction false} SomeText(tokens: seq<Token>) returns (text: string)
    requires forall i :: 0 <= i < |tokens| ==> !AcceptsNothing(tokens[i])
    ensures NoSlash(text) && |text| == |tokens| && Matches(tokens, text, false)
  {
    if tokens == [] {
      text := "";
      NothingMatches(text);
    } else {
      var init, last := tokens[..|tokens| - 1], tokens[|tokens| - 1];
      var front := SomeText(init);
      assert !AcceptsNothing(last);
      var c := 'x';
      if !last.AnySequence? {
        c :| c != '/' && Accepts(last, c, false);
      }
      text := front + [c];
      assert tokens == init + [last] && text[..|front|] == front && text[|front|..] == [c];
      Snoc(init, last, text, |front|);
    }
  }

  /** Tokens match no name exactly if there are none, or one of them accepts no character of a name. */
  lemma MatchesNoNameIff(tokens: seq<Token>)
    ensures MatchesNoName(Pattern(tokens)) <==>
      tokens == [] || exists i :: 0 <= i < |tokens| && AcceptsNothing(tokens[i])
  {
    hide Matches;
    if tokens == [] {
      forall name | IsPart(name) ensures !Matches(tokens, name, false) {
        NothingMatches(name);
      }
    } else if i :| 0 <= i < |tokens| && AcceptsNothing(tokens[i]) {
      forall name | IsPart(name) ensures !Matches(tokens, name, false) {
        HopelessToken(tokens, i, name);
      }
    } else {
      var text := SomeText(tokens);
      assert IsPart(text);
    }
  }

  // ------------------------------------------------------------- tokens of a compiled segment

  /** The literals are characters of the text. */
  ghost predicate LiteralsOf(tokens: seq<Token>, text: string) {
    forall i :: 0 <= i < |tokens| && tokens[i].Literal? ==> tokens[i].c in text
  }

  lemma {:induction false} TokensOfText(chars: string, index: nat)
    requires index <= |chars| && TokensFrom(chars, index).Ok?
    ensures LiteralsOf(TokensFrom(chars, index).value, chars)
    ensures index < |chars| ==> TokensFrom(chars, index).value != []
    decreases |chars| - index
  {
    if index < |chars| {
      var next := if chars[index] == '[' then ClassAt(chars, index).value.1 else index + 1;
      TokensOfText(chars, next);
    }
  }

  lemma {:induction false} CollapseKeepsTokens(tokens: seq<Token>, text: string)
    requires LiteralsOf(tokens, text)
    ensures LiteralsOf(Collapse(tokens), text)
    ensures tokens != [] ==> Collapse(tokens) != []
  {
    if tokens != [] {
      CollapseKeepsTokens(tokens[..|tokens| - 1], text);
    }
  }

  /** A segment of a pattern matches no name exactly if one of its classes accepts no character of a name. */
  lemma SegmentMatchesNoName(part: string)
    requires IsPart(part) && SegmentTokens(part).Ok?
    ensures var tokens := SegmentTokens(part).value;
      MatchesNoName(Pattern(tokens)) <==>
        exists i :: 0 <= i < |tokens| && tokens[i].Class? && AcceptsNothing(tokens[i])
  {
    var tokens := SegmentTokens(part).value;
    TokensOfText(part, 0);
    CollapseKeepsTokens(TokensFrom(part, 0).value, part);
    MatchesNoNameIff(tokens);
    forall i | 0 <= i < |tokens| && AcceptsNothing(tokens[i]) ensures tokens[i].Class? {
      assert Accepts(AnyChar, 'x', false);
      if tokens[i].Literal? {
        assert Accepts(tokens[i], tokens[i].c, false);
      }
    }
  }
}
