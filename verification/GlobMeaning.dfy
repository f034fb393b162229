/** The meaning of pattern texts: what each character, class and slash of a text stands for, and that the
    compiled pattern matches accordingly. */
module GlobMeaning {
  import opened Wrappers
  import Basics
  import opened Text
  import opened GlobTokens
  import opened GlobPatterns
  import opened GlobClasses
  import opened GlobTexts

  // --------------------------------------------------------------- one part of a text

  /** One character of a part, or a class in brackets. */
  datatype Element = Plain(c: char) | Bracket(mark: string, items: seq<Item>)

  predicate Spelled(e: Element) {
    match e
    case Plain(c) => c != '['
    case Bracket(mark, items) =>
      && IsMark(mark) && items != [] && Readable(items, true)
      && (mark == "" ==> ItemText(items[0])[0] != '!' && ItemText(items[0])[0] != '^')
  }

  function ElementText(e: Element): string {
    match e
    case Plain(c) => [c]
    case Bracket(mark, items) => "[" + mark + Spell(items) + "]"
  }

  function ElementsText(es: seq<Element>): string {
    if es == [] then "" else ElementText(es[0]) + ElementsText(es[1..])
  }

  /** A star stands for any run without a slash, a question mark for one character but a slash, a class for one
      of the characters it lists (or does not list), and any other character for itself. */
  ghost predicate StandsIn(e: Element, piece: string) {
    match e
    case Plain(c) =>
      if c == '*' then '/' !in piece
      else if c == '?' then |piece| == 1 && piece[0] != '/'
      else piece == [c]
    case Bracket(mark, items) =>
      && |piece| == 1 && piece[0] != '/'
      && (mark == "" <==> exists i :: 0 <= i < |items| && Lists(items[i], piece[0]))
  }

  ghost predicate Fit(es: seq<Element>, pieces: seq<string>) {
    |pieces| == |es| && forall i :: 0 <= i < |es| ==> StandsIn(es[i], pieces[i])
  }

  ghost predicate NameMeans(es: seq<Element>, name: string) {
    exists pieces :: Fit(es, pieces) && Concat(pieces) == name
  }

  function TokenFor(e: Element): Token {
    match e
    case Plain(c) => TokenOf(c)
    case Bracket(mark, items) => Class(mark != "", RangesOf(items))
  }

  function TokensFor(es: seq<Element>): seq<Token> {
    seq(|es|, i requires 0 <= i < |es| => TokenFor(es[i]))
  }

  lemma ElementAt(before: string, e: Element, after: string)
    requires Spelled(e)
    ensures var chars := before + ElementText(e) + after;
      TokensFrom(chars, |before|) == PutFirst([TokenFor(e)], TokensFrom(chars, |before| + |ElementText(e)|))
  {
    hide Readable, RangesOf, Spell, ClassAt, PutFirst, TokensFrom;
    var chars := before + ElementText(e) + after;
    assert chars[|before|] == ElementText(e)[0];
    if e.Bracket? {
      ClassRoundTrip(before, e.mark, e.items, after, 'a', false);
      BracketRegroup(before, e.mark, Spell(e.items), after);
      ClassStep(chars, |before|, TokenFor(e), |before| + |ElementText(e)|);
    } else {
      PlainStep(chars, |before|);
    }
  }

  lemma PlainStep(chars: string, index: nat)
    requires index < |chars| && chars[index] != '['
    ensures TokensFrom(chars, index) == PutFirst([TokenOf(chars[index])], TokensFrom(chars, index + 1))
  {
  }

  lemma ClassStep(chars: string, index: nat, token: Token, next: nat)
    requires index < |chars| && chars[index] == '[' && ClassAt(chars, index) == Ok((token, next))
    ensures TokensFrom(chars, index) == PutFirst([token], TokensFrom(chars, next))
  {
  }

  lemma BracketRegroup(before: string, mark: string, listed: string, after: string)
    ensures before + "[" + mark + listed + "]" + after == before + ("[" + mark + listed + "]") + after
    ensures |before + "[" + mark| + |listed| + 1 == |before| + |"[" + mark + listed + "]"|
  {
  }

  /** Spelled elements are read back as one token each. */
  lemma {:induction false} TokensAreRead(before: string, es: seq<Element>)
    requires forall e :: e in es ==> Spelled(e)
    ensures TokensFrom(before + ElementsText(es), |before|) == Ok(TokensFor(es))
    decreases |es|
  {
    hide TokensFrom, TokensFor, TokenFor, ElementText, ElementsText, Spelled, PutFirst;
    if es == [] {
      NothingIsRead(before);
    } else {
      ElementsHead(es);
      var text, rest := ElementText(es[0]), es[1..];
      TokensAreRead(before + text, rest);
      Basics.Regroup(before, text, ElementsText(rest));
      ElementAt(before, es[0], ElementsText(rest));
      TokensForTail(es);
      OneMoreToken(TokenFor(es[0]), TokensFor(rest));
    }
  }

  lemma OneMoreToken(token: Token, rest: seq<Token>)
    ensures PutFirst([token], Ok(rest)) == Ok([token] + rest)
  {
  }

  lemma NothingIsRead(before: string)
    ensures TokensFrom(before + ElementsText([]), |before|) == Ok(TokensFor([]))
  {
    assert before + "" == before && TokensFor([]) == [];
  }

  lemma ElementsHead(es: seq<Element>)
    requires es != []
    ensures ElementsText(es) == ElementText(es[0]) + ElementsText(es[1..])
  {
  }

  lemma TokensForTail(es: seq<Element>)
    requires es != []
    ensures TokensFor(es) == [TokenFor(es[0])] + TokensFor(es[1..])
  {
  }

  lemma SamePiece(e: Element, piece: string)
    requires Spelled(e)
    ensures StandsIn(e, piece) <==> PieceOf(TokenFor(e), piece, false)
  {
    if e.Bracket? && |piece| == 1 {
      ClassRoundTrip("", e.mark, e.items, "", piece[0], false);
    }
    if e.Plain? && e.c == '*' && '/' in piece {
      var j :| 0 <= j < |piece| && piece[j] == '/';
      assert !Absorbs(piece[j], false);
    }
  }

  /** A part that is spelled compiles, and matches exactly the names it means. */
  lemma PartMeans(es: seq<Element>, name: string) returns (tokens: seq<Token>)
    requires forall e :: e in es ==> Spelled(e)
    ensures SegmentTokens(ElementsText(es)) == Ok(tokens)
    ensures Matches(tokens, name, false) <==> NameMeans(es, name)
  {
    hide TokensFrom, Collapse, Matches;
    TokensAreRead("", es);
    assert "" + ElementsText(es) == ElementsText(es);
    tokens := Collapse(TokensFor(es));
    CollapseKeepsMeaning(TokensFor(es), name, false);
    TokensMean(es, name);
  }

  lemma TokensMean(es: seq<Element>, name: string)
    requires forall e :: e in es ==> Spelled(e)
    ensures Matches(TokensFor(es), name, false) <==> NameMeans(es, name)
  {
    forall pieces ensures Fit(es, pieces) <==> Denotes(TokensFor(es), pieces, false) {
      if |pieces| == |es| {
        forall i | 0 <= i < |es| ensures StandsIn(es[i], pieces[i]) <==> PieceOf(TokensFor(es)[i], pieces[i], false) {
          SamePiece(es[i], pieces[i]);
        }
      }
    }
  }

  /** A part without an opening bracket is spelled by its characters. */
  function Plains(text: string): (es: seq<Element>)
    ensures |es| == |text| && forall i :: 0 <= i < |text| ==> es[i] == Plain(text[i])
  {
    seq(|text|, i requires 0 <= i < |text| => Plain(text[i]))
  }

  lemma {:induction false} PlainsText(text: string)
    ensures ElementsText(Plains(text)) == text
  {
    if text != "" {
      PlainsText(text[1..]);
      assert Plains(text)[1..] == Plains(text[1..]);
      assert text == [text[0]] + text[1..];
    }
  }

  /** So such a part always compiles, and matches a name exactly if the name is a concatenation of what the
      characters stand for. */
  lemma PlainMeans(text: string, name: string) returns (tokens: seq<Token>)
    requires '[' !in text
    ensures SegmentTokens(text) == Ok(tokens)
    ensures Matches(tokens, name, false) <==> NameMeans(Plains(text), name)
  {
    PlainsText(text);
    tokens := PartMeans(Plains(text), name);
  }

  /** Conversely every part that compiles is spelled. */
  lemma {:induction false} PartIsSpelled(chars: string, index: nat) returns (es: seq<Element>)
    requires index <= |chars| && TokensFrom(chars, index).Ok?
    ensures (forall e :: e in es ==> Spelled(e)) && ElementsText(es) == chars[index..]
    decreases |chars| - index
  {
    hide TokensFrom, Spelled, ElementText, ElementsText;
    if index == |chars| {
      es := [];
      NoElements(chars);
    } else {
      var e, next := FirstElement(chars, index);
      var rest := PartIsSpelled(chars, next);
      es := [e] + rest;
      PutElement(e, rest);
      CutAt(chars, index, next);
    }
  }

  lemma NoElements(chars: string)
    ensures ElementsText([]) == chars[|chars|..]
  {
  }

  lemma CutAt(chars: string, index: nat, next: nat)
    requires index <= next <= |chars|
    ensures chars[index..] == chars[index..next] + chars[next..]
  {
  }

  lemma PutElement(e: Element, rest: seq<Element>)
    ensures ElementsText([e] + rest) == ElementText(e) + ElementsText(rest)
    ensures Spelled(e) && (forall x :: x in rest ==> Spelled(x)) ==> forall x :: x in [e] + rest ==> Spelled(x)
  {
    assert ([e] + rest)[1..] == rest;
    hide Spelled;
  }

  lemma FirstElement(chars: string, index: nat) returns (e: Element, next: nat)
    requires index < |chars| && TokensFrom(chars, index).Ok?
    ensures Spelled(e) && index < next <= |chars| && ElementText(e) == chars[index..next]
    ensures TokensFrom(chars, next).Ok?
  {
    if chars[index] == '[' {
      next := ClassAt(chars, index).value.1;
      hide ClassAt, Spelled, ElementText;
      e := ClassElement(chars, index);
    } else {
      e, next := Plain(chars[index]), index + 1;
    }
  }

  lemma ClassElement(chars: string, index: nat) returns (e: Element)
    requires index < |chars| && chars[index] == '[' && ClassAt(chars, index).Ok?
    ensures Spelled(e) && ElementText(e) == chars[index..ClassAt(chars, index).value.1]
  {
    var negated := NegatedAt(chars, index);
    var mark := if negated then [chars[index + 1]] else "";
    var start := index + 1 + |mark|;
    var next := RangesFrom(chars, start, true).value.next;
    var items := ClassIsSpelled(chars, start, true);
    e := Bracket(mark, items);
    hide RangesFrom, Readable, Spell, RangesOf;
    FirstListed(chars, start, next, items);
    Opened(chars, index, start, mark);
    assert chars[index..next] == chars[index..start] + chars[start..next];
    Basics.Regroup("[" + mark, Spell(items), "]");
  }

  lemma Opened(chars: string, index: nat, start: nat, mark: string)
    requires index < start <= |chars| && chars[index] == '[' && start == index + 1 + |mark|
    requires mark == "" || (|mark| == 1 && chars[index + 1] == mark[0])
    ensures chars[index..start] == "[" + mark
  {
  }

  lemma FirstListed(chars: string, start: nat, next: nat, items: seq<Item>)
    requires start < next <= |chars| && items != [] && chars[start..next] == Spell(items) + "]"
    ensures chars[start] == ItemText(items[0])[0]
  {
    assert chars[start] == chars[start..next][0];
  }

  // ------------------------------------------------------------------- whole patterns

  /** A part of a pattern between slashes. */
  datatype Part = AnyDepth | Named(elements: seq<Element>)

  function PartText(part: Part): string {
    match part
    case AnyDepth => "**"
    case Named(es) => ElementsText(es)
  }

  predicate SpelledPart(part: Part) {
    match part
    case AnyDepth => true
    case Named(es) =>
      && (forall e :: e in es ==> Spelled(e))
      && ElementsText(es) != "" && ElementsText(es) != "**"
      && '/' !in ElementsText(es) && '\\' !in ElementsText(es)
  }

  function Joined(parts: seq<Part>): string
    requires parts != []
  {
    if |parts| == 1 then PartText(parts[0]) else PartText(parts[0]) + "/" + Joined(parts[1..])
  }

  function PatternText(leading: bool, parts: seq<Part>, trailing: bool): string
    requires parts != []
  {
    (if leading then "/" else "") + Joined(parts) + (if trailing then "/" else "")
  }

  /** Names of a path match a list of parts: `**` stands for any number of names, another part for one. */
  ghost predicate PartsMean(parts: seq<Part>, names: seq<string>) {
    if parts == [] then names == []
    else
      match parts[0]
      case AnyDepth => exists k :: 0 <= k <= |names| && PartsMean(parts[1..], names[k..])
      case Named(es) => names != [] && NameMeans(es, names[0]) && PartsMean(parts[1..], names[1..])
  }

  function Texts(parts: seq<Part>): (r: seq<string>)
    ensures |r| == |parts| && forall i :: 0 <= i < |parts| ==> r[i] == PartText(parts[i])
  {
    seq(|parts|, i requires 0 <= i < |parts| => PartText(parts[i]))
  }

  ghost predicate Agree(segments: seq<Segment>, parts: seq<Part>) {
    forall names :: SegmentsMatch(segments, names) <==> PartsMean(parts, names)
  }

  lemma NothingAgrees()
    ensures Agree([], [])
  {
  }

  lemma AnyAgrees(segments: seq<Segment>, parts: seq<Part>)
    requires Agree(segments, parts)
    ensures Agree([AnyDirectories] + segments, [AnyDepth] + parts)
  {
    assert ([AnyDirectories] + segments)[1..] == segments && ([AnyDepth] + parts)[1..] == parts;
  }

  lemma AnyTwice(segments: seq<Segment>, parts: seq<Part>)
    requires Agree(segments, [AnyDepth] + parts)
    ensures Agree(segments, [AnyDepth] + ([AnyDepth] + parts))
  {
    var one := [AnyDepth] + parts;
    var two := [AnyDepth] + one;
    assert one[1..] == parts && two[1..] == one;
    forall names ensures PartsMean(one, names) <==> PartsMean(two, names) {
      assert names[0..] == names;
      if PartsMean(two, names) {
        var k :| 0 <= k <= |names| && PartsMean(one, names[k..]);
        var j :| 0 <= j <= |names[k..]| && PartsMean(parts, names[k..][j..]);
        assert names[k..][j..] == names[k + j..];
      }
    }
  }

  lemma NamedAgrees(tokens: seq<Token>, es: seq<Element>, segments: seq<Segment>, parts: seq<Part>)
    requires Agree(segments, parts)
    requires forall name :: Matches(tokens, name, false) <==> NameMeans(es, name)
    ensures Agree([Pattern(tokens)] + segments, [Named(es)] + parts)
  {
    assert ([Pattern(tokens)] + segments)[1..] == segments && ([Named(es)] + parts)[1..] == parts;
  }

  lemma NamedCompiles(es: seq<Element>) returns (tokens: seq<Token>)
    requires forall e :: e in es ==> Spelled(e)
    ensures SegmentTokens(ElementsText(es)) == Ok(tokens)
    ensures forall name :: Matches(tokens, name, false) <==> NameMeans(es, name)
  {
    hide SegmentTokens, Matches, NameMeans, Spelled;
    tokens := PartMeans(es, "");
    forall name ensures Matches(tokens, name, false) <==> NameMeans(es, name) {
      var same := PartMeans(es, name);
    }
  }

  lemma TextsTail(parts: seq<Part>)
    requires parts != []
    ensures Texts(parts)[1..] == Texts(parts[1..])
  {
  }

  lemma CompileNamed(first: seq<Segment>, texts: seq<string>, tokens: seq<Token>, rest: seq<Segment>)
    requires texts != [] && texts[0] != "" && texts[0] != "**" && SegmentTokens(texts[0]) == Ok(tokens)
    requires CompileParts([], texts[1..]) == Ok(rest)
    ensures CompileParts(first, texts) == Ok(first + ([Pattern(tokens)] + rest))
  {
    hide SegmentTokens;
    var before := first + [Pattern(tokens)];
    CompileBehind(before, [], texts[1..]);
    assert before + [] == before;
    Basics.Regroup(first, [Pattern(tokens)], rest);
  }

  lemma CompileAnyDepth(first: seq<Segment>, texts: seq<string>)
    requires (first == [] || first == [AnyDirectories]) && texts != [] && texts[0] == "**"
    ensures CompileParts(first, texts) == CompileParts([AnyDirectories], texts[1..])
  {
    assert PushAnyDirectories(first) == [AnyDirectories];
  }

  /** What the parts compile to, alone or behind a `**`. */
  lemma {:induction false} PartsCompile(parts: seq<Part>, any: bool) returns (segments: seq<Segment>)
    requires forall part :: part in parts ==> SpelledPart(part)
    ensures CompileParts(if any then [AnyDirectories] else [], Texts(parts)) == Ok(segments)
    ensures Agree(segments, if any then [AnyDepth] + parts else parts)
    decreases |parts|
  {
    var first := if any then [AnyDirectories] else [];
    if parts == [] {
      segments := first;
      NothingAgrees();
      AnyAgrees([], []);
      assert Texts([]) == [] && [AnyDirectories] + [] == [AnyDirectories];
    } else {
      hide CompileParts, Agree, SpelledPart, Texts, SegmentTokens, Matches, NameMeans;
      TextsTail(parts);
      var head, rest := parts[0], parts[1..];
      assert parts == [head] + rest;
      match head
      case AnyDepth =>
        segments := PartsCompile(rest, true);
        CompileAnyDepth(first, Texts(parts));
        AnyTwice(segments, rest);
      case Named(es) =>
        NamedPart(head);
        var tokens := NamedCompiles(es);
        var after := PartsCompile(rest, false);
        CompileNamed(first, Texts(parts), tokens, after);
        NamedAgrees(tokens, es, after, rest);
        AnyAgrees([Pattern(tokens)] + after, parts);
        segments := first + ([Pattern(tokens)] + after);
        Basics.NothingAfter([Pattern(tokens)] + after);
    }
  }

  lemma NamedPart(part: Part)
    requires SpelledPart(part) && part.Named?
    ensures forall e :: e in part.elements ==> Spelled(e)
    ensures PartText(part) == ElementsText(part.elements) != "" && PartText(part) != "**"
  {
  }

  // ---------------------------------------------------------------- the text as a whole

  ghost predicate Enclosed(text: string) {
    text != "" && text[0] != '/' && text[|text| - 1] != '/' && '\\' !in text
  }

  lemma {:induction false} JoinedEnds(parts: seq<Part>)
    requires parts != [] && forall part :: part in parts ==> SpelledPart(part)
    ensures Enclosed(Joined(parts)) && ('/' in Joined(parts) <==> |parts| > 1)
  {
    hide SpelledPart, PartText;
    PartEnds(parts[0]);
    if |parts| > 1 {
      JoinedEnds(parts[1..]);
    }
  }

  lemma {:induction false} JoinedParts(parts: seq<Part>)
    requires parts != [] && forall part :: part in parts ==> SpelledPart(part)
    ensures PathParts(Joined(parts)) == Texts(parts)
  {
    hide PathParts, SpelledPart, PartText, Texts;
    PartEnds(parts[0]);
    SinglePart(PartText(parts[0]));
    TextsHead(parts);
    if |parts| > 1 {
      JoinedParts(parts[1..]);
      PathConcat(PartText(parts[0]), Joined(parts[1..]));
    }
  }

  lemma TextsHead(parts: seq<Part>)
    requires parts != []
    ensures Texts(parts) == [PartText(parts[0])] + Texts(parts[1..])
    ensures |parts| == 1 ==> Texts(parts) == [PartText(parts[0])]
  {
  }

  lemma PartEnds(part: Part)
    requires SpelledPart(part)
    ensures PartText(part) != "" && '/' !in PartText(part) && '\\' !in PartText(part)
  {
  }

  lemma TextShape(leading: bool, joined: string, trailing: bool)
    requires Enclosed(joined)
    ensures var text := (if leading then "/" else "") + joined + (if trailing then "/" else "");
      && Slashed(text) == text
      && PathParts(text) == PathParts(joined)
      && (CompiledAnchored(text) <==> leading || '/' in joined)
      && (EndsWithSlash(text) <==> trailing)
  {
    hide PathParts;
    var front := if leading then "/" else "";
    var text := front + joined + (if trailing then "/" else "");
    assert Slashed(text) == text;
    ShapeParts(leading, joined, trailing);
    Popped(front + joined, trailing);
    assert PopSlashes(text) == front + joined;
    assert (front + joined)[|front|..] == joined;
    assert TrimStartOf(joined, '/') == joined;
  }

  lemma Popped(s: string, trailing: bool)
    requires s != "" && s[|s| - 1] != '/'
    ensures PopSlashes(s + (if trailing then "/" else "")) == s
  {
    if trailing {
      assert (s + "/")[..|s|] == s;
    } else {
      assert s + "" == s;
    }
  }

  lemma ShapeParts(leading: bool, joined: string, trailing: bool)
    ensures PathParts((if leading then "/" else "") + joined + (if trailing then "/" else "")) == PathParts(joined)
  {
    hide Split, NonEmpty;
    var front := (if leading then "/" else "") + joined;
    if trailing {
      LastSeparator(front, front + "/", '/');
    } else {
      assert front + "" == front;
    }
    if leading {
      FirstSeparator(joined, front, '/');
    } else {
      assert "" + joined == joined;
    }
  }

  /** The parts as they are matched: a text that is one part without a leading slash matches at any depth. */
  ghost function Searched(leading: bool, parts: seq<Part>): seq<Part> {
    if !leading && |parts| == 1 then [AnyDepth] + parts else parts
  }

  /** The path or, with a trailing slash only, one of its directories matches the parts. */
  ghost predicate PatternMeans(leading: bool, parts: seq<Part>, trailing: bool, path: string) {
    var names := PathParts(path);
    exists length :: 1 <= length <= |names| - (if trailing then 1 else 0)
                     && PartsMean(Searched(leading, parts), names[..length])
  }

  /** A text of spelled parts, with or without slashes around it, compiles and matches exactly the paths it
      means. */
  lemma TextMeans(leading: bool, parts: seq<Part>, trailing: bool, path: string) returns (glob: Glob)
    requires parts != [] && forall part :: part in parts ==> SpelledPart(part)
    requires Tight(PatternText(leading, parts, trailing))
    ensures Compile(PatternText(leading, parts, trailing)) == Ok(glob)
    ensures Covers(glob, path) <==> PatternMeans(leading, parts, trailing, path)
  {
    hide Compile, CompileParts, PathParts, SpelledPart, PartsMean, SegmentsMatch, Trim, CompiledAnchored, Slashed;
    hide Joined, Texts, EndsWithSlash;
    var text := PatternText(leading, parts, trailing);
    TrimSolid(text);
    JoinedEnds(parts);
    JoinedParts(parts);
    TextShape(leading, Joined(parts), trailing);
    CompileIsBuilt(text);
    var segments := PartsCompile(parts, !leading && |parts| == 1);
    glob := Glob(text, segments, trailing);
    assert |Texts(parts)| == |parts|;
  }

  /** Only the source of a pattern shows the whitespace around it. */
  lemma SameTrim(wide: string, text: string)
    requires Trim(wide) == Trim(text)
    ensures Compile(wide) ==
      match Compile(text)
      case Ok(glob) => Ok(glob.(source := wide))
      case Err(e) => Err(e)
  {
    hide Trim, Replace, PopSlashes, TrimStartOf, EndsWithSlash, StartsWithSlash, CompileParts, Split;
  }

  /** Whitespace around a pattern changes nothing, and is no pattern by itself. */
  lemma SpaceAround(before: string, text: string, after: string)
    requires Blank(before) && Blank(after) && Tight(text)
    ensures Compile(before) == Err(PatternEmpty)
    ensures Compile(before + text + after) ==
      match Compile(text)
      case Ok(glob) => Ok(glob.(source := before + text + after))
      case Err(e) => Err(e)
  {
    TrimBlank(before);
    TrimAround(before, text, after);
    TrimSolid(text);
    hide Trim, Tight, Blank, CompileBody;
    SameTrim(before + text + after, text);
  }

  // ------------------------------------------------------------------------- an example

  /** Without wildcards. */
  predicate Ordinary(text: string) {
    forall i :: 0 <= i < |text| ==> text[i] != '*' && text[i] != '?' && text[i] != '['
  }

  lemma {:induction false} OrdinaryPieces(text: string, pieces: seq<string>)
    requires Ordinary(text) && Fit(Plains(text), pieces)
    ensures Concat(pieces) == text
  {
    if text != "" {
      assert Plains(text)[0] == Plain(text[0]);
      assert Plains(text)[1..] == Plains(text[1..]);
      assert Fit(Plains(text[1..]), pieces[1..]);
      OrdinaryPieces(text[1..], pieces[1..]);
      assert text == [text[0]] + text[1..];
    }
  }

  lemma OrdinaryFits(text: string) returns (pieces: seq<string>)
    requires Ordinary(text)
    ensures Fit(Plains(text), pieces)
  {
    pieces := seq(|text|, i requires 0 <= i < |text| => [text[i]]);
  }

  predicate EndsWith(name: string, ending: string) {
    |ending| <= |name| && name[|name| - |ending|..] == ending
  }

  /** A star and ordinary characters mean the slash-free names that end in those characters. */
  lemma StarEnding(ending: string, name: string)
    requires Ordinary(ending) && '/' !in name
    ensures NameMeans(Plains("*" + ending), name) <==> EndsWith(name, ending)
  {
    var es := Plains("*" + ending);
    assert es[1..] == Plains(ending);
    if NameMeans(es, name) {
      var pieces :| Fit(es, pieces) && Concat(pieces) == name;
      assert Fit(Plains(ending), pieces[1..]);
      OrdinaryPieces(ending, pieces[1..]);
    }
    if EndsWith(name, ending) {
      var rest := OrdinaryFits(ending);
      OrdinaryPieces(ending, rest);
      StarFits(ending, name[..|name| - |ending|], rest);
    }
  }

  lemma StarFits(ending: string, front: string, rest: seq<string>)
    requires Fit(Plains(ending), rest) && '/' !in front
    ensures NameMeans(Plains("*" + ending), front + Concat(rest))
  {
    hide Concat;
    var es, pieces := Plains("*" + ending), [front] + rest;
    assert pieces[1..] == rest && es[1..] == Plains(ending);
    assert Fit(es, pieces);
    ConcatHead(pieces);
  }

  lemma ConcatHead(pieces: seq<string>)
    requires pieces != []
    ensures Concat(pieces) == pieces[0] + Concat(pieces[1..])
  {
  }

  lemma StarPart(ending: string) returns (part: Part)
    requires Ordinary(ending) && ending != "" && '/' !in ending && '\\' !in ending
    ensures part == Named(Plains("*" + ending)) && SpelledPart(part)
    ensures PatternText(false, [part], false) == "*" + ending
  {
    part := Named(Plains("*" + ending));
    PlainsText("*" + ending);
    assert ending[0] == ("*" + ending)[1];
  }

  lemma PathNames(path: string)
    ensures forall i :: 0 <= i < |PathParts(path)| ==> '/' !in PathParts(path)[i]
  {
    SplitParts(path, '/');
    NonEmptyMembers(Split(path, '/'));
    forall i | 0 <= i < |PathParts(path)| ensures '/' !in PathParts(path)[i] {
      assert PathParts(path)[i] in PathParts(path);
    }
  }

  /** So a star and an ordinary ending, such as `*.pem`, match the paths in which some name ends so. */
  lemma StarEndingMatches(ending: string, path: string) returns (glob: Glob)
    requires Ordinary(ending) && ending != "" && '/' !in ending && '\\' !in ending
    requires !IsWhitespace(ending[|ending| - 1])
    ensures Compile("*" + ending) == Ok(glob)
    ensures Covers(glob, path) <==>
      exists i :: 0 <= i < |PathParts(path)| && EndsWith(PathParts(path)[i], ending)
  {
    hide Compile, Covers, PathParts, PartsMean, NameMeans, EndsWith, SpelledPart, Ordinary, PatternText;
    var part := StarPart(ending);
    glob := TextMeans(false, [part], false, path);
    OnePart(part, PathParts(path));
    PathNames(path);
    forall i | 0 <= i < |PathParts(path)|
      ensures NameMeans(part.elements, PathParts(path)[i]) <==> EndsWith(PathParts(path)[i], ending)
    {
      StarEnding(ending, PathParts(path)[i]);
    }
  }

  lemma {:induction false} NonEmptyMembers(parts: seq<string>)
    ensures forall part :: part in NonEmpty(parts) ==> part in parts
  {
    if parts != [] {
      NonEmptyMembers(parts[1..]);
    }
  }

  lemma OnePart(part: Part, names: seq<string>)
    requires part.Named?
    ensures (exists length :: 1 <= length <= |names| && PartsMean([AnyDepth] + [part], names[..length])) <==>
      exists i :: 0 <= i < |names| && NameMeans(part.elements, names[i])
  {
    var one, two := [part], [AnyDepth] + [part];
    assert two[1..] == one && one[1..] == [];
    if length :| 1 <= length <= |names| && PartsMean(two, names[..length]) {
      var k :| 0 <= k <= length && PartsMean(one, names[..length][k..]);
      assert PartsMean([], names[..length][k..][1..]);
      assert names[..length][k..][0] == names[k];
    }
    if i :| 0 <= i < |names| && NameMeans(part.elements, names[i]) {
      assert names[..i + 1][i..] == [names[i]];
      assert PartsMean([], names[..i + 1][i..][1..]);
      assert PartsMean(one, names[..i + 1][i..]);
      assert PartsMean(two, names[..i + 1]);
    }
  }
}
