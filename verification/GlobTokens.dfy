/** Wildcard tokens of one path segment: their meaning, and the matcher that remembers only the
    last star. */
module GlobTokens {

  datatype Token =
    | Literal(c: char)
    | AnyChar
    | AnySequence
    | Class(negated: bool, ranges: seq<(char, char)>)

  predicate InRanges(c: char, ranges: seq<(char, char)>) {
    exists i :: 0 <= i < |ranges| && ranges[i].0 <= c <= ranges[i].1
  }

  /** Whether a token other than a star accepts one character. */
  predicate Accepts(token: Token, c: char, starCrossesSlash: bool) {
    match token
    case Literal(l) => l == c
    case AnyChar => c != '/' || starCrossesSlash
    case AnySequence => false
    case Class(negated, ranges) => c != '/' && InRanges(c, ranges) != negated
  }

  predicate Absorbs(c: char, starCrossesSlash: bool) {
    starCrossesSlash || c != '/'
  }

  // ----------------------------------------------------------------- the meaning

  /** A star stands for any piece it may absorb, every other token for one accepted character. */
  ghost predicate PieceOf(token: Token, piece: string, cross: bool) {
    if token.AnySequence? then forall j :: 0 <= j < |piece| ==> Absorbs(piece[j], cross)
    else |piece| == 1 && Accepts(token, piece[0], cross)
  }

  /** The text is a concatenation of pieces, one per token. */
  ghost predicate Denotes(tokens: seq<Token>, pieces: seq<string>, cross: bool) {
    |pieces| == |tokens| && forall i :: 0 <= i < |tokens| ==> PieceOf(tokens[i], pieces[i], cross)
  }

  ghost function Concat(pieces: seq<string>): string {
    if pieces == [] then "" else pieces[0] + Concat(pieces[1..])
  }

  ghost predicate Matches(tokens: seq<Token>, text: string, cross: bool) {
    exists pieces :: Denotes(tokens, pieces, cross) && Concat(pieces) == text
  }

  // ------------------------------------------------------- the naive recursion

  /** Whether the tokens from `t` on match the text from `s` on, trying every extent of every star. */
  predicate From(tokens: seq<Token>, t: nat, text: string, s: nat, cross: bool)
    requires t <= |tokens| && s <= |text|
    decreases |tokens| - t + |text| - s
  {
    if t == |tokens| then s == |text|
    else if tokens[t].AnySequence? then
      From(tokens, t + 1, text, s, cross)
      || (s < |text| && Absorbs(text[s], cross) && From(tokens, t, text, s + 1, cross))
    else s < |text| && Accepts(tokens[t], text[s], cross) && From(tokens, t + 1, text, s + 1, cross)
  }

  lemma {:induction false} FromHasPieces(tokens: seq<Token>, t: nat, text: string, s: nat, cross: bool)
    requires t <= |tokens| && s <= |text| && From(tokens, t, text, s, cross)
    ensures Matches(tokens[t..], text[s..], cross)
    decreases |tokens| - t + |text| - s
  {
    if t == |tokens| {
      assert Denotes([], [], cross) && Concat([]) == text[s..];
    } else {
      var rest := tokens[t + 1..];
      assert tokens[t..] == [tokens[t]] + rest;
      if tokens[t].AnySequence? && From(tokens, t + 1, text, s, cross) {
        FromHasPieces(tokens, t + 1, text, s, cross);
        var p :| Denotes(rest, p, cross) && Concat(p) == text[s..];
        PutInFront(tokens[t], rest, "", p, cross);
      } else if tokens[t].AnySequence? {
        FromHasPieces(tokens, t, text, s + 1, cross);
        var p :| Denotes(tokens[t..], p, cross) && Concat(p) == text[s + 1..];
        assert text[s..] == [text[s]] + text[s + 1..];
        assert p == [p[0]] + p[1..];
        var q := [[text[s]] + p[0]] + p[1..];
        assert Denotes(tokens[t..], q, cross);
        assert q[1..] == p[1..];
        assert Concat(q) == [text[s]] + p[0] + Concat(p[1..]);
      } else {
        FromHasPieces(tokens, t + 1, text, s + 1, cross);
        var p :| Denotes(rest, p, cross) && Concat(p) == text[s + 1..];
        PutInFront(tokens[t], rest, [text[s]], p, cross);
        assert text[s..] == [text[s]] + text[s + 1..];
      }
    }
  }

  lemma PutInFront(token: Token, rest: seq<Token>, piece: string, p: seq<string>, cross: bool)
    requires Denotes(rest, p, cross)
    requires if token.AnySequence? then piece == "" else |piece| == 1 && Accepts(token, piece[0], cross)
    ensures Matches([token] + rest, piece + Concat(p), cross)
  {
    var q := [piece] + p;
    assert q[1..] == p;
    assert Denotes([token] + rest, q, cross);
  }

  lemma {:induction false} PiecesGiveFrom(tokens: seq<Token>, t: nat, text: string, s: nat, cross: bool,
                                          pieces: seq<string>)
    requires t <= |tokens| && s <= |text|
    requires Denotes(tokens[t..], pieces, cross) && Concat(pieces) == text[s..]
    ensures From(tokens, t, text, s, cross)
    decreases |tokens| - t + |text| - s
  {
    if t < |tokens| {
      var rest := pieces[1..];
      assert tokens[t..][0] == tokens[t];
      if pieces[0] == "" {
        assert Denotes(tokens[t + 1..], rest, cross) by {
          assert forall i :: 0 <= i < |rest| ==> rest[i] == pieces[i + 1] && tokens[t + 1..][i] == tokens[t..][i + 1];
        }
        assert Concat(rest) == text[s..];
        PiecesGiveFrom(tokens, t + 1, text, s, cross, rest);
      } else {
        assert text[s..][0] == pieces[0][0] && text[s] == text[s..][0];
        assert text[s..][1..] == text[s + 1..];
        if tokens[t].AnySequence? {
          var q := [pieces[0][1..]] + rest;
          assert q[1..] == rest;
          assert Denotes(tokens[t..], q, cross);
          assert Concat(q) == Concat(pieces)[1..];
          PiecesGiveFrom(tokens, t, text, s + 1, cross, q);
        } else {
          assert Denotes(tokens[t + 1..], rest, cross) by {
            assert forall i :: 0 <= i < |rest| ==> rest[i] == pieces[i + 1] && tokens[t + 1..][i] == tokens[t..][i + 1];
          }
          assert Concat(rest) == Concat(pieces)[1..];
          PiecesGiveFrom(tokens, t + 1, text, s + 1, cross, rest);
        }
      }
    }
  }

  /** The recursion decides the meaning. */
  lemma NaiveIsMeaning(tokens: seq<Token>, text: string, cross: bool)
    ensures From(tokens, 0, text, 0, cross) <==> Matches(tokens, text, cross)
  {
    assert tokens[0..] == tokens && text[0..] == text;
    if From(tokens, 0, text, 0, cross) {
      FromHasPieces(tokens, 0, text, 0, cross);
    }
    if Matches(tokens, text, cross) {
      var p :| Denotes(tokens, p, cross) && Concat(p) == text;
      PiecesGiveFrom(tokens, 0, text, 0, cross, p);
    }
  }

  // ------------------------------------------------ what remembering one star keeps

  /** The tokens after the star at `b`, up to `t`, accept the characters from `s` on one by one. */
  ghost predicate SegmentAt(tokens: seq<Token>, b: nat, t: nat, text: string, s: nat, cross: bool) {
    && b < t <= |tokens|
    && s + (t - b - 1) <= |text|
    && forall i :: b < i < t ==> !tokens[i].AnySequence? && Accepts(tokens[i], text[s + (i - b - 1)], cross)
  }

  lemma {:induction false} SegmentSteps(tokens: seq<Token>, b: nat, t: nat, text: string, s: nat, cross: bool)
    requires SegmentAt(tokens, b, t, text, s, cross)
    ensures From(tokens, b + 1, text, s, cross) <==> From(tokens, t, text, s + (t - b - 1), cross)
    decreases t
  {
    if t > b + 1 {
      SegmentSteps(tokens, b, t - 1, text, s, cross);
    }
  }

  /** A star-free run of tokens that matches at all matches one by one. */
  lemma {:induction false} FromGivesSegment(tokens: seq<Token>, b: nat, t: nat, text: string, s: nat, cross: bool)
    requires b < t <= |tokens| && s <= |text| && From(tokens, b + 1, text, s, cross)
    requires forall i :: b < i < t ==> !tokens[i].AnySequence?
    ensures SegmentAt(tokens, b, t, text, s, cross)
    decreases t
  {
    if t > b + 1 {
      FromGivesSegment(tokens, b, t - 1, text, s, cross);
      SegmentSteps(tokens, b, t - 1, text, s, cross);
    }
  }

  lemma {:induction false} StarExtent(tokens: seq<Token>, b: nat, text: string, s: nat, cross: bool) returns (k: nat)
    requires b < |tokens| && tokens[b].AnySequence? && s <= |text| && From(tokens, b, text, s, cross)
    ensures s + k <= |text| && From(tokens, b + 1, text, s + k, cross)
    ensures forall j :: s <= j < s + k ==> Absorbs(text[j], cross)
    decreases |text| - s
  {
    if From(tokens, b + 1, text, s, cross) {
      k := 0;
    } else {
      k := StarExtent(tokens, b, text, s + 1, cross);
      k := k + 1;
    }
  }

  lemma {:induction false} StarAbsorbs(tokens: seq<Token>, b: nat, text: string, s: nat, k: nat, cross: bool)
    requires b < |tokens| && tokens[b].AnySequence? && s + k <= |text|
    requires forall j :: s <= j < s + k ==> Absorbs(text[j], cross)
    requires From(tokens, b, text, s + k, cross)
    ensures From(tokens, b, text, s, cross)
    decreases k
  {
    if k > 0 {
      StarAbsorbs(tokens, b, text, s + 1, k - 1, cross);
    }
  }

  /** When a run of tokens fits at two places a slash-free distance apart, what lies between the
      ends is slash-free too. */
  lemma {:induction false} ShiftAbsorbs(tokens: seq<Token>, b: nat, t: nat, text: string, s: nat, k: nat, cross: bool,
                                        j: nat)
    requires SegmentAt(tokens, b, t, text, s, cross) && SegmentAt(tokens, b, t, text, s + k, cross)
    requires forall i :: s <= i < s + k ==> Absorbs(text[i], cross)
    requires k > 0 && s <= j < s + k + (t - b - 1)
    ensures Absorbs(text[j], cross)
    decreases j
  {
    if j >= s + k && !cross {
      ShiftAbsorbs(tokens, b, t, text, s, k, cross, j - k);
      var i := j - s - k + b + 1;
      assert Accepts(tokens[i], text[s + (i - b - 1)], cross);
      assert Accepts(tokens[i], text[s + k + (i - b - 1)], cross);
    }
  }

  /** An earlier star cannot help once a later one is reached: whatever the earlier could absorb,
      the later can. */
  lemma ForgetStar(tokens: seq<Token>, b: nat, t: nat, text: string, s: nat, cross: bool)
    requires SegmentAt(tokens, b, t, text, s, cross) && t < |tokens|
    requires tokens[b].AnySequence? && tokens[t].AnySequence?
    ensures From(tokens, b, text, s, cross) <==> From(tokens, t, text, s + (t - b - 1), cross)
  {
    var e := s + (t - b - 1);
    SegmentSteps(tokens, b, t, text, s, cross);
    if From(tokens, b, text, s, cross) {
      var k := StarExtent(tokens, b, text, s, cross);
      FromGivesSegment(tokens, b, t, text, s + k, cross);
      SegmentSteps(tokens, b, t, text, s + k, cross);
      forall j | e <= j < e + k ensures Absorbs(text[j], cross) {
        ShiftAbsorbs(tokens, b, t, text, s, k, cross, j);
      }
      StarAbsorbs(tokens, t, text, e, k, cross);
    }
  }

  predicate AllStars(tokens: seq<Token>) {
    forall i :: 0 <= i < |tokens| ==> tokens[i].AnySequence?
  }

  lemma {:induction false} AtEnd(tokens: seq<Token>, t: nat, text: string, cross: bool)
    requires t <= |tokens|
    ensures From(tokens, t, text, |text|, cross) <==> AllStars(tokens[t..])
    decreases |tokens| - t
  {
    if t < |tokens| {
      AtEnd(tokens, t + 1, text, cross);
      assert tokens[t..] == [tokens[t]] + tokens[t + 1..];
    }
  }

  /** With the text used up, the last star cannot have absorbed more than it did. */
  lemma EndOfText(tokens: seq<Token>, b: nat, t: nat, text: string, s: nat, cross: bool)
    requires SegmentAt(tokens, b, t, text, s, cross) && s + (t - b - 1) == |text| && tokens[b].AnySequence?
    ensures From(tokens, b, text, s, cross) <==> From(tokens, t, text, |text|, cross)
  {
    SegmentSteps(tokens, b, t, text, s, cross);
    if From(tokens, b, text, s, cross) {
      var k := StarExtent(tokens, b, text, s, cross);
      FromGivesSegment(tokens, b, t, text, s + k, cross);
    }
  }

  lemma OneStep(tokens: seq<Token>, t: nat, text: string, s: nat, cross: bool)
    requires t <= |tokens| && s < |text|
    ensures From(tokens, t, text, s, cross) <==>
      && t < |tokens|
      && if tokens[t].AnySequence?
         then From(tokens, t + 1, text, s, cross) || (Absorbs(text[s], cross) && From(tokens, t, text, s + 1, cross))
         else Accepts(tokens[t], text[s], cross) && From(tokens, t + 1, text, s + 1, cross)
  {
  }

  datatype Backtrack = NoStar | Star(token: nat, position: nat)

  /** Iterative matching that goes back to the last star only. */
  method MatchTokens(tokens: seq<Token>, text: string, starCrossesSlash: bool) returns (matched: bool)
    ensures matched <==> Matches(tokens, text, starCrossesSlash)
  {
    NaiveIsMeaning(tokens, text, starCrossesSlash);
    hide Matches, From, Accepts;
    ghost var goal := From(tokens, 0, text, 0, starCrossesSlash);
    var t: nat, s: nat := 0, 0;
    var backtrack := NoStar;
    while s < |text|
      invariant t <= |tokens| && s <= |text|
      invariant backtrack.NoStar? ==> (goal <==> From(tokens, t, text, s, starCrossesSlash))
      invariant backtrack.Star? ==>
        && SegmentAt(tokens, backtrack.token, t, text, backtrack.position, starCrossesSlash)
        && tokens[backtrack.token].AnySequence? && s == backtrack.position + (t - backtrack.token - 1)
        && (goal <==> From(tokens, backtrack.token, text, backtrack.position, starCrossesSlash))
      decreases if backtrack.NoStar? then |tokens| + 1 else |tokens| - backtrack.token,
                if backtrack.NoStar? then 0 else |text| - backtrack.position, |tokens| - t
    {
      OneStep(tokens, t, text, s, starCrossesSlash);
      if t < |tokens| && tokens[t].AnySequence? {
        if backtrack.Star? {
          ForgetStar(tokens, backtrack.token, t, text, backtrack.position, starCrossesSlash);
        }
        backtrack := Star(t, s);
        t := t + 1;
      } else if t < |tokens| && Accepts(tokens[t], text[s], starCrossesSlash) {
        t, s := t + 1, s + 1;
      } else if backtrack.Star? {
        SegmentSteps(tokens, backtrack.token, t, text, backtrack.position, starCrossesSlash);
        OneStep(tokens, backtrack.token, text, backtrack.position, starCrossesSlash);
        if !starCrossesSlash && text[backtrack.position] == '/' {
          return false;
        }
        backtrack := Star(backtrack.token, backtrack.position + 1);
        t, s := backtrack.token + 1, backtrack.position;
      } else {
        return false;
      }
    }
    AtEnd(tokens, t, text, starCrossesSlash);
    if backtrack.Star? {
      EndOfText(tokens, backtrack.token, t, text, backtrack.position, starCrossesSlash);
    }
    matched := AllStars(tokens[t..]);
  }

  // ----------------------------------------------------------- patterns of identifiers

  /** What one character of a simple pattern stands for: slashes are ordinary characters. */
  ghost predicate Stands(c: char, piece: string) {
    c == '*' || (|piece| == 1 && (c == '?' || piece[0] == c))
  }

  ghost predicate StandsFor(pattern: string, pieces: seq<string>) {
    |pieces| == |pattern| && forall i :: 0 <= i < |pattern| ==> Stands(pattern[i], pieces[i])
  }

  ghost predicate WildcardMeans(pattern: string, text: string) {
    exists pieces :: StandsFor(pattern, pieces) && Concat(pieces) == text
  }

  function TokenOf(c: char): Token {
    if c == '*' then AnySequence else if c == '?' then AnyChar else Literal(c)
  }

  method WildcardMatch(pattern: string, text: string) returns (matched: bool)
    ensures matched <==> WildcardMeans(pattern, text)
  {
    var tokens := seq(|pattern|, i requires 0 <= i < |pattern| => TokenOf(pattern[i]));
    forall pieces ensures StandsFor(pattern, pieces) <==> Denotes(tokens, pieces, true) {
      SamePieces(pattern, tokens, pieces);
    }
    hide StandsFor, Denotes;
    matched := MatchTokens(tokens, text, true);
  }

  lemma SamePieces(pattern: string, tokens: seq<Token>, pieces: seq<string>)
    requires |tokens| == |pattern| && forall i :: 0 <= i < |pattern| ==> tokens[i] == TokenOf(pattern[i])
    ensures StandsFor(pattern, pieces) <==> Denotes(tokens, pieces, true)
  {
    if |pieces| == |pattern| {
      forall i | 0 <= i < |pattern| ensures Stands(pattern[i], pieces[i]) <==> PieceOf(tokens[i], pieces[i], true) {
      }
    }
  }
}
