/** From the text of an SPDX license expression to its tokens. */
module LicenseText {
  import opened Basics
  import opened Text

  function ReplaceWith(s: string, c: char, r: string): string {
    if s == "" then "" else (if s[0] == c then r else [s[0]]) + ReplaceWith(s[1..], c, r)
  }

  function Spaced(text: string): string {
    ReplaceWith(ReplaceWith(ReplaceWith(text, '(', " ( "), ')', " ) "), '/', " OR ")
  }

  function Tokenize(text: string): seq<string> {
    SplitWhitespace(Spaced(text))
  }

  // ----------------------------------------------------------------- words

  predicate Special(c: char) {
    c == '(' || c == ')' || c == '/' || IsWhitespace(c)
  }

  ghost predicate IsWord(s: string) {
    s != "" && forall i :: 0 <= i < |s| ==> !Special(s[i])
  }

  /** What a token can be: a parenthesis, or a word free of separators. */
  ghost predicate IsToken(s: string) {
    s == "(" || s == ")" || IsWord(s)
  }

  lemma {:induction false} ReplaceWithConcat(a: string, b: string, c: char, r: string)
    ensures ReplaceWith(a + b, c, r) == ReplaceWith(a, c, r) + ReplaceWith(b, c, r)
  {
    if a == "" {
      assert a + b == b;
    } else {
      ReplaceWithConcat(a[1..], b, c, r);
      TailOfSum(a, b);
      Regroup(if a[0] == c then r else [a[0]], ReplaceWith(a[1..], c, r), ReplaceWith(b, c, r));
    }
  }

  lemma {:induction false} ReplaceNothing(s: string, c: char, r: string)
    requires c !in s
    ensures ReplaceWith(s, c, r) == s
  {
    if s != "" {
      assert s[0] in s && s == [s[0]] + s[1..];
      ReplaceNothing(s[1..], c, r);
    }
  }

  lemma SpacedConcat(a: string, b: string)
    ensures Spaced(a + b) == Spaced(a) + Spaced(b)
  {
    ReplaceWithConcat(a, b, '(', " ( ");
    var a1, b1 := ReplaceWith(a, '(', " ( "), ReplaceWith(b, '(', " ( ");
    ReplaceWithConcat(a1, b1, ')', " ) ");
    ReplaceWithConcat(ReplaceWith(a1, ')', " ) "), ReplaceWith(b1, ')', " ) "), '/', " OR ");
  }

  lemma SpacedNothing(s: string)
    requires '(' !in s && ')' !in s && '/' !in s
    ensures Spaced(s) == s
  {
    ReplaceNothing(s, '(', " ( ");
    ReplaceNothing(s, ')', " ) ");
    ReplaceNothing(s, '/', " OR ");
  }

  lemma ReplaceOne(x: char, c: char, r: string)
    ensures ReplaceWith([x], c, r) == if x == c then r else [x]
  {
    assert [x][1..] == "";
    assert ReplaceWith("", c, r) == "";
  }

  lemma SpacedChar(x: char)
    ensures Spaced([x]) == if x == '(' then " ( " else if x == ')' then " ) " else if x == '/' then " OR " else [x]
  {
    ReplaceOne(x, '(', " ( ");
    if x == '(' {
      ReplaceNothing(" ( ", ')', " ) ");
      ReplaceNothing(" ( ", '/', " OR ");
    } else {
      ReplaceOne(x, ')', " ) ");
      if x == ')' {
        ReplaceNothing(" ) ", '/', " OR ");
      } else {
        ReplaceOne(x, '/', " OR ");
      }
    }
  }

  /** A token is its own tokenization. */
  lemma TokenizeToken(t: string)
    requires IsToken(t)
    ensures Tokenize(t) == [t]
  {
    if IsWord(t) {
      SpacedNothing(t);
      SolidSplit(t);
    } else {
      SpacedChar(t[0]);
      assert t == [t[0]];
      Padded(t[0]);
    }
  }

  lemma Padded(c: char)
    requires !IsWhitespace(c)
    ensures SplitWhitespace(" " + [c] + " ") == [[c]]
  {
    var s, word := " " + [c] + " ", [c] + " ";
    assert s[1..] == word && word[1..] == " " && " "[1..] == "";
    assert SplitWhitespace(" ") == SplitWhitespace("") == [];
    assert SplitWhitespace(word) == [[c]] + SplitWhitespace(" ");
  }

  function Join(tokens: seq<string>): string {
    if tokens == [] then ""
    else if |tokens| == 1 then tokens[0]
    else tokens[0] + " " + Join(tokens[1..])
  }

  /** Tokens joined by spaces are read back as they were. */
  lemma {:induction false} TokenizeJoin(tokens: seq<string>)
    requires forall i :: 0 <= i < |tokens| ==> IsToken(tokens[i])
    ensures Tokenize(Join(tokens)) == tokens
  {
    if tokens == [] {
    } else if |tokens| == 1 {
      TokenizeToken(tokens[0]);
    } else {
      TokenizeToken(tokens[0]);
      TokenizeJoin(tokens[1..]);
      TokenizePair(tokens[0], Join(tokens[1..]));
    }
  }

  lemma TokenizePair(a: string, b: string)
    ensures Tokenize(a + " " + b) == Tokenize(a) + Tokenize(b)
  {
    SpacedConcat(a + " ", b);
    SpacedConcat(a, " ");
    SpacedNothing(" ");
    assert Spaced(a) + " " + Spaced(b) == Spaced(a) + [' '] + Spaced(b);
    SplitAtWhitespace(Spaced(a), ' ', Spaced(b));
  }

  ghost predicate AllTokens(tokens: seq<string>) {
    forall i :: 0 <= i < |tokens| ==> IsToken(tokens[i])
  }

  /** The first of the tokens is a word that starts with the first character. */
  ghost predicate HeadWord(s: string, tokens: seq<string>) {
    s != "" && !IsWhitespace(s[0]) ==> tokens != [] && tokens[0] != "" && tokens[0][0] == s[0]
  }

  lemma {:induction false} HeadOfSplit(s: string)
    ensures HeadWord(s, SplitWhitespace(s))
  {
  }

  /** Whatever the text, tokenizing yields tokens. */
  lemma {:induction false} TokenizeYieldsTokens(text: string)
    ensures AllTokens(Tokenize(text))
  {
    if text != "" {
      var c, rest := text[0], text[1..];
      TokenizeYieldsTokens(rest);
      assert text == [c] + rest;
      SpacedConcat([c], rest);
      SpacedChar(c);
      var tail := Spaced(rest);
      if c == '(' || c == ')' {
        Padded(c);
        SplitPadded([c], tail);
        assert Spaced([c]) == " " + [c] + " ";
        assert [c] == (if c == '(' then "(" else ")");
        PrependToken([c], SplitWhitespace(tail));
      } else if c == '/' {
        SplitOr(tail);
        PrependToken("OR", SplitWhitespace(tail));
      } else if IsWhitespace(c) {
        assert ([c] + tail)[1..] == tail;
      } else {
        TailStart(rest);
        AttachOrdinary(c, tail);
      }
    }
  }

  lemma PrependToken(t: string, tokens: seq<string>)
    requires IsToken(t) && AllTokens(tokens)
    ensures AllTokens([t] + tokens)
  {
  }

  lemma SplitPadded(word: string, tail: string)
    requires |word| == 1 && !IsWhitespace(word[0])
    ensures SplitWhitespace(" " + word + " " + tail) == [word] + SplitWhitespace(tail)
  {
    Padded(word[0]);
    assert " " + word + " " + tail == (" " + word) + [' '] + tail;
    SplitAtWhitespace(" " + word, ' ', tail);
    assert (" " + word)[1..] == word && word[1..] == "" && word == [word[0]];
  }

  lemma SplitOr(tail: string)
    ensures SplitWhitespace(" OR " + tail) == ["OR"] + SplitWhitespace(tail)
  {
    assert " OR " + tail == " OR" + [' '] + tail;
    SplitAtWhitespace(" OR", ' ', tail);
    assert " OR"[1..] == "OR";
    SolidSplit("OR");
  }

  /** A spaced text starts with a separator only as whitespace. */
  lemma TailStart(rest: string)
    ensures Spaced(rest) != "" ==> IsWhitespace(Spaced(rest)[0]) || !Special(Spaced(rest)[0])
  {
    if rest == "" {
      assert Spaced("") == "";
    } else {
      assert rest == [rest[0]] + rest[1..];
      SpacedConcat([rest[0]], rest[1..]);
      SpacedChar(rest[0]);
    }
  }

  lemma AttachOrdinary(c: char, tail: string)
    requires !Special(c) && AllTokens(SplitWhitespace(tail))
    requires tail != "" ==> IsWhitespace(tail[0]) || !Special(tail[0])
    ensures AllTokens(SplitWhitespace([c] + tail))
  {
    var words := SplitWhitespace(tail);
    assert ([c] + tail)[1..] == tail;
    HeadOfSplit(tail);
    if tail != "" && !IsWhitespace(tail[0]) {
      assert IsWord(words[0]);
      assert IsWord([c] + words[0]);
    }
  }

  lemma SplitAround(front: string, token: string, back: string)
    requires Solid(token)
    ensures SplitWhitespace(front + " " + token + " " + back)
      == SplitWhitespace(front) + [token] + SplitWhitespace(back)
  {
    SolidSplit(token);
    SplitAtWhitespace(front, ' ', token);
    SplitAtWhitespace(front + [' '] + token, ' ', back);
    assert front + " " + token + " " + back == front + [' '] + token + [' '] + back;
  }

  /** A parenthesis or a slash is a token of its own wherever it stands, the slash in the sense of `OR`, and
      whitespace only separates. */
  lemma SpecialSeparates(a: string, c: char, b: string)
    requires Special(c)
    ensures Tokenize(a + [c] + b) ==
      Tokenize(a) + (if c == '(' then ["("] else if c == ')' then [")"] else if c == '/' then ["OR"] else [])
      + Tokenize(b)
  {
    SpacedConcat(a + [c], b);
    SpacedConcat(a, [c]);
    SpacedChar(c);
    var front, back := Spaced(a), Spaced(b);
    hide Spaced, SplitWhitespace;
    if IsWhitespace(c) {
      SplitAtWhitespace(front, c, back);
      NothingAfter(SplitWhitespace(front));
    } else {
      var token := if c == '(' then "(" else if c == ')' then ")" else "OR";
      SplitAround(front, token, back);
      assert Spaced([c]) == " " + token + " ";
      Embedded(front, token, back);
    }
  }

  lemma Embedded(front: string, token: string, back: string)
    ensures front + (" " + token + " ") + back == front + " " + token + " " + back
  {
  }
}
