/** String operations of the standard library that the parsers use. */
module Text {
  import opened Basics

  /** The characters with the Unicode White_Space property. */
  predicate IsWhitespace(c: char) {
    || '\U{0009}' <= c <= '\U{000D}' || c == ' ' || c == '\U{0085}' || c == '\U{00A0}' || c == '\U{1680}'
    || '\U{2000}' <= c <= '\U{200A}' || c == '\U{2028}' || c == '\U{2029}' || c == '\U{202F}' || c == '\U{205F}'
    || c == '\U{3000}'
  }

  /** The length of a text in UTF-8. */
  function ByteLength(s: string): nat {
    if s == "" then 0
    else
      var c := s[0] as int;
      (if c < 0x80 then 1 else if c < 0x800 then 2 else if c < 0x1_0000 then 3 else 4) + ByteLength(s[1..])
  }

  /** The lexicographic order of texts. */
  predicate LeText(a: string, b: string) {
    a == "" || (b != "" && (a[0] < b[0] || (a[0] == b[0] && LeText(a[1..], b[1..]))))
  }

  lemma {:induction false} LeTextTotal(a: string, b: string)
    ensures LeText(a, b) || LeText(b, a)
  {
    if a != "" && b != "" && a[0] == b[0] {
      LeTextTotal(a[1..], b[1..]);
    }
  }

  lemma {:induction false} LeTextTransitive(a: string, b: string, c: string)
    requires LeText(a, b) && LeText(b, c)
    ensures LeText(a, c)
  {
    if a != "" && a[0] == b[0] == c[0] {
      LeTextTransitive(a[1..], b[1..], c[1..]);
    }
  }

  lemma {:induction false} LeTextAntisymmetric(a: string, b: string)
    requires LeText(a, b) && LeText(b, a)
    ensures a == b
  {
    if a != "" {
      LeTextAntisymmetric(a[1..], b[1..]);
      assert a == [a[0]] + a[1..] && b == [b[0]] + b[1..];
    }
  }

  /** One text comes before another exactly if it is a prefix of it or has the smaller character where they first
      differ. */
  lemma {:induction false} LeTextMeans(a: string, b: string)
    ensures LeText(a, b) <==>
      a <= b || exists k :: 0 <= k < |a| && k < |b| && a[..k] == b[..k] && a[k] < b[k]
  {
    if a != "" && b != "" {
      var x, y := a[1..], b[1..];
      LeTextMeans(x, y);
      assert a == [a[0]] + x && b == [b[0]] + y;
      if a[0] == b[0] {
        if k :| 0 <= k < |x| && k < |y| && x[..k] == y[..k] && x[k] < y[k] {
          assert a[..k + 1] == [a[0]] + x[..k] && b[..k + 1] == [b[0]] + y[..k];
          assert a[k + 1] < b[k + 1];
        }
        if k :| 0 <= k < |a| && k < |b| && a[..k] == b[..k] && a[k] < b[k] {
          assert k > 0;
          assert x[..k - 1] == a[..k][1..] && y[..k - 1] == b[..k][1..];
          assert x[k - 1] < y[k - 1];
        }
      } else {
        assert a[..0] == b[..0];
        if k :| 0 <= k < |a| && k < |b| && a[..k] == b[..k] && a[k] < b[k] {
          if k > 0 {
            assert a[..k][0] == b[..k][0];
          }
        }
      }
    }
  }

  function TrimStart(s: string): (r: string)
    ensures r != "" ==> !IsWhitespace(r[0])
    ensures |r| <= |s| && r == s[|s| - |r|..]
  {
    if s != "" && IsWhitespace(s[0]) then TrimStart(s[1..]) else s
  }

  function TrimEnd(s: string): (r: string)
    ensures r != "" ==> !IsWhitespace(r[|r| - 1])
    ensures r <= s
  {
    if s != "" && IsWhitespace(s[|s| - 1]) then TrimEnd(s[..|s| - 1]) else s
  }

  function Trim(s: string): string {
    TrimEnd(TrimStart(s))
  }

  lemma TrimSolid(s: string)
    requires s != "" && !IsWhitespace(s[0]) && !IsWhitespace(s[|s| - 1])
    ensures Trim(s) == s
  {
  }

  /** Without whitespace around it. */
  predicate Tight(text: string) {
    text != "" && !IsWhitespace(text[0]) && !IsWhitespace(text[|text| - 1])
  }

  predicate Blank(text: string) {
    forall i :: 0 <= i < |text| ==> IsWhitespace(text[i])
  }

  lemma {:induction false} TrimStartSkips(before: string, text: string)
    requires Blank(before)
    ensures TrimStart(before + text) == TrimStart(text)
  {
    hide TrimStart, IsWhitespace;
    if before == "" {
      assert before + text == text;
    } else {
      assert before == [before[0]] + before[1..];
      Regroup([before[0]], before[1..], text);
      TrimStartSkips(before[1..], text);
      TrimStartStep(before[0], before[1..] + text);
    }
  }

  lemma TrimStartStep(c: char, rest: string)
    requires IsWhitespace(c)
    ensures TrimStart([c] + rest) == TrimStart(rest)
  {
    assert ([c] + rest)[1..] == rest;
  }

  lemma {:induction false} TrimEndSkips(text: string, after: string)
    requires Blank(after)
    ensures TrimEnd(text + after) == TrimEnd(text)
  {
    if after == "" {
      assert text + after == text;
    } else {
      TrimEndSkips(text, after[..|after| - 1]);
      assert (text + after)[..|text + after| - 1] == text + after[..|after| - 1];
    }
  }

  lemma TrimAround(before: string, text: string, after: string)
    requires Blank(before) && Blank(after) && Tight(text)
    ensures Trim(before + text + after) == text
  {
    TightStays(text, after);
    TightStays(text, "");
    hide TrimStart, TrimEnd, Tight, Blank;
    TrimStartSkips(before, text + after);
    Regroup(before, text, after);
    TrimEndSkips(text, after);
  }

  lemma TightStays(text: string, after: string)
    requires Tight(text)
    ensures TrimStart(text + after) == text + after && TrimEnd(text) == text
  {
    assert (text + after)[0] == text[0];
  }

  lemma TrimBlank(text: string)
    requires Blank(text)
    ensures Trim(text) == ""
  {
    TrimStartSkips(text, "");
    assert text + "" == text;
  }

  /** What trimming takes away is whitespace. */
  lemma TrimParts(s: string) returns (before: string, after: string)
    ensures Blank(before) && Blank(after) && s == before + Trim(s) + after
  {
    hide TrimStart, TrimEnd, Blank, IsWhitespace;
    var rest := TrimStart(s);
    before, after := s[..|s| - |rest|], rest[|Trim(s)|..];
    StartIsBlank(s);
    EndIsBlank(rest);
    Regroup(before, Trim(s), after);
  }

  lemma {:induction false} StartIsBlank(s: string)
    ensures Blank(s[..|s| - |TrimStart(s)|])
  {
    if s != "" && IsWhitespace(s[0]) {
      StartIsBlank(s[1..]);
      var n := |s| - |TrimStart(s)|;
      assert forall i :: 1 <= i < n ==> s[i] == s[1..][..n - 1][i - 1];
    }
  }

  lemma {:induction false} EndIsBlank(s: string)
    ensures Blank(s[|TrimEnd(s)|..])
  {
    if s != "" && IsWhitespace(s[|s| - 1]) {
      EndIsBlank(s[..|s| - 1]);
      var n := |TrimEnd(s)|;
      assert forall i :: n <= i < |s| - 1 ==> s[i] == s[..|s| - 1][n..][i - n];
    }
  }

  function TrimStartOf(s: string, c: char): (r: string)
    ensures |r| <= |s| && r == s[|s| - |r|..]
    ensures r != "" ==> r[0] != c
  {
    if s != "" && s[0] == c then TrimStartOf(s[1..], c) else s
  }

  function TrimEndOf(s: string, c: char): (r: string)
    ensures r <= s
    ensures r != "" ==> r[|r| - 1] != c
  {
    if s != "" && s[|s| - 1] == c then TrimEndOf(s[..|s| - 1], c) else s
  }

  function Replace(s: string, from: char, to: char): (r: string)
    ensures |r| == |s|
    ensures forall i :: 0 <= i < |s| ==> r[i] == if s[i] == from then to else s[i]
  {
    seq(|s|, i requires 0 <= i < |s| => if s[i] == from then to else s[i])
  }

  lemma ReplaceConcat(a: string, b: string, from: char, to: char)
    ensures Replace(a + b, from, to) == Replace(a, from, to) + Replace(b, from, to)
  {
  }

  function Split(s: string, c: char): (r: seq<string>)
    ensures |r| >= 1
  {
    if s == "" then [""] else Attach(s[0], Split(s[1..], c), c)
  }

  /** The parts of a text from its first character and the parts of the rest. */
  function Attach(x: char, rest: seq<string>, c: char): (r: seq<string>)
    requires |rest| >= 1
    ensures |r| >= 1
  {
    if x == c then [""] + rest else [[x] + rest[0]] + rest[1..]
  }

  lemma AttachConcat(x: char, a: seq<string>, b: seq<string>, c: char)
    requires |a| >= 1
    ensures Attach(x, a + b, c) == Attach(x, a, c) + b
  {
    assert (a + b)[1..] == a[1..] + b;
  }

  lemma {:induction false} SplitParts(s: string, c: char)
    ensures forall i :: 0 <= i < |Split(s, c)| ==> c !in Split(s, c)[i]
  {
    if s != "" {
      SplitParts(s[1..], c);
    }
  }

  /** A separator between two texts separates their parts. */
  lemma {:induction false} SplitConcat(a: string, b: string, c: char)
    ensures Split(a + [c] + b, c) == Split(a, c) + Split(b, c)
  {
    var s := a + [c] + b;
    if a == "" {
      assert s[1..] == b;
    } else {
      SplitConcat(a[1..], b, c);
      assert s[1..] == a[1..] + [c] + b && s[0] == a[0];
      AttachConcat(a[0], Split(a[1..], c), Split(b, c), c);
    }
  }

  lemma {:induction false} SplitNothing(s: string, c: char)
    requires c !in s
    ensures Split(s, c) == [s]
  {
    if s != "" {
      SplitNothing(s[1..], c);
      assert s == [s[0]] + s[1..];
    }
  }

  function NonEmpty(parts: seq<string>): (r: seq<string>)
    ensures forall i :: 0 <= i < |r| ==> r[i] != ""
  {
    if parts == [] then []
    else (if parts[0] == "" then [] else [parts[0]]) + NonEmpty(parts[1..])
  }

  lemma NonEmptySingle(part: string)
    ensures NonEmpty([part]) == if part == "" then [] else [part]
  {
    assert [part][1..] == [];
  }

  lemma {:induction false} NonEmptyConcat(a: seq<string>, b: seq<string>)
    ensures NonEmpty(a + b) == NonEmpty(a) + NonEmpty(b)
  {
    if a == [] {
      assert a + b == b;
    } else {
      NonEmptyConcat(a[1..], b);
      TailOfSum(a, b);
      Regroup(if a[0] == "" then [] else [a[0]], NonEmpty(a[1..]), NonEmpty(b));
    }
  }

  /** Leading and trailing separators only add empty parts. */
  lemma {:induction false} TrimStartParts(s: string, c: char)
    ensures NonEmpty(Split(TrimStartOf(s, c), c)) == NonEmpty(Split(s, c))
  {
    hide Split, NonEmpty;
    if s != "" && s[0] == c {
      TrimStartParts(s[1..], c);
      assert s == [c] + s[1..];
      FirstSeparator(s[1..], s, c);
    }
  }

  lemma FirstSeparator(tail: string, s: string, c: char)
    requires s == [c] + tail
    ensures NonEmpty(Split(s, c)) == NonEmpty(Split(tail, c))
  {
    assert s == "" + [c] + tail;
    SplitConcat("", tail, c);
    NonEmptyConcat([""], Split(tail, c));
    assert NonEmpty([""]) == [];
  }

  lemma LastSeparator(head: string, s: string, c: char)
    requires s == head + [c]
    ensures NonEmpty(Split(s, c)) == NonEmpty(Split(head, c))
  {
    assert s == head + [c] + "";
    SplitConcat(head, "", c);
    NonEmptyConcat(Split(head, c), [""]);
    assert NonEmpty([""]) == [];
  }

  // ------------------------------------------------------------------------ words

  function SplitWhitespace(s: string): (words: seq<string>)
    ensures s != "" && !IsWhitespace(s[0]) ==> words != []
  {
    if s == "" then []
    else if IsWhitespace(s[0]) then SplitWhitespace(s[1..])
    else if |s| == 1 || IsWhitespace(s[1]) then [[s[0]]] + SplitWhitespace(s[1..])
    else
      var words := SplitWhitespace(s[1..]);
      [[s[0]] + words[0]] + words[1..]
  }

  /** A whitespace character separates words. */
  lemma {:induction false} SplitAtWhitespace(a: string, w: char, b: string)
    requires IsWhitespace(w)
    ensures SplitWhitespace(a + [w] + b) == SplitWhitespace(a) + SplitWhitespace(b)
  {
    var s := a + [w] + b;
    if a == "" {
      assert s[1..] == b;
    } else {
      SplitAtWhitespace(a[1..], w, b);
      assert s[1..] == a[1..] + [w] + b;
      SplitAttach(a, a[1..] + [w] + b, SplitWhitespace(b));
    }
  }

  lemma SplitAttach(a: string, rest: string, more: seq<string>)
    requires a != "" && rest != "" && (|a| > 1 ==> rest[0] == a[1]) && (|a| == 1 ==> IsWhitespace(rest[0]))
    requires SplitWhitespace(rest) == SplitWhitespace(a[1..]) + more
    ensures SplitWhitespace([a[0]] + rest) == SplitWhitespace(a) + more
  {
    SplitHead(a[0], rest);
    SplitHead(a[0], a[1..]);
    hide SplitWhitespace;
    assert a == [a[0]] + a[1..];
    var words := SplitWhitespace(a[1..]);
    if !IsWhitespace(a[0]) && |a| > 1 && !IsWhitespace(a[1]) {
      TailOfSum(words, more);
      Regroup([[a[0]] + words[0]], words[1..], more);
    } else if !IsWhitespace(a[0]) {
      Regroup([[a[0]]], words, more);
    }
  }

  /** The first character and the words of the rest. */
  lemma SplitHead(c: char, rest: string)
    ensures rest != "" && !IsWhitespace(rest[0]) ==> SplitWhitespace(rest) != []
    ensures SplitWhitespace([c] + rest) ==
      if IsWhitespace(c) then SplitWhitespace(rest)
      else if rest == "" || IsWhitespace(rest[0]) then [[c]] + SplitWhitespace(rest)
      else [[c] + SplitWhitespace(rest)[0]] + SplitWhitespace(rest)[1..]
  {
    var s := [c] + rest;
    assert s[1..] == rest && s[0] == c;
  }

  /** A word as `SplitWhitespace` yields it. */
  predicate Solid(word: string) {
    word != "" && forall i :: 0 <= i < |word| ==> !IsWhitespace(word[i])
  }

  lemma {:induction false} SolidSplit(word: string)
    requires Solid(word)
    ensures SplitWhitespace(word) == [word]
  {
    assert word == [word[0]] + word[1..];
    if |word| > 1 {
      SolidSplit(word[1..]);
      assert SplitWhitespace(word[1..]) == [word[1..]];
      assert [word[1..]][1..] == [];
    } else {
      assert word[1..] == "" && word == [word[0]];
      assert SplitWhitespace(word) == [[word[0]]] + SplitWhitespace("");
    }
  }

  // ---------------------------------------------------------------------- numbers

  function Digit(n: nat): char
    requires n < 10
  {
    ('0' as int + n) as char
  }

  function Decimal(n: nat): string {
    if n < 10 then [Digit(n)] else Decimal(n / 10) + [Digit(n % 10)]
  }
}
