/** Wrapping the text of a table cell. */
module CellWrapping {
  import opened Basics
  import opened Text

  // ------------------------------------------------------------------------- width

  const ESCAPE: char := '\U{001B}'

  predicate IsLetter(c: char) {
    'A' <= c <= 'Z' || 'a' <= c <= 'z'
  }

  /** Characters as displayed; an escape sequence ends with a letter. */
  function WidthFrom(text: string, inEscape: bool): nat {
    if text == "" then 0
    else if inEscape then WidthFrom(text[1..], !IsLetter(text[0]))
    else if text[0] == ESCAPE then WidthFrom(text[1..], true)
    else 1 + WidthFrom(text[1..], false)
  }

  function DisplayWidth(text: string): nat {
    WidthFrom(text, false)
  }

  lemma {:induction false} PlainWidth(text: string)
    requires ESCAPE !in text
    ensures DisplayWidth(text) == |text|
  {
    if text != "" {
      PlainWidth(text[1..]);
    }
  }

  // ------------------------------------------------------------------ what is kept

  /** The characters other than white space. */
  function Ink(text: string): string {
    if text == "" then "" else (if IsWhitespace(text[0]) then "" else [text[0]]) + Ink(text[1..])
  }

  function AllInk(lines: seq<string>): string {
    if lines == [] then "" else AllInk(lines[..|lines| - 1]) + Ink(lines[|lines| - 1])
  }

  function AllWords(lines: seq<string>): seq<string> {
    if lines == [] then [] else AllWords(lines[..|lines| - 1]) + SplitWhitespace(lines[|lines| - 1])
  }

  lemma {:induction false} InkConcat(a: string, b: string)
    ensures Ink(a + b) == Ink(a) + Ink(b)
  {
    if a == "" {
      assert a + b == b;
    } else {
      InkConcat(a[1..], b);
      TailOfSum(a, b);
      Regroup(if IsWhitespace(a[0]) then "" else [a[0]], Ink(a[1..]), Ink(b));
    }
  }

  lemma {:induction false} SolidInk(word: string)
    requires forall i :: 0 <= i < |word| ==> !IsWhitespace(word[i])
    ensures Ink(word) == word
  {
    if word != "" {
      SolidInk(word[1..]);
      assert word == [word[0]] + word[1..];
    }
  }

  lemma InkNext(lines: seq<string>, line: string)
    ensures AllInk(lines + [line]) == AllInk(lines) + Ink(line)
    ensures AllWords(lines + [line]) == AllWords(lines) + SplitWhitespace(line)
  {
    assert (lines + [line])[..|lines|] == lines;
  }

  ghost predicate AllSolid(words: seq<string>) {
    forall i :: 0 <= i < |words| ==> Solid(words[i])
  }

  ghost predicate NoEscape(words: seq<string>) {
    forall i :: 0 <= i < |words| ==> ESCAPE !in words[i]
  }

  lemma {:induction false} InkOfFirst(words: seq<string>)
    requires words != []
    ensures AllInk(words) == Ink(words[0]) + AllInk(words[1..])
  {
    hide Ink;
    if |words| == 1 {
      assert words[..0] == [] && words[1..] == [];
      NothingAfter(Ink(words[0]));
    } else {
      var front := words[..|words| - 1];
      InkOfFirst(front);
      assert front[1..] == words[1..][..|words| - 2];
      Regroup(Ink(words[0]), AllInk(front[1..]), Ink(words[|words| - 1]));
    }
  }

  /** The words of a text are solid and hold its ink. */
  lemma {:induction false} WordsHoldInk(text: string)
    ensures AllSolid(SplitWhitespace(text)) && AllInk(SplitWhitespace(text)) == Ink(text)
    ensures ESCAPE !in text ==> NoEscape(SplitWhitespace(text))
  {
    if text != "" {
      WordsHoldInk(text[1..]);
      if !IsWhitespace(text[0]) {
        var more := SplitWhitespace(text[1..]);
        if |text| == 1 || IsWhitespace(text[1]) {
          NewWord(text[0], more, text[1..]);
        } else {
          LongerWord(text[0], more, text[1..]);
        }
        assert [text[0]] + text[1..] == text;
      }
    }
  }

  lemma NewWord(c: char, more: seq<string>, rest: string)
    requires !IsWhitespace(c) && AllSolid(more) && AllInk(more) == Ink(rest)
    ensures AllSolid([[c]] + more) && AllInk([[c]] + more) == Ink([c] + rest)
    ensures c != ESCAPE && NoEscape(more) ==> NoEscape([[c]] + more)
  {
    InkOfFirst([[c]] + more);
    InkConcat([c], rest);
    SolidInk([c]);
    assert ([[c]] + more)[1..] == more;
  }

  lemma LongerWord(c: char, more: seq<string>, rest: string)
    requires !IsWhitespace(c) && more != [] && AllSolid(more) && AllInk(more) == Ink(rest)
    ensures AllSolid([[c] + more[0]] + more[1..]) && AllInk([[c] + more[0]] + more[1..]) == Ink([c] + rest)
    ensures c != ESCAPE && NoEscape(more) ==> NoEscape([[c] + more[0]] + more[1..])
  {
    InkOfFirst(more);
    assert more == [more[0]] + more[1..];
    LongerInk(c, more[0], more[1..], rest);
    LongerSolid(c, more[0], more[1..]);
  }

  lemma LongerInk(c: char, word: string, tail: seq<string>, rest: string)
    requires !IsWhitespace(c) && Ink(word) + AllInk(tail) == Ink(rest)
    ensures AllInk([[c] + word] + tail) == Ink([c] + rest)
  {
    InkOfFirst([[c] + word] + tail);
    InkConcat([c], rest);
    InkConcat([c], word);
    SolidInk([c]);
    hide Ink, AllInk;
    assert ([[c] + word] + tail)[1..] == tail;
    Regroup([c], Ink(word), AllInk(tail));
  }

  lemma LongerSolid(c: char, word: string, tail: seq<string>)
    requires !IsWhitespace(c) && AllSolid([word] + tail)
    ensures AllSolid([[c] + word] + tail)
    ensures c != ESCAPE && NoEscape([word] + tail) ==> NoEscape([[c] + word] + tail)
  {
    var words, more := [[c] + word] + tail, [word] + tail;
    assert Solid(more[0]);
    forall i | 0 <= i < |words| ensures Solid(words[i]) && (c != ESCAPE && NoEscape(more) ==> ESCAPE !in words[i]) {
      if i > 0 {
        assert words[i] == more[i];
      } else {
        assert more[0] == word;
      }
    }
  }

  // ---------------------------------------------------------------------- wrapping

  /** The last slash among the first `n` characters, if any. */
  function LastSlash(word: string, n: nat): int
    requires n <= |word|
  {
    if n == 0 then -1 else if word[n - 1] == '/' then n - 1 else LastSlash(word, n - 1)
  }

  /** Where a word that is too long is broken: after a slash if there is one, else at the limit. */
  function Cut(word: string, width: nat): (n: nat)
    requires word != "" && width > 0
    ensures 1 <= n <= |word| && n <= width
  {
    var limit := if width < |word| then width else |word|;
    var at := LastSlash(word, limit);
    if at > 0 && at + 1 < limit then at + 1 else limit
  }

  lemma {:induction false} LastSlashIs(word: string, n: nat)
    requires n <= |word|
    ensures -1 <= LastSlash(word, n) < n
    ensures LastSlash(word, n) >= 0 ==> word[LastSlash(word, n)] == '/'
    ensures forall i :: LastSlash(word, n) < i < n ==> word[i] != '/'
  {
    if n > 0 && word[n - 1] != '/' {
      LastSlashIs(word, n - 1);
    }
  }

  /** A piece broken off a word ends in a slash, or fills the line because there is no slash to break after but
      perhaps the first character. */
  ghost predicate BrokenWell(piece: string, width: nat) {
    && piece != "" && |piece| <= width
    && (piece[|piece| - 1] == '/' || (|piece| == width && '/' !in piece[1..]))
  }

  /** The piece is cut after the last slash that fits. */
  lemma CutIsGood(word: string, width: nat)
    requires width > 0 && |word| > width
    ensures BrokenWell(word[..Cut(word, width)], width)
    ensures Cut(word, width) < width ==> '/' !in word[Cut(word, width)..width]
  {
    var at, cut := LastSlash(word, width), Cut(word, width);
    LastSlashIs(word, width);
    if cut == width && at <= 0 {
      assert forall i :: 0 <= i < width - 1 ==> word[..cut][1..][i] == word[i + 1];
    }
    assert forall i :: 0 <= i < width - cut ==> word[cut..width][i] == word[cut + i];
  }

  lemma {:induction false} WidthAtMost(text: string, inEscape: bool)
    ensures WidthFrom(text, inEscape) <= |text|
  {
    if text != "" {
      WidthAtMost(text[1..], !IsLetter(text[0]));
      WidthAtMost(text[1..], true);
      WidthAtMost(text[1..], false);
    }
  }

  /** The lines from `n` on are pieces broken off a word. */
  ghost predicate BrokenFrom(lines: seq<string>, n: nat, width: nat) {
    forall i :: n <= i < |lines| ==> BrokenWell(lines[i], width)
  }

  lemma BrokenNext(lines: seq<string>, n: nat, word: string, width: nat)
    requires BrokenFrom(lines, n, width) && width > 0 && |word| > width
    ensures BrokenFrom(lines + [word[..Cut(word, width)]], n, width)
  {
    CutIsGood(word, width);
    hide BrokenWell, Cut;
    var all := lines + [word[..Cut(word, width)]];
    assert forall i :: 0 <= i < |lines| ==> all[i] == lines[i];
  }

  /** What the lines so far and the open line hold. */
  function Held(lines: seq<string>, line: string): string {
    AllInk(lines) + Ink(line)
  }

  ghost predicate Narrow(line: string, width: nat) {
    |line| <= width && ESCAPE !in line
  }

  ghost predicate NarrowLines(lines: seq<string>, width: nat) {
    forall i :: 0 <= i < |lines| ==> Narrow(lines[i], width)
  }

  lemma NarrowNext(lines: seq<string>, line: string, width: nat)
    ensures NarrowLines(lines + [line], width) <==> NarrowLines(lines, width) && Narrow(line, width)
  {
    hide Narrow;
    var all := lines + [line];
    assert all[|lines|] == line;
    assert forall i :: 0 <= i < |lines| ==> all[i] == lines[i];
  }

  ghost predicate NonEmptyLines(lines: seq<string>) {
    forall i :: 0 <= i < |lines| ==> lines[i] != ""
  }

  /** Where a word goes that fits a line. */
  function Put(lines: seq<string>, line: string, word: string, width: nat): (seq<string>, string) {
    if line == "" then (lines, word)
    else if DisplayWidth(line) + 1 + DisplayWidth(word) <= width then (lines, Extended(line, word))
    else (lines + [line], word)
  }

  method PlaceWord(lines: seq<string>, line: string, word: string, width: nat) returns (r: seq<string>, open: string)
    requires Solid(word) && width > 0 && NonEmptyLines(lines)
    ensures Held(r, open) == Held(lines, line) + word && NonEmptyLines(r) && (r != [] || open != "")
    ensures NarrowLines(lines + [line], width) && ESCAPE !in word ==> NarrowLines(r + [open], width)
    ensures DisplayWidth(word) <= width ==> (r, open) == Put(lines, line, word, width)
    ensures BrokenFrom(r, |lines| + if line == "" then 0 else 1, width)
  {
    hide AllInk, Ink, WidthFrom, BrokenWell;
    r, open := lines, line;
    ghost var before := |lines| + if line == "" then 0 else 1;
    var left := word;
    assert Ink("") == "" && WidthFrom("", false) == 0 by { NoInk(); }
    while true
      invariant Solid(left) && Held(r, open) + left == Held(lines, line) + word && NonEmptyLines(r)
      invariant NarrowLines(lines + [line], width) && ESCAPE !in word ==>
        NarrowLines(r + [open], width) && ESCAPE !in left
      invariant DisplayWidth(word) <= width ==>
        left == word && Put(r, open, left, width) == Put(lines, line, word, width)
      invariant BrokenFrom(r, before, width) && (open != "" ==> |r| < before)
      decreases |left|, |open|
    {
      var used := DisplayWidth(open);
      var separator := if open == "" then 0 else 1;
      if used + separator + DisplayWidth(left) <= width {
        WordAdded(r, open, left, width);
        open := Extended(open, left);
        return;
      }
      if open != "" {
        InkNext(r, open);
        LineClosed(r, open, width);
        r, open := r + [open], "";
      } else {
        var cut := Cut(left, width);
        WordBroken(r, left, cut, width);
        WidthAtMost(left, false);
        BrokenNext(r, before, left, width);
        r, left := r + [left[..cut]], left[cut..];
        if left == "" {
          return;
        }
      }
    }
  }

  lemma NoInk()
    ensures Ink("") == "" && WidthFrom("", false) == 0
  {
  }

  lemma LineClosed(r: seq<string>, line: string, width: nat)
    ensures Held(r + [line], "") == Held(r, line)
    ensures NarrowLines(r + [line], width) ==> NarrowLines(r + [line] + [""], width)
  {
    InkNext(r, line);
    NarrowNext(r + [line], "", width);
    assert Held(r + [line], "") == Held(r, line) + "";
  }

  /** The open line with one more word. */
  function Extended(line: string, word: string): string {
    if line == "" then word else line + " " + word
  }

  lemma WordAdded(r: seq<string>, line: string, word: string, width: nat)
    requires Solid(word)
    ensures Held(r, Extended(line, word)) == Held(r, line) + word
    ensures DisplayWidth(line) + (if line == "" then 0 else 1) + DisplayWidth(word) <= width ==>
      (NarrowLines(r + [line], width) && ESCAPE !in word ==> NarrowLines(r + [Extended(line, word)], width))
  {
    InkAdded(line, word);
    NarrowNext(r, line, width);
    NarrowNext(r, Extended(line, word), width);
    if ESCAPE !in line && ESCAPE !in word {
      PlainWidth(line);
      PlainWidth(word);
    }
    hide Ink, AllInk, NarrowLines;
    assert AllInk(r) + (Ink(line) + word) == AllInk(r) + Ink(line) + word;
  }

  lemma InkAdded(line: string, word: string)
    requires Solid(word)
    ensures Ink(Extended(line, word)) == Ink(line) + word
  {
    InkConcat(line + " ", word);
    InkConcat(line, " ");
    SolidInk(word);
    NoInk();
    assert "" + word == word;
    assert Ink(" ") == "" + Ink("");
    assert Ink(line) + "" == Ink(line);
  }

  lemma WordBroken(r: seq<string>, word: string, cut: nat, width: nat)
    requires Solid(word) && 1 <= cut <= |word| && cut <= width
    ensures Held(r + [word[..cut]], "") + word[cut..] == Held(r, "") + word
    ensures NarrowLines(r + [""], width) && ESCAPE !in word ==>
      NarrowLines(r + [word[..cut]] + [""], width) && ESCAPE !in word[cut..]
    ensures word[cut..] != "" ==> Solid(word[cut..])
  {
    var head, tail := word[..cut], word[cut..];
    assert word == head + tail;
    InkNext(r, head);
    SolidInk(head);
    NoInk();
    NarrowNext(r, "", width);
    NarrowNext(r, head, width);
    NarrowNext(r + [head], "", width);
    HeldBroken(AllInk(r), head, tail);
    hide NarrowLines;
  }

  lemma HeldBroken(ink: string, head: string, tail: string)
    ensures ink + head + "" + tail == ink + "" + (head + tail)
  {
  }

  // ------------------------------------------------------------------ the whole cell

  ghost predicate AllFit(words: seq<string>, width: nat) {
    forall i :: 0 <= i < |words| ==> DisplayWidth(words[i]) <= width
  }

  lemma PutWords(lines: seq<string>, line: string, word: string, width: nat)
    requires Solid(word)
    ensures var (r, open) := Put(lines, line, word, width);
      AllWords(r) + SplitWhitespace(open) == AllWords(lines) + SplitWhitespace(line) + [word]
  {
    SolidSplit(word);
    InkNext(lines, line);
    assert line + " " + word == line + [' '] + word;
    SplitAtWhitespace(line, ' ', word);
    hide AllWords;
    if line == "" {
      assert AllWords(lines) + [] == AllWords(lines);
    } else {
      assert AllWords(lines) + (SplitWhitespace(line) + [word]) == AllWords(lines) + SplitWhitespace(line) + [word];
    }
  }

  /** The first word of the second line would not have fit on the first. */
  ghost predicate TooWide(a: string, b: string, width: nat) {
    SplitWhitespace(b) != [] && DisplayWidth(a) + 1 + DisplayWidth(SplitWhitespace(b)[0]) > width
  }

  /** No line ends early. */
  ghost predicate Greedy(lines: seq<string>, width: nat) {
    forall k :: 0 <= k < |lines| - 1 ==> TooWide(lines[k], lines[k + 1], width)
  }

  ghost predicate Filled(lines: seq<string>, line: string, width: nat) {
    && (line == "" ==> lines == [])
    && (line != "" ==> !IsWhitespace(line[0]))
    && Greedy(lines + [line], width)
  }

  lemma FilledNext(lines: seq<string>, line: string, word: string, width: nat)
    requires Solid(word) && Filled(lines, line, width)
    ensures var (r, open) := Put(lines, line, word, width); Filled(r, open, width)
  {
    var (r, open) := Put(lines, line, word, width);
    SolidSplit(word);
    if line != "" {
      assert line + " " + word == line + [' '] + word;
      SplitAtWhitespace(line, ' ', word);
    }
    hide SplitWhitespace, WidthFrom;
    forall k | 0 <= k < |r + [open]| - 1 ensures TooWide((r + [open])[k], (r + [open])[k + 1], width) {
      if k < |lines| {
        assert TooWide((lines + [line])[k], (lines + [line])[k + 1], width);
      }
    }
  }

  /** What the first `i` words leave: no line is empty, the ink is theirs, no line is too wide, and if every word
      fits a line, none is broken and no line ends early. */
  ghost predicate Wrapped(words: seq<string>, width: nat, i: nat, lines: seq<string>, line: string)
    requires i <= |words|
  {
    && NonEmptyLines(lines) && (i > 0 <==> lines != [] || line != "")
    && Held(lines, line) == AllInk(words[..i])
    && (NoEscape(words) ==> NarrowLines(lines + [line], width))
    && (AllFit(words, width) ==> AllWords(lines) + SplitWhitespace(line) == words[..i] && Filled(lines, line, width))
  }

  lemma NothingEmpty()
    ensures NonEmptyLines([])
  {
  }

  lemma WrappedNone(words: seq<string>, width: nat)
    ensures Wrapped(words, width, 0, [], "")
  {
    assert words[..0] == [];
  }

  lemma WrappedNext(words: seq<string>, width: nat, i: nat, lines: seq<string>, line: string, r: seq<string>,
                    open: string)
    requires i < |words| && Solid(words[i]) && Wrapped(words, width, i, lines, line)
    requires Held(r, open) == Held(lines, line) + words[i] && NonEmptyLines(r) && (r != [] || open != "")
    requires NarrowLines(lines + [line], width) && ESCAPE !in words[i] ==> NarrowLines(r + [open], width)
    requires DisplayWidth(words[i]) <= width ==> (r, open) == Put(lines, line, words[i], width)
    ensures Wrapped(words, width, i + 1, r, open)
  {
    assert words[..i + 1] == words[..i] + [words[i]];
    InkNext(words[..i], words[i]);
    SolidInk(words[i]);
    PutWords(lines, line, words[i], width);
    if AllFit(words, width) {
      FilledNext(lines, line, words[i], width);
    }
    hide Held, Filled, AllWords, Put, Ink, AllInk, NarrowLines, SplitWhitespace;
  }

  /** The last line counts unless it is empty, but there is always a line. */
  function Closed(lines: seq<string>, line: string): (r: seq<string>)
    ensures r != []
  {
    if line != "" || lines == [] then lines + [line] else lines
  }

  /** The lines of a cell. They hold the characters of the text in order, none is wider than the
      column, and words that fit a line stay whole, as many on a line as fit; a blank text is one empty line. */
  method WrapCell(text: string, columns: nat) returns (lines: seq<string>)
    ensures lines != [] && AllInk(lines) == Ink(text)
    ensures ESCAPE !in text ==> NarrowLines(lines, if columns == 0 then 1 else columns)
    ensures AllFit(SplitWhitespace(text), if columns == 0 then 1 else columns) ==>
      AllWords(lines) == SplitWhitespace(text) && Greedy(lines, if columns == 0 then 1 else columns)
    ensures if SplitWhitespace(text) == [] then lines == [""] else NonEmptyLines(lines)
  {
    hide Wrapped;
    var width := Max(columns, 1);
    var words := SplitWhitespace(text);
    WordsHoldInk(text);
    WrappedNone(words, width);
    hide AllInk, AllWords, Ink, Held, Put, NarrowLines, Greedy, Filled;
    hide SplitWhitespace, AllFit, NoEscape, NonEmptyLines, WidthFrom, Closed;
    NothingEmpty();
    lines := [];
    var line := "";
    var i := 0;
    while i < |words|
      invariant i <= |words| && Wrapped(words, width, i, lines, line) && NonEmptyLines(lines)
    {
      var r, open := PlaceWord(lines, line, words[i], width);
      WrappedNext(words, width, i, lines, line, r, open);
      lines, line := r, open;
      i := i + 1;
    }
    Finished(words, width, lines, line);
    lines := Closed(lines, line);
  }

  lemma Finished(words: seq<string>, width: nat, lines: seq<string>, line: string)
    requires Wrapped(words, width, |words|, lines, line)
    ensures var all := Closed(lines, line);
      && AllInk(all) == AllInk(words) && (NoEscape(words) ==> NarrowLines(all, width))
      && (AllFit(words, width) ==> AllWords(all) == words && Greedy(all, width))
      && (if words == [] then all == [""] else NonEmptyLines(all))
  {
    assert words[..|words|] == words;
    InkNext(lines, line);
    NarrowNext(lines, line, width);
    hide AllInk, AllWords, NarrowLines, TooWide;
    if line == "" {
      NoInk();
      assert AllInk(lines) + "" == AllInk(lines);
      assert AllWords(lines) + [] == AllWords(lines);
    }
  }
}
