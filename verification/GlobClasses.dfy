/** Character classes of path patterns: which text spells which characters. */
module GlobClasses {
  import opened Wrappers
  import Basics
  import opened GlobTokens
  import opened GlobPatterns

  /** What a class lists between its brackets. */
  datatype Item = One(c: char) | Between(low: char, high: char)

  predicate Lists(item: Item, c: char) {
    match item
    case One(x) => c == x
    case Between(low, high) => low <= c <= high
  }

  function ItemText(item: Item): string {
    match item
    case One(c) => [c]
    case Between(low, high) => [low, '-', high]
  }

  function Spell(items: seq<Item>): string {
    if items == [] then "" else ItemText(items[0]) + Spell(items[1..])
  }

  /** The text up to the closing bracket goes on with a dash and a character, which would make a range of the
      character before it. */
  predicate DashFollows(items: seq<Item>) {
    var text := Spell(items) + "]";
    |text| >= 2 && text[0] == '-' && text[1] != ']'
  }

  /** The items can be told apart in the text: a closing bracket only stands in first place, a single character
      has no range after it, and ranges are in order. */
  predicate Readable(items: seq<Item>, first: bool) {
    items == [] ||
    (&& (first || ItemText(items[0])[0] != ']')
     && (match items[0] case One(_) => !DashFollows(items[1..]) case Between(low, high) => low <= high && high != ']')
     && Readable(items[1..], false))
  }

  function RangeOf(item: Item): (char, char) {
    match item
    case One(c) => (c, c)
    case Between(low, high) => (low, high)
  }

  function RangesOf(items: seq<Item>): (r: seq<(char, char)>)
    ensures |r| == |items| && forall i :: 0 <= i < |items| ==> r[i] == RangeOf(items[i])
  {
    seq(|items|, i requires 0 <= i < |items| => RangeOf(items[i]))
  }

  lemma RangesOfTail(items: seq<Item>)
    requires items != []
    ensures RangesOf(items) == [RangeOf(items[0])] + RangesOf(items[1..])
  {
  }

  /** Spelled items are read back. */
  lemma {:induction false} ReadItems(before: string, items: seq<Item>, after: string, first: bool)
    requires Readable(items, first) && (first ==> items != [])
    ensures RangesFrom(before + Spell(items) + "]" + after, |before|, first)
      == Ok(Ranges(RangesOf(items), |before| + |Spell(items)| + 1))
    decreases |items|
  {
    hide RangesFrom, RangesOf;
    var chars := before + Spell(items) + "]" + after;
    if items == [] {
      ReadEnd(before, after);
      assert before + "" + "]" + after == before + "]" + after;
    } else {
      var text, rest := ItemText(items[0]), items[1..];
      ReadItems(before + text, rest, after, false);
      RangesOfTail(items);
      assert before + text + Spell(rest) + "]" + after == chars;
      var tail := Spell(rest) + "]";
      assert chars == before + text + tail + after;
      FirstRead(before, items[0], tail, after, first);
    }
  }

  lemma ReadEnd(before: string, after: string)
    ensures RangesFrom(before + "]" + after, |before|, false) == Ok(Ranges([], |before| + 1))
  {
    assert (before + "]" + after)[|before|] == ']';
  }

  lemma FirstRead(before: string, item: Item, tail: string, after: string, first: bool)
    requires tail != "" && tail[|tail| - 1] == ']' && (first || ItemText(item)[0] != ']')
    requires match item case One(_) => !(|tail| >= 2 && tail[0] == '-' && tail[1] != ']')
                        case Between(low, high) => low <= high && high != ']'
    ensures var chars := before + ItemText(item) + tail + after;
      RangesFrom(chars, |before|, first)
        == Prepended(RangeOf(item), RangesFrom(chars, |before| + |ItemText(item)|, false))
  {
    var chars, i := before + ItemText(item) + tail + after, |before|;
    assert chars[i] == ItemText(item)[0];
    if item.One? {
      assert chars[i + 1] == tail[0];
      assert |tail| >= 2 ==> chars[i + 2] == tail[1];
    } else {
      assert chars[i + 1] == '-' && chars[i + 2] == item.high;
    }
  }

  /** What may stand behind the opening bracket: nothing, or one of the two signs of negation. */
  predicate IsMark(mark: string) {
    mark == "" || mark == "!" || mark == "^"
  }

  /** A class spelled with readable items compiles to one token wherever it stands, and the token accepts exactly
      the characters the items list, or exactly the others if it is negated, but never a slash. */
  lemma ClassRoundTrip(before: string, mark: string, items: seq<Item>, after: string, c: char, starCrossesSlash: bool)
    requires items != [] && Readable(items, true) && IsMark(mark)
    requires mark == "" ==> ItemText(items[0])[0] != '!' && ItemText(items[0])[0] != '^'
    ensures var front := before + "[" + mark;
      ClassAt(front + Spell(items) + "]" + after, |before|)
        == Ok((Class(mark != "", RangesOf(items)), |front| + |Spell(items)| + 1))
    ensures Accepts(Class(mark != "", RangesOf(items)), c, starCrossesSlash) <==>
      c != '/' && (mark == "" <==> exists i :: 0 <= i < |items| && Lists(items[i], c))
  {
    hide RangesFrom, RangesOf, InRanges, Readable;
    ReadItems(before + "[" + mark, items, after, true);
    assert Spell(items)[0] == ItemText(items[0])[0];
    MarkIsRead(before, mark, Spell(items), after);
    RangesList(items, c);
  }

  lemma MarkIsRead(before: string, mark: string, listed: string, after: string)
    requires IsMark(mark) && listed != "" && (mark == "" ==> listed[0] != '!' && listed[0] != '^')
    ensures NegatedAt(before + "[" + mark + listed + "]" + after, |before|) == (mark != "")
  {
    var chars := before + "[" + mark + listed + "]" + after;
    assert chars[|before| + 1] == if mark == "" then listed[0] else mark[0];
  }

  lemma RangesList(items: seq<Item>, c: char)
    ensures InRanges(c, RangesOf(items)) <==> exists i :: 0 <= i < |items| && Lists(items[i], c)
  {
    if i :| 0 <= i < |items| && Lists(items[i], c) {
      assert RangesOf(items)[i].0 <= c <= RangesOf(items)[i].1;
    }
    if InRanges(c, RangesOf(items)) {
      var i :| 0 <= i < |items| && RangesOf(items)[i].0 <= c <= RangesOf(items)[i].1;
      assert Lists(items[i], c);
    }
  }

  /** The item that starts at `index`. */
  function ItemAt(chars: string, index: nat): Item
    requires index < |chars|
  {
    if index + 2 < |chars| && chars[index + 1] == '-' && chars[index + 2] != ']'
    then Between(chars[index], chars[index + 2])
    else One(chars[index])
  }

  lemma ItemStep(chars: string, index: nat, first: bool)
    requires RangesFrom(chars, index, first).Ok? && index < |chars| && !(chars[index] == ']' && !first)
    ensures var item := ItemAt(chars, index);
      var next := index + |ItemText(item)|;
      var r, tail := RangesFrom(chars, index, first), RangesFrom(chars, next, false);
      && next <= |chars| && chars[index..next] == ItemText(item) && (item.Between? ==> item.low <= item.high)
      && tail.Ok? && r.value.next == tail.value.next && r.value.list == [RangeOf(item)] + tail.value.list
  {
  }

  lemma SpellNext(chars: string, index: nat, next: nat, end: nat, item: Item, rest: seq<Item>)
    requires index <= next <= end <= |chars|
    requires chars[index..next] == ItemText(item) && chars[next..end] == Spell(rest) + "]"
    ensures chars[index..end] == Spell([item] + rest) + "]"
  {
    assert ([item] + rest)[1..] == rest;
    Basics.Regroup(ItemText(item), Spell(rest), "]");
    assert chars[index..end] == chars[index..next] + chars[next..end];
  }

  /** Where a single character was read, no dash and character follow it. */
  lemma NoDash(chars: string, index: nat, end: nat, rest: seq<Item>)
    requires index < |chars| && (ItemAt(chars, index).One? ==> index + 1 <= end <= |chars|)
    requires ItemAt(chars, index).One? ==> chars[index + 1..end] == Spell(rest) + "]"
    ensures ItemAt(chars, index).One? ==> !DashFollows(rest)
  {
    if ItemAt(chars, index).One? {
      var text := Spell(rest) + "]";
      assert forall i :: 0 <= i < |text| ==> text[i] == chars[index + 1 + i];
    }
  }

  lemma ReadableNext(item: Item, rest: seq<Item>, first: bool)
    requires Readable(rest, false) && (first || ItemText(item)[0] != ']')
    requires match item case One(_) => !DashFollows(rest) case Between(low, high) => low <= high && high != ']'
    ensures Readable([item] + rest, first)
  {
    assert ([item] + rest)[1..] == rest;
  }

  /** And every class that compiles is spelled so. */
  lemma {:induction false} ClassIsSpelled(chars: string, index: nat, first: bool) returns (items: seq<Item>)
    requires RangesFrom(chars, index, first).Ok?
    ensures var r := RangesFrom(chars, index, first).value;
      && Readable(items, first) && (first ==> items != []) && r.list == RangesOf(items)
      && chars[index..r.next] == Spell(items) + "]"
    decreases |chars| - index
  {
    var r := RangesFrom(chars, index, first).value;
    if chars[index] == ']' && !first {
      items := [];
    } else {
      ItemStep(chars, index, first);
      hide RangesFrom, RangesOf, Readable, Spell;
      var item := ItemAt(chars, index);
      var next := index + |ItemText(item)|;
      var rest := ClassIsSpelled(chars, next, false);
      items := [item] + rest;
      assert items[1..] == rest;
      RangesOfTail(items);
      SpellNext(chars, index, next, r.next, item, rest);
      NoDash(chars, index, r.next, rest);
      ReadableNext(item, rest, first);
    }
  }

  /** Some character is followed by a dash and a smaller character. */
  ghost predicate HasReversed(chars: string, index: nat, k: nat) {
    index <= k && k + 2 < |chars| && chars[k + 1] == '-' && chars[k + 2] < chars[k]
  }

  /** A class is unterminated only if no bracket closes it, one in first place aside, and has a reversed range only
      if some range is. */
  lemma {:induction false} ClassErrors(chars: string, index: nat, first: bool)
    ensures RangesFrom(chars, index, first) == Err(UnterminatedClass) ==>
      forall k :: index + (if first then 1 else 0) <= k < |chars| ==> chars[k] != ']'
    ensures RangesFrom(chars, index, first) == Err(ReversedRange) ==> exists k: nat :: HasReversed(chars, index, k)
    decreases |chars| - index
  {
    if index < |chars| && !(chars[index] == ']' && !first) {
      var item := ItemAt(chars, index);
      var next := index + |ItemText(item)|;
      if item.Between? && item.high < item.low {
        assert HasReversed(chars, index, index);
      } else {
        ClassErrors(chars, next, false);
        if k: nat :| HasReversed(chars, next, k) {
          assert HasReversed(chars, index, k);
        }
      }
    }
  }
}
