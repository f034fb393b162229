/** The licenses to comply with: all parts of a conjunction, the preferred one of a disjunction. */
module LicenseChoice {
  import opened Basics
  import opened LicenseParser
  import opened LicensePrinter

  const PREFERENCE: seq<string> := [
    "Apache-2.0", "MIT", "BSD-3-Clause", "BSD-2-Clause", "ISC", "Zlib", "0BSD", "MIT-0", "Unlicense",
    "CC0-1.0", "Unicode-3.0", "BSL-1.0", "MPL-2.0", "Apache-2.0 WITH LLVM-exception", "CDLA-Permissive-2.0"]

  function PositionFrom(license: string, i: nat): nat
    requires i <= |PREFERENCE|
    decreases |PREFERENCE| - i
  {
    if i == |PREFERENCE| || PREFERENCE[i] == license then i else PositionFrom(license, i + 1)
  }

  /** Position in the order of preference; unknown licenses come after all others. */
  function Rank(license: string): nat {
    PositionFrom(license, 0)
  }

  /** A known license ranks at its first place in the order of preference, an unknown one behind all of them. */
  lemma {:induction false} RankIsPlace(license: string, i: nat)
    requires i <= |PREFERENCE|
    ensures var r := PositionFrom(license, i);
      && i <= r <= |PREFERENCE| && license !in PREFERENCE[i..r]
      && (r < |PREFERENCE| ==> PREFERENCE[r] == license)
    decreases |PREFERENCE| - i
  {
    hide PREFERENCE;
    if i < |PREFERENCE| && PREFERENCE[i] != license {
      RankIsPlace(license, i + 1);
      var r := PositionFrom(license, i);
      assert PREFERENCE[i..r] == [PREFERENCE[i]] + PREFERENCE[i + 1..r];
    }
  }

  /** The worst rank in the set, below all ranks when there is none. */
  ghost function WorstRank(s: set<string>): int
    ensures s == {} ==> WorstRank(s) == -1
    ensures forall l :: l in s ==> Rank(l) <= WorstRank(s)
    ensures s != {} ==> exists l :: l in s && Rank(l) == WorstRank(s)
  {
    if s == {} then -1
    else
      var l :| l in s;
      var rest := WorstRank(s - {l});
      if rest < Rank(l) then Rank(l) else rest
  }

  /** By worst rank, then by size. */
  ghost predicate Better(a: set<string>, b: set<string>) {
    WorstRank(a) < WorstRank(b) || (WorstRank(a) == WorstRank(b) && |a| < |b|)
  }

  /** The first of the best choices. */
  ghost function BestOf(sets: seq<set<string>>): set<string>
    requires sets != []
  {
    if |sets| == 1 then sets[0]
    else
      var best := BestOf(sets[..|sets| - 1]);
      if Better(sets[|sets| - 1], best) then sets[|sets| - 1] else best
  }

  ghost function Choices(items: seq<Expression>): (r: seq<set<string>>)
    ensures |r| == |items| && forall i :: 0 <= i < |items| ==> r[i] == Choose(items[i])
    decreases items, 0
  {
    if items == [] then [] else [Choose(items[0])] + Choices(items[1..])
  }

  ghost function Union(sets: seq<set<string>>): (r: set<string>)
    ensures forall l :: l in r <==> exists i :: 0 <= i < |sets| && l in sets[i]
  {
    if sets == [] then {} else sets[0] + Union(sets[1..])
  }

  ghost function Choose(e: Expression): set<string>
    decreases e, 1
  {
    match e
    case License(l) => {l}
    case And(items) => Union(Choices(items))
    case Or(items) => if items == [] then {} else BestOf(Choices(items))
  }

  // --------------------------------------------------------------- what is promised

  ghost predicate Satisfies(s: set<string>, e: Expression) {
    match e
    case License(l) => l in s
    case And(items) => forall i :: 0 <= i < |items| ==> Satisfies(s, items[i])
    case Or(items) => exists i :: 0 <= i < |items| && Satisfies(s, items[i])
  }

  ghost predicate Mentions(e: Expression, l: string) {
    match e
    case License(name) => l == name
    case And(items) => exists i :: 0 <= i < |items| && Mentions(items[i], l)
    case Or(items) => exists i :: 0 <= i < |items| && Mentions(items[i], l)
  }

  /** No disjunction without alternatives. */
  ghost predicate HasAlternatives(e: Expression) {
    match e
    case License(_) => true
    case And(items) => forall i :: 0 <= i < |items| ==> HasAlternatives(items[i])
    case Or(items) => items != [] && forall i :: 0 <= i < |items| ==> HasAlternatives(items[i])
  }

  lemma {:induction false} WellFormedHasAlternatives(e: Expression)
    requires WellFormed(e)
    ensures HasAlternatives(e)
  {
    if !e.License? {
      forall i | 0 <= i < |e.items| ensures HasAlternatives(e.items[i]) {
        WellFormedHasAlternatives(e.items[i]);
      }
    }
  }

  lemma NotBetterThanBetter(a: set<string>, b: set<string>, c: set<string>)
    requires !Better(a, c) && Better(b, c)
    ensures !Better(a, b)
  {
  }

  lemma NotBetterThanItself(a: set<string>)
    ensures !Better(a, a)
  {
  }

  ghost predicate NoneBetter(sets: seq<set<string>>, best: set<string>) {
    forall i :: 0 <= i < |sets| ==> !Better(sets[i], best)
  }

  lemma NoneBetterNext(sets: seq<set<string>>, next: set<string>, best: set<string>)
    requires NoneBetter(sets, best)
    ensures NoneBetter(sets + [next], if Better(next, best) then next else best)
  {
    if Better(next, best) {
      forall i | 0 <= i < |sets| ensures !Better(sets[i], next) {
        NotBetterThanBetter(sets[i], next, best);
      }
      NotBetterThanItself(next);
    }
  }

  lemma OneIsBest(sets: seq<set<string>>)
    requires |sets| == 1
    ensures NoneBetter(sets, sets[0])
  {
    NotBetterThanItself(sets[0]);
  }

  lemma {:induction false} BestIsBest(sets: seq<set<string>>) returns (best: nat)
    requires sets != []
    ensures best < |sets| && BestOf(sets) == sets[best]
    ensures NoneBetter(sets, BestOf(sets))
  {
    var k := |sets| - 1;
    if k == 0 {
      best := 0;
      OneIsBest(sets);
    } else {
      hide NoneBetter, Better;
      best := BestIsBest(sets[..k]);
      NoneBetterNext(sets[..k], sets[k], BestOf(sets[..k]));
      assert sets[..k] + [sets[k]] == sets;
      if Better(sets[k], BestOf(sets[..k])) {
        best := k;
      }
    }
  }

  ghost predicate BeatsEarlier(sets: seq<set<string>>, best: nat)
    requires best < |sets|
  {
    forall i :: 0 <= i < best ==> Better(sets[best], sets[i])
  }

  lemma LastBeats(sets: seq<set<string>>, best: set<string>)
    requires sets != [] && NoneBetter(sets[..|sets| - 1], best) && Better(sets[|sets| - 1], best)
    ensures BeatsEarlier(sets, |sets| - 1)
  {
    var k := |sets| - 1;
    forall i | 0 <= i < k ensures Better(sets[k], sets[i]) {
      assert !Better(sets[..k][i], best);
      BetterOver(sets[k], best, sets[i]);
    }
  }

  /** Of equally good choices the first is taken: none is better, and it is better than every one before it. */
  lemma {:induction false} FirstOfBest(sets: seq<set<string>>) returns (best: nat)
    requires sets != []
    ensures best < |sets| && BestOf(sets) == sets[best]
    ensures NoneBetter(sets, BestOf(sets)) && BeatsEarlier(sets, best)
  {
    hide Better, WorstRank, NoneBetter, BeatsEarlier;
    var k := |sets| - 1;
    var last := BestIsBest(sets);
    if k == 0 {
      best := 0;
      NothingBefore(sets);
    } else if Better(sets[k], BestOf(sets[..k])) {
      best := k;
      var before := BestIsBest(sets[..k]);
      LastBeats(sets, BestOf(sets[..k]));
    } else {
      best := FirstOfBest(sets[..k]);
      SameBefore(sets, best);
    }
  }

  lemma NothingBefore(sets: seq<set<string>>)
    requires sets != []
    ensures BeatsEarlier(sets, 0)
  {
  }

  lemma SameBefore(sets: seq<set<string>>, best: nat)
    requires best < |sets| - 1 && BeatsEarlier(sets[..|sets| - 1], best)
    ensures BeatsEarlier(sets, best)
  {
    hide Better;
    var front := sets[..|sets| - 1];
    forall i | 0 <= i < best ensures Better(sets[best], sets[i]) {
      assert Better(front[best], front[i]);
    }
  }

  lemma BetterOver(c: set<string>, a: set<string>, b: set<string>)
    requires Better(c, a) && !Better(b, a)
    ensures Better(c, b)
  {
  }

  lemma {:induction false} SatisfiesMore(s: set<string>, t: set<string>, e: Expression)
    requires s <= t && Satisfies(s, e)
    ensures Satisfies(t, e)
  {
    if e.And? {
      forall i | 0 <= i < |e.items| ensures Satisfies(t, e.items[i]) { SatisfiesMore(s, t, e.items[i]); }
    } else if e.Or? {
      var i :| 0 <= i < |e.items| && Satisfies(s, e.items[i]);
      SatisfiesMore(s, t, e.items[i]);
    }
  }

  /** The choice satisfies the expression and names nothing outside it. */
  lemma {:induction false} ChoiceSatisfies(e: Expression)
    requires HasAlternatives(e)
    ensures Satisfies(Choose(e), e)
    ensures forall l :: l in Choose(e) ==> Mentions(e, l)
  {
    match e
    case License(l) =>
    case And(items) =>
      forall i | 0 <= i < |items|
        ensures Satisfies(Choose(e), items[i])
        ensures forall l :: l in Choices(items)[i] ==> Mentions(items[i], l)
      {
        ChoiceSatisfies(items[i]);
        assert Choices(items)[i] <= Union(Choices(items));
        SatisfiesMore(Choose(items[i]), Choose(e), items[i]);
      }
    case Or(items) =>
      var i := BestIsBest(Choices(items));
      ChoiceSatisfies(items[i]);
  }

  lemma WorstRankMonotone(s: set<string>, t: set<string>)
    requires s <= t
    ensures WorstRank(s) <= WorstRank(t)
  {
    if s == {} {
      assert t != {} ==> WorstRank(t) >= 0;
    } else {
      var l :| l in s && Rank(l) == WorstRank(s);
    }
  }

  /** No set of licenses that satisfies the expression has a better worst rank. */
  lemma {:induction false} ChoiceIsPreferred(e: Expression, s: set<string>)
    requires HasAlternatives(e) && Satisfies(s, e)
    ensures WorstRank(Choose(e)) <= WorstRank(s)
  {
    match e
    case License(l) =>
    case And(items) =>
      if Choose(e) != {} {
        var l :| l in Choose(e) && Rank(l) == WorstRank(Choose(e));
        var i :| 0 <= i < |items| && l in Choices(items)[i];
        ChoiceIsPreferred(items[i], s);
      } else {
        WorstRankMonotone({}, s);
      }
    case Or(items) =>
      var i :| 0 <= i < |items| && Satisfies(s, items[i]);
      ChoiceIsPreferred(items[i], s);
      var best := BestIsBest(Choices(items));
      assert !Better(Choices(items)[i], BestOf(Choices(items)));
  }

  /** For every text that parses: the choice satisfies it, from its own licenses, at the best worst
      rank possible. */
  lemma ParsedChoice(text: string, s: set<string>)
    requires Parse(text).Ok?
    ensures var e := Parse(text).value;
      && Satisfies(Choose(e), e) && (forall l :: l in Choose(e) ==> Mentions(e, l))
      && (Satisfies(s, e) ==> WorstRank(Choose(e)) <= WorstRank(s))
  {
    var e := Parse(text).value;
    ParseWellFormed(text);
    WellFormedHasAlternatives(e);
    ChoiceSatisfies(e);
    if Satisfies(s, e) {
      ChoiceIsPreferred(e, s);
    }
  }

  // ---------------------------------------------------------------- smallest choices

  /** No disjunction inside. */
  ghost predicate NoOr(e: Expression) {
    match e
    case License(_) => true
    case And(items) => forall i :: 0 <= i < |items| ==> NoOr(items[i])
    case Or(_) => false
  }

  /** No disjunction inside a conjunction. */
  ghost predicate OrOnTop(e: Expression) {
    match e
    case License(_) => true
    case And(items) => NoOr(e)
    case Or(items) => forall i :: 0 <= i < |items| ==> OrOnTop(items[i])
  }

  /** Without a disjunction there is nothing to choose: the licenses are all needed. */
  lemma {:induction false} AllNeeded(e: Expression, s: set<string>)
    requires NoOr(e) && Satisfies(s, e)
    ensures Choose(e) <= s
  {
    if e.And? {
      forall i | 0 <= i < |e.items| ensures Choices(e.items)[i] <= s {
        AllNeeded(e.items[i], s);
      }
    }
  }

  lemma NotBetterThanPart(part: set<string>, s: set<string>)
    requires part <= s
    ensures !Better(s, part)
  {
    WorstRankMonotone(part, s);
    SubsetSize(part, s);
  }

  lemma NotBetterThrough(a: set<string>, b: set<string>, c: set<string>)
    requires !Better(a, b) && !Better(b, c)
    ensures !Better(a, c)
  {
  }

  /** If no conjunction contains a disjunction, no set that satisfies the expression has a better worst rank,
      or as good a one and fewer licenses. */
  lemma {:induction false} ChoiceIsSmallest(e: Expression, s: set<string>)
    requires OrOnTop(e) && Satisfies(s, e)
    ensures !Better(s, Choose(e))
  {
    hide Better, WorstRank;
    if e.Or? {
      var i :| 0 <= i < |e.items| && Satisfies(s, e.items[i]);
      ChoiceIsSmallest(e.items[i], s);
      var best := BestIsBest(Choices(e.items));
      assert NoneBetter(Choices(e.items), BestOf(Choices(e.items)));
      NotBetterThrough(s, Choices(e.items)[i], BestOf(Choices(e.items)));
    } else {
      AllNeeded(e, s);
      NotBetterThanPart(Choose(e), s);
    }
  }

  lemma KnownRanks()
    ensures WorstRank({"Apache-2.0"}) == 0 && WorstRank({"MIT"}) == 1 && WorstRank({"Apache-2.0", "MIT"}) == 1
  {
    assert PREFERENCE[0][0] != "MIT"[0];
    assert Rank("Apache-2.0") == 0 && Rank("MIT") == 1;
  }

  lemma EitherChoice()
    ensures Choose(Or([License("MIT"), License("Apache-2.0")])) == {"Apache-2.0"}
  {
    KnownRanks();
    var items := [License("MIT"), License("Apache-2.0")];
    var sets := Choices(items);
    assert sets == [{"MIT"}, {"Apache-2.0"}];
    assert sets[..1] == [{"MIT"}];
  }

  /** Inside a conjunction each disjunction is decided on its own, so there the choice need not be the
      smallest: here `MIT` alone satisfies the expression at the same worst rank. */
  lemma ChoiceNeedNotBeSmallest()
    ensures var e := And([Or([License("MIT"), License("Apache-2.0")]), License("MIT")]);
      && Choose(e) == {"Apache-2.0", "MIT"}
      && Satisfies({"MIT"}, e) && WorstRank({"MIT"}) == WorstRank(Choose(e))
  {
    KnownRanks();
    EitherChoice();
    var mit, either := License("MIT"), Or([License("MIT"), License("Apache-2.0")]);
    hide WorstRank, BestOf, PREFERENCE;
    var sets := Choices([either, mit]);
    assert sets[0] == {"Apache-2.0"} && sets[1] == {"MIT"};
    assert Union(sets) == {"Apache-2.0", "MIT"};
    assert Satisfies({"MIT"}, either.items[0]);
    assert Satisfies({"MIT"}, either);
  }
}
