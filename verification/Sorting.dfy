/** The stable sort of the standard library, as a specification function over an ordering,
    with the consequences the callers rely on. */
module Sorting {

  /** The numbers below `n`. */
  function Indices(n: nat): (r: seq<nat>)
    ensures |r| == n && forall i :: 0 <= i < n ==> r[i] == i
  {
    seq(n, i => i)
  }

  ghost predicate TotalOrder<T(!new)>(le: (T, T) -> bool) {
    && (forall x, y :: le(x, y) || le(y, x))
    && (forall x, y, z :: le(x, y) && le(y, z) ==> le(x, z))
  }

  ghost predicate SortedBy<T>(s: seq<T>, le: (T, T) -> bool) {
    forall i, j :: 0 <= i < j < |s| ==> le(s[i], s[j])
  }

  function Insert<T>(x: T, s: seq<T>, le: (T, T) -> bool): (r: seq<T>)
    ensures multiset(r) == multiset(s) + multiset{x}
  {
    if s == [] then [x]
    else if le(x, s[0]) then [x] + s
    else
      assert s == [s[0]] + s[1..];
      [s[0]] + Insert(x, s[1..], le)
  }

  /** Insertion sort: an element goes before the later elements it is equal to. */
  function Sort<T>(s: seq<T>, le: (T, T) -> bool): (r: seq<T>)
    ensures multiset(r) == multiset(s)
  {
    if s == [] then []
    else
      assert s == [s[0]] + s[1..];
      Insert(s[0], Sort(s[1..], le), le)
  }

  lemma SameMembers<T>(s: seq<T>, r: seq<T>)
    requires multiset(s) == multiset(r)
    ensures |s| == |r|
    ensures forall x :: x in s <==> x in r
  {
    assert |multiset(s)| == |multiset(r)|;
    forall x ensures x in s <==> x in r {
      assert x in s <==> x in multiset(s);
      assert x in r <==> x in multiset(r);
    }
  }

  lemma {:induction false} InsertSorted<T(!new)>(x: T, s: seq<T>, le: (T, T) -> bool)
    requires TotalOrder(le) && SortedBy(s, le)
    ensures SortedBy(Insert(x, s, le), le)
  {
    if s != [] && !le(x, s[0]) {
      InsertSorted(x, s[1..], le);
      SameMembers(Insert(x, s[1..], le), s[1..] + [x]);
      var r := Insert(x, s[1..], le);
      forall j | 0 <= j < |r| ensures le(s[0], r[j]) {
        assert r[j] in s[1..] + [x];
      }
    }
  }

  lemma {:induction false} SortSorted<T(!new)>(s: seq<T>, le: (T, T) -> bool)
    requires TotalOrder(le)
    ensures SortedBy(Sort(s, le), le)
  {
    if s != [] {
      SortSorted(s[1..], le);
      InsertSorted(s[0], Sort(s[1..], le), le);
    }
  }

  ghost predicate NoDuplicates<T>(s: seq<T>) {
    forall i, j :: 0 <= i < j < |s| ==> s[i] != s[j]
  }

  lemma NoDuplicatesNext<T>(s: seq<T>, x: T)
    ensures NoDuplicates(s + [x]) <==> NoDuplicates(s) && x !in s
  {
    var r := s + [x];
    if x in s {
      var k :| 0 <= k < |s| && s[k] == x;
      assert r[k] == r[|s|];
    }
    if NoDuplicates(r) {
      assert forall k :: 0 <= k < |s| ==> r[k] == s[k];
    }
  }

  lemma {:induction false} NoDuplicatesMultiset<T>(s: seq<T>)
    ensures NoDuplicates(s) <==> (forall x :: multiset(s)[x] <= 1)
  {
    if s != [] {
      assert s == s[..|s| - 1] + [s[|s| - 1]];
      var t, x := s[..|s| - 1], s[|s| - 1];
      NoDuplicatesMultiset(t);
      assert x in t <==> multiset(t)[x] >= 1;
      forall y ensures multiset(s)[y] == multiset(t)[y] + (if y == x then 1 else 0) { }
      if NoDuplicates(s) {
        assert x !in t;
      } else if NoDuplicates(t) {
        assert x in t;
        assert multiset(s)[x] >= 2;
      } else {
        var y :| multiset(t)[y] > 1;
        assert multiset(s)[y] > 1;
      }
    }
  }

  lemma SortKeepsDistinct<T>(s: seq<T>, le: (T, T) -> bool)
    requires NoDuplicates(s)
    ensures NoDuplicates(Sort(s, le))
  {
    NoDuplicatesMultiset(s);
    NoDuplicatesMultiset(Sort(s, le));
  }

  ghost predicate Antisymmetric<T(!new)>(le: (T, T) -> bool) {
    forall x, y :: le(x, y) && le(y, x) ==> x == y
  }

  /** The order tells the elements of the list apart. */
  ghost predicate TellsApart<T>(s: seq<T>, le: (T, T) -> bool) {
    forall x, y :: x in s && y in s && le(x, y) && le(y, x) ==> x == y
  }

  lemma AntisymmetricTellsApart<T(!new)>(s: seq<T>, le: (T, T) -> bool)
    requires Antisymmetric(le)
    ensures TellsApart(s, le)
  {
  }

  lemma SortedFirst<T(!new)>(s: seq<T>, r: seq<T>, le: (T, T) -> bool)
    requires TotalOrder(le) && s != [] && r != []
    requires SortedBy(s, le) && r[0] in s
    ensures le(s[0], r[0])
  {
    var j :| 0 <= j < |s| && s[j] == r[0];
    assert le(s[0], s[0]);
  }

  /** The sorted arrangement of a multiset is unique when the order tells its elements apart. */
  lemma {:induction false} SortedUnique<T(!new)>(s: seq<T>, r: seq<T>, le: (T, T) -> bool)
    requires TotalOrder(le) && TellsApart(s, le)
    requires SortedBy(s, le) && SortedBy(r, le) && multiset(s) == multiset(r)
    ensures s == r
  {
    SameMembers(s, r);
    if s != [] {
      SortedFirst(s, r, le);
      SortedFirst(r, s, le);
      assert r[0] in s;
      assert s[0] == r[0];
      FewerToTell(s, le);
      hide TotalOrder, TellsApart;
      assert s == [s[0]] + s[1..] && r == [r[0]] + r[1..];
      assert multiset(s[1..]) == multiset(s) - multiset{s[0]};
      assert multiset(r[1..]) == multiset(r) - multiset{r[0]};
      SortedUnique(s[1..], r[1..], le);
    }
  }

  lemma FewerToTell<T>(s: seq<T>, le: (T, T) -> bool)
    requires TellsApart(s, le) && s != []
    ensures TellsApart(s[1..], le)
  {
  }

  lemma SortOfPermutation<T(!new)>(s: seq<T>, r: seq<T>, le: (T, T) -> bool)
    requires TotalOrder(le) && TellsApart(s, le) && multiset(s) == multiset(r)
    ensures Sort(s, le) == Sort(r, le)
  {
    SameMembers(s, Sort(s, le));
    assert TellsApart(Sort(s, le), le);
    SortSorted(s, le);
    SortSorted(r, le);
    SortedUnique(Sort(s, le), Sort(r, le), le);
  }

  function LeNat(x: nat, y: nat): bool { x <= y }

  ghost predicate StrictlySorted(s: seq<nat>) {
    forall i, j :: 0 <= i < j < |s| ==> s[i] < s[j]
  }

  /** Sorting distinct numbers gives the strictly increasing list of the same numbers. */
  lemma SortDistinctNats(s: seq<nat>)
    requires NoDuplicates(s)
    ensures StrictlySorted(Sort(s, LeNat))
    ensures |Sort(s, LeNat)| == |s|
    ensures forall x :: x in Sort(s, LeNat) <==> x in s
  {
    SortSorted(s, LeNat);
    SortKeepsDistinct(s, LeNat);
    SameMembers(s, Sort(s, LeNat));
    var r := Sort(s, LeNat);
    forall i, j | 0 <= i < j < |r| ensures r[i] < r[j] {
      assert LeNat(r[i], r[j]) && r[i] != r[j];
    }
  }

  /** Drops every element equal to its predecessor (`Vec::dedup`). */
  function Dedup<T(==)>(s: seq<T>): seq<T> {
    if |s| < 2 then s
    else if s[0] == s[1] then Dedup(s[1..])
    else [s[0]] + Dedup(s[1..])
  }

  lemma {:induction false} DedupSorted(s: seq<nat>)
    requires SortedBy(s, LeNat)
    ensures StrictlySorted(Dedup(s))
    ensures forall x :: x in Dedup(s) <==> x in s
  {
    if |s| >= 2 {
      var t := s[1..];
      assert SortedBy(t, LeNat) by {
        forall i, j | 0 <= i < j < |t| ensures LeNat(t[i], t[j]) {
          assert LeNat(s[i + 1], s[j + 1]);
        }
      }
      DedupSorted(t);
      assert s == [s[0]] + t;
      if s[0] != s[1] {
        var r := Dedup(t);
        forall j | 0 <= j < |r| ensures s[0] < r[j] {
          assert r[j] in t;
          var k :| 0 <= k < |t| && t[k] == r[j];
          assert LeNat(s[0], s[1]) && (k == 0 || LeNat(s[1], s[k + 1]));
        }
      }
    }
  }
}
