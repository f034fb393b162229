/** Dividing the width of the terminal among the columns of a table. */
module ColumnWidths {

  function Sum(s: seq<nat>): nat {
    if s == [] then 0 else s[0] + Sum(s[1..])
  }

  /** Spaces between the columns. */
  function Gaps(columns: nat): nat {
    if columns == 0 then 0 else 2 * (columns - 1)
  }

  function FloorOf(natural: nat, minimum: nat, numeric: bool): nat {
    if numeric then natural else if minimum < natural then minimum else natural
  }

  function Floors(natural: seq<nat>, minimum: seq<nat>, numeric: seq<bool>): (r: seq<nat>)
    requires |natural| == |minimum| == |numeric|
    ensures |r| == |natural|
    ensures forall i :: 0 <= i < |r| ==> r[i] <= natural[i]
  {
    seq(|natural|, i requires 0 <= i < |natural| => FloorOf(natural[i], minimum[i], numeric[i]))
  }

  function Wanted(natural: seq<nat>, floor: seq<nat>): seq<nat>
    requires |natural| == |floor| && forall i :: 0 <= i < |floor| ==> floor[i] <= natural[i]
  {
    seq(|natural|, i requires 0 <= i < |natural| => natural[i] - floor[i])
  }

  /** A part of the extra space in proportion, rounded down. */
  function ShareOf(want: nat, extra: nat, total: nat): nat
    requires total > 0
  {
    Down(want * extra, total)
  }

  function Down(a: nat, d: nat): nat
    requires d > 0
  {
    a / d
  }

  function Allocate(natural: seq<nat>, minimum: seq<nat>, numeric: seq<bool>, available: nat): (r: seq<nat>)
    requires |natural| == |minimum| == |numeric|
    ensures |r| == |natural|
  {
    var gaps := Gaps(|natural|);
    if Sum(natural) + gaps <= available then natural
    else
      var floor := Floors(natural, minimum, numeric);
      var used := Sum(floor) + gaps;
      var extra := if used < available then available - used else 0;
      var wanted := Sum(Wanted(natural, floor));
      if extra == 0 || wanted == 0 then floor
      else seq(|natural|, i requires 0 <= i < |natural| => floor[i] + ShareOf(natural[i] - floor[i], extra, wanted))
  }

  function Shares(wanted: seq<nat>, extra: nat, total: nat): seq<nat>
    requires total > 0
  {
    seq(|wanted|, i requires 0 <= i < |wanted| => ShareOf(wanted[i], extra, total))
  }

  lemma Cancel(q: nat, r: nat, d: nat)
    requires d > 0 && q * d <= r * d
    ensures q <= r
  {
    Multiply(r + 1, q, d);
  }

  lemma Multiply(a: nat, b: nat, d: nat)
    ensures a <= b ==> a * d <= b * d
    ensures (a + b) * d == a * d + b * d
  {
  }

  lemma Quotient(a: nat, d: nat)
    requires d > 0
    ensures Down(a, d) * d <= a < (Down(a, d) + 1) * d
  {
    assert a == d * (a / d) + a % d;
  }

  lemma AtMostQuotient(q: nat, a: nat, d: nat)
    requires d > 0 && q * d <= a
    ensures q <= Down(a, d)
  {
    hide Down;
    Quotient(a, d);
    Multiply(Down(a, d) + 1, q, d);
  }

  lemma QuotientsAdd(p: nat, q: nat, r: nat, a: nat, b: nat, d: nat)
    requires p * d <= a && q * d <= b && a + b < (r + 1) * d
    ensures p + q <= r
  {
    Multiply(p, q, d);
    Multiply(r + 1, p + q, d);
  }

  lemma DivAdds(a: nat, b: nat, d: nat)
    requires d > 0
    ensures Down(a, d) + Down(b, d) <= Down(a + b, d)
  {
    hide Down;
    Quotient(a, d);
    Quotient(b, d);
    Quotient(a + b, d);
    QuotientsAdd(Down(a, d), Down(b, d), Down(a + b, d), a, b, d);
  }

  /** Rounding every share down never gives away more than there is. */
  lemma {:induction false} SharesSum(wanted: seq<nat>, extra: nat, total: nat)
    requires total > 0
    ensures Sum(Shares(wanted, extra, total)) <= ShareOf(Sum(wanted), extra, total)
  {
    if wanted != [] {
      SharesSum(wanted[1..], extra, total);
      assert Shares(wanted, extra, total)[1..] == Shares(wanted[1..], extra, total);
      DivAdds(wanted[0] * extra, Sum(wanted[1..]) * extra, total);
      assert wanted[0] * extra + Sum(wanted[1..]) * extra == Sum(wanted) * extra;
    }
  }

  lemma {:induction false} SumAdds(a: seq<nat>, b: seq<nat>, c: seq<nat>)
    requires |a| == |b| == |c| && forall i :: 0 <= i < |a| ==> c[i] == a[i] + b[i]
    ensures Sum(c) == Sum(a) + Sum(b)
  {
    if a != [] {
      SumAdds(a[1..], b[1..], c[1..]);
    }
  }

  lemma ShareOfAll(extra: nat, total: nat)
    requires total > 0
    ensures ShareOf(total, extra, total) == extra
  {
    Quotient(total * extra, total);
    Cancel(Down(total * extra, total), extra, total);
    AtMostQuotient(extra, total * extra, total);
  }

  lemma ShareAtMost(want: nat, extra: nat, total: nat)
    requires total > 0 && extra <= total
    ensures ShareOf(want, extra, total) <= want
  {
    var a := want * extra;
    Quotient(a, total);
    Product(want, extra, total);
    Cancel(Down(a, total), want, total);
  }

  lemma Product(a: nat, b: nat, c: nat)
    requires b <= c
    ensures a * b <= a * c
  {
  }

  /** Rounding down takes less than one from every share. */
  lemma {:induction false} SharesMiss(wanted: seq<nat>, extra: nat, total: nat)
    requires total > 0
    ensures Sum(wanted) * extra <= (Sum(Shares(wanted, extra, total)) + |wanted|) * total
    ensures wanted != [] ==> Sum(wanted) * extra < (Sum(Shares(wanted, extra, total)) + |wanted|) * total
  {
    if wanted != [] {
      var rest := wanted[1..];
      SharesMiss(rest, extra, total);
      assert Shares(wanted, extra, total)[1..] == Shares(rest, extra, total);
      hide Sum, ShareOf;
      OneMiss(wanted[0], Sum(rest), extra, total, Sum(Shares(rest, extra, total)), |rest|);
      SumFirst(wanted);
      SumFirst(Shares(wanted, extra, total));
    }
  }

  lemma SumFirst(s: seq<nat>)
    requires s != []
    ensures Sum(s) == s[0] + Sum(s[1..])
  {
  }

  lemma OneMiss(want: nat, rest: nat, extra: nat, total: nat, shares: nat, count: nat)
    requires total > 0 && rest * extra <= (shares + count) * total
    ensures (want + rest) * extra < (ShareOf(want, extra, total) + shares + (count + 1)) * total
  {
    Quotient(want * extra, total);
    Multiply(ShareOf(want, extra, total) + 1, shares + count, total);
    Multiply(want, rest, extra);
    hide Down;
    assert ShareOf(want, extra, total) + shares + (count + 1) == ShareOf(want, extra, total) + 1 + (shares + count);
  }

  /** The least a column gets: a numeric one is never narrower than its contents, another one never narrower than
      its minimum or its contents. */
  ghost predicate IsFloor(natural: nat, minimum: nat, numeric: bool, floor: nat) {
    if numeric then floor == natural
    else floor <= minimum && floor <= natural && (floor == minimum || floor == natural)
  }

  ghost predicate AreFloors(natural: seq<nat>, minimum: seq<nat>, numeric: seq<bool>, floor: seq<nat>)
    requires |natural| == |minimum| == |numeric|
  {
    |floor| == |natural| && forall i :: 0 <= i < |floor| ==> IsFloor(natural[i], minimum[i], numeric[i], floor[i])
  }

  /** Two spaces stand between neighbours. */
  ghost function SpaceFor(widths: seq<nat>): nat {
    if widths == [] then 0 else Sum(widths) + 2 * (|widths| - 1)
  }

  /** Every column lies between its floor and its natural width. The table has its natural widths when they fit,
      and the floors when nothing else does; in between it fits, and leaves less than one space per column. */
  lemma AllocationFits(natural: seq<nat>, minimum: seq<nat>, numeric: seq<bool>, floor: seq<nat>, available: nat)
    requires |natural| == |minimum| == |numeric| && AreFloors(natural, minimum, numeric, floor)
    ensures var r := Allocate(natural, minimum, numeric, available);
      && (forall i :: 0 <= i < |r| ==> floor[i] <= r[i] <= natural[i])
      && (SpaceFor(natural) <= available ==> r == natural)
      && (SpaceFor(floor) <= available ==> SpaceFor(r) <= available)
      && (SpaceFor(floor) >= available && SpaceFor(natural) > available ==> r == floor)
      && (SpaceFor(floor) <= available < SpaceFor(natural) ==> available < SpaceFor(r) + |r|)
  {
    assert floor == Floors(natural, minimum, numeric);
    var want := Wanted(natural, floor);
    SumAdds(floor, want, natural);
    hide Sum;
    if SpaceFor(floor) < available < SpaceFor(natural) {
      SpreadFits(natural, minimum, numeric, available, floor, want, available - SpaceFor(floor));
    }
  }

  lemma SpreadFits(natural: seq<nat>, minimum: seq<nat>, numeric: seq<bool>, available: nat,
                   floor: seq<nat>, want: seq<nat>, extra: nat)
    requires |natural| == |minimum| == |numeric| && floor == Floors(natural, minimum, numeric)
    requires want == Wanted(natural, floor) && 0 < extra < Sum(want)
    requires Sum(natural) + Gaps(|natural|) > available == Sum(floor) + Gaps(|natural|) + extra
    ensures var r := Allocate(natural, minimum, numeric, available);
      && (forall i :: 0 <= i < |r| ==> floor[i] <= r[i] <= natural[i])
      && Sum(r) <= Sum(floor) + extra < Sum(r) + |r|
  {
    var r, shares, total := Allocate(natural, minimum, numeric, available), Shares(want, extra, Sum(want)), Sum(want);
    forall i | 0 <= i < |r| ensures r[i] == floor[i] + shares[i] && shares[i] <= want[i] {
      ShareAtMost(want[i], extra, total);
    }
    hide Allocate, ShareOf;
    SumAdds(floor, shares, r);
    SharesFit(want, extra);
  }

  lemma SharesFit(want: seq<nat>, extra: nat)
    requires 0 < extra < Sum(want)
    ensures var given := Sum(Shares(want, extra, Sum(want))); given <= extra < given + |want|
  {
    var total := Sum(want);
    SharesSum(want, extra, total);
    ShareOfAll(extra, total);
    SharesMiss(want, extra, total);
    Multiply(Sum(Shares(want, extra, total)) + |want|, extra, total);
  }
}
