/** Printing and parsing date-times (section 5.6 of RFC 3339). Every character of an accepted text is
    ASCII, so characters stand for bytes. */
module Rfc3339 {
  import opened Wrappers
  import opened Text
  import opened Calendar
  import opened Timestamps

  // ----------------------------------------------------------------------- numbers

  function Pad(s: string, width: nat): string
    decreases width - |s|
  {
    if |s| >= width then s else Pad("0" + s, width)
  }

  /** A number with leading zeros; the sign counts towards the width. */
  function Padded(n: int, width: nat): string {
    if n >= 0 then Pad(Decimal(n), width) else "-" + Pad(Decimal(-n), if width == 0 then 0 else width - 1)
  }

  predicate IsDigit(c: char) {
    '0' <= c <= '9'
  }

  predicate AllDigits(s: string) {
    forall i :: 0 <= i < |s| ==> IsDigit(s[i])
  }

  function Value(s: string): nat
    requires AllDigits(s)
  {
    if s == "" then 0 else Value(s[..|s| - 1]) * 10 + (s[|s| - 1] as int - '0' as int)
  }

  /** A number below 2^32. */
  function ParseDigits(s: string): Option<nat> {
    if s == "" || !AllDigits(s) then None
    else if Value(s) < 0x1_0000_0000 then Some(Value(s)) else None
  }

  lemma {:induction false} DecimalDigits(n: nat)
    ensures AllDigits(Decimal(n)) && Decimal(n) != ""
    ensures n >= 10000 ==> |Decimal(n)| >= 5
  {
    if n >= 10 {
      DecimalDigits(n / 10);
      if n >= 10000 {
        FiveDigits(n);
      }
    }
  }

  lemma FiveDigits(n: nat)
    requires n >= 10000
    ensures |Decimal(n)| >= 5
  {
    var a, b, c, d := n / 10, n / 10 / 10, n / 10 / 10 / 10, n / 10 / 10 / 10 / 10;
    assert d >= 1;
    assert |Decimal(d)| >= 1 && |Decimal(c)| >= 2 && |Decimal(b)| >= 3 && |Decimal(a)| >= 4;
  }

  function Two(n: nat): string
    requires n < 100
  {
    [Digit(n / 10), Digit(n % 10)]
  }

  function Four(n: nat): string
    requires n < 10000
  {
    Two(n / 100) + Two(n % 100)
  }

  lemma PaddedTwo(n: nat)
    requires n < 100
    ensures Padded(n, 2) == Two(n)
  {
    if n < 10 {
      assert "0" + Decimal(n) == Two(n);
      assert Pad("0" + Decimal(n), 2) == Two(n);
    } else {
      assert Decimal(n) == Two(n);
    }
  }

  lemma PadGoesOn(s: string, width: nat)
    requires 1 <= |s| <= 2 && width == 4
    ensures Pad(s, width) == (if |s| == 1 then "000" else "00") + s
  {
    if |s| == 1 {
      assert Pad("0" + ("0" + ("0" + s)), width) == "0" + ("0" + ("0" + s));
      assert "0" + ("0" + ("0" + s)) == "000" + s;
      assert Pad("0" + ("0" + s), width) == "000" + s;
      assert Pad("0" + s, width) == "000" + s;
    } else {
      assert Pad("0" + ("0" + s), width) == "0" + ("0" + s);
      assert "0" + ("0" + s) == "00" + s;
      assert Pad("0" + s, width) == "00" + s;
    }
  }

  lemma PaddedFour(n: nat)
    requires n < 10000
    ensures Padded(n, 4) == Four(n)
  {
    if n < 100 {
      assert Four(n) == "00" + Two(n);
      if n < 10 {
        assert Decimal(n) == [Digit(n)] && Two(n) == "0" + [Digit(n)];
        assert "000" + Decimal(n) == "00" + Two(n);
      } else {
        assert Decimal(n) == Two(n);
      }
      PadGoesOn(Decimal(n), 4);
    } else {
      HigherDigits(n);
    }
  }

  lemma HigherDigits(n: nat)
    requires 100 <= n < 10000
    ensures Pad(Decimal(n), 4) == Four(n)
  {
    var m := n / 10;
    assert m / 10 == n / 100 && m % 10 == n % 100 / 10 && n % 10 == n % 100 % 10;
    if n < 1000 {
      assert Decimal(m) == [Digit(m / 10), Digit(m % 10)];
      assert "0" + Decimal(n) == Four(n);
    } else {
      var k := m / 10;
      assert Decimal(k) == [Digit(k / 10), Digit(k % 10)];
      assert Decimal(n) == Four(n);
    }
  }

  lemma {:induction false} ValueNext(s: string, d: nat)
    requires AllDigits(s) && d < 10
    ensures Value(s + [Digit(d)]) == Value(s) * 10 + d
  {
    assert (s + [Digit(d)])[..|s|] == s;
  }

  lemma TwoParses(n: nat)
    requires n < 100
    ensures AllDigits(Two(n)) && ParseDigits(Two(n)) == Some(n)
  {
    ValueNext("", n / 10);
    assert "" + [Digit(n / 10)] == [Digit(n / 10)];
    ValueNext([Digit(n / 10)], n % 10);
    assert [Digit(n / 10)] + [Digit(n % 10)] == Two(n);
  }

  lemma FourParses(n: nat)
    requires n < 10000
    ensures AllDigits(Four(n)) && ParseDigits(Four(n)) == Some(n)
  {
    var a, b := n / 100, n % 100;
    TwoParses(a);
    TwoParses(b);
    ValueNext(Two(a), b / 10);
    ValueNext(Two(a) + [Digit(b / 10)], b % 10);
    assert Two(a) + [Digit(b / 10)] + [Digit(b % 10)] == Four(n);
  }

  // ---------------------------------------------------------------------- printing

  function Written(c: CivilDateTime): string {
    Padded(c.year, 4) + "-" + Padded(c.month, 2) + "-" + Padded(c.day, 2) + "T"
    + Padded(c.hour, 2) + ":" + Padded(c.minute, 2) + ":" + Padded(c.second, 2) + "Z"
  }

  function ToRfc3339(t: int): string {
    Written(Civil(t))
  }

  // ----------------------------------------------------------------------- parsing

  function CountDigits(s: string): (n: nat)
    ensures n <= |s| && AllDigits(s[..n])
    ensures n < |s| ==> !IsDigit(s[n])
  {
    if s == "" || !IsDigit(s[0]) then 0 else 1 + CountDigits(s[1..])
  }

  /** What follows a fraction of a second. */
  function SkipFraction(rest: string): Option<string> {
    if rest != "" && rest[0] == '.' then
      var digits := CountDigits(rest[1..]);
      if digits == 0 then None else Some(rest[1..][digits..])
    else Some(rest)
  }

  /** The hours and minutes of a numeric offset, with or without a colon. */
  function OffsetFields(offset: string): Option<(string, string)> {
    if |offset| == 5 && offset[2] == ':' then Some((offset[0..2], offset[3..5]))
    else if |offset| == 4 then Some((offset[0..2], offset[2..4]))
    else None
  }

  function OffsetSeconds(rest: string): Option<int> {
    if rest == "Z" || rest == "z" then Some(0)
    else if rest == "" then None
    else if rest[0] != '+' && rest[0] != '-' then None
    else
      var fields :- OffsetFields(rest[1..]);
      var hours :- ParseDigits(fields.0);
      var minutes :- ParseDigits(fields.1);
      if hours > 23 || minutes > 59 then None
      else Some((if rest[0] == '+' then 1 else -1) * (hours * 3600 + minutes * 60))
  }

  function ParseDate(input: string): Option<Date> {
    if |input| < 10 || input[4] != '-' || input[7] != '-' then None
    else
      var year :- ParseDigits(input[0..4]);
      var month :- ParseDigits(input[5..7]);
      var day :- ParseDigits(input[8..10]);
      Some(Date(year, month, day))
  }

  function ParseTime(input: string): Option<(nat, nat, nat)>
    requires |input| > 10
  {
    if input[10] !in "Tt " || |input| < 19 then None
    else if input[13] != ':' || input[16] != ':' then None
    else
      var hour :- ParseDigits(input[11..13]);
      var minute :- ParseDigits(input[14..16]);
      var second :- ParseDigits(input[17..19]);
      Some((hour, minute, second))
  }

  /** The seconds of a date-time, or of the midnight a bare date stands for. */
  function ParseText(input: string): Option<int> {
    var d :- ParseDate(input);
    if |input| == 10 then FromYmd(d.year, d.month, d.day)
    else
      var time :- ParseTime(input);
      var rest :- SkipFraction(input[19..]);
      var offset :- OffsetSeconds(rest);
      var local :- FromCivil(CivilDateTime(d.year, d.month, d.day, time.0, time.1, time.2));
      Some(local - offset)
  }

  function Parse(input: string): Option<int> {
    ParseText(Trim(input))
  }

  // -------------------------------------------------------------------- round trips

  /** The six fields with their separators. */
  function Fields(c: CivilDateTime, separator: char): string
    requires 0 <= c.year < 10000 && IsCivil(c)
  {
    Four(c.year) + "-" + Two(c.month) + "-" + Two(c.day) + [separator]
    + Two(c.hour) + ":" + Two(c.minute) + ":" + Two(c.second)
  }

  lemma FieldsParse(c: CivilDateTime, separator: char, zone: string)
    requires 0 <= c.year < 10000 && IsCivil(c) && separator in "Tt "
    ensures var s := Fields(c, separator) + zone;
      |Fields(c, separator)| == 19 && ParseDate(s) == Some(DateOf(c))
        && ParseTime(s) == Some((c.hour, c.minute, c.second))
      && s[19..] == zone
  {
    var s := Fields(c, separator) + zone;
    assert s[0..4] == Four(c.year) && s[5..7] == Two(c.month) && s[8..10] == Two(c.day);
    assert s[11..13] == Two(c.hour) && s[14..16] == Two(c.minute) && s[17..19] == Two(c.second);
    FourParses(c.year);
    TwoParses(c.month);
    TwoParses(c.day);
    TwoParses(c.hour);
    TwoParses(c.minute);
    TwoParses(c.second);
  }

  lemma WrittenFields(c: CivilDateTime)
    requires 0 <= c.year < 10000 && IsCivil(c)
    ensures Written(c) == Fields(c, 'T') + "Z"
  {
    PaddedFour(c.year);
    PaddedTwo(c.month);
    PaddedTwo(c.day);
    PaddedTwo(c.hour);
    PaddedTwo(c.minute);
    PaddedTwo(c.second);
  }

  lemma OtherYears(c: CivilDateTime)
    requires c.year < 0 || c.year > 9999
    ensures ParseText(Written(c)) == None
  {
    var s, year := Written(c), Padded(c.year, 4);
    if c.year > 9999 {
      DecimalDigits(c.year);
      assert s[4] == year[4] && IsDigit(year[4]);
    } else {
      assert s[0] == '-';
      if |s| >= 10 {
        assert s[0..4][0] == '-';
      }
    }
  }

  lemma WrittenSolid(c: CivilDateTime)
    ensures Trim(Written(c)) == Written(c)
  {
    var s := Written(c);
    assert s[|s| - 1] == 'Z';
    if c.year >= 0 {
      DecimalDigits(c.year);
      PadStart(Decimal(c.year), 4);
    }
    assert IsDigit(s[0]) || s[0] == '-';
    TrimSolid(s);
  }

  lemma {:induction false} PadStart(s: string, width: nat)
    requires s != "" && IsDigit(s[0])
    ensures Pad(s, width) != "" && IsDigit(Pad(s, width)[0])
    decreases width - |s|
  {
    if |s| < width {
      PadStart("0" + s, width);
    }
  }

  /** Parsing a printed timestamp gives it back exactly in the years 0 to 9999; the text of any other
      timestamp is refused. */
  lemma RoundTrip(t: int)
    ensures Parse(ToRfc3339(t)) == if 0 <= Civil(t).year <= 9999 then Some(t) else None
  {
    var c := Civil(t);
    CivilRoundTrip(t);
    hide Civil, FromCivil;
    WrittenSolid(c);
    if 0 <= c.year <= 9999 {
      WrittenFields(c);
      FieldsParse(c, 'T', "Z");
    } else {
      OtherYears(c);
    }
  }

  // ------------------------------------------------------------------------ offsets

  function Offset(sign: char, hours: nat, minutes: nat, colon: bool): string
    requires hours < 100 && minutes < 100
  {
    [sign] + Two(hours) + (if colon then ":" else "") + Two(minutes)
  }

  lemma OffsetParses(sign: char, hours: nat, minutes: nat, colon: bool)
    requires hours < 100 && minutes < 100 && (sign == '+' || sign == '-')
    ensures OffsetSeconds(Offset(sign, hours, minutes, colon)) ==
      if hours > 23 || minutes > 59 then None
      else Some(if sign == '+' then hours * 3600 + minutes * 60 else -(hours * 3600 + minutes * 60))
  {
    TwoParses(hours);
    TwoParses(minutes);
    var rest := Offset(sign, hours, minutes, colon);
    var digits := rest[1..];
    if colon {
      assert digits == Two(hours) + ":" + Two(minutes);
      assert digits[0..2] == Two(hours) && digits[3..5] == Two(minutes) && digits[2] == ':';
    } else {
      assert digits == Two(hours) + Two(minutes);
      assert digits[0..2] == Two(hours) && digits[2..4] == Two(minutes);
    }
  }

  /** A fraction of a second, or none. */
  predicate IsFraction(s: string) {
    s == "" || (|s| > 1 && s[0] == '.' && AllDigits(s[1..]))
  }

  predicate StartsZone(zone: string) {
    zone == "" || (!IsDigit(zone[0]) && zone[0] != '.')
  }

  lemma {:induction false} CountsAll(digits: string, zone: string)
    requires AllDigits(digits) && StartsZone(zone)
    ensures CountDigits(digits + zone) == |digits|
  {
    if digits == "" {
      assert digits + zone == zone;
    } else {
      CountsAll(digits[1..], zone);
      assert (digits + zone)[1..] == digits[1..] + zone;
    }
  }

  lemma FractionSkipped(fraction: string, zone: string)
    requires IsFraction(fraction) && StartsZone(zone)
    ensures SkipFraction(fraction + zone) == Some(zone)
  {
    if fraction == "" {
      assert fraction + zone == zone;
    } else {
      CountsAll(fraction[1..], zone);
      assert (fraction + zone)[1..] == fraction[1..] + zone;
      assert (fraction[1..] + zone)[|fraction| - 1..] == zone;
    }
  }

  function Shifted(r: Option<int>, offset: Option<int>): Option<int> {
    if r.Some? && offset.Some? then Some(r.value - offset.value) else None
  }

  /** Whatever the first nineteen characters are, a fraction changes nothing, and a zone shifts the
      time in UTC by minus its offset. */
  lemma ZoneShifts(head: string, fraction: string, zone: string)
    requires |head| == 19 && IsFraction(fraction) && StartsZone(zone)
    ensures ParseText(head + fraction + zone) == Shifted(ParseText(head + "Z"), OffsetSeconds(zone))
  {
    hide FromCivil, SkipFraction, OffsetSeconds, ParseDate, ParseTime, IsFraction, StartsZone;
    FractionSkipped(fraction, zone);
    SameHead(head, fraction + zone, "Z");
    UtcSkipped();
    var s, utc := head + fraction + zone, head + "Z";
    assert head + (fraction + zone) == s;
    assert s[19..] == fraction + zone && utc[19..] == "Z";
  }

  lemma UtcSkipped()
    ensures SkipFraction("Z") == Some("Z") && OffsetSeconds("Z") == Some(0)
  {
    assert "Z"[0] != '.';
  }

  lemma SameHead(head: string, a: string, b: string)
    requires |head| == 19
    ensures ParseDate(head + a) == ParseDate(head + b) && ParseTime(head + a) == ParseTime(head + b)
  {
    var s, r := head + a, head + b;
    assert s[0..4] == r[0..4] && s[5..7] == r[5..7] && s[8..10] == r[8..10];
    assert s[11..13] == r[11..13] && s[14..16] == r[14..16] && s[17..19] == r[17..19];
    hide ParseDigits;
  }

  /** A numeric offset is subtracted from the time that the same digits name in UTC; it is refused when
      out of range, with or without a colon. */
  lemma OffsetLaw(head: string, fraction: string, sign: char, hours: nat, minutes: nat, colon: bool)
    requires |head| == 19 && IsFraction(fraction) && (sign == '+' || sign == '-') && hours < 100 && minutes < 100
    ensures ParseText(head + fraction + Offset(sign, hours, minutes, colon)) ==
      if hours > 23 || minutes > 59 then None
      else Shifted(ParseText(head + "Z"), Some(if sign == '+' then hours * 3600 + minutes * 60
                                               else -(hours * 3600 + minutes * 60)))
  {
    OffsetParses(sign, hours, minutes, colon);
    var zone := Offset(sign, hours, minutes, colon);
    assert zone[0] == sign;
    hide OffsetSeconds, ParseText, Offset;
    ZoneShifts(head, fraction, zone);
  }

  lemma UtcZone(zone: string)
    requires zone in {"Z", "z"}
    ensures StartsZone(zone) && OffsetSeconds(zone) == Some(0)
  {
  }

  lemma FieldsInUtc(c: CivilDateTime, separator: char)
    requires 0 <= c.year < 10000 && IsCivil(c) && separator in "Tt "
    ensures |Fields(c, separator)| == 19 && ParseText(Fields(c, separator) + "Z") == FromCivil(c)
  {
    FieldsParse(c, separator, "Z");
    UtcSkipped();
    hide FromCivil, IsCivil, Fields, ParseDate, ParseTime, SkipFraction, OffsetSeconds;
  }

  /** Every valid date-time is read back from its fields, under any of the three separators, with any
      fraction and in either case of the zone letter. */
  lemma FieldsRoundTrip(c: CivilDateTime, separator: char, fraction: string, zone: string)
    requires 0 <= c.year < 10000 && IsCivil(c) && separator in "Tt " && IsFraction(fraction) && zone in {"Z", "z"}
    ensures ParseText(Fields(c, separator) + fraction + zone) == FromCivil(c)
  {
    UtcZone(zone);
    FieldsInUtc(c, separator);
    hide FromCivil, IsCivil, Fields, ParseText, OffsetSeconds, StartsZone, IsFraction;
    ZoneShifts(Fields(c, separator), fraction, zone);
  }

  /** A bare date is its midnight in UTC. */
  lemma BareDate(date: string)
    requires |date| == 10
    ensures ParseText(date) == ParseText(date + "T00:00:00Z")
  {
    var s := date + "T00:00:00Z";
    assert s[0..4] == date[0..4] && s[5..7] == date[5..7] && s[8..10] == date[8..10];
    TwoParses(0);
    assert Two(0) == "00";
    var tail := "T00:00:00Z";
    assert tail[1..3] == "00" && tail[4..6] == "00" && tail[7..9] == "00" && tail[9..] == "Z";
    assert s[11..13] == tail[1..3] && s[14..16] == tail[4..6] && s[17..19] == tail[7..9] && s[19..] == tail[9..];
  }
}
