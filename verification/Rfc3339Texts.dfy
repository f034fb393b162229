/** Which texts are date-times: the texts that parse are exactly those with a spelling, and each is read as the
    time its spelling says. */
module Rfc3339Texts {
  import opened Wrappers
  import Basics
  import opened Text
  import opened Calendar
  import opened Timestamps
  import opened Rfc3339

  /** UTC as a letter, or a numeric offset. */
  datatype Zone = Letter(letter: char) | Numeric(sign: char, hours: nat, minutes: nat, colon: bool)

  predicate IsZone(zone: Zone) {
    match zone
    case Letter(letter) => letter == 'Z' || letter == 'z'
    case Numeric(sign, hours, minutes, _) => (sign == '+' || sign == '-') && hours < 24 && minutes < 60
  }

  function ZoneText(zone: Zone): string
    requires IsZone(zone)
  {
    match zone
    case Letter(letter) => [letter]
    case Numeric(sign, hours, minutes, colon) => [sign] + Two(hours) + (if colon then ":" else "") + Two(minutes)
  }

  /** How many seconds the local time is ahead of UTC. */
  function Ahead(zone: Zone): int {
    match zone
    case Letter(_) => 0
    case Numeric(sign, hours, minutes, _) =>
      var seconds := hours * 3600 + minutes * 60;
      if sign == '-' then -seconds else seconds
  }

  /** Nothing, or a point and digits. */
  predicate IsFractional(s: string) {
    s == "" || (|s| > 1 && s[0] == '.' && forall i :: 1 <= i < |s| ==> IsDigit(s[i]))
  }

  /** A date alone, or a date-time with a separator, a fraction of a second or none, and a zone. */
  datatype Spelling =
    | Day(date: Date)
    | Moment(c: CivilDateTime, separator: char, fraction: string, zone: Zone)

  /** A real date and time of the years 0 to 9999. */
  predicate IsSpelling(s: Spelling) {
    match s
    case Day(date) => IsDate(date) && 0 <= date.year <= 9999
    case Moment(c, separator, fraction, zone) =>
      && IsCivil(c) && 0 <= c.year <= 9999
      && (separator == 'T' || separator == 't' || separator == ' ')
      && IsFractional(fraction)
      && IsZone(zone)
  }

  function SpellingText(s: Spelling): string
    requires IsSpelling(s)
  {
    match s
    case Day(date) => Four(date.year) + "-" + Two(date.month) + "-" + Two(date.day)
    case Moment(c, separator, fraction, zone) =>
      Four(c.year) + "-" + Two(c.month) + "-" + Two(c.day) + [separator]
      + Two(c.hour) + ":" + Two(c.minute) + ":" + Two(c.second) + fraction + ZoneText(zone)
  }

  /** The seconds since the epoch that it names. */
  function SpellingTime(s: Spelling): int {
    match s
    case Day(date) => DaysFromCivil(date) * 86400
    case Moment(c, _, _, zone) =>
      DaysFromCivil(DateOf(c)) * 86400 + c.hour * 3600 + c.minute * 60 + c.second - Ahead(zone)
  }

  // ------------------------------------------------------------- every spelling is read

  lemma MomentText(s: Spelling)
    requires IsSpelling(s) && s.Moment?
    ensures SpellingText(s) == Fields(s.c, s.separator) + s.fraction + ZoneText(s.zone)
    ensures IsFraction(s.fraction)
  {
    if s.fraction != "" {
      assert forall i :: 0 <= i < |s.fraction| - 1 ==> s.fraction[1..][i] == s.fraction[i + 1];
    }
  }

  lemma MomentIsRead(s: Spelling)
    requires IsSpelling(s) && s.Moment?
    ensures ParseText(SpellingText(s)) == Shifted(FromCivil(s.c), Some(Ahead(s.zone)))
  {
    MomentText(s);
    hide SpellingText, FromCivil, ParseText, IsFraction, Fields, IsCivil;
    match s.zone
    case Letter(letter) =>
      FieldsRoundTrip(s.c, s.separator, s.fraction, [letter]);
      FromCivilRoundTrip(s.c);
    case Numeric(sign, hours, minutes, colon) =>
      NumericIsRead(s.c, s.separator, s.fraction, s.zone);
  }

  lemma NumericIsRead(c: CivilDateTime, separator: char, fraction: string, zone: Zone)
    requires 0 <= c.year < 10000 && IsCivil(c) && separator in "Tt " && IsFraction(fraction)
    requires IsZone(zone) && zone.Numeric?
    ensures ParseText(Fields(c, separator) + fraction + ZoneText(zone)) == Shifted(FromCivil(c), Some(Ahead(zone)))
  {
    FieldsInUtc(c, separator);
    var head := Fields(c, separator);
    hide ParseText, FromCivil, IsFraction, Fields, IsCivil;
    NumericAfter(head, fraction, zone);
  }

  lemma NumericAfter(head: string, fraction: string, zone: Zone)
    requires |head| == 19 && IsFraction(fraction) && IsZone(zone) && zone.Numeric?
    ensures ParseText(head + fraction + ZoneText(zone)) == Shifted(ParseText(head + "Z"), Some(Ahead(zone)))
  {
    hide ParseText, IsFraction, ZoneText, Offset, Shifted;
    match zone
    case Numeric(sign, hours, minutes, colon) =>
      NumericText(zone);
      OffsetLaw(head, fraction, sign, hours, minutes, colon);
  }

  lemma NumericText(zone: Zone)
    requires IsZone(zone) && zone.Numeric?
    ensures ZoneText(zone) == Offset(zone.sign, zone.hours, zone.minutes, zone.colon)
  {
    hide Two;
  }

  lemma DayIsRead(date: Date)
    requires IsSpelling(Day(date))
    ensures ParseText(SpellingText(Day(date))) == FromCivil(CivilDateTime(date.year, date.month, date.day, 0, 0, 0))
  {
    var c := CivilDateTime(date.year, date.month, date.day, 0, 0, 0);
    var text := SpellingText(Day(date));
    assert Two(0) == "00";
    assert Fields(c, 'T') + "Z" == text + "T00:00:00Z";
    hide ParseText, FromCivil, SpellingText, Fields;
    BareDate(text);
    FieldsInUtc(c, 'T');
  }

  lemma SpellingIsRead(s: Spelling)
    requires IsSpelling(s)
    ensures ParseText(SpellingText(s)) == Some(SpellingTime(s))
  {
    hide ParseText, SpellingText, DaysFromCivil, DaysInMonth;
    match s
    case Day(date) => DayIsRead(date);
    case Moment(_, _, _, _) => MomentIsRead(s);
  }

  // ---------------------------------------------------- everything that is read is spelled

  lemma ValueOfTwo(x: string)
    requires |x| == 2 && AllDigits(x)
    ensures Value(x) < 100 && x == Two(Value(x))
  {
    assert Value(x[..1]) == x[0] as int - '0' as int by {
      assert x[..1][..0] == "";
    }
  }

  lemma ReadTwo(x: string, n: nat)
    requires |x| == 2 && ParseDigits(x) == Some(n)
    ensures n < 100 && x == Two(n)
  {
    ValueOfTwo(x);
  }

  lemma ReadFour(x: string, n: nat)
    requires |x| == 4 && ParseDigits(x) == Some(n)
    ensures n < 10000 && x == Four(n)
  {
    var high, low := x[..2], x[2..];
    ValueOfTwo(high);
    ValueOfTwo(low);
    JoinFour(Value(high), Value(low));
    assert x == high + low;
  }

  lemma JoinFour(high: nat, low: nat)
    requires high < 100 && low < 100
    ensures var n := high * 100 + low; n < 10000 && Two(high) + Two(low) == Four(n)
    ensures ParseDigits(Two(high) + Two(low)) == Some(high * 100 + low)
  {
    var n := high * 100 + low;
    FourParses(n);
    hide Two, ParseDigits;
    assert n / 100 == high && n % 100 == low;
  }

  lemma DateIsSpelled(input: string, d: Date)
    requires ParseDate(input) == Some(d)
    ensures |input| >= 10 && 0 <= d.year < 10000 && d.month < 100 && d.day < 100
    ensures input[..10] == Four(d.year) + "-" + Two(d.month) + "-" + Two(d.day)
  {
    ReadFour(input[0..4], d.year);
    ReadTwo(input[5..7], d.month);
    ReadTwo(input[8..10], d.day);
  }

  lemma TimeIsSpelled(input: string, time: (nat, nat, nat))
    requires |input| > 10 && ParseTime(input) == Some(time)
    ensures |input| >= 19 && time.0 < 100 && time.1 < 100 && time.2 < 100 && input[10] in "Tt "
    ensures input[10..19] == [input[10]] + Two(time.0) + ":" + Two(time.1) + ":" + Two(time.2)
  {
    ReadTwo(input[11..13], time.0);
    ReadTwo(input[14..16], time.1);
    ReadTwo(input[17..19], time.2);
  }

  lemma FractionIsSpelled(rest: string, zone: string) returns (fraction: string)
    requires SkipFraction(rest) == Some(zone)
    ensures rest == fraction + zone
    ensures IsFractional(fraction)
  {
    if rest != "" && rest[0] == '.' {
      var n := CountDigits(rest[1..]);
      fraction := rest[..n + 1];
      assert zone == rest[n + 1..];
      assert forall i :: 1 <= i < |fraction| ==> fraction[i] == rest[1..][..n][i - 1];
    } else {
      fraction := "";
    }
  }

  lemma ZoneIsSpelled(rest: string, offset: int) returns (zone: Zone)
    requires OffsetSeconds(rest) == Some(offset)
    ensures IsZone(zone) && ZoneText(zone) == rest && Ahead(zone) == offset
  {
    if rest == "Z" || rest == "z" {
      zone := Letter(rest[0]);
    } else {
      var fields := OffsetFields(rest[1..]).value;
      var hours, minutes := ParseDigits(fields.0).value, ParseDigits(fields.1).value;
      zone := Numeric(rest[0], hours, minutes, |rest| == 6);
      ReadTwo(fields.0, hours);
      ReadTwo(fields.1, minutes);
      OffsetIsSpelled(rest, fields);
    }
  }

  lemma OffsetIsSpelled(rest: string, fields: (string, string))
    requires rest != "" && OffsetFields(rest[1..]) == Some(fields)
    ensures rest == [rest[0]] + fields.0 + (if |rest| == 6 then ":" else "") + fields.1
  {
    var offset := rest[1..];
    if |offset| == 5 && offset[2] == ':' {
      assert rest[1..3] == fields.0 && rest[4..6] == fields.1 && rest[3] == ':';
    } else {
      assert rest[1..3] == fields.0 && rest[3..5] == fields.1;
    }
  }

  lemma DayIsSpelled(input: string, t: int) returns (s: Spelling)
    requires |input| == 10 && ParseText(input) == Some(t)
    ensures IsSpelling(s) && SpellingText(s) == input
  {
    var d := ParseDate(input).value;
    DateIsSpelled(input, d);
    FromCivilRoundTrip(CivilDateTime(d.year, d.month, d.day, 0, 0, 0));
    s := Day(d);
    assert input[..10] == input;
  }

  lemma MomentParts(input: string, t: int) returns (c: CivilDateTime, rest: string, offset: int)
    requires |input| != 10 && ParseText(input) == Some(t)
    ensures |input| >= 19 && ParseDate(input) == Some(DateOf(c))
    ensures ParseTime(input) == Some((c.hour, c.minute, c.second))
    ensures SkipFraction(input[19..]) == Some(rest) && OffsetSeconds(rest) == Some(offset) && FromCivil(c).Some?
  {
    var d, time := ParseDate(input).value, ParseTime(input).value;
    hide FromCivil, SkipFraction, OffsetSeconds, ParseDate;
    c := CivilDateTime(d.year, d.month, d.day, time.0, time.1, time.2);
    rest := SkipFraction(input[19..]).value;
    offset := OffsetSeconds(rest).value;
  }

  lemma MomentIsSpelled(input: string, t: int) returns (s: Spelling)
    requires |input| != 10 && ParseText(input) == Some(t)
    ensures IsSpelling(s) && SpellingText(s) == input
  {
    var c, rest, offset := MomentParts(input, t);
    hide ParseText, FromCivil, SkipFraction, OffsetSeconds, ParseTime, ParseDate, IsCivil;
    DateIsSpelled(input, DateOf(c));
    TimeIsSpelled(input, (c.hour, c.minute, c.second));
    FromCivilRoundTrip(c);
    var fraction := FractionIsSpelled(input[19..], rest);
    var zone := ZoneIsSpelled(rest, offset);
    s := Moment(c, input[10], fraction, zone);
    Assembled(input, s);
  }

  lemma Assembled(input: string, s: Spelling)
    requires IsSpelling(s) && s.Moment? && |input| >= 19
    requires input[..10] == Four(s.c.year) + "-" + Two(s.c.month) + "-" + Two(s.c.day)
    requires input[10..19] == [s.separator] + Two(s.c.hour) + ":" + Two(s.c.minute) + ":" + Two(s.c.second)
    requires input[19..] == s.fraction + ZoneText(s.zone)
    ensures SpellingText(s) == input
  {
    MomentText(s);
    var zone := ZoneText(s.zone);
    hide ZoneText, SpellingText, IsSpelling, IsFraction, IsCivil, Two, Four;
    assert Fields(s.c, s.separator) == input[..10] + input[10..19];
    assert input == input[..10] + input[10..19] + input[19..];
    Basics.Regroup(input[..10] + input[10..19], s.fraction, zone);
  }

  /** A text is accepted exactly if it is spelled like a date or a date-time, and then it is read as the time the
      spelling names. */
  lemma ReadIffSpelled(input: string, t: int)
    ensures ParseText(input) == Some(t) <==>
      exists s :: IsSpelling(s) && SpellingText(s) == input && SpellingTime(s) == t
  {
    hide ParseText, SpellingText, SpellingTime, IsSpelling;
    forall s | IsSpelling(s) && SpellingText(s) == input ensures ParseText(input) == Some(SpellingTime(s)) {
      SpellingIsRead(s);
    }
    if ParseText(input) == Some(t) {
      var s: Spelling;
      if |input| == 10 {
        s := DayIsSpelled(input, t);
      } else {
        s := MomentIsSpelled(input, t);
      }
    }
  }

  ghost predicate Framed(input: string, before: string, s: Spelling, after: string) {
    Blank(before) && Blank(after) && IsSpelling(s) && input == before + SpellingText(s) + after
  }

  lemma SpellingIsTight(s: Spelling)
    requires IsSpelling(s)
    ensures Tight(SpellingText(s))
  {
    var text := SpellingText(s);
    if s.Moment? {
      assert text[|text| - 1] == ZoneText(s.zone)[|ZoneText(s.zone)| - 1];
    }
    assert IsDigit(text[0]);
  }

  /** Whitespace around such a text is allowed, and nothing else. */
  lemma ParsedIffSpelled(input: string, t: int)
    ensures Parse(input) == Some(t) <==>
      exists before, s, after :: Framed(input, before, s, after) && SpellingTime(s) == t
  {
    hide Trim, ParseText, SpellingText, SpellingTime, IsSpelling, Tight, Blank;
    ReadIffSpelled(Trim(input), t);
    var before, after := TrimParts(input);
    if Parse(input) == Some(t) {
      var s :| IsSpelling(s) && SpellingText(s) == Trim(input) && SpellingTime(s) == t;
      assert Framed(input, before, s, after);
    }
    forall b, s, a | Framed(input, b, s, a) && SpellingTime(s) == t ensures Parse(input) == Some(t) {
      SpellingIsTight(s);
      TrimAround(b, SpellingText(s), a);
    }
  }
}
