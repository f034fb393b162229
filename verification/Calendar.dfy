/** The proleptic Gregorian calendar: days since 1970-01-01 and civil dates. Integers are unbounded. */
module Calendar {

  datatype Date = Date(year: int, month: nat, day: nat)

  predicate IsLeapYear(year: int) {
    (year % 4 == 0 && year % 100 != 0) || year % 400 == 0
  }

  function DaysInMonth(year: int, month: nat): nat {
    if month in {1, 3, 5, 7, 8, 10, 12} then 31
    else if month in {4, 6, 9, 11} then 30
    else if month == 2 then (if IsLeapYear(year) then 29 else 28)
    else 0
  }

  predicate IsDate(d: Date) {
    1 <= d.month <= 12 && 1 <= d.day <= DaysInMonth(d.year, d.month)
  }

  /** A narrowing conversion to 32 bits with a fallback value. */
  function ToU32(x: int, fallback: nat): nat {
    if 0 <= x < 0x1_0000_0000 then x else fallback
  }

  /** The days of a year that starts in March before the given month of it. */
  function MonthStart(monthFromMarch: int): int {
    (153 * monthFromMarch + 2) / 5
  }

  /** The days of an era of 400 such years before the given year of it. */
  function YearStart(yearOfEra: int): int {
    yearOfEra * 365 + yearOfEra / 4 - yearOfEra / 100
  }

  function YearOfEra(dayOfEra: int): int {
    (dayOfEra - dayOfEra / 1460 + dayOfEra / 36524 - dayOfEra / 146096) / 365
  }

  function DaysFromCivil(d: Date): int {
    var year := if d.month <= 2 then d.year - 1 else d.year;
    var era := year / 400;
    var yearOfEra := year % 400;
    var monthFromMarch := (d.month + 9) % 12;
    var dayOfYear := MonthStart(monthFromMarch) + d.day - 1;
    var dayOfEra := YearStart(yearOfEra) + dayOfYear;
    era * 146097 + dayOfEra - 719468
  }

  function CivilFromDays(days: int): Date {
    var shifted := days + 719468;
    var era := shifted / 146097;
    var dayOfEra := shifted % 146097;
    var yearOfEra := YearOfEra(dayOfEra);
    var dayOfYear := dayOfEra - YearStart(yearOfEra);
    var monthFromMarch := (5 * dayOfYear + 2) / 153;
    var day := ToU32(dayOfYear - MonthStart(monthFromMarch) + 1, 1);
    var month := ToU32(if monthFromMarch < 10 then monthFromMarch + 3 else monthFromMarch - 9, 1);
    Date(yearOfEra + era * 400 + (if month <= 2 then 1 else 0), month, day)
  }

  // ------------------------------------------------------------------ years of an era

  /** The year from March of `yearOfEra` has a 366th day when the February that ends it is a leap one. */
  predicate InYear(yearOfEra: int, dayOfYear: int) {
    0 <= yearOfEra < 400 && 0 <= dayOfYear <= (if IsLeapYear(yearOfEra + 1) then 365 else 364)
  }

  /** Centuries, groups of four years, and years. */
  predicate Splits(c: int, q: int, s: int, dayOfYear: int) {
    && 0 <= c < 4 && 0 <= q < 25 && 0 <= s < 4 && 0 <= dayOfYear <= 365
    && (dayOfYear == 365 ==> s == 3 && (q < 24 || c == 3))
  }

  lemma SplitYear(yearOfEra: int, dayOfYear: int) returns (c: int, q: int, s: int)
    requires InYear(yearOfEra, dayOfYear)
    ensures Splits(c, q, s, dayOfYear) && yearOfEra == 100 * c + 4 * q + s
  {
    c := yearOfEra / 100;
    q := yearOfEra % 100 / 4;
    s := yearOfEra % 4;
  }

  lemma SplitStart(c: int, q: int, s: int)
    requires 0 <= c < 4 && 0 <= q < 25 && 0 <= s < 4
    ensures YearStart(100 * c + 4 * q + s) == 36524 * c + 1461 * q + 365 * s
  {
    var y := 100 * c + 4 * q + s;
    assert y / 4 == 25 * c + q;
    assert y / 100 == c;
  }

  lemma SplitDay(c: int, q: int, s: int, dayOfYear: int)
    requires Splits(c, q, s, dayOfYear)
    ensures 0 <= 36524 * c + 1461 * q + 365 * s + dayOfYear < 146097
    ensures YearOfEra(36524 * c + 1461 * q + 365 * s + dayOfYear) == 100 * c + 4 * q + s
  {
    var day := 36524 * c + 1461 * q + 365 * s + dayOfYear;
    var rest := 24 * c + q + 365 * s + dayOfYear;
    var e := if rest >= 1460 then 1 else 0;
    assert day == 1460 * (25 * c + q) + rest;
    assert day / 1460 == 25 * c + q + e;
    assert day / 36524 - day / 146096 == c;
    assert day - day / 1460 + day / 36524 - day / 146096 == 365 * (100 * c + 4 * q + s) + dayOfYear - e;
    assert 0 <= dayOfYear - e < 365;
  }

  /** The year of an era is recovered from any of its days. */
  lemma YearRecovered(yearOfEra: int, dayOfYear: int)
    requires InYear(yearOfEra, dayOfYear)
    ensures 0 <= YearStart(yearOfEra) + dayOfYear < 146097
    ensures YearOfEra(YearStart(yearOfEra) + dayOfYear) == yearOfEra
  {
    var c, q, s := SplitYear(yearOfEra, dayOfYear);
    SplitStart(c, q, s);
    SplitDay(c, q, s, dayOfYear);
  }

  /** Every day of an era belongs to a year. */
  lemma DayInYear(dayOfEra: int) returns (yearOfEra: int, dayOfYear: int)
    requires 0 <= dayOfEra < 146097
    ensures InYear(yearOfEra, dayOfYear) && YearStart(yearOfEra) + dayOfYear == dayOfEra
  {
    var c := if dayOfEra / 36524 < 4 then dayOfEra / 36524 else 3;
    var inCentury := dayOfEra - 36524 * c;
    var q := inCentury / 1461;
    var inFour := inCentury - 1461 * q;
    var s := if inFour / 365 < 4 then inFour / 365 else 3;
    yearOfEra, dayOfYear := 100 * c + 4 * q + s, inFour - 365 * s;
    SplitStart(c, q, s);
    SplitIsYear(c, q, s, dayOfYear);
  }

  lemma SplitIsYear(c: int, q: int, s: int, dayOfYear: int)
    requires Splits(c, q, s, dayOfYear)
    ensures InYear(100 * c + 4 * q + s, dayOfYear)
  {
    var next := 100 * c + 4 * q + s + 1;
    if dayOfYear == 365 {
      assert next == 4 * (25 * c + q + 1);
      if q < 24 {
        assert next % 100 == 4 * (q + 1);
      }
    }
  }

  // ----------------------------------------------------------------- months of a year

  /** The length of a month counted from March, in a year whose last day is number `last`. */
  function MonthLength(monthFromMarch: int, last: int): int {
    if monthFromMarch in {1, 3, 6, 8} then 30 else if monthFromMarch == 11 then last - 336 else 31
  }

  lemma MonthRecovered(monthFromMarch: int, day: int, last: int)
    requires 0 <= monthFromMarch < 12 && 1 <= day <= MonthLength(monthFromMarch, last) && 364 <= last <= 365
    ensures 0 <= MonthStart(monthFromMarch) + day - 1 <= last
    ensures (5 * (MonthStart(monthFromMarch) + day - 1) + 2) / 153 == monthFromMarch
  {
  }

  lemma DayInMonth(dayOfYear: int, last: int)
    requires 0 <= dayOfYear <= last && 364 <= last <= 365
    ensures 0 <= (5 * dayOfYear + 2) / 153 < 12
    ensures 1 <= dayOfYear - MonthStart((5 * dayOfYear + 2) / 153) + 1 <= MonthLength((5 * dayOfYear + 2) / 153, last)
  {
  }

  // ------------------------------------------------------------------- the conversions

  lemma Remainders(x: int, k: int)
    ensures (400 * k + x) % 4 == x % 4
    ensures (400 * k + x) % 100 == x % 100
    ensures (400 * k + x) % 400 == x % 400
  {
    Remainder4(x, 100 * k);
    Remainder100(x, 4 * k);
    Remainder400(x, k);
  }

  lemma Remainder4(x: int, k: int)
    ensures (4 * k + x) % 4 == x % 4
  {
  }

  lemma Remainder100(x: int, k: int)
    ensures (100 * k + x) % 100 == x % 100
  {
  }

  lemma Remainder400(x: int, k: int)
    ensures (400 * k + x) % 400 == x % 400
  {
  }

  lemma LeapInEra(year: int, era: int)
    ensures IsLeapYear(era * 400 + year) == IsLeapYear(year)
  {
    Remainders(year, era);
  }

  function LastDay(yearOfEra: int): int {
    if IsLeapYear(yearOfEra + 1) then 365 else 364
  }

  /** The date in a year from March, given the month from March. */
  function DateIn(era: int, yearOfEra: int, m: int, day: nat): Date
    requires 0 <= m < 12
  {
    Date(yearOfEra + era * 400 + (if m >= 10 then 1 else 0), if m < 10 then m + 3 else m - 9, day)
  }

  /** Every date lies in some year from March. */
  lemma LiesIn(d: Date) returns (era: int, yearOfEra: int, m: int)
    requires 1 <= d.month <= 12
    ensures 0 <= yearOfEra < 400 && 0 <= m < 12 && d == DateIn(era, yearOfEra, m, d.day)
    ensures DaysInMonth(d.year, d.month) == MonthLength(m, LastDay(yearOfEra))
  {
    var year := if d.month <= 2 then d.year - 1 else d.year;
    era, yearOfEra, m := year / 400, year % 400, (d.month + 9) % 12;
    LeapInEra(yearOfEra + 1, era);
    hide IsLeapYear;
    assert year == era * 400 + yearOfEra;
  }

  lemma LengthIn(era: int, yearOfEra: int, m: int, day: nat)
    requires 0 <= yearOfEra < 400 && 0 <= m < 12
    ensures var d := DateIn(era, yearOfEra, m, day); DaysInMonth(d.year, d.month) == MonthLength(m, LastDay(yearOfEra))
  {
    LeapInEra(yearOfEra + 1, era);
    hide IsLeapYear;
    assert yearOfEra + era * 400 + 1 == era * 400 + (yearOfEra + 1);
  }

  /** The day number of a date in a year from March. */
  lemma NumberOfDate(era: int, yearOfEra: int, m: int, day: nat)
    requires 0 <= yearOfEra < 400 && 0 <= m < 12
    ensures DaysFromCivil(DateIn(era, yearOfEra, m, day))
      == era * 146097 + YearStart(yearOfEra) + MonthStart(m) + day - 1 - 719468
  {
    hide YearStart, MonthStart;
    YearOfDate(era, yearOfEra);
  }

  lemma YearOfDate(era: int, yearOfEra: int)
    requires 0 <= yearOfEra < 400
    ensures (yearOfEra + era * 400) / 400 == era && (yearOfEra + era * 400) % 400 == yearOfEra
  {
  }

  /** The date of a day in a year from March. */
  lemma DateOfNumber(era: int, yearOfEra: int, dayOfYear: int)
    requires InYear(yearOfEra, dayOfYear)
    ensures var m := (5 * dayOfYear + 2) / 153;
      0 <= m < 12 && dayOfYear - MonthStart(m) + 1 >= 0
      && CivilFromDays(era * 146097 + YearStart(yearOfEra) + dayOfYear - 719468)
         == DateIn(era, yearOfEra, m, dayOfYear - MonthStart(m) + 1)
  {
    hide YearStart, YearOfEra, IsLeapYear;
    YearRecovered(yearOfEra, dayOfYear);
    var dayOfEra := YearStart(yearOfEra) + dayOfYear;
    DayOfEra(era, dayOfEra);
    DayInMonth(dayOfYear, LastDay(yearOfEra));
  }

  lemma DayOfEra(era: int, dayOfEra: int)
    requires 0 <= dayOfEra < 146097
    ensures (era * 146097 + dayOfEra) / 146097 == era && (era * 146097 + dayOfEra) % 146097 == dayOfEra
  {
  }

  /** Converting a valid date to its day number and back gives the date. */
  lemma DateRoundTrip(d: Date)
    requires IsDate(d)
    ensures CivilFromDays(DaysFromCivil(d)) == d
  {
    hide CivilFromDays, DaysFromCivil, YearStart, IsLeapYear;
    var era, yearOfEra, m := LiesIn(d);
    NumberOfDate(era, yearOfEra, m, d.day);
    MonthRecovered(m, d.day, LastDay(yearOfEra));
    DateOfNumber(era, yearOfEra, MonthStart(m) + d.day - 1);
  }

  /** Every day number names a valid date, and converting it back gives the number. */
  lemma DaysRoundTrip(days: int)
    ensures IsDate(CivilFromDays(days))
    ensures DaysFromCivil(CivilFromDays(days)) == days
  {
    hide CivilFromDays, DaysFromCivil, YearStart, IsLeapYear;
    var shifted := days + 719468;
    var era := shifted / 146097;
    var yearOfEra, dayOfYear := DayInYear(shifted % 146097);
    DateOfNumber(era, yearOfEra, dayOfYear);
    DayInMonth(dayOfYear, LastDay(yearOfEra));
    var m := (5 * dayOfYear + 2) / 153;
    LengthIn(era, yearOfEra, m, dayOfYear - MonthStart(m) + 1);
    NumberOfDate(era, yearOfEra, m, dayOfYear - MonthStart(m) + 1);
  }

  // --------------------------------------------------------------- the naive calendar

  /** The day after a date, read off the calendar. */
  function NextDate(d: Date): Date {
    if d.day < DaysInMonth(d.year, d.month) then d.(day := d.day + 1)
    else if d.month < 12 then Date(d.year, d.month + 1, 1)
    else Date(d.year + 1, 1, 1)
  }

  const EPOCH: Date := Date(1970, 1, 1)

  lemma NextIsDate(d: Date)
    requires IsDate(d)
    ensures IsDate(NextDate(d))
  {
    hide IsLeapYear;
  }

  lemma YearEnds(yearOfEra: int)
    requires 0 <= yearOfEra < 399
    ensures YearStart(yearOfEra + 1) == YearStart(yearOfEra) + LastDay(yearOfEra) + 1
  {
  }

  /** The next calendar day has the next number, across months, leap days and eras. */
  lemma NextDay(d: Date)
    requires IsDate(d)
    ensures DaysFromCivil(NextDate(d)) == DaysFromCivil(d) + 1
  {
    hide DaysFromCivil, YearStart, IsLeapYear;
    var era, yearOfEra, m := LiesIn(d);
    NumberOfDate(era, yearOfEra, m, d.day);
    if d.day < DaysInMonth(d.year, d.month) {
      NumberOfDate(era, yearOfEra, m, d.day + 1);
    } else if m < 11 {
      NumberOfDate(era, yearOfEra, m + 1, 1);
    } else if yearOfEra < 399 {
      YearEnds(yearOfEra);
      NumberOfDate(era, yearOfEra + 1, 0, 1);
    } else {
      EraEnds();
      NumberOfDate(era + 1, 0, 0, 1);
    }
  }

  lemma EraEnds()
    ensures YearStart(399) + LastDay(399) + 1 == 146097 && YearStart(0) == 0
  {
  }

  lemma NextNumber(days: int)
    ensures CivilFromDays(days + 1) == NextDate(CivilFromDays(days))
  {
    hide CivilFromDays, DaysFromCivil, NextDate, IsDate;
    DaysRoundTrip(days);
    NextIsDate(CivilFromDays(days));
    NextDay(CivilFromDays(days));
    DateRoundTrip(NextDate(CivilFromDays(days)));
  }

  function After(d: Date, n: nat): Date {
    if n == 0 then d else NextDate(After(d, n - 1))
  }

  /** The date of day `n` is reached by counting `n` days from the epoch, and the epoch by counting
      `n` days from the date of day `-n`. */
  lemma {:induction false} CivilCounts(n: nat)
    ensures CivilFromDays(n) == After(EPOCH, n)
    ensures After(CivilFromDays(0 - n), n) == EPOCH
  {
    hide CivilFromDays, NextDate;
    if n == 0 {
      EpochIsZero();
    } else {
      CivilCounts(n - 1);
      NextNumber(n - 1);
      NextNumber(0 - n);
      AfterNext(CivilFromDays(0 - n), n - 1);
    }
  }

  lemma EpochIsZero()
    ensures CivilFromDays(0) == EPOCH
  {
    hide CivilFromDays;
    assert DaysFromCivil(EPOCH) == 0;
    DateRoundTrip(EPOCH);
  }

  lemma {:induction false} AfterNext(d: Date, n: nat)
    ensures After(d, n + 1) == After(NextDate(d), n)
  {
    if n > 0 {
      AfterNext(d, n - 1);
    }
  }

  // ------------------------------------------------------------------------- order

  predicate Earlier(a: Date, b: Date) {
    a.year < b.year || (a.year == b.year && (a.month < b.month || (a.month == b.month && a.day < b.day)))
  }

  lemma {:induction false} LaterDays(days: int, n: nat)
    requires n > 0
    ensures Earlier(CivilFromDays(days), CivilFromDays(days + n))
    decreases n
  {
    hide CivilFromDays, IsLeapYear;
    NextNumber(days + n - 1);
    DaysRoundTrip(days + n - 1);
    if n > 1 {
      LaterDays(days, n - 1);
    }
  }

  /** Dates and day numbers are ordered alike. */
  lemma OrderAgrees(a: Date, b: Date)
    requires IsDate(a) && IsDate(b)
    ensures Earlier(a, b) <==> DaysFromCivil(a) < DaysFromCivil(b)
  {
    hide CivilFromDays, DaysFromCivil, IsDate;
    DateRoundTrip(a);
    DateRoundTrip(b);
    var m, n := DaysFromCivil(a), DaysFromCivil(b);
    if m < n {
      LaterDays(m, n - m);
    } else if n < m {
      LaterDays(n, m - n);
    }
  }
}
