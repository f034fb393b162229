/** Timestamps: seconds since the Unix epoch, civil date-times, months and weekdays. */
module Timestamps {
  import opened Wrappers
  import opened Calendar

  const SECONDS_PER_DAY: int := 86400

  datatype CivilDateTime = CivilDateTime(year: int, month: nat, day: nat, hour: nat, minute: nat, second: nat)

  function DateOf(c: CivilDateTime): Date {
    Date(c.year, c.month, c.day)
  }

  /** A date of the calendar and a time of a day of 86400 seconds. */
  predicate IsCivil(c: CivilDateTime) {
    IsDate(DateOf(c)) && c.hour < 24 && c.minute < 60 && c.second < 60
  }

  function FromCivil(c: CivilDateTime): Option<int> {
    if !(1 <= c.month <= 12) || c.day == 0 || c.day > DaysInMonth(c.year, c.month)
      || c.hour > 23 || c.minute > 59 || c.second > 59 then None
    else
      Some(DaysFromCivil(DateOf(c)) * SECONDS_PER_DAY + (c.hour * 3600 + c.minute * 60 + c.second))
  }

  function FromYmd(year: int, month: nat, day: nat): Option<int> {
    FromCivil(CivilDateTime(year, month, day, 0, 0, 0))
  }

  function Civil(t: int): CivilDateTime {
    var d := CivilFromDays(t / SECONDS_PER_DAY);
    var secondsOfDay := ToU32(t % SECONDS_PER_DAY, 0);
    CivilDateTime(d.year, d.month, d.day, secondsOfDay / 3600, secondsOfDay % 3600 / 60, secondsOfDay % 60)
  }

  lemma DayAndTime(days: int, seconds: int)
    requires 0 <= seconds < SECONDS_PER_DAY
    ensures (days * SECONDS_PER_DAY + seconds) / SECONDS_PER_DAY == days
    ensures (days * SECONDS_PER_DAY + seconds) % SECONDS_PER_DAY == seconds
  {
  }

  /** The civil date-time of a timestamp is valid and gives the timestamp back. */
  lemma CivilRoundTrip(t: int)
    ensures IsCivil(Civil(t)) && FromCivil(Civil(t)) == Some(t)
  {
    hide CivilFromDays, DaysFromCivil, DaysInMonth;
    DaysRoundTrip(t / SECONDS_PER_DAY);
  }

  /** A timestamp is made of exactly the valid date-times, and gives them back. */
  lemma FromCivilRoundTrip(c: CivilDateTime)
    ensures FromCivil(c).Some? <==> IsCivil(c)
    ensures IsCivil(c) ==> Civil(FromCivil(c).value) == c
  {
    hide CivilFromDays, DaysFromCivil, DaysInMonth;
    if IsCivil(c) {
      DateRoundTrip(DateOf(c));
      DayAndTime(DaysFromCivil(DateOf(c)), c.hour * 3600 + c.minute * 60 + c.second);
    }
  }

  // ------------------------------------------------------------------------ months

  /** Months since year zero. */
  function MonthIndex(t: int): int {
    Civil(t).year * 12 + Civil(t).month - 1
  }

  function StartOfMonth(t: int): int {
    DaysFromCivil(Date(Civil(t).year, Civil(t).month, 1)) * SECONDS_PER_DAY
  }

  function PlusMonths(t: int, months: int): int {
    var monthIndex := MonthIndex(t) + months;
    DaysFromCivil(Date(monthIndex / 12, ToU32(monthIndex % 12 + 1, 1), 1)) * SECONDS_PER_DAY
  }

  lemma FirstOfMonth(t: int, months: int)
    ensures var c := Civil(PlusMonths(t, months));
      c.day == 1 && c.hour == 0 && c.minute == 0 && c.second == 0
    ensures MonthIndex(PlusMonths(t, months)) == MonthIndex(t) + months
  {
    hide CivilFromDays, DaysFromCivil;
    var i := MonthIndex(t) + months;
    var d := Date(i / 12, i % 12 + 1, 1);
    DateRoundTrip(d);
    DayAndTime(DaysFromCivil(d), 0);
  }

  /** Adding months to a month is adding numbers. */
  lemma PlusMonthsAdds(t: int, a: int, b: int)
    ensures PlusMonths(PlusMonths(t, a), b) == PlusMonths(t, a + b)
  {
    FirstOfMonth(t, a);
  }

  lemma CivilOrder(t: int, u: int)
    ensures Earlier(DateOf(Civil(t)), DateOf(Civil(u))) <==> t / SECONDS_PER_DAY < u / SECONDS_PER_DAY
  {
    hide CivilFromDays, DaysFromCivil, IsDate;
    DaysRoundTrip(t / SECONDS_PER_DAY);
    DaysRoundTrip(u / SECONDS_PER_DAY);
    OrderAgrees(CivilFromDays(t / SECONDS_PER_DAY), CivilFromDays(u / SECONDS_PER_DAY));
  }

  /** The months divide time: a timestamp lies between the start of its month and the next. */
  lemma MonthContains(t: int)
    ensures StartOfMonth(t) == PlusMonths(t, 0) <= t < PlusMonths(t, 1)
  {
    CivilRoundTrip(t);
    hide CivilFromDays, DaysFromCivil, DaysInMonth;
    FirstOfMonth(t, 0);
    FirstOfMonth(t, 1);
    var c, first, next := Civil(t), PlusMonths(t, 0), PlusMonths(t, 1);
    CivilRoundTrip(first);
    CivilRoundTrip(next);
    SameMonth(c.year, c.month, Civil(first).year, Civil(first).month, 0);
    SameMonth(c.year, c.month, Civil(next).year, Civil(next).month, 1);
    CivilOrder(t, first);
    CivilOrder(t, next);
    StartsDay(t, 0);
    StartsDay(t, 1);
    MonthIndexParts(c.year, c.month);
  }

  lemma SameMonth(y: int, m: int, z: int, n: int, k: int)
    requires 1 <= m <= 12 && 1 <= n <= 12 && z * 12 + n - 1 == y * 12 + m - 1 + k && 0 <= k <= 1
    ensures k == 0 ==> z == y && n == m
    ensures k == 1 ==> z > y || (z == y && n > m)
  {
  }

  lemma MonthIndexParts(y: int, m: int)
    requires 1 <= m <= 12
    ensures (y * 12 + m - 1) / 12 == y && (y * 12 + m - 1) % 12 + 1 == m
  {
  }

  lemma StartsDay(t: int, months: int)
    ensures PlusMonths(t, months) % SECONDS_PER_DAY == 0
  {
    hide DaysFromCivil, MonthIndex;
    var i := MonthIndex(t) + months;
    DayAndTime(DaysFromCivil(Date(i / 12, ToU32(i % 12 + 1, 1), 1)), 0);
  }

  /** Two timestamps share a start of month exactly when they lie in the same calendar month. */
  lemma SameBucket(t: int, u: int)
    ensures StartOfMonth(t) == StartOfMonth(u) <==> MonthIndex(t) == MonthIndex(u)
  {
    hide MonthIndex, StartOfMonth, DaysFromCivil;
    MonthContains(t);
    MonthContains(u);
    FirstOfMonth(t, 0);
    FirstOfMonth(u, 0);
  }

  // ---------------------------------------------------------------------- weekdays

  /** Monday is 0. */
  function Weekday(t: int): nat {
    ToU32((t / SECONDS_PER_DAY + 3) % 7, 0)
  }

  const THURSDAY: nat := 3

  /** The epoch is a Thursday, the weekday depends on the date only, and the days of the week follow
      each other. */
  lemma WeekdaysFollow(t: int, u: int)
    ensures Weekday(0) == THURSDAY
    ensures DateOf(Civil(t)) == DateOf(Civil(u)) ==> Weekday(t) == Weekday(u)
    ensures NextDate(DateOf(Civil(t))) == DateOf(Civil(u)) ==> Weekday(u) == (Weekday(t) + 1) % 7
  {
    hide CivilFromDays, DaysFromCivil, NextDate;
    DaysRoundTrip(t / SECONDS_PER_DAY);
    DaysRoundTrip(u / SECONDS_PER_DAY);
    NextDay(DateOf(Civil(t)));
  }
}
