/** `timegm` in closed form and `tmToUnixTime` by summing: the same seconds, in the order of the dates. */
module Calendar {
  /** Broken-down time; `year` counts from 1900 and `mon` from 0. */
  datatype Tm = Tm(sec: int, min: int, hour: int, mday: int, mon: int, year: int)

  const EPOCH_YEAR := 1970
  const SECONDS_PER_DAY := 86400
  const UINT32 := 0x1_0000_0000

  predicate IsLeap(year: int) {
    if year % 400 == 0 then true else if year % 100 == 0 then false else year % 4 == 0
  }

  function DaysInYear(year: int): int { if IsLeap(year) then 366 else 365 }

  const MONTHS: seq<int> := [31, 28, 31, 30, 31, 30, 31, 31, 30, 31, 30, 31]

  function DaysInMonth(leap: bool, mon: int): (d: int)
    requires 0 <= mon < 12
    ensures 28 <= d <= 31
  {
    if leap && mon == 1 then 29 else MONTHS[mon]
  }

  // `timegm`.

  function DaysFrom0(year: int): int
    requires year >= 1
  {
    365 * (year - 1) + (year - 1) / 400 - (year - 1) / 100 + (year - 1) / 4
  }

  function DaysFrom1970(year: int): int
    requires year >= 1
  {
    DaysFrom0(year) - DaysFrom0(EPOCH_YEAR)
  }

  const DAYS: seq<int> := [0, 31, 59, 90, 120, 151, 181, 212, 243, 273, 304, 334]
  const LEAP_DAYS: seq<int> := [0, 31, 60, 91, 121, 152, 182, 213, 244, 274, 305, 335]

  function DaysFrom1Jan(year: int, month: int, day: int): int
    requires 1 <= month <= 12
  {
    (if IsLeap(year) then LEAP_DAYS[month - 1] else DAYS[month - 1]) + day - 1
  }

  /** Year and month, with the month brought into its year. */
  function Normal(t: Tm): (r: (int, int))
    ensures 0 <= r.1 < 12
    ensures r == (t.year + 1900 + t.mon / 12, t.mon % 12)
  {
    var year := t.year + 1900;
    if t.mon > 11 then (year + t.mon / 12, t.mon % 12)
    else if t.mon < 0 then
      var yearsDiff := (-t.mon + 11) / 12;
      (year - yearsDiff, t.mon + 12 * yearsDiff)
    else (year, t.mon)
  }

  function EpochDay(t: Tm): int
    requires Normal(t).0 >= 1
  {
    var (year, month) := Normal(t);
    DaysFrom1970(year) + DaysFrom1Jan(year, month + 1, t.mday)
  }

  function Timegm(t: Tm): int
    requires Normal(t).0 >= 1
  {
    SECONDS_PER_DAY * EpochDay(t) + 3600 * t.hour + 60 * t.min + t.sec
  }

  // The sums.

  function YearsSum(year: int): int
    requires year >= EPOCH_YEAR
    decreases year
  {
    if year == EPOCH_YEAR then 0 else YearsSum(year - 1) + DaysInYear(year - 1)
  }

  function MonthsSum(leap: bool, mon: int): int
    requires 0 <= mon <= 12
    decreases mon
  {
    if mon == 0 then 0 else MonthsSum(leap, mon - 1) + DaysInMonth(leap, mon - 1)
  }

  lemma {:induction false} YearsClosed(year: int)
    requires year >= EPOCH_YEAR
    ensures DaysFrom1970(year) == YearsSum(year)
    decreases year
  {
    if year > EPOCH_YEAR {
      YearsClosed(year - 1);
      NextYear(year - 1);
    }
  }

  lemma NextYear(year: int)
    requires year >= 1
    ensures DaysFrom0(year + 1) == DaysFrom0(year) + DaysInYear(year)
  {
    var y := year - 1;
    Quotients(year);
    assert (year / 4 - y / 4) - (year / 100 - y / 100) + (year / 400 - y / 400) == if IsLeap(year) then 1 else 0;
  }

  /** Each quotient grows by one in the years it divides. */
  lemma Quotients(year: int)
    requires year >= 1
    ensures year / 4 - (year - 1) / 4 == if year % 4 == 0 then 1 else 0
    ensures year / 100 - (year - 1) / 100 == if year % 100 == 0 then 1 else 0
    ensures year / 400 - (year - 1) / 400 == if year % 400 == 0 then 1 else 0
    ensures year % 400 == 0 ==> year % 100 == 0
    ensures year % 100 == 0 ==> year % 4 == 0
  {
  }

  lemma {:induction false} MonthsClosed(year: int, mon: int)
    requires 0 <= mon < 12
    ensures DaysFrom1Jan(year, mon + 1, 1) == MonthsSum(IsLeap(year), mon)
    decreases mon
  {
    if mon > 0 {
      MonthsClosed(year, mon - 1);
      assert DAYS[mon] == DAYS[mon - 1] + MONTHS[mon - 1];
      assert LEAP_DAYS[mon] == LEAP_DAYS[mon - 1] + if mon == 2 then 29 else MONTHS[mon - 1];
      hide IsLeap;
    }
  }

  // Valid dates from 1970, in order.

  predicate Valid(t: Tm) {
    && 0 <= t.sec < 60 && 0 <= t.min < 60 && 0 <= t.hour < 24
    && EPOCH_YEAR - 1900 <= t.year && 0 <= t.mon < 12
    && 1 <= t.mday <= DaysInMonth(IsLeap(t.year + 1900), t.mon)
  }

  predicate DayBefore(t: Tm, u: Tm) {
    t.year < u.year || (t.year == u.year && (t.mon < u.mon || (t.mon == u.mon && t.mday < u.mday)))
  }

  /** Lexicographic order, the year first. */
  predicate Before(t: Tm, u: Tm) {
    || DayBefore(t, u)
    || ((t.year, t.mon, t.mday) == (u.year, u.mon, u.mday)
        && (t.hour < u.hour || (t.hour == u.hour && (t.min < u.min || (t.min == u.min && t.sec < u.sec)))))
  }

  /** A valid date's day is counted from its year and its month. */
  lemma DayOfDate(t: Tm)
    requires Valid(t)
    ensures EpochDay(t) == YearsSum(t.year + 1900) + MonthsSum(IsLeap(t.year + 1900), t.mon) + t.mday - 1
  {
    YearsClosed(t.year + 1900);
    MonthsClosed(t.year + 1900, t.mon);
  }

  lemma {:induction false} MonthsInOrder(leap: bool, mon: int, mon': int)
    requires 0 <= mon < mon' <= 12
    ensures MonthsSum(leap, mon) + DaysInMonth(leap, mon) <= MonthsSum(leap, mon')
    decreases mon'
  {
    if mon + 1 < mon' {
      MonthsInOrder(leap, mon, mon' - 1);
    }
  }

  lemma YearHasItsMonths(year: int)
    ensures MonthsSum(IsLeap(year), 12) == DaysInYear(year)
  {
    MonthsClosed(year, 11);
    hide IsLeap;
  }

  lemma {:induction false} YearsInOrder(year: int, year': int)
    requires EPOCH_YEAR <= year < year'
    ensures YearsSum(year) + DaysInYear(year) <= YearsSum(year')
    decreases year'
  {
    if year + 1 < year' {
      YearsInOrder(year, year' - 1);
    }
  }

  lemma DaysInOrder(t: Tm, u: Tm)
    requires Valid(t) && Valid(u) && DayBefore(t, u)
    ensures EpochDay(t) < EpochDay(u)
  {
    hide IsLeap, EpochDay, YearsSum, DaysInMonth, DaysInYear;
    DayOfDate(t);
    DayOfDate(u);
    var y, y' := t.year + 1900, u.year + 1900;
    MonthsInOrder(IsLeap(y), t.mon, 12);
    if t.year < u.year {
      YearHasItsMonths(y);
      YearsInOrder(y, y');
      if u.mon > 0 {
        MonthsInOrder(IsLeap(y'), 0, u.mon);
      }
    } else if t.mon < u.mon {
      MonthsInOrder(IsLeap(y), t.mon, u.mon);
    }
  }

  /** Later dates have later times, and only those. */
  lemma TimeFollowsDates(t: Tm, u: Tm)
    requires Valid(t) && Valid(u)
    ensures Timegm(t) < Timegm(u) <==> Before(t, u)
    ensures Timegm(t) == Timegm(u) <==> t == u
    ensures Timegm(t) >= 0
  {
    hide EpochDay, IsLeap, DaysInMonth;
    if DayBefore(t, u) {
      DaysInOrder(t, u);
    } else if DayBefore(u, t) {
      DaysInOrder(u, t);
    } else {
      SameDay(t, u);
    }
    NotNegative(t);
  }

  lemma SameDay(t: Tm, u: Tm)
    requires Valid(t) && Valid(u) && (t.year, t.mon, t.mday) == (u.year, u.mon, u.mday)
    ensures EpochDay(t) == EpochDay(u)
  {
    hide IsLeap, DaysInMonth, DaysFrom1970, DaysFrom1Jan;
  }

  lemma NotNegative(t: Tm)
    requires Valid(t)
    ensures EpochDay(t) >= 0
  {
    DayOfDate(t);
    hide EpochDay, IsLeap;
    if t.year + 1900 > EPOCH_YEAR {
      YearsInOrder(EPOCH_YEAR, t.year + 1900);
    }
    if t.mon > 0 {
      MonthsInOrder(IsLeap(t.year + 1900), 0, t.mon);
    }
  }

  /** Twelve months are a year, in both directions. */
  lemma MonthsWrap(t: Tm, k: int)
    requires Normal(t).0 + k >= 1
    ensures Normal(t.(mon := t.mon + 12 * k)) == (Normal(t).0 + k, Normal(t).1)
    ensures Timegm(t.(mon := t.mon + 12 * k)) == Timegm(t.(year := t.year + k))
  {
    var u, v := t.(mon := t.mon + 12 * k), t.(year := t.year + k);
    assert (t.mon + 12 * k) / 12 == t.mon / 12 + k && (t.mon + 12 * k) % 12 == t.mon % 12;
    assert Normal(u) == Normal(v);
    hide Normal, DaysFrom1970, DaysFrom1Jan;
  }

  // Which seconds these are.

  /** The days of a month of the Gregorian calendar. */
  function MonthLength(year: int, mon: int): int {
    if mon == 3 || mon == 5 || mon == 8 || mon == 10 then 30
    else if mon != 1 then 31
    else if year % 4 == 0 && (year % 100 != 0 || year % 400 == 0) then 29
    else 28
  }

  /** The date after a date. */
  function NextDate(t: Tm): Tm {
    if t.mday < MonthLength(t.year + 1900, t.mon) then t.(mday := t.mday + 1)
    else if t.mon < 11 then t.(mday := 1, mon := t.mon + 1)
    else t.(mday := 1, mon := 0, year := t.year + 1)
  }

  lemma LengthsAgree(year: int, mon: int)
    requires 0 <= mon < 12
    ensures DaysInMonth(IsLeap(year), mon) == MonthLength(year, mon)
  {
    LeapRule(year);
    assert MONTHS[mon] == if mon == 3 || mon == 5 || mon == 8 || mon == 10 then 30 else if mon == 1 then 28 else 31;
    hide IsLeap;
  }

  lemma LeapRule(year: int)
    ensures IsLeap(year) <==> year % 4 == 0 && (year % 100 != 0 || year % 400 == 0)
  {
  }

  /** Counted from midnight of 1 January 1970. */
  lemma Epoch()
    ensures Timegm(Tm(0, 0, 0, 1, 0, 70)) == 0
  {
  }

  /** Seconds, minutes, hours and days count linearly, in whatever ranges. */
  lemma FieldsAreLinear(t: Tm, days: int, hours: int, minutes: int, seconds: int)
    requires Normal(t).0 >= 1
    ensures Timegm(Tm(t.sec + seconds, t.min + minutes, t.hour + hours, t.mday + days, t.mon, t.year)) ==
            Timegm(t) + 86400 * days + 3600 * hours + 60 * minutes + seconds
  {
    hide IsLeap, DaysFrom1970;
    var u := Tm(t.sec + seconds, t.min + minutes, t.hour + hours, t.mday + days, t.mon, t.year);
    assert Normal(u) == Normal(t);
    hide Normal;
    assert EpochDay(u) == EpochDay(t) + days;
    hide EpochDay;
  }

  lemma FirstOfMonth(t: Tm, year: int, mon: int)
    requires Valid(t) && t.year <= year && 0 <= mon < 12
    ensures Valid(t.(mday := 1, mon := mon, year := year))
  {
    hide IsLeap;
  }

  lemma NextMonth(t: Tm)
    requires Valid(t) && t.mday == DaysInMonth(IsLeap(t.year + 1900), t.mon) && t.mon < 11
    ensures EpochDay(t.(mday := 1, mon := t.mon + 1)) == EpochDay(t) + 1
  {
    FirstOfMonth(t, t.year, t.mon + 1);
    DayOfDate(t);
    DayOfDate(t.(mday := 1, mon := t.mon + 1));
    hide IsLeap, EpochDay, DaysInMonth, YearsSum, Valid;
  }

  lemma NewYear(t: Tm)
    requires Valid(t) && t.mday == DaysInMonth(IsLeap(t.year + 1900), t.mon) && t.mon == 11
    ensures EpochDay(t.(mday := 1, mon := 0, year := t.year + 1)) == EpochDay(t) + 1
  {
    FirstOfMonth(t, t.year + 1, 0);
    DayOfDate(t);
    DayOfDate(t.(mday := 1, mon := 0, year := t.year + 1));
    YearHasItsMonths(t.year + 1900);
    hide IsLeap, EpochDay, DaysInMonth, DaysInYear, Valid;
    assert MonthsSum(IsLeap(t.year + 1901), 0) == 0;
    assert MonthsSum(IsLeap(t.year + 1900), 12) == MonthsSum(IsLeap(t.year + 1900), 11) + DaysInMonth(IsLeap(t.year + 1900), 11);
  }

  lemma SameMonth(t: Tm)
    requires Valid(t) && t.mday < DaysInMonth(IsLeap(t.year + 1900), t.mon)
    ensures Valid(t.(mday := t.mday + 1)) && EpochDay(t.(mday := t.mday + 1)) == EpochDay(t) + 1
  {
    hide IsLeap, DaysInMonth, DaysFrom1970;
  }

  lemma NextEpochDay(t: Tm)
    requires Valid(t)
    ensures var u := NextDate(t);
            Valid(u) && EpochDay(u) == EpochDay(t) + 1 && (u.sec, u.min, u.hour) == (t.sec, t.min, t.hour)
  {
    LengthsAgree(t.year + 1900, t.mon);
    assert t.mday <= DaysInMonth(IsLeap(t.year + 1900), t.mon);
    hide IsLeap, EpochDay, DaysInMonth, MonthLength, Normal;
    if t.mday < MonthLength(t.year + 1900, t.mon) {
      SameMonth(t);
    } else if t.mon < 11 {
      FirstOfMonth(t, t.year, t.mon + 1);
      NextMonth(t);
    } else {
      FirstOfMonth(t, t.year + 1, 0);
      NewYear(t);
    }
  }

  /** The next date is a valid date, and 86400 seconds later. */
  lemma NextDay(t: Tm)
    requires Valid(t)
    ensures Valid(NextDate(t)) && Timegm(NextDate(t)) == Timegm(t) + 86400
  {
    NextEpochDay(t);
    hide EpochDay, NextDate, IsLeap, DaysInMonth;
  }
}
