/**
  The specification of the time functions: the proleptic Gregorian calendar counted one year and
  one month at a time, in both directions from the epoch 1970-01-01.
 */
module Calendar {

  const YEAR0 := 1900
  const EPOCH_YR := 1970
  const SECS_DAY := 86400

  /** Broken-down time; `year` counts from 1900 and `mon` from January, as in `struct xi_tm`. */
  datatype Civil = Civil(sec: int, min: int, hour: int, mday: int, mon: int, year: int)

  predicate IsLeap(y: int) {
    y % 4 == 0 && (y % 100 != 0 || y % 400 == 0)
  }

  function YearSize(y: int): int {
    if IsLeap(y) then 366 else 365
  }

  function MonthSize(y: int, m: int): int
    requires 0 <= m < 12
  {
    if m == 1 then (if IsLeap(y) then 29 else 28)
    else if m == 3 || m == 5 || m == 8 || m == 10 then 30
    else 31
  }

  /** Days from the epoch to 1 January of year `y`: one year at a time. */
  function DaysBeforeYear(y: int): int
    decreases if y < EPOCH_YR then EPOCH_YR - y else y - EPOCH_YR
  {
    if y == EPOCH_YR then 0
    else if y > EPOCH_YR then DaysBeforeYear(y - 1) + YearSize(y - 1)
    else DaysBeforeYear(y + 1) - YearSize(y)
  }

  /** Days from 1 January of year `y` to the first of month `m`: one month at a time. */
  function DaysBeforeMonth(y: int, m: int): int
    requires 0 <= m <= 12
    decreases m
  {
    if m == 0 then 0 else DaysBeforeMonth(y, m - 1) + MonthSize(y, m - 1)
  }

  /**
    The day a (year, month, day of month) triple denotes, counted from the epoch, for fields of any
    size and sign: twelve months make a year, and a day before the first or after the last of the
    month runs into the neighbouring months.
   */
  function DayNumber(y: int, mon: int, mday: int): int {
    DaysBeforeYear(y + mon / 12) + DaysBeforeMonth(y + mon / 12, mon % 12) + mday - 1
  }

  /** The second, counted from the epoch, that a broken-down time denotes. */
  function Instant(c: Civil): int {
    DayNumber(YEAR0 + c.year, c.mon, c.mday) * SECS_DAY + c.hour * 3600 + c.min * 60 + c.sec
  }

  /** Every field is in the range the calendar gives it. */
  predicate Canonical(c: Civil) {
    && 0 <= c.sec < 60
    && 0 <= c.min < 60
    && 0 <= c.hour < 24
    && 0 <= c.mon < 12
    && 1 <= c.mday <= MonthSize(YEAR0 + c.year, c.mon)
  }

  function YearDay(c: Civil): int
    requires 0 <= c.mon < 12
  {
    DaysBeforeMonth(YEAR0 + c.year, c.mon) + c.mday - 1
  }

  /** The weekday of a day number, Sunday being 0: the epoch was a Thursday. */
  function WeekDay(day: int): int {
    (day + 4) % 7
  }

  // ----- years and months -------------------------------------------------------------------

  lemma NextYear(y: int)
    ensures DaysBeforeYear(y + 1) == DaysBeforeYear(y) + YearSize(y)
  {
  }

  lemma MonthsFillYear(y: int)
    ensures DaysBeforeMonth(y, 12) == YearSize(y)
  {
    assert DaysBeforeMonth(y, 4) == DaysBeforeMonth(y, 3) + 30;
    assert DaysBeforeMonth(y, 8) == DaysBeforeMonth(y, 4) + 123;
  }

  lemma {:induction false} MonthsGrow(y: int, m: int, n: int)
    requires 0 <= m < n <= 12
    ensures DaysBeforeMonth(y, m) + MonthSize(y, m) <= DaysBeforeMonth(y, n)
    decreases n
  {
    if n > m + 1 {
      MonthsGrow(y, m, n - 1);
    }
  }

  lemma {:induction false} YearsGrow(y: int, z: int)
    requires y < z
    ensures DaysBeforeYear(y) + YearSize(y) <= DaysBeforeYear(z)
    decreases z - y
  {
    NextYear(z - 1);
    if y < z - 1 {
      YearsGrow(y, z - 1);
    }
  }

  /** A day of a year is before another year exactly when its own year is. */
  lemma YearHoldsDay(y: int, yday: int, z: int)
    requires 0 <= yday < YearSize(y)
    ensures y < z <==> DaysBeforeYear(y) + yday < DaysBeforeYear(z)
  {
    hide IsLeap, DaysBeforeYear;
    if y < z {
      YearsGrow(y, z);
    } else if z < y {
      YearsGrow(z, y);
    }
  }

  lemma {:induction false} MonthStartsInYear(y: int, m: int)
    requires 0 <= m < 12
    ensures 0 <= DaysBeforeMonth(y, m)
    ensures DaysBeforeMonth(y, m) + MonthSize(y, m) <= YearSize(y)
  {
    MonthsFillYear(y);
    MonthsGrow(y, m, 12);
    if m > 0 {
      MonthsGrow(y, 0, m);
    }
  }

  /** The days before each month, and one more behind a leap February. */
  lemma MonthTable(y: int)
    ensures var leap := if IsLeap(y) then 1 else 0;
            && DaysBeforeMonth(y, 0) == 0 && DaysBeforeMonth(y, 1) == 31 && DaysBeforeMonth(y, 2) == 59 + leap
            && DaysBeforeMonth(y, 3) == 90 + leap && DaysBeforeMonth(y, 4) == 120 + leap && DaysBeforeMonth(y, 5) == 151 + leap
            && DaysBeforeMonth(y, 6) == 181 + leap && DaysBeforeMonth(y, 7) == 212 + leap && DaysBeforeMonth(y, 8) == 243 + leap
            && DaysBeforeMonth(y, 9) == 273 + leap && DaysBeforeMonth(y, 10) == 304 + leap && DaysBeforeMonth(y, 11) == 334 + leap
  {
    hide IsLeap;
    assert DaysBeforeMonth(y, 3) == 90 + if IsLeap(y) then 1 else 0;
    assert DaysBeforeMonth(y, 6) == DaysBeforeMonth(y, 3) + 91;
    assert DaysBeforeMonth(y, 9) == DaysBeforeMonth(y, 6) + 92;
  }

  /** The epoch was a Thursday, and weekdays follow each other with Sunday behind Saturday. */
  lemma WeekDays(day: int)
    ensures WeekDay(0) == 4 && WeekDay(day + 1) == if WeekDay(day) == 6 then 0 else WeekDay(day) + 1
  {
  }

  // ----- canonical fields are unique, and ordered like the instants they denote -------------

  /** The fields from the most to the least significant. */
  predicate Earlier(a: Civil, b: Civil) {
    || a.year < b.year
    || (a.year == b.year && (
          || a.mon < b.mon
          || (a.mon == b.mon && (
                || a.mday < b.mday
                || (a.mday == b.mday && (
                      || a.hour < b.hour
                      || (a.hour == b.hour && (
                            || a.min < b.min
                            || (a.min == b.min && a.sec < b.sec)))))))))
  }

  function DayOf(c: Civil): int {
    DayNumber(YEAR0 + c.year, c.mon, c.mday)
  }

  /** With the month in range the day number needs no carry. */
  lemma DayInMonth(c: Civil)
    requires 0 <= c.mon < 12
    ensures DayOf(c) == DaysBeforeYear(YEAR0 + c.year) + DaysBeforeMonth(YEAR0 + c.year, c.mon) + c.mday - 1
  {
    assert c.mon / 12 == 0 && c.mon % 12 == c.mon;
  }

  lemma EarlierDay(a: Civil, b: Civil)
    requires Canonical(a) && Canonical(b)
    requires a.year < b.year
             || (a.year == b.year && (a.mon < b.mon || (a.mon == b.mon && a.mday < b.mday)))
    ensures DayOf(a) < DayOf(b)
  {
    hide IsLeap, DaysBeforeYear, DaysBeforeMonth, DayNumber;
    DayInMonth(a);
    DayInMonth(b);
    MonthStartsInYear(YEAR0 + a.year, a.mon);
    MonthStartsInYear(YEAR0 + b.year, b.mon);
    if a.year < b.year {
      YearsGrow(YEAR0 + a.year, YEAR0 + b.year);
    } else if a.mon < b.mon {
      MonthsGrow(YEAR0 + a.year, a.mon, b.mon);
    }
  }

  lemma EarlierForward(a: Civil, b: Civil)
    requires Canonical(a) && Canonical(b) && Earlier(a, b)
    ensures Instant(a) < Instant(b)
  {
    if a.year == b.year && a.mon == b.mon && a.mday == b.mday {
    } else {
      EarlierDay(a, b);
    }
  }

  /** Canonical fields, compared year first, are ordered exactly as their instants are. */
  lemma EarlierIffBefore(a: Civil, b: Civil)
    requires Canonical(a) && Canonical(b)
    ensures Earlier(a, b) <==> Instant(a) < Instant(b)
  {
    if Earlier(a, b) {
      EarlierForward(a, b);
    } else if Earlier(b, a) {
      EarlierForward(b, a);
    }
  }

  /** An instant has at most one canonical form. */
  lemma CanonicalUnique(a: Civil, b: Civil)
    requires Canonical(a) && Canonical(b) && Instant(a) == Instant(b)
    ensures a == b
  {
    EarlierIffBefore(a, b);
    EarlierIffBefore(b, a);
  }

  lemma InstantOfDay(c: Civil)
    requires Canonical(c)
    ensures DayOf(c) * SECS_DAY <= Instant(c) < DayOf(c) * SECS_DAY + SECS_DAY
  {
  }

  /** The epoch splits the canonical times by their year alone. */
  lemma EpochSplit(c: Civil)
    requires Canonical(c)
    ensures Instant(c) >= 0 <==> YEAR0 + c.year >= EPOCH_YR
  {
    assert DaysBeforeYear(EPOCH_YR) == 0;
    hide IsLeap, DaysBeforeYear, DayNumber;
    DayInMonth(c);
    InstantOfDay(c);
    MonthStartsInYear(YEAR0 + c.year, c.mon);
    YearHoldsDay(YEAR0 + c.year, YearDay(c), EPOCH_YR);
  }

  // ----- the canonical form of an instant ---------------------------------------------------

  function YearFrom(y: int, day: int): (r: (int, int))
    ensures DaysBeforeYear(r.0) + r.1 == DaysBeforeYear(y) + day
    ensures 0 <= r.1 < YearSize(r.0)
    decreases day < 0, if day < 0 then -day else day
  {
    NextYear(y);
    NextYear(y - 1);
    if day < 0 then YearFrom(y - 1, day + YearSize(y - 1))
    else if day >= YearSize(y) then YearFrom(y + 1, day - YearSize(y))
    else (y, day)
  }

  function MonthFrom(y: int, m: int, day: int): (r: (int, int))
    requires 0 <= m < 12
    requires 0 <= day && DaysBeforeMonth(y, m) + day < YearSize(y)
    ensures 0 <= r.0 < 12 && 0 <= r.1 < MonthSize(y, r.0)
    ensures DaysBeforeMonth(y, r.0) + r.1 == DaysBeforeMonth(y, m) + day
    decreases 12 - m
  {
    MonthsFillYear(y);
    if day >= MonthSize(y, m) then MonthFrom(y, m + 1, day - MonthSize(y, m)) else (m, day)
  }

  lemma ClockParts(clock: int)
    requires 0 <= clock < SECS_DAY
    ensures clock / 3600 * 3600 + clock % 3600 / 60 * 60 + clock % 60 == clock
    ensures 0 <= clock / 3600 < 24 && 0 <= clock % 3600 / 60 < 60 && 0 <= clock % 60 < 60
  {
    assert clock % 3600 % 60 == clock % 60;
  }

  /** The canonical fields of an instant. */
  function CivilOf(t: int): (c: Civil)
    ensures Canonical(c) && Instant(c) == t
  {
    var clock, day := t % SECS_DAY, t / SECS_DAY;
    var (y, yday) := YearFrom(EPOCH_YR, day);
    var (mon, md) := MonthFrom(y, 0, yday);
    ClockParts(clock);
    Civil(clock % 60, clock % 3600 / 60, clock / 3600, md + 1, mon, y - YEAR0)
  }

  /** Broken-down time is its own canonical form exactly when every field is in range. */
  lemma CivilOfInstant(c: Civil)
    ensures CivilOf(Instant(c)) == c <==> Canonical(c)
  {
    if Canonical(c) {
      CanonicalUnique(CivilOf(Instant(c)), c);
    }
  }

  // ----- closed forms -----------------------------------------------------------------------

  /** The number of days from the epoch to the start of year `y`, as `xi_mktime` counts them. */
  function ClosedFormDays(y: int): int
    requires y >= EPOCH_YR
  {
    (y - EPOCH_YR) * 365
    + ((y - EPOCH_YR) / 4 + if y % 4 != 0 && y % 4 < EPOCH_YR % 4 then 1 else 0)
    - ((y - EPOCH_YR) / 100 + if y % 100 != 0 && y % 100 < EPOCH_YR % 100 then 1 else 0)
    + ((y - EPOCH_YR) / 400 + if y % 400 != 0 && y % 400 < EPOCH_YR % 400 then 1 else 0)
  }

  /** Multiples of 4, less those of 100, plus those of 400, among the years 1 to `n`. */
  function Leaps(n: int): int {
    n / 4 - n / 100 + n / 400
  }

  lemma LeapStep(y: int)
    ensures Leaps(y) == Leaps(y - 1) + (if IsLeap(y) then 1 else 0)
  {
    assert y / 4 == (y - 1) / 4 + (if y % 4 == 0 then 1 else 0);
    assert y / 100 == (y - 1) / 100 + (if y % 100 == 0 then 1 else 0);
    QuotientStep400(y);
    MultiplesNest(y);
  }

  lemma QuotientStep400(y: int)
    ensures y / 400 == (y - 1) / 400 + (if y % 400 == 0 then 1 else 0)
  {
  }

  lemma MultiplesNest(y: int)
    ensures y % 400 == 0 ==> y % 100 == 0
    ensures y % 100 == 0 ==> y % 4 == 0
  {
  }

  lemma CorrectedBy4(y: int)
    requires y >= EPOCH_YR
    ensures (y - EPOCH_YR) / 4 + (if y % 4 != 0 && y % 4 < EPOCH_YR % 4 then 1 else 0) == (y - 1) / 4 - 492
  {
  }

  lemma CorrectedBy100(y: int)
    requires y >= EPOCH_YR
    ensures (y - EPOCH_YR) / 100 + (if y % 100 != 0 && y % 100 < EPOCH_YR % 100 then 1 else 0) == (y - 1) / 100 - 19
  {
  }

  lemma CorrectedBy400(y: int)
    requires y >= EPOCH_YR
    ensures (y - EPOCH_YR) / 400 + (if y % 400 != 0 && y % 400 < EPOCH_YR % 400 then 1 else 0) == (y - 1) / 400 - 4
  {
  }

  lemma ClosedFormCountsLeaps(y: int)
    requires y >= EPOCH_YR
    ensures ClosedFormDays(y) == (y - EPOCH_YR) * 365 + Leaps(y - 1) - Leaps(EPOCH_YR - 1)
  {
    CorrectedBy4(y);
    CorrectedBy100(y);
    CorrectedBy400(y);
  }

  lemma {:induction false} CountOfLeaps(y: int)
    requires y >= EPOCH_YR
    ensures DaysBeforeYear(y) == (y - EPOCH_YR) * 365 + Leaps(y - 1) - Leaps(EPOCH_YR - 1)
    decreases y
  {
    if y > EPOCH_YR {
      CountOfLeaps(y - 1);
      LeapStep(y - 1);
    }
  }

  /** The closed form of `xi_mktime` is the year-by-year count. */
  lemma ClosedFormIsCount(y: int)
    requires y >= EPOCH_YR
    ensures ClosedFormDays(y) == DaysBeforeYear(y)
  {
    ClosedFormCountsLeaps(y);
    CountOfLeaps(y);
  }

  /** "Seconds Since the Epoch", section 4.16 of the Base Definitions of IEEE Std 1003.1-2017. */
  function PosixSeconds(c: Civil): int
    requires 0 <= c.mon < 12
  {
    c.sec + c.min * 60 + c.hour * 3600 + YearDay(c) * 86400
    + (c.year - 70) * 31536000 + ((c.year - 69) / 4) * 86400
    - ((c.year - 1) / 100) * 86400 + ((c.year + 299) / 400) * 86400
  }

  lemma PosixLeaps(year: int)
    ensures (year - 69) / 4 - (year - 1) / 100 + (year + 299) / 400
            == Leaps(YEAR0 + year - 1) - Leaps(EPOCH_YR - 1)
  {
    assert (YEAR0 + year - 1) / 4 == (year - 69) / 4 + 492;
    assert (YEAR0 + year - 1) / 100 == (year - 1) / 100 + 19;
    assert (YEAR0 + year - 1) / 400 == (year + 299) / 400 + 4;
  }

  lemma PosixFormula(c: Civil)
    requires 0 <= c.mon < 12 && c.year >= 70
    ensures PosixSeconds(c) == Instant(c)
  {
    DayInMonth(c);
    CountOfLeaps(YEAR0 + c.year);
    PosixLeaps(c.year);
  }

  // ----- the 400-year cycle -----------------------------------------------------------------

  const CYCLE_DAYS := 146097

  lemma LeapCycle(y: int)
    ensures IsLeap(y + 400) <==> IsLeap(y)
  {
    assert (y + 400) % 4 == y % 4;
    assert (y + 400) % 100 == y % 100;
    assert (y + 400) % 400 == y % 400;
  }

  lemma {:induction false} CycleOfYears(y: int)
    ensures DaysBeforeYear(y + 400) == DaysBeforeYear(y) + CYCLE_DAYS
    decreases if y < EPOCH_YR then EPOCH_YR - y else y - EPOCH_YR
  {
    if y == EPOCH_YR {
      CountOfLeaps(y + 400);
    } else if y > EPOCH_YR {
      CycleOfYears(y - 1);
      LeapCycle(y - 1);
    } else {
      CycleOfYears(y + 1);
      LeapCycle(y);
      NextYear(y + 400);
    }
  }

  lemma {:induction false} CycleOfMonths(y: int, m: int)
    requires 0 <= m <= 12
    ensures DaysBeforeMonth(y + 400, m) == DaysBeforeMonth(y, m)
    ensures m < 12 ==> MonthSize(y + 400, m) == MonthSize(y, m)
    decreases m
  {
    LeapCycle(y);
    if m > 0 {
      CycleOfMonths(y, m - 1);
    }
  }

  lemma CycleOfDays(c: Civil)
    requires Canonical(c)
    ensures var d := c.(year := c.year + 400);
            && Canonical(d)
            && DayOf(d) == DayOf(c) + CYCLE_DAYS
            && YearDay(d) == YearDay(c)
  {
    hide IsLeap, DaysBeforeYear, DayNumber;
    CycleOfYears(YEAR0 + c.year);
    CycleOfMonths(YEAR0 + c.year, c.mon);
    DayInMonth(c);
    DayInMonth(c.(year := c.year + 400));
  }

  lemma CycleOfWeekDays(day: int)
    ensures WeekDay(day + CYCLE_DAYS) == WeekDay(day)
  {
    assert CYCLE_DAYS == 20871 * 7;
  }

  /** 400 years later every field but the year repeats, the weekday and the day of year included. */
  lemma GregorianCycle(t: int)
    ensures var c, d := CivilOf(t), CivilOf(t + CYCLE_DAYS * SECS_DAY);
            && d == c.(year := c.year + 400)
            && YearDay(d) == YearDay(c)
            && WeekDay(DayOf(d)) == WeekDay(DayOf(c))
  {
    hide IsLeap, CivilOf, DayNumber, YearDay;
    var c := CivilOf(t);
    CycleOfDays(c);
    CycleOfWeekDays(DayOf(c));
    CanonicalUnique(CivilOf(t + CYCLE_DAYS * SECS_DAY), c.(year := c.year + 400));
  }
}
