/** `xi_time.c`: conversion between broken-down time and seconds since the epoch. */
module XiTime {
  import opened CInt
  import opened Calendar

  /** The day counts of the months, for common years and for leap years. */
  const YTAB: seq<seq<int>> := [
    [31, 28, 31, 30, 31, 30, 31, 31, 30, 31, 30, 31],
    [31, 29, 31, 30, 31, 30, 31, 31, 30, 31, 30, 31]]

  /** The macro `LEAPYEAR`, with C's remainder. */
  predicate LeapYear(year: int) {
    Rem(year, 4) == 0 && (Rem(year, 100) != 0 || Rem(year, 400) == 0)
  }

  lemma RemainderIsZero(n: int, k: int)
    requires k > 0
    ensures Rem(n, k) == 0 <==> n % k == 0
  {
    CarryIsFloor(n, k);
  }

  /** The macro is right for years of either sign. */
  lemma LeapYearIsLeap(year: int)
    ensures LeapYear(year) <==> IsLeap(year)
  {
    RemainderIsZero(year, 4);
    RemainderIsZero(year, 100);
    RemainderIsZero(year, 400);
  }

  function YTab(year: int, mon: int): (days: int)
    requires 0 <= mon < 12
    ensures days == MonthSize(year, mon)
    ensures 28 <= days <= 31
  {
    LeapYearIsLeap(year);
    YTAB[if LeapYear(year) then 1 else 0][mon]
  }

  /** The macro `YEARSIZE`. */
  function YearDays(year: int): (days: int)
    ensures days == YearSize(year)
  {
    LeapYearIsLeap(year);
    if LeapYear(year) then 366 else 365
  }

  /** `struct xi_tm`. */
  class Tm {
    var sec: int
    var min: int
    var hour: int
    var mday: int
    var mon: int
    var year: int
    var wday: int
    var yday: int
    var isdst: int

    constructor (c: Civil)
      ensures Fields() == c
    {
      sec, min, hour, mday, mon, year := c.sec, c.min, c.hour, c.mday, c.mon, c.year;
      wday, yday, isdst := 0, 0, 0;
    }

    function Fields(): Civil
      reads this
    {
      Civil(sec, min, hour, mday, mon, year)
    }
  }

  /** What `xi_mktime` returns for the fields it is given. */
  function MktimeValue(c: Civil): (t: int)
    ensures t >= -1
  {
    if Instant(c) >= 0 then Instant(c) else -1
  }

  // ----- carries ----------------------------------------------------------------------------

  /** C's truncating division followed by the sign correction is the floor division. */
  lemma CarryIsFloor(n: int, k: int)
    requires k > 0
    ensures var q, r := Quot(n, k), Rem(n, k);
            && (r < 0 ==> q - 1 == n / k && r + k == n % k)
            && (r >= 0 ==> q == n / k && r == n % k)
            && -k < r < k
  {
    if n < 0 {
      var q, r := (-n) / k, (-n) % k;
      assert n == k * (-q) - r;
      if r > 0 {
        assert n == k * (-q - 1) + (k - r);
      }
      DivisionIsUnique(n, k, if r == 0 then -q else -q - 1, if r == 0 then 0 else k - r);
    }
  }

  /** Seconds, minutes and hours carried into whole days denote the same number of seconds. */
  lemma ClockCarry(sec: int, min: int, hour: int)
    ensures var m := min + sec / 60;
            var h := hour + m / 60;
            h / 24 * SECS_DAY + h % 24 * 3600 + m % 60 * 60 + sec % 60 == hour * 3600 + min * 60 + sec
  {
  }

  // ----- the 64-bit bound -------------------------------------------------------------------

  /**
    With a 64-bit `long` and a calendar year that fits an `int`, the closed form stays in range and
    no overflow guard of `xi_mktime` fires.
   */
  lemma NoOverflow(year: int, yday: int, clock: int)
    requires EPOCH_YR <= year <= INT_MAX && 0 <= yday < 366 && 0 <= clock < SECS_DAY
    ensures year - EPOCH_YR <= LONG_MAX / 365
    ensures (year - EPOCH_YR) / 4 + 1 <= LONG_MAX - (year - EPOCH_YR) * 365
    ensures 0 <= (year - EPOCH_YR) * 365 <= LONG_MAX
    ensures 0 <= ClosedFormDays(year) == DaysBeforeYear(year) <= 366 * INT_MAX
    ensures ClosedFormDays(year) + yday <= (ULONG_MAX - clock) / SECS_DAY
    ensures clock + (ClosedFormDays(year) + yday) * SECS_DAY <= LONG_MAX
  {
    ClosedFormIsCount(year);
    CorrectedBy4(year);
    CorrectedBy100(year);
    CorrectedBy400(year);
    var q := (ULONG_MAX - clock) / SECS_DAY;
    assert q >= 213503982334600;
  }

  // ----- xi_mktime --------------------------------------------------------------------------

  /** The first part of `xi_mktime`: seconds, minutes and hours; `day` is the carry out of the hours. */
  method CarryClock(timep: Tm) returns (day: int)
    modifies timep`sec, timep`min, timep`hour
    ensures 0 <= timep.sec < 60 && 0 <= timep.min < 60 && 0 <= timep.hour < 24
    ensures day * SECS_DAY + timep.hour * 3600 + timep.min * 60 + timep.sec
            == old(timep.hour * 3600 + timep.min * 60 + timep.sec)
  {
    CarryIsFloor(timep.sec, 60);
    timep.min := timep.min + Quot(timep.sec, 60);
    timep.sec := Rem(timep.sec, 60);
    if timep.sec < 0 {
      timep.sec := timep.sec + 60;
      timep.min := timep.min - 1;
    }
    CarryIsFloor(timep.min, 60);
    timep.hour := timep.hour + Quot(timep.min, 60);
    timep.min := Rem(timep.min, 60);
    if timep.min < 0 {
      timep.min := timep.min + 60;
      timep.hour := timep.hour - 1;
    }
    CarryIsFloor(timep.hour, 24);
    day := Quot(timep.hour, 24);
    timep.hour := Rem(timep.hour, 24);
    if timep.hour < 0 {
      timep.hour := timep.hour + 24;
      day := day - 1;
    }
    ClockCarry(old(timep.sec), old(timep.min), old(timep.hour));
  }

  /** The second part: months into years. */
  method CarryMonths(timep: Tm)
    modifies timep`mon, timep`year
    ensures timep.mon == old(timep.mon) % 12
    ensures timep.year == old(timep.year) + old(timep.mon) / 12
  {
    CarryIsFloor(timep.mon, 12);
    timep.year := timep.year + Quot(timep.mon, 12);
    timep.mon := Rem(timep.mon, 12);
    if timep.mon < 0 {
      timep.mon := timep.mon + 12;
      timep.year := timep.year - 1;
    }
  }

  /** The day `day` days after the first of a month. */
  function DayAfter(y: int, mon: int, day: int): int
    requires 0 <= mon < 12
  {
    DaysBeforeYear(y) + DaysBeforeMonth(y, mon) + day
  }

  lemma NextMonth(y: int, mon: int, day: int)
    requires 0 <= mon < 12
    ensures DayAfter(y, mon, day + YTab(y, mon))
            == if mon == 11 then DayAfter(y + 1, 0, day) else DayAfter(y, mon + 1, day)
  {
    NextYear(y);
    MonthsFillYear(y);
  }

  /** The two loops: walk month by month until `day` lies in the month the fields name. */
  method WalkToMonth(timep: Tm, start: int) returns (day: int)
    requires 0 <= timep.mon < 12
    modifies timep`mon, timep`year
    ensures 0 <= timep.mon < 12
    ensures 0 <= day < MonthSize(YEAR0 + timep.year, timep.mon)
    ensures DayAfter(YEAR0 + timep.year, timep.mon, day) == old(DayAfter(YEAR0 + timep.year, timep.mon, start))
  {
    hide IsLeap, DaysBeforeYear, DaysBeforeMonth, DayAfter;
    day := start;
    ghost var goal := DayAfter(YEAR0 + timep.year, timep.mon, start);
    while day < 0
      invariant 0 <= timep.mon < 12
      invariant DayAfter(YEAR0 + timep.year, timep.mon, day) == goal
      decreases -day
    {
      timep.mon := timep.mon - 1;
      if timep.mon < 0 {
        timep.year := timep.year - 1;
        timep.mon := 11;
      }
      NextMonth(YEAR0 + timep.year, timep.mon, day);
      day := day + YTab(YEAR0 + timep.year, timep.mon);
    }
    while day >= YTab(YEAR0 + timep.year, timep.mon)
      invariant 0 <= timep.mon < 12 && 0 <= day
      invariant DayAfter(YEAR0 + timep.year, timep.mon, day) == goal
      decreases day
    {
      day := day - YTab(YEAR0 + timep.year, timep.mon);
      NextMonth(YEAR0 + timep.year, timep.mon, day);
      timep.mon := timep.mon + 1;
      if timep.mon == 12 {
        timep.mon := 0;
        timep.year := timep.year + 1;
      }
    }
  }

  /** The carries together keep the instant. */
  lemma CarriesKeepInstant(was: Civil, now: Civil, carry: int)
    requires 0 <= now.mon < 12
    requires carry * SECS_DAY + now.hour * 3600 + now.min * 60 + now.sec
             == was.hour * 3600 + was.min * 60 + was.sec
    requires DayAfter(YEAR0 + now.year, now.mon, now.mday - 1)
             == DayAfter(YEAR0 + (was.year + was.mon / 12), was.mon % 12, carry + was.mday - 1)
    ensures Instant(now) == Instant(was)
    ensures Canonical(now) ==> now == CivilOf(Instant(was))
  {
    CivilOfInstant(now);
    DayInMonth(now);
    assert DayOf(now) == DayOf(was) + carry by {
      assert YEAR0 + (was.year + was.mon / 12) == YEAR0 + was.year + was.mon / 12;
    }
  }

  /** The loop that sums the months before `timep.mon`. */
  method SumMonths(tm_year: int, mon: int) returns (yday: int)
    requires 0 <= mon < 12
    ensures yday == DaysBeforeMonth(tm_year, mon)
  {
    yday := 0;
    var month := 0;
    while month < mon
      invariant 0 <= month <= mon
      invariant yday == DaysBeforeMonth(tm_year, month)
    {
      yday := yday + YTab(tm_year, month);
      month := month + 1;
    }
  }

  /** The closed form plus the day of the year is the day of the fields. */
  lemma CountedDay(c: Civil, day: int, seconds: int)
    requires Canonical(c) && YEAR0 + c.year >= EPOCH_YR
    requires day == DaysBeforeYear(YEAR0 + c.year) + YearDay(c)
    requires seconds == (c.hour * 60 + c.min) * 60 + c.sec
    ensures day == DayOf(c) && 0 <= YearDay(c) < 366
    ensures 0 <= seconds < SECS_DAY && seconds + day * SECS_DAY == Instant(c)
  {
    DayInMonth(c);
    MonthStartsInYear(YEAR0 + c.year, c.mon);
  }

  /** The closed-form day count to the start of a year, with its overflow guards. */
  method CountDays(tm_year: int) returns (day: int, overflow: int)
    requires EPOCH_YR <= tm_year
    ensures day == DaysBeforeYear(tm_year)
    ensures overflow >= 0 && (tm_year <= INT_MAX ==> overflow == 0)
  {
    hide IsLeap, DaysBeforeYear;
    var year := EPOCH_YR;
    overflow := 0;
    if tm_year <= INT_MAX {
      NoOverflow(tm_year, 0, 0);
    }
    ClosedFormIsCount(tm_year);
    // all operands are non-negative
    if LONG_MAX / 365 < tm_year - year {
      overflow := overflow + 1;
    }
    day := (tm_year - year) * 365;
    if LONG_MAX - day < (tm_year - year) / 4 + 1 {
      overflow := overflow + 1;
    }
    day := day + ((tm_year - year) / 4 + if tm_year % 4 != 0 && tm_year % 4 < year % 4 then 1 else 0);
    day := day - ((tm_year - year) / 100 + if tm_year % 100 != 0 && tm_year % 100 < year % 100 then 1 else 0);
    day := day + ((tm_year - year) / 400 + if tm_year % 400 != 0 && tm_year % 400 < year % 400 then 1 else 0);
  }

  /**
    The last part: the closed-form day count with its overflow guards, for canonical fields. It sets
    the day of the year and the weekday, unless the year is before the epoch.
   */
  method CountSeconds(timep: Tm) returns (result: int)
    requires Canonical(timep.Fields())
    modifies timep`yday, timep`wday
    ensures timep.year + YEAR0 <= INT_MAX ==> result == MktimeValue(timep.Fields())
    ensures timep.year + YEAR0 >= EPOCH_YR ==>
              && timep.yday == YearDay(timep.Fields())
              && timep.wday == WeekDay(DayOf(timep.Fields()))
    ensures timep.year + YEAR0 < EPOCH_YR ==> timep.yday == old(timep.yday) && timep.wday == old(timep.wday)
  {
    hide IsLeap, CivilOf, DayNumber, DaysBeforeYear, DaysBeforeMonth;
    EpochSplit(timep.Fields());
    if timep.year < EPOCH_YR - YEAR0 {
      return -1;
    }
    var tm_year := timep.year + YEAR0;
    var day, overflow := CountDays(tm_year);
    var yday := SumMonths(tm_year, timep.mon);
    yday := yday + timep.mday - 1;
    if day + yday < 0 {
      overflow := overflow + 1;
    }
    day := day + yday;
    timep.yday := yday;
    timep.wday := (day + 4) % 7;
    var seconds := (timep.hour * 60 + timep.min) * 60 + timep.sec;
    CountedDay(timep.Fields(), day, seconds);
    if tm_year <= INT_MAX {
      NoOverflow(tm_year, yday, seconds);
    }
    if (ULONG_MAX - seconds) / SECS_DAY < day {
      overflow := overflow + 1;
    }
    seconds := seconds + day * SECS_DAY;
    if overflow > 0 {
      return -1;
    }
    return seconds;
  }

  /**
    `xi_mktime` normalises the fields in place and returns the second they denote, or -1 when that
    second is before the epoch. A calendar year beyond the range of `int` is undefined in C.
   */
  method Mktime(timep: Tm) returns (result: int)
    modifies timep
    ensures Canonical(timep.Fields())
    ensures Instant(timep.Fields()) == old(Instant(timep.Fields()))
    ensures timep.Fields() == CivilOf(old(Instant(timep.Fields())))
    ensures timep.year + YEAR0 <= INT_MAX ==> result == old(MktimeValue(timep.Fields()))
    ensures timep.year + YEAR0 >= EPOCH_YR ==>
              && timep.yday == YearDay(timep.Fields())
              && timep.wday == WeekDay(DayOf(timep.Fields()))
    ensures timep.year + YEAR0 < EPOCH_YR ==> timep.yday == old(timep.yday) && timep.wday == old(timep.wday)
    ensures timep.isdst == old(timep.isdst)
  {
    hide IsLeap, CivilOf, DayNumber;
    ghost var was := timep.Fields();
    var day := CarryClock(timep);
    ghost var carry := day;
    CarryMonths(timep);
    day := day + (timep.mday - 1);
    day := WalkToMonth(timep, day);
    timep.mday := day + 1;
    ghost var now := timep.Fields();
    CarriesKeepInstant(was, now, carry);
    assert Canonical(now);
    result := CountSeconds(timep);
    assert timep.Fields() == now;
  }

  // ----- xi_gmtime --------------------------------------------------------------------------

  /** The loop that counts whole years off a day number. */
  method CountYears(day: int) returns (year: int, dayno: int)
    requires 0 <= day
    ensures EPOCH_YR <= year && 0 <= dayno < YearSize(year)
    ensures DaysBeforeYear(year) + dayno == day
    ensures year <= INT_MAX <==> day < DaysBeforeYear(INT_MAX + 1)
  {
    year, dayno := EPOCH_YR, day;
    while dayno >= YearDays(year)
      invariant EPOCH_YR <= year && 0 <= dayno
      invariant DaysBeforeYear(year) + dayno == day
      decreases dayno
    {
      NextYear(year);
      dayno := dayno - YearDays(year);
      year := year + 1;
    }
    YearHoldsDay(year, dayno, INT_MAX + 1);
  }

  /** The loop that counts whole months off a day of the year. */
  method CountMonths(timep: Tm, year: int, yday: int) returns (dayno: int)
    requires 0 <= yday < YearSize(year)
    modifies timep`mon
    ensures 0 <= timep.mon < 12 && 0 <= dayno < MonthSize(year, timep.mon)
    ensures DaysBeforeMonth(year, timep.mon) + dayno == yday
  {
    dayno := yday;
    timep.mon := 0;
    MonthsFillYear(year);
    while dayno >= YTab(year, timep.mon)
      invariant 0 <= timep.mon < 12 && 0 <= dayno
      invariant DaysBeforeMonth(year, timep.mon) + dayno == yday
      decreases dayno
    {
      dayno := dayno - YTab(year, timep.mon);
      timep.mon := timep.mon + 1;
    }
  }

  /** Fields counted off a second number are the canonical fields of that second. */
  lemma CountedFields(time: int, c: Civil)
    requires 0 <= c.mon < 12 && 1 <= c.mday <= MonthSize(YEAR0 + c.year, c.mon)
    requires DaysBeforeYear(YEAR0 + c.year) + YearDay(c) == time / SECS_DAY
    requires c.hour == time % SECS_DAY / 3600
    requires c.min == time % SECS_DAY % 3600 / 60
    requires c.sec == time % SECS_DAY % 60
    ensures Canonical(c) && Instant(c) == time && c == CivilOf(time)
    ensures DayOf(c) == time / SECS_DAY
  {
    ClockParts(time % SECS_DAY);
    DayInMonth(c);
    CivilOfInstant(c);
  }

  /** The last second of the year INT_MAX. */
  const LAST_SECOND := 67767976233532799

  /**
    For a 64-bit `time`, which the code converts to an unsigned number: the loop of `xi_gmtime` keeps
    its `int year` in range if and only if the time is from the epoch to the end of the year INT_MAX.
    Every negative time becomes a number far beyond.
   */
  lemma GmtimeIsDefined(time: int)
    requires -LONG_MAX - 1 <= time <= LONG_MAX
    ensures CivilOf(time % (ULONG_MAX + 1)).year + YEAR0 <= INT_MAX <==> 0 <= time <= LAST_SECOND
  {
    hide IsLeap, CivilOf, DaysBeforeYear;
    var u := time % (ULONG_MAX + 1);
    assert u == if time >= 0 then time else time + ULONG_MAX + 1;
    LastSecond();
    var c := CivilOf(u);
    DayInMonth(c);
    MonthStartsInYear(YEAR0 + c.year, c.mon);
    YearHoldsDay(YEAR0 + c.year, YearDay(c), INT_MAX + 1);
    InstantOfDay(c);
  }

  lemma LastSecond()
    ensures DaysBeforeYear(INT_MAX + 1) * SECS_DAY == LAST_SECOND + 1
  {
    hide DaysBeforeYear, IsLeap;
    ClosedFormIsCount(INT_MAX + 1);
  }

  /** `xi_gmtime` with the static structure it fills and hands out on every call. */
  class Clock {
    const brTime: Tm

    constructor ()
      ensures fresh(brTime)
    {
      brTime := new Tm(Civil(0, 0, 0, 0, 0, 0));
    }

    method Gmtime(time: int) returns (timep: Tm)
      requires 0 <= time
      modifies brTime
      ensures timep == brTime
      ensures Canonical(timep.Fields()) && Instant(timep.Fields()) == time
      ensures timep.Fields() == CivilOf(time)
      ensures timep.yday == YearDay(timep.Fields())
      ensures timep.wday == WeekDay(DayOf(timep.Fields()))
      ensures timep.isdst == 0
    {
      hide IsLeap, CivilOf, DaysBeforeYear, Instant;
      timep := brTime;
      var dayclock := time % SECS_DAY;
      var dayno := time / SECS_DAY;
      timep.sec := dayclock % 60;
      timep.min := dayclock % 3600 / 60;
      timep.hour := dayclock / 3600;
      timep.wday := (dayno + 4) % 7;
      var year;
      year, dayno := CountYears(dayno);
      timep.year := year - YEAR0;
      timep.yday := dayno;
      dayno := CountMonths(timep, year, dayno);
      timep.mday := dayno + 1;
      timep.isdst := 0;
      CountedFields(time, timep.Fields());
    }
  }

  // ----- the two functions undo each other --------------------------------------------------

  /**
    `xi_mktime(xi_gmtime(t)) == t` from the epoch on, and `xi_gmtime` of what `xi_mktime` returned
    gives back the caller's fields exactly when they were in range and not before the epoch.
   */
  lemma MutualInverses(t: int, c: Civil)
    requires 0 <= t
    ensures MktimeValue(CivilOf(t)) == t
    ensures MktimeValue(c) >= 0 && CivilOf(MktimeValue(c)) == c <==> Canonical(c) && YEAR0 + c.year >= EPOCH_YR
  {
    CivilOfInstant(c);
    if Canonical(c) {
      EpochSplit(c);
    }
  }

  /** The same round trips on the objects: the structure `xi_mktime` left is what `xi_gmtime` fills. */
  method RoundTrip(clock: Clock, timep: Tm) returns (t: int, back: Tm)
    requires timep != clock.brTime
    requires CivilOf(Instant(timep.Fields())).year + YEAR0 <= INT_MAX
    modifies timep, clock.brTime
    ensures back == clock.brTime
    ensures t >= 0 ==>
              && t == old(Instant(timep.Fields()))
              && back.Fields() == timep.Fields()
              && back.yday == timep.yday
              && back.wday == timep.wday
    ensures t < 0 <==> CivilOf(old(Instant(timep.Fields()))).year + YEAR0 < EPOCH_YR
  {
    hide IsLeap, CivilOf, Instant;
    back := clock.brTime;
    t := Mktime(timep);
    EpochSplit(timep.Fields());
    if t >= 0 {
      back := clock.Gmtime(t);
    }
  }
}
