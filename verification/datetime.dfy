/** DateTime values and XML Schema durations (lfutil/include/time/datetime.h, lfutil/src/time/datetime.cpp). */
module DateTimes {
  import opened Words
  import opened Calendar

  const SECONDS_PER_DAY := 86400
  const MILLIS_PER_DAY := 86400000
  const MILLIS_PER_SEC := 1000

  /** The numbers parsed from a duration; each may carry its own sign. */
  datatype Duration = Duration(years: int, months: int, days: int, hours: int, minutes: int, seconds: int)
  {
    predicate NonNegative() {
      years >= 0 && months >= 0 && days >= 0 && hours >= 0 && minutes >= 0 && seconds >= 0
    }
  }

  // ---------- the first day of a month, for every year and for months counted back past January

  predicate MonthIndex(month: int) { -10 <= month <= 12 }

  /** Months 0, -1, ..., -10 are December, November, ..., February of the year before. */
  function LengthOf(year: int, month: int): nat
    requires MonthIndex(month)
  {
    if month >= 1 then MonthLength(year, month) else MonthLength(year - 1, month + 12)
  }

  function FirstOfMarchYear(y: int): int { 365 * y + y / 4 - y / 100 + y / 400 + EPOCH_DAY }

  function FirstOfMonth(year: int, month: int): int
    requires MonthIndex(month)
  {
    var a := if month > 2 then 0 else if month > -10 then 1 else 2;
    FirstOfMarchYear(year + 4800 - a) + (153 * (month + 12 * a - 3) + 2) / 5
  }

  lemma FloorStep(n: int, k: int)
    requires k > 0
    ensures (n + 1) / k == n / k + (if (n + 1) % k == 0 then 1 else 0)
  {
    var q, r := n / k, n % k;
    assert n == k * q + r && k * (q + 1) == k * q + k;
    if r == k - 1 {
      IntRemainder(k, q + 1, 0, n + 1);
    } else {
      IntRemainder(k, q, r + 1, n + 1);
    }
  }

  lemma IntRemainder(d: int, q: int, r: int, n: int)
    requires 0 <= r < d && n == d * q + r
    ensures n / d == q && n % d == r
  {
    var p := n / d;
    var k := p - q;
    assert n == d * p + n % d;
    assert d * k == d * p - d * q;
    assert k > 0 ==> d * k >= d;
    assert k < 0 ==> d * k <= -d;
  }

  lemma MarchYearStep(y: int)
    ensures FirstOfMarchYear(y + 1) == FirstOfMarchYear(y) + (if Leap(y + 1 - 4800) then 366 else 365)
  {
    FloorStep(y, 4);
    FloorStep(y, 100);
    FloorStep(y, 400);
    DivisibilityChain(y + 1);
    CycleStep(y + 1);
  }

  lemma CycleStep(n: int)
    ensures Leap(n - 4800) == Leap(n)
  {
    Cycle(n, 4, 1200);
    Cycle(n, 100, 48);
    Cycle(n, 400, 12);
  }

  lemma Cycle(n: int, k: int, c: int)
    requires k > 0 && k * c == 4800
    ensures (n - 4800) % k == n % k
  {
    assert n == k * (n / k) + n % k;
    assert k * (n / k - c) == k * (n / k) - k * c;
    IntRemainder(k, n / k - c, n % k, n - 4800);
  }

  /** Each month starts where the one before it ends. */
  lemma MonthStep(year: int, month: int)
    requires MonthIndex(month) && month < 12
    ensures FirstOfMonth(year, month + 1) == FirstOfMonth(year, month) + LengthOf(year, month)
  {
    if month == 2 {
      MarchYearStep(year + 4799);
    }
    if month == -10 {
      MarchYearStep(year + 4798);
    }
  }

  lemma YearStep(year: int)
    ensures FirstOfMonth(year, 1) == FirstOfMonth(year - 1, 12) + 31
    ensures FirstOfMonth(year, -10) == FirstOfMonth(year - 1, 1) + 31
  {
  }

  lemma {:induction false} MonthsFromJanuary(year: int, month: int)
    requires 1 <= month <= 12
    ensures FirstOfMonth(year, month) == FirstOfMonth(year, 1) + DaysBeforeMonth(year, month)
  {
    if month > 1 {
      MonthsFromJanuary(year, month - 1);
      MonthStep(year, month - 1);
    }
  }

  /** Truncation makes the source's formula exceed the day number by at most 2, and only before the epoch. */
  lemma JulianDateNearFloor(year: int, month: int, day: int)
    requires MonthIndex(month)
    ensures JulianDate(year, month, day) <= FirstOfMonth(year, month) + day - 1 + 2
    ensures year >= -4798 ==> JulianDate(year, month, day) == FirstOfMonth(year, month) + day - 1
    ensures year == -4800 && month > 2 ==> JulianDate(year, month, day) == FirstOfMonth(year, month) + day - 1
    ensures year == -4799 && month > -10 ==> JulianDate(year, month, day) == FirstOfMonth(year, month) + day - 1
  {
    var a := if month > 2 then 0 else if month > -10 then 1 else 2;
    assert CDiv(14 - month, 12) == a;
    var y := year + 4800 - a;
    TruncationIsNear(y, 4);
    TruncationIsNear(y, 100);
    TruncationIsNear(y, 400);
  }

  lemma TruncationIsNear(n: int, k: int)
    requires k > 0
    ensures n >= 0 ==> CDiv(n, k) == n / k
    ensures n / k <= CDiv(n, k) <= n / k + 1
  {
    if n < 0 {
      var q, r := -n / k, (-n) % k;
      assert -n == k * q + r;
      if r == 0 {
        IntRemainder(k, -q, 0, n);
      } else {
        assert k * (-q - 1) == -(k * q) - k;
        IntRemainder(k, -q - 1, k - r, n);
      }
    }
  }

  // ---------- what a duration means (XML Schema Part 2: Datatypes, Appendix E)

  /** Years and months move the date first, and the day is clamped to the new month. */
  function ShiftedYear(x: Date, d: Duration): int { x.year + d.years + (x.month + d.months - 1) / 12 }

  function ShiftedMonth(x: Date, d: Duration): (m: int)
    ensures 1 <= m <= 12
  {
    (x.month + d.months - 1) % 12 + 1
  }

  function ClampedDay(x: Date, d: Duration): int {
    var limit := MonthLength(ShiftedYear(x, d), ShiftedMonth(x, d));
    if x.day > limit then limit else x.day
  }

  /** The date that years and months lead to. */
  function Shifted(x: Date, d: Duration): Date { Date(ShiftedYear(x, d), ShiftedMonth(x, d), ClampedDay(x, d)) }

  /** It is the date moved by that many months, on the same day or on the last one of a shorter month. */
  lemma MonthsShifted(x: Date, d: Duration)
    requires ValidDate(x)
    ensures var y := Shifted(x, d);
      ValidDate(y) && 12 * y.year + y.month == 12 * (x.year + d.years) + x.month + d.months
      && y.day == if x.day > MonthLength(y.year, y.month) then MonthLength(y.year, y.month) else x.day
  {
  }

  /** The instant a duration leads to, in whole seconds. */
  function ExactSeconds(date: int, time: int, d: Duration): int {
    var x := GetYMD(date);
    SECONDS_PER_DAY * (FirstOfMonth(ShiftedYear(x, d), ShiftedMonth(x, d)) + ClampedDay(x, d) - 1)
    + time / MILLIS_PER_SEC
    + SECONDS_PER_DAY * d.days + 3600 * d.hours + 60 * d.minutes + d.seconds
  }

  /** Days carried out of the time of day, with the truncating divisions of the source. */
  function CarriedDays(time: int, d: Duration): int {
    var ticks := time / MILLIS_PER_SEC;
    CDiv(ticks / 3600 + d.hours + CDiv(ticks / 60 % 60 + d.minutes + CDiv(ticks % 60 + d.seconds, 60), 60), 24)
  }

  /** The months reach back before January, into a month that the source counts as 0, -1, ..., -10. */
  predicate ReachesBack(x: Date, d: Duration) { x.month + d.months < 1 && ShiftedMonth(x, d) != 1 }

  /** The source takes every month it counts back into to have 28 days. */
  const BACK_LENGTH := 28

  function ClampedBack(day: int): int { if day > BACK_LENGTH then BACK_LENGTH else day }

  /**
   * When the result is exact. Months that do not reach back: the day offset stays within the shifted year.
   * Months that do: no day is lost to the short month, or a carry out of it wins them all back.
   */
  predicate Exact(date: int, time: int, d: Duration) {
    var x := GetYMD(date);
    var year, month, day := ShiftedYear(x, d), ShiftedMonth(x, d), ClampedDay(x, d);
    var offset := d.days + CarriedDays(time, d);
    if ReachesBack(x, d)
    then ExactBack(year, month, ClampedBack(x.day) + offset, day - ClampedBack(x.day))
    else DaysBeforeMonth(year, month) + day + offset >= 1
  }

  predicate ExactBack(year: int, month: int, day: int, lost: int)
    requires 2 <= month <= 12
  {
    if day > BACK_LENGTH then lost == MonthLength(year, month) - BACK_LENGTH && (day <= 2 * BACK_LENGTH || month == 12)
    else lost == 0 && (day >= 1 || NoneLostBack(year, month, day))
  }

  /** Only from March and February, and not past 1 January, does a step back lose no day. */
  predicate NoneLostBack(year: int, month: int, day: int)
    requires 2 <= month <= 12
  {
    DaysBeforeMonth(year, month) + day >= 1 && (month == 2 || (month == 3 && !Leap(year)))
  }

  function DaySeconds(date: int, time: int): int { SECONDS_PER_DAY * date + CDiv(time, MILLIS_PER_SEC) }

  // ---------- carrying

  /** What is left of the time of day once whole days have been carried out of it. */
  function LeftSeconds(time: int, d: Duration): int {
    var ticks := time / MILLIS_PER_SEC;
    var seconds := ticks % 60 + d.seconds;
    var minutes := ticks / 60 % 60 + d.minutes + CDiv(seconds, 60);
    var hours := ticks / 3600 + d.hours + CDiv(minutes, 60);
    3600 * CMod(hours, 24) + 60 * CMod(minutes, 60) + CMod(seconds, 60)
  }

  lemma TimeIsCarried(time: int, d: Duration)
    requires 0 <= time
    ensures SECONDS_PER_DAY * CarriedDays(time, d) + LeftSeconds(time, d)
         == time / MILLIS_PER_SEC + 3600 * d.hours + 60 * d.minutes + d.seconds
  {
    var ticks := time / MILLIS_PER_SEC;
    SplitTicks(ticks);
    var seconds := ticks % 60 + d.seconds;
    var minutes := ticks / 60 % 60 + d.minutes + CDiv(seconds, 60);
    var hours := ticks / 3600 + d.hours + CDiv(minutes, 60);
    assert CarriedDays(time, d) == CDiv(hours, 24);
  }

  lemma SplitTicks(ticks: nat)
    ensures ticks == 3600 * (ticks / 3600) + 60 * (ticks / 60 % 60) + ticks % 60
    ensures ticks < SECONDS_PER_DAY ==> ticks / 3600 < 24
  {
    var minutes := ticks / 60;
    assert minutes == 60 * (minutes / 60) + minutes % 60;
    assert minutes / 60 == ticks / 3600;
  }

  lemma LeftSecondsInDay(time: int, d: Duration)
    requires 0 <= time && d.NonNegative()
    ensures 0 <= LeftSeconds(time, d) < SECONDS_PER_DAY && CarriedDays(time, d) >= 0
  {
    var ticks := time / MILLIS_PER_SEC;
    var seconds := ticks % 60 + d.seconds;
    assert CDiv(seconds, 60) >= 0 && 0 <= CMod(seconds, 60) < 60;
    var minutes := ticks / 60 % 60 + d.minutes + CDiv(seconds, 60);
    assert CDiv(minutes, 60) >= 0 && 0 <= CMod(minutes, 60) < 60;
    var hours := ticks / 3600 + d.hours + CDiv(minutes, 60);
    assert CDiv(hours, 24) >= 0 && 0 <= CMod(hours, 24) < 24;
  }

  /** The month before January of a year is month 0, whose length the source takes to be 28. */
  lemma MaxDayBack(year: int, month: int)
    requires -11 <= month <= 0
    ensures MaxDayInMonthFor(year, month) == if month == -11 then 31 else 28
    ensures CMod(month - 1, 12) + 1 == (if month == -11 then 1 else month)
    ensures CDiv(month - 1, 12) == (if month == -11 then -1 else 0)
  {
    assert CDiv(month - 1, 12) == (if month == -11 then -1 else 0);
  }

  /** The state of the carry loop: where it is and what its date denotes. */
  datatype Carry = Carry(year: int, month: int, day: int)
  {
    predicate Ok() { MonthIndex(month) }

    /** The day number the three components stand for. */
    function Denotes(): int
      requires Ok()
    {
      FirstOfMonth(year, month) + day - 1
    }

    function Back(): Carry {
      var tmpMonth := month - 1;
      Carry(year + CDiv(tmpMonth - 1, 12), CMod(tmpMonth - 1, 12) + 1, day + MaxDayInMonthFor(year, month - 1))
    }

    function Forward(): Carry {
      var tmpMonth := month + 1;
      Carry(year + CDiv(tmpMonth - 1, 12), CMod(tmpMonth - 1, 12) + 1, day - MaxDayInMonthFor(year, month))
    }

    lemma ForwardConserves()
      requires 1 <= month <= 12
      ensures 1 <= Forward().month <= 12 && Forward().Denotes() == Denotes()
      ensures Forward().day == day - MonthLength(year, month)
    {
      MaxDayIsMonthLength(year, month);
      if month < 12 {
        MonthStep(year, month);
        assert CDiv(month, 12) == 0;
        hide FirstOfMonth, MonthLength, MaxDayInMonthFor;
        assert Forward() == Carry(year, month + 1, day - MonthLength(year, month));
      } else {
        YearStep(year + 1);
        assert CDiv(month, 12) == 1;
        hide FirstOfMonth, MaxDayInMonthFor;
        assert Forward() == Carry(year + 1, 1, day - 31);
      }
    }

    lemma BackConserves()
      requires 2 <= month <= 12
      ensures Back() == Carry(year, month - 1, day + MonthLength(year, month - 1)) && Back().Denotes() == Denotes()
    {
      MaxDayIsMonthLength(year, month - 1);
      MonthStep(year, month - 1);
      assert CDiv(month - 2, 12) == 0;
    }

    lemma BackLoses()
      requires -10 <= month <= 1
      ensures
        if month == -10 then Back() == Carry(year - 1, 1, day + 31) && Back().Denotes() == Denotes()
        else Back() == Carry(year, month - 1, day + BACK_LENGTH)
             && Back().Denotes() == Denotes() - (LengthOf(year, month - 1) - BACK_LENGTH)
    {
      MaxDayBack(year, month - 1);
      if month == -10 {
        YearStep(year);
      } else {
        MonthStep(year, month - 1);
      }
    }

    lemma ForwardGains()
      requires -10 <= month <= 0
      ensures Forward() == Carry(year, month + 1, day - BACK_LENGTH)
      ensures Forward().Denotes() == Denotes() + (LengthOf(year, month) - BACK_LENGTH)
    {
      MaxDayBack(year, month);
      MonthStep(year, month);
      assert CDiv(month, 12) == 0 && CMod(month, 12) == month;
    }

    lemma Steps()
      requires Ok()
      ensures MaxDayInMonthFor(year, month) >= 28
      ensures day < 1 ==> Back().Ok() && Back().day >= day + 28
      ensures day > MaxDayInMonthFor(year, month) ==> Forward().Ok() && 1 <= Forward().day < day
    {
      hide FirstOfMonth, MaxDayInMonthFor, CDiv, CMod;
      if month >= 1 {
        MaxDayIsMonthLength(year, month);
        ForwardConserves();
      } else {
        MaxDayBack(year, month);
        ForwardGains();
      }
      if month >= 2 {
        BackConserves();
      } else {
        BackLoses();
      }
    }

    /** Where the carry loop ends. */
    function Settled(): (r: Carry)
      requires Ok()
      ensures r.Ok() && 1 <= r.day <= MaxDayInMonthFor(r.year, r.month)
      decreases day < 1, if day < 1 then -day else day
    {
      Steps();
      if day < 1 then Back().Settled()
      else if day > MaxDayInMonthFor(year, month) then Forward().Settled()
      else this
    }

    /** A day that is too large is carried without loss. */
    lemma {:induction false} SettledForward()
      requires 1 <= month <= 12 && day >= 1
      ensures Settled().Denotes() == Denotes() && Settled().month >= 1 && Settled().year >= year
      decreases day
    {
      hide FirstOfMonth, MaxDayInMonthFor;
      Steps();
      if day > MaxDayInMonthFor(year, month) {
        ForwardConserves();
        assert Forward().year >= year;
        Forward().SettledForward();
      }
    }

    /** Stepping back never wins a day. */
    lemma {:induction false} SettledNeverGains()
      requires Ok() && day <= MaxDayInMonthFor(year, month)
      ensures Settled().Denotes() <= Denotes()
      decreases -day + 31
    {
      hide FirstOfMonth, CDiv, CMod;
      Steps();
      if day < 1 {
        if month >= 2 {
          BackConserves();
          MaxDayIsMonthLength(year, month - 1);
        } else if month == -10 {
          BackLoses();
          MaxDayIsMonthLength(year - 1, 1);
        } else {
          BackLoses();
          MaxDayBack(year, month - 1);
        }
        Back().SettledNeverGains();
      }
    }

    lemma Unfolds()
      requires Ok()
      ensures day < 1 ==> Back().Ok() && Settled() == Back().Settled()
      ensures 1 <= day <= MaxDayInMonthFor(year, month) ==> Settled() == this
    {
      hide MaxDayInMonthFor, CDiv, CMod;
      Steps();
    }

    lemma PastJanuary()
      requires month == 1 && day < 1
      ensures Settled().Denotes() <= Denotes() - 3
    {
      hide FirstOfMonth, CDiv, CMod, MaxDayInMonthFor;
      Steps();
      BackLoses();
      MaxDayBack(year, 0);
      Back().SettledNeverGains();
    }

    /** A day below 1 is exact within its year, and at least three days early past 1 January. */
    lemma {:induction false} SettledBack()
      requires 1 <= month <= 12 && day < 1
      ensures
        if DaysBeforeMonth(year, month) + day >= 1
        then Settled().Denotes() == Denotes() && Settled().month >= 1 && Settled().year == year
        else Settled().Denotes() <= Denotes() - 3
      decreases month
    {
      if month == 1 {
        PastJanuary();
      } else {
        hide FirstOfMonth, CDiv, CMod, MaxDayInMonthFor, DaysBeforeMonth, MonthLength, Settled, Back;
        Unfolds();
        BackConserves();
        MaxDayIsMonthLength(year, month - 1);
        DaysBeforeNext(year, month - 1);
        if Back().day < 1 {
          Back().SettledBack();
        } else {
          Back().Unfolds();
        }
      }
    }

    /** A month counted back is left 28 days after it began: late by the days that it has beyond that. */
    lemma {:induction false} SettledGains()
      requires -10 <= month <= 0 && day > BACK_LENGTH
      ensures Settled().Denotes() >= Denotes() + (LengthOf(year, month) - BACK_LENGTH)
      ensures Settled().Denotes() == Denotes() + (LengthOf(year, month) - BACK_LENGTH)
         <==> day <= 2 * BACK_LENGTH || month == 0
      ensures Settled().year >= year
      decreases -month
    {
      hide FirstOfMonth, CDiv, CMod, MaxDayInMonthFor;
      Steps();
      MaxDayBack(year, month);
      ForwardGains();
      if month == 0 {
        Forward().SettledForward();
      } else {
        MaxDayBack(year, month + 1);
        if Forward().day > BACK_LENGTH {
          Forward().SettledGains();
        }
      }
    }

    /** A step back from a month counted back is early, but for the few steps that meet a month of its true length. */
    lemma {:induction false} SettledLoses()
      requires -10 <= month <= 0 && day < 1
      ensures Settled().Denotes() <= Denotes()
      ensures Settled().Denotes() == Denotes() <==> NoneLostBack(year - 1, month + 12, day)
      ensures Settled().year >= year || (Settled().year == year - 1 && Settled().month >= 1)
           || Settled().Denotes() <= Denotes() - 3
      decreases month + 11
    {
      hide FirstOfMonth, CDiv, CMod, MaxDayInMonthFor;
      Steps();
      BackLoses();
      if month == -10 {
        MaxDayIsMonthLength(year - 1, 1);
        if Back().day < 1 {
          Back().SettledBack();
        }
      } else {
        MaxDayBack(year, month - 1);
        if Back().day < 1 {
          Back().SettledLoses();
        }
      }
    }
  }

  class DateTime {
    var date: int
    var time: int

    constructor (date: int, time: int)
      ensures this.date == date && this.time == time
    {
      this.date, this.time := date, time;
    }

    /** Milliseconds since midnight of day 0. */
    function Millis(): int
      reads this
    {
      MILLIS_PER_DAY * date + time
    }

    /**
     * operator+=: the instant always moves by exactly the given seconds, but the time of day stays below a day
     * only when the sum does not land on midnight exactly.
     */
    method AddSeconds(seconds: int)
      requires 0 <= time <= MILLIS_PER_DAY
      modifies this
      ensures Millis() == old(Millis()) + MILLIS_PER_SEC * seconds
      ensures 0 <= time <= MILLIS_PER_DAY
      ensures time < MILLIS_PER_DAY <==> old(time) + MILLIS_PER_SEC * CMod(seconds, SECONDS_PER_DAY) != MILLIS_PER_DAY
    {
      var d := CDiv(seconds, SECONDS_PER_DAY);
      var s := CMod(seconds, SECONDS_PER_DAY);
      CModBound(seconds, SECONDS_PER_DAY);
      date := date + d;
      time := time + s * MILLIS_PER_SEC;
      if time > MILLIS_PER_DAY {
        date := date + 1;
        time := CMod(time, MILLIS_PER_DAY);
      } else if time < 0 {
        date := date - 1;
        time := time + MILLIS_PER_DAY;
      }
    }

    /** addDurationDateTime. */
    method AddDuration(d: Duration)
      requires date >= EPOCH_DAY && 0 <= time <= MILLIS_PER_DAY
      requires ShiftedYear(GetYMD(date), d) >= -4799
      modifies this
      ensures DaySeconds(date, time) == ExactSeconds(old(date), old(time), d) <==> Exact(old(date), old(time), d)
      ensures d.NonNegative() ==> Exact(old(date), old(time), d)
      ensures d.NonNegative() ==> date >= EPOCH_DAY && 0 <= time < MILLIS_PER_DAY
      ensures time % MILLIS_PER_SEC == 0
      ensures d.years == d.months == 0 ==>
                (DaySeconds(date, time) == DaySeconds(old(date), old(time))
                                           + 86400 * d.days + 3600 * d.hours + 60 * d.minutes + d.seconds
                 <==> Exact(old(date), old(time), d))
      ensures old(time) < MILLIS_PER_DAY && d.years >= 0 && d.months >= 0
              && d.days == d.hours == d.minutes == d.seconds == 0 ==>
                var x, y := GetYMD(old(date)), GetYMD(date);
                12 * y.year + y.month == 12 * (x.year + d.years) + x.month + d.months && 1 <= y.month <= 12
                && y.day == (if x.day > MonthLength(y.year, y.month) then MonthLength(y.year, y.month) else x.day)
                && time == old(time) - old(time) % 1000
    {
      hide JulianDate, MaxDayInMonthFor, FirstOfMonth, CarriedDays, LeftSeconds, Exact, ExactSeconds, DaySeconds;
      ghost var date0, time0 := date, time;
      GetYMDSound(date);
      var start := GetYMD(date);
      var carryHr, seconds := CarryTime(time, d);
      var eYear, eMonth, tmpDay := ShiftMonths(start, d);
      var eDay := tmpDay + d.days + carryHr;
      ghost var shifted := Carry(eYear, eMonth, eDay);
      eYear, eMonth, eDay := CarryDays(eYear, eMonth, eDay);
      date := JulianDate(eYear, eMonth, eDay);
      time := MILLIS_PER_SEC * seconds;
      if ReachesBack(start, d) {
        ConcludeBack(date0, time0, d, shifted, date, time);
      } else {
        Conclude(date0, time0, d, shifted, date, time);
      }
      if d.years == d.months == 0 {
        NoMonths(date0, time0, d);
      }
      if time0 < MILLIS_PER_DAY && d.years >= 0 && d.months >= 0 && d.days == d.hours == d.minutes == d.seconds == 0 {
        JustMonths(date0, time0, d, date, time);
      }
    }
  }

  /** The exact instant is a calendar date and a time of day, and what the duration adds to them. */
  lemma ExactMeans(date: int, time: int, d: Duration)
    requires date >= EPOCH_DAY && ShiftedYear(GetYMD(date), d) >= -4799
    ensures var y := Shifted(GetYMD(date), d);
      ExactSeconds(date, time, d) == 86400 * JulianDate(y.year, y.month, y.day) + time / 1000
                                     + 86400 * d.days + 3600 * d.hours + 60 * d.minutes + d.seconds
  {
    hide GetYMD, JulianDate, FirstOfMonth;
    var x := GetYMD(date);
    JulianDateNearFloor(ShiftedYear(x, d), ShiftedMonth(x, d), ClampedDay(x, d));
  }

  lemma NoMonths(date: int, time: int, d: Duration)
    requires date >= EPOCH_DAY && 0 <= time && ShiftedYear(GetYMD(date), d) >= -4799 && d.years == d.months == 0
    ensures ExactSeconds(date, time, d)
         == DaySeconds(date, time) + 86400 * d.days + 3600 * d.hours + 60 * d.minutes + d.seconds
  {
    hide GetYMD, JulianDate, ExactSeconds;
    GetYMDSound(date);
    ExactMeans(date, time, d);
    assert Shifted(GetYMD(date), d) == GetYMD(date);
  }

  lemma JustMonths(date0: int, time0: int, d: Duration, date: int, time: int)
    requires date0 >= EPOCH_DAY && 0 <= time0 < MILLIS_PER_DAY && ShiftedYear(GetYMD(date0), d) >= -4799
    requires d.years >= 0 && d.months >= 0 && d.days == d.hours == d.minutes == d.seconds == 0
    requires DaySeconds(date, time) == ExactSeconds(date0, time0, d)
    requires 0 <= time < MILLIS_PER_DAY && time % MILLIS_PER_SEC == 0
    ensures GetYMD(date) == Shifted(GetYMD(date0), d) && time == time0 - time0 % 1000
    ensures var x, y := GetYMD(date0), GetYMD(date);
      12 * y.year + y.month == 12 * (x.year + d.years) + x.month + d.months && 1 <= y.month <= 12
      && y.day == if x.day > MonthLength(y.year, y.month) then MonthLength(y.year, y.month) else x.day
  {
    hide GetYMD, JulianDate, ExactSeconds;
    GetYMDSound(date0);
    var x := GetYMD(date0);
    var y := Shifted(x, d);
    ExactMeans(date0, time0, d);
    MonthsShifted(x, d);
    hide Shifted;
    SameDay(date, time, JulianDate(y.year, y.month, y.day), time0);
    GetYMDUndoesJulianDate(y);
  }

  lemma SameDay(date: int, time: int, date': int, time': int)
    requires 0 <= time < MILLIS_PER_DAY && time % MILLIS_PER_SEC == 0 && 0 <= time' < MILLIS_PER_DAY
    requires DaySeconds(date, time) == 86400 * date' + time' / 1000
    ensures date == date' && time == time' - time' % 1000
  {
    assert 0 <= time / 1000 < 86400 && 0 <= time' / 1000 < 86400;
  }

  /** The time of day: seconds, minutes and hours, each carrying into the next, and the days carried out. */
  method CarryTime(time: int, d: Duration) returns (carryHr: int, seconds: int)
    requires 0 <= time
    ensures carryHr == CarriedDays(time, d) && seconds == LeftSeconds(time, d)
  {
    var ticks := time / MILLIS_PER_SEC;
    var sHour, sMin, sSec := ticks / 3600, ticks / 60 % 60, ticks % 60;
    var tmpSec := sSec + d.seconds;
    var eSec := CMod(tmpSec, 60);
    var tmpMin := sMin + d.minutes + CDiv(tmpSec, 60);
    var eMin := CMod(tmpMin, 60);
    var tmpHour := sHour + d.hours + CDiv(tmpMin, 60);
    var eHour := CMod(tmpHour, 24);
    carryHr := CDiv(tmpHour, 24);
    seconds := 3600 * eHour + 60 * eMin + eSec;
  }

  /** The month and year shift, and the start day clamped to the length that the source gives the new month. */
  method ShiftMonths(start: Date, d: Duration) returns (eYear: int, eMonth: int, tmpDay: int)
    requires start.day >= 1
    ensures
      if ReachesBack(start, d)
      then eYear == ShiftedYear(start, d) + 1 && eMonth == ShiftedMonth(start, d) - 12
           && tmpDay == ClampedBack(start.day)
      else eYear == ShiftedYear(start, d) && eMonth == ShiftedMonth(start, d) && tmpDay == ClampedDay(start, d)
  {
    var tmpMonth := start.month + d.months;
    eMonth := CMod(tmpMonth - 1, 12) + 1;
    eYear := start.year + d.years + CDiv(tmpMonth - 1, 12);
    MonthsAround(tmpMonth - 1);
    if ReachesBack(start, d) {
      MaxDayBack(eYear, eMonth);
    } else {
      MaxDayIsMonthLength(eYear, eMonth);
    }
    if start.day > MaxDayInMonthFor(eYear, eMonth) {
      tmpDay := MaxDayInMonthFor(eYear, eMonth);
    } else if start.day < 1 {
      tmpDay := 1;
    } else {
      tmpDay := start.day;
    }
  }

  /** Truncation counts months before January from the year after theirs. */
  lemma MonthsAround(n: int)
    ensures
      if n >= 0 || n % 12 == 0 then CDiv(n, 12) == n / 12 && CMod(n, 12) == n % 12
      else CDiv(n, 12) == n / 12 + 1 && CMod(n, 12) == n % 12 - 12
  {
    if n < 0 {
      var q, r := -n / 12, (-n) % 12;
      assert -n == 12 * q + r;
      if r == 0 {
        IntRemainder(12, -q, 0, n);
      } else {
        IntRemainder(12, -q - 1, 12 - r, n);
      }
    }
  }

  lemma CModBound(a: int, b: int)
    requires b > 0
    ensures -b < CMod(a, b) < b
  {
    if a >= 0 {
      assert a == b * (a / b) + a % b;
    } else {
      assert -a == b * (-a / b) + (-a) % b;
    }
  }

  lemma DaysBeforeNext(year: int, month: int)
    requires 1 <= month < 12
    ensures DaysBeforeMonth(year, month + 1) == DaysBeforeMonth(year, month) + MonthLength(year, month)
    ensures MonthLength(year, month) >= 28
  {
  }

  /** One second past midnight plus a day less one second: the sum is a whole day, and stays in the time. */
  method MidnightIsMissed() returns (x: DateTime)
    ensures fresh(x) && x.date == 0 && x.time == MILLIS_PER_DAY
  {
    x := new DateTime(0, 1000);
    x.AddSeconds(86399);
    assert MILLIS_PER_DAY * x.date + x.time == 1000 + MILLIS_PER_SEC * 86399;
  }

  /** The carry loop ends, in the month and on the day where single steps lead. */
  method CarryDays(year: int, month: int, day: int) returns (eYear: int, eMonth: int, eDay: int)
    requires MonthIndex(month)
    ensures Carry(eYear, eMonth, eDay) == Carry(year, month, day).Settled()
  {
    hide FirstOfMonth, MaxDayInMonthFor;
    eYear, eMonth, eDay := year, month, day;
    while true
      invariant MonthIndex(eMonth) && Carry(eYear, eMonth, eDay).Settled() == Carry(year, month, day).Settled()
      decreases eDay < 1, if eDay < 1 then -eDay else eDay
    {
      Carry(eYear, eMonth, eDay).Steps();
      var carryDay := 0;
      if eDay < 1 {
        eDay := eDay + MaxDayInMonthFor(eYear, eMonth - 1);
        carryDay := -1;
      } else if eDay > MaxDayInMonthFor(eYear, eMonth) {
        eDay := eDay - MaxDayInMonthFor(eYear, eMonth);
        carryDay := 1;
      } else {
        break;
      }
      var tmpMonth := eMonth + carryDay;
      eMonth := CMod(tmpMonth - 1, 12) + 1;
      eYear := eYear + CDiv(tmpMonth - 1, 12);
    }
  }

  /** How far the carry loop can be trusted when the months do not reach back. */
  lemma Conclude(date0: int, time0: int, d: Duration, start: Carry, date: int, time: int)
    requires 0 <= time0 <= MILLIS_PER_DAY && time == MILLIS_PER_SEC * LeftSeconds(time0, d)
    requires 1 <= GetYMD(date0).day && !ReachesBack(GetYMD(date0), d) && ShiftedYear(GetYMD(date0), d) >= -4799
    requires start.year == ShiftedYear(GetYMD(date0), d) && start.month == ShiftedMonth(GetYMD(date0), d)
    requires start.day == ClampedDay(GetYMD(date0), d) + d.days + CarriedDays(time0, d)
    requires var end := start.Settled(); date == JulianDate(end.year, end.month, end.day)
    ensures DaySeconds(date, time) == ExactSeconds(date0, time0, d) <==> Exact(date0, time0, d)
    ensures d.NonNegative() ==> Exact(date0, time0, d) && date >= EPOCH_DAY && 0 <= time < MILLIS_PER_DAY
    ensures time % MILLIS_PER_SEC == 0
  {
    hide JulianDate, FirstOfMonth, CarriedDays, LeftSeconds, ShiftedYear, ShiftedMonth, GetYMD, MaxDayInMonthFor;
    hide Carry.Settled;
    var end := start.Settled();
    TimeIsCarried(time0, d);
    if start.day >= 1 {
      start.SettledForward();
    } else {
      start.SettledBack();
    }
    JulianDateNearFloor(end.year, end.month, end.day);
    WholeSeconds(LeftSeconds(time0, d));
    assert DaySeconds(date, time) == SECONDS_PER_DAY * date + LeftSeconds(time0, d);
    assert ExactSeconds(date0, time0, d) == SECONDS_PER_DAY * start.Denotes() + LeftSeconds(time0, d);
    assert Exact(date0, time0, d) <==> DaysBeforeMonth(start.year, start.month) + start.day >= 1;
    if d.NonNegative() {
      LeftSecondsInDay(time0, d);
      NotBeforeEpoch(end.year, end.month);
    }
  }

  /** How far it can be trusted when they do. */
  lemma ConcludeBack(date0: int, time0: int, d: Duration, start: Carry, date: int, time: int)
    requires 0 <= time0 <= MILLIS_PER_DAY && time == MILLIS_PER_SEC * LeftSeconds(time0, d)
    requires 1 <= GetYMD(date0).day && 1 <= GetYMD(date0).month && ReachesBack(GetYMD(date0), d)
    requires ShiftedYear(GetYMD(date0), d) >= -4799
    requires start.year == ShiftedYear(GetYMD(date0), d) + 1 && start.month == ShiftedMonth(GetYMD(date0), d) - 12
    requires start.day == ClampedBack(GetYMD(date0).day) + d.days + CarriedDays(time0, d)
    requires var end := start.Settled(); date == JulianDate(end.year, end.month, end.day)
    ensures DaySeconds(date, time) == ExactSeconds(date0, time0, d) <==> Exact(date0, time0, d)
    ensures !d.NonNegative() && time % MILLIS_PER_SEC == 0
  {
    hide JulianDate, FirstOfMonth, CarriedDays, LeftSeconds, ShiftedYear, ShiftedMonth, GetYMD, MaxDayInMonthFor;
    hide Carry.Settled, NoneLostBack;
    var x, end := GetYMD(date0), start.Settled();
    var lost := ClampedDay(x, d) - ClampedBack(x.day);
    TimeIsCarried(time0, d);
    SettledBackMonth(start);
    JulianDateNearFloor(end.year, end.month, end.day);
    WholeSeconds(LeftSeconds(time0, d));
    FirstOfMonthBack(start.year, start.month);
    assert DaySeconds(date, time) == SECONDS_PER_DAY * date + LeftSeconds(time0, d);
    assert ExactSeconds(date0, time0, d) == SECONDS_PER_DAY * (start.Denotes() + lost) + LeftSeconds(time0, d);
    assert 0 <= lost <= LengthOf(start.year, start.month) - BACK_LENGTH;
    assert Exact(date0, time0, d) <==> ExactBack(start.year - 1, start.month + 12, start.day, lost);
  }

  /** The carry loop from a month counted back. */
  lemma SettledBackMonth(start: Carry)
    requires -10 <= start.month <= 0
    ensures
      var gain := start.Settled().Denotes() - start.Denotes();
      if start.day > BACK_LENGTH
      then gain >= LengthOf(start.year, start.month) - BACK_LENGTH
           && (gain == LengthOf(start.year, start.month) - BACK_LENGTH
               <==> start.day <= 2 * BACK_LENGTH || start.month == 0)
      else gain <= 0 && (gain == 0 <==> start.day >= 1 || NoneLostBack(start.year - 1, start.month + 12, start.day))
    ensures
      var end := start.Settled();
      end.year >= start.year || (end.year == start.year - 1 && end.month >= 1)
      || (start.day < 1 && end.Denotes() <= start.Denotes() - 3)
  {
    hide FirstOfMonth, MaxDayInMonthFor, NoneLostBack;
    MaxDayBack(start.year, start.month);
    if start.day > BACK_LENGTH {
      start.SettledGains();
    } else if start.day < 1 {
      start.SettledLoses();
    }
  }

  lemma FirstOfMonthBack(year: int, month: int)
    requires -10 <= month <= 0
    ensures FirstOfMonth(year, month) == FirstOfMonth(year - 1, month + 12)
    ensures LengthOf(year, month) == MonthLength(year - 1, month + 12)
  {
  }

  lemma NotBeforeEpoch(year: int, month: int)
    requires year >= -4799 && 1 <= month <= 12
    ensures FirstOfMonth(year, month) >= EPOCH_DAY
  {
    var y := year + 4800 - (if month > 2 then 0 else 1);
    assert y / 4 >= y / 100 by {
      assert y == 4 * (y / 4) + y % 4 && y == 100 * (y / 100) + y % 100;
    }
  }

  lemma WholeSeconds(s: int)
    ensures CDiv(MILLIS_PER_SEC * s, MILLIS_PER_SEC) == s && MILLIS_PER_SEC * s % MILLIS_PER_SEC == 0
  {
  }

  /** The day before 1 January is taken for 28 December, four days earlier: month 0 is given 28 days. */
  lemma DayBeforeNewYear(year: int, d: Duration)
    requires year >= -4798 && d == Duration(0, 0, -1, 0, 0, 0)
    ensures GetYMD(JulianDate(year, 1, 1)) == Date(year, 1, 1)
    ensures !Exact(JulianDate(year, 1, 1), 0, d)
    ensures Carry(year, 1, 0).Back() == Carry(year, 0, 28)
    ensures JulianDate(year, 0, 28) == JulianDate(year, 1, 1) - 4
  {
    hide GetYMD, JulianDate, CarriedDays, FirstOfMonth;
    MaxDayBack(year, 0);
    GetYMDUndoesJulianDate(Date(year, 1, 1));
    NothingCarried(d);
    assert ShiftedYear(Date(year, 1, 1), d) == year && ShiftedMonth(Date(year, 1, 1), d) == 1;
    assert DaysBeforeMonth(year, 1) == 0 && ClampedDay(Date(year, 1, 1), d) == 1;
    JulianDateNearFloor(year, 0, 28);
    JulianDateNearFloor(year, 1, 1);
    MonthStep(year, 0);
  }

  /** Three months before 31 March is taken for 28 December; one day more makes it exact again. */
  lemma DecemberFromMarch(year: int)
    requires year >= -4798
    ensures GetYMD(JulianDate(year, 3, 31)) == Date(year, 3, 31)
    ensures !Exact(JulianDate(year, 3, 31), 0, Duration(0, -3, 0, 0, 0, 0))
    ensures Exact(JulianDate(year, 3, 31), 0, Duration(0, -3, 1, 0, 0, 0))
  {
    hide GetYMD, JulianDate, CarriedDays;
    GetYMDUndoesJulianDate(Date(year, 3, 31));
    NothingCarried(Duration(0, -3, 0, 0, 0, 0));
    NothingCarried(Duration(0, -3, 1, 0, 0, 0));
    assert MonthLength(year - 1, 12) == 31;
  }

  lemma NothingCarried(d: Duration)
    requires d.hours == 0 && d.minutes == 0 && d.seconds == 0
    ensures CarriedDays(0, d) == 0
  {
  }
}
