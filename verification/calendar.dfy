/** Julian day numbers of the proleptic Gregorian calendar (lfutil/include/time/datetime.h). */
module Calendar {
  import opened Words

  /** Division of C: truncation toward zero. */
  function CDiv(a: int, b: int): int
    requires b > 0
  {
    if a >= 0 then a / b else -(-a / b)
  }

  function CMod(a: int, b: int): int
    requires b > 0
  {
    a - b * CDiv(a, b)
  }

  datatype Date = Date(year: int, month: int, day: int)

  // ---------- the calendar itself

  predicate Leap(year: int) { year % 4 == 0 && (year % 100 != 0 || year % 400 == 0) }

  function MonthLength(year: int, month: int): nat
    requires 1 <= month <= 12
  {
    if month == 2 then (if Leap(year) then 29 else 28)
    else if month == 4 || month == 6 || month == 9 || month == 11 then 30
    else 31
  }

  predicate ValidDate(x: Date) {
    1 <= x.month <= 12 && 1 <= x.day <= MonthLength(x.year, x.month)
  }

  predicate Before(x: Date, y: Date) {
    x.year < y.year || (x.year == y.year && (x.month < y.month || (x.month == y.month && x.day < y.day)))
  }

  function NextDay(x: Date): Date
    requires ValidDate(x)
  {
    if x.day < MonthLength(x.year, x.month) then x.(day := x.day + 1)
    else if x.month < 12 then Date(x.year, x.month + 1, 1)
    else Date(x.year + 1, 1, 1)
  }

  /** The first day the formulas are meant for: 1 March 4801 BC, astronomical year -4800. */
  const EPOCH := Date(-4800, 3, 1)

  predicate InRange(x: Date) { ValidDate(x) && !Before(x, EPOCH) }

  // ---------- counting days one by one

  function YearLength(year: int): nat { if Leap(year) then 366 else 365 }

  /** Days from 1 January -4800 to 1 January of a later year. */
  function DaysBeforeYear(year: int): nat
    requires year >= -4800
    decreases year + 4800
  {
    if year == -4800 then 0 else DaysBeforeYear(year - 1) + YearLength(year - 1)
  }

  function DaysBeforeMonth(year: int, month: int): nat
    requires 1 <= month <= 12
    decreases month
  {
    if month == 1 then 0 else DaysBeforeMonth(year, month - 1) + MonthLength(year, month - 1)
  }

  const EPOCH_DAY := -32044

  /** The Julian day number by counting from the epoch. */
  function DayCount(x: Date): int
    requires ValidDate(x) && x.year >= -4800
  {
    EPOCH_DAY - 60 + DaysBeforeYear(x.year) + DaysBeforeMonth(x.year, x.month) + x.day - 1
  }

  lemma MonthTable(year: int)
    ensures DaysBeforeMonth(year, 2) == 31
    ensures
      var f := MonthLength(year, 2);
      && DaysBeforeMonth(year, 3) == 31 + f && DaysBeforeMonth(year, 4) == 62 + f && DaysBeforeMonth(year, 5) == 92 + f
      && DaysBeforeMonth(year, 6) == 123 + f && DaysBeforeMonth(year, 7) == 153 + f
      && DaysBeforeMonth(year, 8) == 184 + f && DaysBeforeMonth(year, 9) == 215 + f
      && DaysBeforeMonth(year, 10) == 245 + f && DaysBeforeMonth(year, 11) == 276 + f
      && DaysBeforeMonth(year, 12) == 306 + f
  {
    assert DaysBeforeMonth(year, 3) == DaysBeforeMonth(year, 2) + MonthLength(year, 2);
    assert DaysBeforeMonth(year, 5) == DaysBeforeMonth(year, 4) + 30;
    assert DaysBeforeMonth(year, 7) == DaysBeforeMonth(year, 6) + 30;
    assert DaysBeforeMonth(year, 9) == DaysBeforeMonth(year, 8) + 31;
    assert DaysBeforeMonth(year, 11) == DaysBeforeMonth(year, 10) + 31;
  }

  lemma DayCountStep(x: Date)
    requires ValidDate(x) && x.year >= -4800
    ensures ValidDate(NextDay(x)) && DayCount(NextDay(x)) == DayCount(x) + 1
  {
    MonthTable(x.year);
  }

  lemma {:induction false} YearsAdvance(a: int, b: int)
    requires -4800 <= a < b
    ensures DaysBeforeYear(b) >= DaysBeforeYear(a) + YearLength(a)
    decreases b - a
  {
    if a < b - 1 {
      YearsAdvance(a, b - 1);
    }
  }

  lemma {:induction false} MonthsAdvance(year: int, a: int, b: int)
    requires 1 <= a < b <= 12
    ensures DaysBeforeMonth(year, b) >= DaysBeforeMonth(year, a) + MonthLength(year, a)
    decreases b
  {
    if a < b - 1 {
      MonthsAdvance(year, a, b - 1);
    }
  }

  lemma DayOfYear(x: Date)
    requires ValidDate(x)
    ensures DaysBeforeMonth(x.year, x.month) + x.day <= YearLength(x.year)
  {
    MonthTable(x.year);
  }

  lemma DayCountIncreases(x: Date, y: Date)
    requires ValidDate(x) && ValidDate(y) && x.year >= -4800 && Before(x, y)
    ensures DayCount(x) < DayCount(y)
  {
    if x.year < y.year {
      YearsAdvance(x.year, y.year);
      DayOfYear(x);
    } else if x.month < y.month {
      MonthsAdvance(x.year, x.month, y.month);
    }
  }

  /** The leap years before a year, in closed form. */
  lemma {:induction false} YearsInClosedForm(year: int)
    requires year >= -4800
    ensures var n := year + 4800; DaysBeforeYear(year) == 365 * n + LeapDays(n)
    decreases year + 4800
  {
    if year > -4800 {
      YearsInClosedForm(year - 1);
      LeapStep(year + 4799);
    }
  }

  /** The leap days of n years of this calendar. */
  function LeapDays(n: nat): int { (n + 3) / 4 - (n + 99) / 100 + (n + 399) / 400 }

  lemma LeapStep(n: nat)
    ensures LeapDays(n + 1) == LeapDays(n) + (if Leap(n - 4800) then 1 else 0)
  {
    LeapPeriodic(n);
    DivisibilityChain(n);
    QuotientStep(n, 4);
    QuotientStep(n, 100);
    QuotientStep(n, 400);
  }

  lemma LeapPeriodic(n: nat)
    ensures Leap(n - 4800) == Leap(n)
  {
    RemainderPeriodic(n, 4);
    RemainderPeriodic(n, 100);
    RemainderPeriodic(n, 400);
  }

  lemma RemainderPeriodic(n: nat, k: nat)
    requires k == 4 || k == 100 || k == 400
    ensures (n - 4800) % k == n % k
  {
    if k == 4 {
    } else if k == 100 {
    } else {
    }
  }

  lemma DivisibilityChain(n: int)
    ensures n % 400 == 0 ==> n % 100 == 0
    ensures n % 100 == 0 ==> n % 4 == 0
  {
  }

  lemma QuotientStep(n: nat, k: nat)
    requires k > 0
    ensures (n + k) / k == (n + k - 1) / k + (if n % k == 0 then 1 else 0)
  {
    var q, r := n / k, n % k;
    assert n == k * q + r && k * (q + 1) == k * q + k;
    Remainder(k, q + 1, r, n + k);
    if r == 0 {
      Remainder(k, q, k - 1, n + k - 1);
    } else {
      Remainder(k, q + 1, r - 1, n + k - 1);
    }
  }

  // ---------- the formulas of the source

  function JulianDate(year: int, month: int, day: int): int {
    var a := CDiv(14 - month, 12);
    var y := year + 4800 - a;
    var m := month + 12 * a - 3;
    day + CDiv(153 * m + 2, 5) + y * 365 + CDiv(y, 4) - CDiv(y, 100) + CDiv(y, 400) - 32045
  }

  function GetYMD(jday: int): Date {
    var a := jday + 32044;
    var b := CDiv(4 * a + 3, 146097);
    var c := a - CDiv(b * 146097, 4);
    var d := CDiv(4 * c + 3, 1461);
    var e := c - CDiv(1461 * d, 4);
    var m := CDiv(5 * e + 2, 153);
    Date(b * 100 + d - 4800 + CDiv(m, 10), m + 3 - 12 * CDiv(m, 10), e - CDiv(153 * m + 2, 5) + 1)
  }

  function MaxDayInMonthFor(yr: int, month: int): int {
    var tmpMonth := CMod(month - 1, 12) + 1;
    var tmpYear := yr + CDiv(tmpMonth - 1, 12);
    if tmpMonth in {1, 3, 5, 7, 8, 10, 12} then 31
    else if tmpMonth in {4, 6, 9, 11} then 30
    else if tmpMonth == 2 && (CMod(tmpYear, 400) == 0 || (CMod(tmpYear, 100) != 0 && CMod(tmpYear, 4) == 0)) then 29
    else 28
  }

  lemma CModZero(a: int, b: int)
    requires b > 0
    ensures CMod(a, b) == 0 <==> a % b == 0
  {
    if a >= 0 {
      assert a == b * (a / b) + a % b;
    } else {
      assert -a == b * (-a / b) + (-a) % b;
      var q := -a / b;
      if (-a) % b == 0 {
        assert a == b * -q;
        Multiple(a, b, -q);
      }
      if a % b == 0 {
        var p := a / b;
        assert -a == b * -p;
        Multiple(-a, b, -p);
      }
    }
  }

  lemma Multiple(a: int, b: int, q: int)
    requires b > 0 && a == b * q
    ensures a % b == 0
  {
    assert a - b * (a / b) == b * (q - a / b);
    var k := q - a / b;
    assert k > 0 ==> b * k >= b;
    assert k < 0 ==> b * k <= -b;
  }

  lemma MaxDayIsMonthLength(yr: int, month: int)
    requires 1 <= month <= 12
    ensures MaxDayInMonthFor(yr, month) == MonthLength(yr, month)
  {
    assert CMod(month - 1, 12) == month - 1 && CDiv(month - 1, 12) == 0;
    if month == 2 {
      CModZero(yr, 400);
      CModZero(yr, 100);
      CModZero(yr, 4);
      DivisibilityChain(yr);
    }
  }

  // ---------- the formulas count days

  /** A date as a day of the year that begins in March of y - 4800. */
  lemma JulianDateInMarchYear(year: int, month: int, day: int)
    requires 1 <= month <= 12 && year + 4800 - (if month <= 2 then 1 else 0) >= 0
    ensures
      var y := year + 4800 - (if month <= 2 then 1 else 0);
      var m := if month <= 2 then month + 9 else month - 3;
      JulianDate(year, month, day) == day + (153 * m + 2) / 5 + y * 365 + y / 4 - y / 100 + y / 400 - 32045
  {
    assert CDiv(14 - month, 12) == if month <= 2 then 1 else 0;
  }

  /** Years that begin in March end with the leap day. */
  lemma MarchLeapDays(n: nat)
    ensures n / 4 - n / 100 + n / 400 == LeapDays(n + 1) - 1
  {
    assert (n + 4) / 4 == n / 4 + 1 && (n + 100) / 100 == n / 100 + 1 && (n + 400) / 400 == n / 400 + 1;
  }

  /** The formula counts days: each date's number is its distance from the epoch. */
  lemma JulianDateCounts(x: Date)
    requires InRange(x)
    ensures JulianDate(x.year, x.month, x.day) == DayCount(x)
  {
    hide JulianDate;
    var n := x.year + 4800;
    MonthTable(x.year);
    YearsInClosedForm(x.year);
    JulianDateInMarchYear(x.year, x.month, x.day);
    if x.month <= 2 {
      MarchLeapDays(n - 1);
    } else {
      MarchLeapDays(n);
      LeapStep(n);
    }
  }

  lemma JulianDateIncreases(x: Date, y: Date)
    requires InRange(x) && InRange(y) && Before(x, y)
    ensures JulianDate(x.year, x.month, x.day) < JulianDate(y.year, y.month, y.day)
  {
    JulianDateCounts(x);
    JulianDateCounts(y);
    DayCountIncreases(x, y);
  }

  /** Successive calendar days have successive numbers. */
  lemma JulianDateStep(x: Date)
    requires InRange(x)
    ensures
      var y := NextDay(x);
      InRange(y) && JulianDate(y.year, y.month, y.day) == JulianDate(x.year, x.month, x.day) + 1
  {
    DayCountStep(x);
    JulianDateCounts(x);
    JulianDateCounts(NextDay(x));
  }

  // ---------- and are undone by getYMD

  /** The century b, year d of the century, month m and day offset e that getYMD works out. */
  lemma Centuries(a: nat)
    ensures
      var b := (4 * a + 3) / 146097;
      var c := a - b * 146097 / 4;
      b * 146097 / 4 == 36524 * b + b / 4 && 0 <= c <= 36524 && (c == 36524 ==> b % 4 == 3)
  {
  }

  lemma YearsOfCentury(c: nat)
    requires c <= 36524
    ensures
      var d := (4 * c + 3) / 1461;
      var e := c - 1461 * d / 4;
      1461 * d / 4 == 365 * d + d / 4 && d <= 99 && 0 <= e <= 365
      && (e == 365 ==> d % 4 == 3 && (d == 99 ==> c == 36524))
  {
  }

  lemma MonthsOfYear(e: nat)
    requires e <= 365
    ensures
      var m := (5 * e + 2) / 153;
      var day := e - (153 * m + 2) / 5 + 1;
      && 0 <= m <= 11 && 1 <= day <= 31
      && (m == 1 || m == 3 || m == 6 || m == 8 ==> day <= 30)
      && (m == 11 ==> day <= 29 && (day == 29 ==> e == 365))
  {
  }

  lemma LeapInCentury(b: nat, d: nat)
    requires d <= 99 && d % 4 == 3 && (d == 99 ==> b % 4 == 3)
    ensures Leap(b * 100 + d - 4800 + 1)
  {
    var y := b * 100 + d + 1;
    LeapPeriodic(y);
    if d == 99 {
      CenturyLeap(b);
    } else {
      YearLeap(b, d);
    }
  }

  lemma CenturyLeap(b: nat)
    requires b % 4 == 3
    ensures (b * 100 + 100) % 400 == 0 && (b * 100 + 100) % 4 == 0
  {
    var q := b / 4 + 1;
    assert b + 1 == 4 * q;
    Multiple(b * 100 + 100, 400, q);
    Multiple(b * 100 + 100, 4, 100 * q);
  }

  lemma YearLeap(b: nat, d: nat)
    requires d < 99 && d % 4 == 3
    ensures (b * 100 + d + 1) % 100 != 0 && (b * 100 + d + 1) % 4 == 0
  {
    var q := d / 4 + 1;
    assert d + 1 == 4 * q;
    Multiple(b * 100 + d + 1, 4, 25 * b + q);
  }

  /** Day offset e of the year that begins in March of y - 4800. */
  function MarchDate(y: nat, e: nat): Date {
    var m := (5 * e + 2) / 153;
    Date(y - 4800 + m / 10, m + 3 - 12 * (m / 10), e - (153 * m + 2) / 5 + 1)
  }

  lemma MarchDateValid(y: nat, e: nat)
    requires e <= 365 && (e == 365 ==> Leap(y - 4800 + 1))
    ensures InRange(MarchDate(y, e))
  {
    MonthsOfYear(e);
  }

  function MarchNumber(y: nat, e: nat): int { e + 365 * y + y / 4 - y / 100 + y / 400 + EPOCH_DAY }

  lemma MarchDateNumber(y: nat, e: nat)
    requires e <= 365
    ensures var x := MarchDate(y, e); JulianDate(x.year, x.month, x.day) == MarchNumber(y, e)
  {
    hide JulianDate;
    MonthsOfYear(e);
    var x := MarchDate(y, e);
    assert x.year + 4800 - (if x.month <= 2 then 1 else 0) == y;
    JulianDateInMarchYear(x.year, x.month, x.day);
  }

  lemma GetYMDParts(a: nat, b: nat, c: nat, d: nat, e: nat)
    requires b == (4 * a + 3) / 146097 && c == a - b * 146097 / 4
    requires d == (4 * c + 3) / 1461 && e == c - 1461 * d / 4
    ensures GetYMD(a - 32044) == MarchDate(b * 100 + d, e)
  {
    assert CDiv(4 * a + 3, 146097) == b;
    assert CDiv(b * 146097, 4) == b * 146097 / 4;
    assert CDiv(4 * c + 3, 1461) == d;
    assert CDiv(1461 * d, 4) == 1461 * d / 4;
  }

  lemma CenturyNumber(b: nat, d: nat, e: nat)
    requires d <= 99
    ensures MarchNumber(b * 100 + d, e) == e + (365 * d + d / 4) + (36524 * b + b / 4) + EPOCH_DAY
  {
    var y := b * 100 + d;
    assert y / 4 == 25 * b + d / 4;
    assert y / 100 == b;
    assert y / 400 == b / 4;
  }

  /** Every day from the epoch on has a valid date with that number. */
  lemma GetYMDSound(jday: int)
    requires jday >= EPOCH_DAY
    ensures
      var x := GetYMD(jday);
      InRange(x) && JulianDate(x.year, x.month, x.day) == jday
  {
    hide GetYMD, JulianDate, MarchDate, MarchNumber, InRange;
    var a := jday + 32044;
    Centuries(a);
    var b := (4 * a + 3) / 146097;
    var c := a - b * 146097 / 4;
    YearsOfCentury(c);
    var d := (4 * c + 3) / 1461;
    var e := c - 1461 * d / 4;
    GetYMDParts(a, b, c, d, e);
    if e == 365 {
      LeapInCentury(b, d);
    }
    MarchDateValid(b * 100 + d, e);
    MarchDateNumber(b * 100 + d, e);
    CenturyNumber(b, d, e);
  }

  /** getYMD undoes julianDate on every date from the epoch on. */
  lemma GetYMDUndoesJulianDate(x: Date)
    requires InRange(x)
    ensures JulianDate(x.year, x.month, x.day) >= EPOCH_DAY && GetYMD(JulianDate(x.year, x.month, x.day)) == x
  {
    var jday := JulianDate(x.year, x.month, x.day);
    assert JulianDate(-4800, 3, 1) == EPOCH_DAY;
    if x != EPOCH {
      JulianDateIncreases(EPOCH, x);
    }
    GetYMDSound(jday);
    var y := GetYMD(jday);
    if Before(x, y) {
      JulianDateIncreases(x, y);
    } else if Before(y, x) {
      JulianDateIncreases(y, x);
    }
  }

  /** Some days everybody knows. */
  lemma KnownDays()
    ensures JulianDate(2000, 1, 1) == 2451545 && JulianDate(1970, 1, 1) == 2440588 && JulianDate(1858, 11, 17) == 2400001
    ensures GetYMD(2451545) == Date(2000, 1, 1) && GetYMD(2440587) == Date(1969, 12, 31)
  {
    hide JulianDate, GetYMD;
    JulianDateInMarchYear(2000, 1, 1);
    JulianDateInMarchYear(1970, 1, 1);
    JulianDateInMarchYear(1969, 12, 31);
    JulianDateInMarchYear(1858, 11, 17);
    GetYMDUndoesJulianDate(Date(2000, 1, 1));
    GetYMDUndoesJulianDate(Date(1969, 12, 31));
  }

  /** The leap days of four years, from the formula. */
  lemma KnownLeapDays()
    ensures JulianDate(2000, 3, 1) == JulianDate(2000, 2, 28) + 2 && JulianDate(1900, 3, 1) == JulianDate(1900, 2, 28) + 1
    ensures JulianDate(2024, 3, 1) == JulianDate(2024, 2, 28) + 2 && JulianDate(2023, 3, 1) == JulianDate(2023, 2, 28) + 1
  {
    hide JulianDate;
    JulianDateInMarchYear(2000, 3, 1);
    JulianDateInMarchYear(2000, 2, 28);
    JulianDateInMarchYear(1900, 3, 1);
    JulianDateInMarchYear(1900, 2, 28);
    JulianDateInMarchYear(2024, 3, 1);
    JulianDateInMarchYear(2024, 2, 28);
    JulianDateInMarchYear(2023, 3, 1);
    JulianDateInMarchYear(2023, 2, 28);
  }

  const INT_MAX := 0x7fff_ffff

  predicate FitsInt(n: int) { -INT_MAX - 1 <= n <= INT_MAX }

  /** Every intermediate value of julianDate, in the order in which it is computed. */
  function JulianDateTerms(year: int, month: int, day: int): seq<int> {
    var a := CDiv(14 - month, 12);
    var y := year + 4800 - a;
    var m := month + 12 * a - 3;
    [14 - month, a, year + 4800, y, 12 * a, month + 12 * a, m, 153 * m, 153 * m + 2, CDiv(153 * m + 2, 5), y * 365,
     day + CDiv(153 * m + 2, 5), day + CDiv(153 * m + 2, 5) + y * 365, CDiv(y, 4), CDiv(y, 100), CDiv(y, 400),
     day + CDiv(153 * m + 2, 5) + y * 365 + CDiv(y, 4),
     day + CDiv(153 * m + 2, 5) + y * 365 + CDiv(y, 4) - CDiv(y, 100),
     day + CDiv(153 * m + 2, 5) + y * 365 + CDiv(y, 4) - CDiv(y, 100) + CDiv(y, 400), JulianDate(year, month, day)]
  }

  /** Every intermediate value of getYMD, and the three results. */
  function GetYMDTerms(jday: int): seq<int> {
    var a := jday + 32044;
    var b := CDiv(4 * a + 3, 146097);
    var c := a - CDiv(b * 146097, 4);
    var d := CDiv(4 * c + 3, 1461);
    var e := c - CDiv(1461 * d, 4);
    var m := CDiv(5 * e + 2, 153);
    [a, 4 * a, 4 * a + 3, b, b * 146097, CDiv(b * 146097, 4), c, 4 * c, 4 * c + 3, d, 1461 * d, CDiv(1461 * d, 4), e,
     5 * e, 5 * e + 2, m, 153 * m, 153 * m + 2, CDiv(153 * m + 2, 5), e - CDiv(153 * m + 2, 5), CDiv(m, 10), m + 3,
     12 * CDiv(m, 10), b * 100, b * 100 + d, b * 100 + d - 4800, GetYMD(jday).day, GetYMD(jday).month, GetYMD(jday).year]
  }

  predicate AllFit(s: seq<int>) { forall i :: 0 <= i < |s| ==> FitsInt(s[i]) }

  /** In 32-bit arithmetic getYMD is exact up to day 536838867, and no further: one day later 4 a + 3 is too large. */
  lemma NoOverflow(jday: int)
    requires jday >= EPOCH_DAY
    ensures AllFit(GetYMDTerms(jday)) <==> jday <= 536838867
  {
    var a: nat := jday + 32044;
    if jday <= 536838867 {
      GetYMDBounds(a, (4 * a + 3) / 146097);
    } else {
      LargestTerm(jday);
      assert !FitsInt(GetYMDTerms(jday)[2]);
      hide GetYMDTerms;
    }
  }

  lemma LargestTerm(jday: int)
    ensures |GetYMDTerms(jday)| > 2 && GetYMDTerms(jday)[2] == 4 * (jday + 32044) + 3
  {
  }

  lemma GetYMDBounds(a: nat, b: nat)
    requires a <= 536870911 && b == (4 * a + 3) / 146097
    ensures AllFit(GetYMDTerms(a - 32044))
  {
    assert 4 * a + 3 == 146097 * b + (4 * a + 3) % 146097;
    var c := a - b * 146097 / 4;
    assert 0 <= c <= 36525;
    var d := (4 * c + 3) / 1461;
    assert 0 <= d <= 100;
    var e := c - 1461 * d / 4;
    assert 0 <= e <= 366;
  }

  /** Nor does julianDate overflow for any date that far. */
  lemma JulianDateFits(x: Date)
    requires InRange(x) && x.year <= 1465102
    ensures AllFit(JulianDateTerms(x.year, x.month, x.day))
  {
    hide CDiv;
    var a := CDiv(14 - x.month, 12);
    var m, y := x.month + 12 * a - 3, x.year + 4800 - a;
    CDivShrinks(14 - x.month, 12);
    assert 0 <= m <= 11 && 0 <= y <= 1469902;
    CDivShrinks(153 * m + 2, 5);
    CDivShrinks(y, 4);
    CDivShrinks(y, 100);
    CDivShrinks(y, 400);
  }

  lemma CDivShrinks(a: nat, b: int)
    requires b in {4, 5, 12, 100, 400}
    ensures 0 <= CDiv(a, b) <= a && CDiv(a, b) == a / b
  {
    if b == 4 {
    } else if b == 5 {
    } else if b == 12 {
    } else if b == 100 {
    } else {
    }
  }
}
