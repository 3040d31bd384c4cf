/** DateTime values as XML Schema date-time strings (lfutil/src/time/datetime.cpp): printing, and reading with sscanf. */
module XmlDateTimes {
  import opened Words
  import opened Calendar
  import opened DateTimes

  // ---------- decimal numbers

  predicate IsDigit(c: char) { '0' <= c <= '9' }

  predicate AllDigits(s: string) { forall i :: 0 <= i < |s| ==> IsDigit(s[i]) }

  function Digit(n: nat): char
    requires n < 10
  {
    '0' + n as char
  }

  function Digits(n: nat): (s: string)
    ensures |s| > 0
  {
    if n < 10 then [Digit(n)] else Digits(n / 10) + [Digit(n % 10)]
  }

  /** An integer as an output stream prints it. */
  function Decimal(n: int): string { if n < 0 then "-" + Digits(-n) else Digits(n) }

  function Value(s: string): nat
    requires AllDigits(s)
  {
    if s == "" then 0 else 10 * Value(s[..|s| - 1]) + (s[|s| - 1] as int - '0' as int)
  }

  lemma {:induction false} DigitsValue(n: nat)
    ensures AllDigits(Digits(n)) && Value(Digits(n)) == n
  {
    var s := Digits(n);
    if n >= 10 {
      DigitsValue(n / 10);
      assert s[..|s| - 1] == Digits(n / 10);
    } else {
      assert s[..0] == "";
    }
  }

  lemma {:induction false} ZeroInFront(s: string)
    requires AllDigits(s)
    ensures AllDigits("0" + s) && Value("0" + s) == Value(s)
  {
    var t := "0" + s;
    if s == "" {
      assert t[..0] == "";
    } else {
      assert t[..|t| - 1] == "0" + s[..|s| - 1];
      ZeroInFront(s[..|s| - 1]);
    }
  }

  lemma DigitsLength(n: nat)
    ensures |Digits(n)| == 1 <==> n < 10
    ensures |Digits(n)| <= 2 <==> n < 100
    ensures |Digits(n)| <= 3 <==> n < 1000
    ensures |Digits(n)| <= 4 <==> n < 10000
  {
    assert n / 10 < 10 <==> n < 100;
    assert n / 10 < 100 <==> n < 1000;
    assert n / 10 < 1000 <==> n < 10000;
    assert n / 10 / 10 < 10 <==> n < 1000;
    assert n / 10 / 10 / 10 < 10 <==> n < 10000;
    if n >= 10 {
      assert |Digits(n)| == |Digits(n / 10)| + 1;
      if n >= 100 {
        assert |Digits(n / 10)| == |Digits(n / 10 / 10)| + 1;
        if n >= 1000 {
          assert |Digits(n / 10 / 10)| == |Digits(n / 10 / 10 / 10)| + 1;
        }
      }
    }
  }

  // ---------- printing

  function Padded(n: nat): string { (if n <= 9 then "0" else "") + Digits(n) }

  datatype Fields = Fields(year: int, month: int, day: int, hour: int, minute: int, second: int)

  function Print(f: Fields): string
    requires f.month >= 0 && f.day >= 0 && f.hour >= 0 && f.minute >= 0 && f.second >= 0
  {
    Decimal(f.year) + "-" + Padded(f.month) + "-" + Padded(f.day) + "T"
    + Padded(f.hour) + ":" + Padded(f.minute) + ":" + Padded(f.second) + "Z"
  }

  // ---------- reading

  function SkipSpace(s: string): string { if s != "" && Space(s[0]) then SkipSpace(s[1..]) else s }

  /** How many of the first characters, width at most, are digits. */
  function DigitRun(s: string, width: nat): (n: nat)
    ensures n <= width && n <= |s| && AllDigits(s[..n])
    ensures n < width && n < |s| ==> !IsDigit(s[n])
  {
    if width == 0 || s == "" || !IsDigit(s[0]) then 0
    else
      var n := DigitRun(s[1..], width - 1);
      assert s[..n + 1] == [s[0]] + s[1..][..n];
      n + 1
  }

  /** sscanf's %d with a field width: blanks are skipped, a sign counts, and at least one digit must follow. */
  function ScanInt(s: string, width: nat): Option<(int, string)>
    requires width > 0
  {
    var t := SkipSpace(s);
    var signed := t != "" && (t[0] == '-' || t[0] == '+');
    var u := if signed then t[1..] else t;
    var n := DigitRun(u, if signed then width - 1 else width);
    if n == 0 then None
    else
      var v: int := Value(u[..n]);
      Some((if signed && t[0] == '-' then -v else v, u[n..]))
  }

  /** A number and the literal after it. */
  function ScanThen(s: string, width: nat, literal: char): Option<(int, string)>
    requires width > 0
  {
    match ScanInt(s, width)
    case None => None
    case Some((n, rest)) => if rest != "" && rest[0] == literal then Some((n, rest[1..])) else None
  }

  /** All six numbers, or nothing: the source leaves the fields it has not reached unset. */
  function Scan(s: string): Option<Fields> {
    match ScanThen(s, 4, '-')
    case None => None
    case Some((year, s1)) => match ScanThen(s1, 2, '-')
      case None => None
      case Some((month, s2)) => match ScanThen(s2, 2, 'T')
        case None => None
        case Some((day, s3)) => match ScanThen(s3, 2, ':')
          case None => None
          case Some((hour, s4)) => match ScanThen(s4, 2, ':')
            case None => None
            case Some((minute, s5)) => match ScanInt(s5, 2)
              case None => None
              case Some((second, _)) => Some(Fields(year, month, day, hour, minute, second))
  }

  lemma {:induction false} RunOf(d: string, rest: string, width: nat)
    requires AllDigits(d) && |d| <= width && (|d| < width ==> rest == "" || !IsDigit(rest[0]))
    ensures DigitRun(d + rest, width) == |d|
  {
    if d == "" {
      assert d + rest == rest;
    } else {
      assert (d + rest)[1..] == d[1..] + rest;
      RunOf(d[1..], rest, width - 1);
    }
  }

  lemma {:induction false} RunStops(d: string, rest: string, width: nat)
    requires AllDigits(d) && |d| >= width
    ensures DigitRun(d + rest, width) == width
  {
    if width > 0 {
      assert (d + rest)[1..] == d[1..] + rest;
      RunStops(d[1..], rest, width - 1);
    }
  }

  /** A number of no more digits than its width is read as it stands. */
  lemma ScanDigits(d: string, rest: string, width: nat)
    requires AllDigits(d) && 0 < |d| <= width && (|d| < width ==> rest == "" || !IsDigit(rest[0]))
    ensures ScanInt(d + rest, width) == Some((Value(d), rest))
  {
    hide ScanInt, DigitRun, Value;
    var s := d + rest;
    assert s[0] == d[0] && IsDigit(s[0]);
    ScanUnsigned(s, width);
    RunOf(d, rest, width);
    assert s[..|d|] == d && s[|d|..] == rest;
  }

  /** So is one with a literal behind it. */
  lemma ScanDigitsThen(d: string, literal: char, rest: string, width: nat)
    requires AllDigits(d) && 0 < |d| <= width && !IsDigit(literal)
    ensures ScanThen(d + ([literal] + rest), width, literal) == Some((Value(d), rest))
  {
    hide ScanInt, Value;
    ScanDigits(d, [literal] + rest, width);
    assert ([literal] + rest)[1..] == rest;
  }

  /** The six numbers, their widths and the literals between them. */
  lemma ScanParts(s: string, s1: string, s2: string, s3: string, s4: string, s5: string, rest: string, f: Fields)
    requires ScanThen(s, 4, '-') == Some((f.year, s1)) && ScanThen(s1, 2, '-') == Some((f.month, s2))
    requires ScanThen(s2, 2, 'T') == Some((f.day, s3)) && ScanThen(s3, 2, ':') == Some((f.hour, s4))
    requires ScanThen(s4, 2, ':') == Some((f.minute, s5)) && ScanInt(s5, 2) == Some((f.second, rest))
    ensures Scan(s) == Some(f)
  {
    hide ScanThen, ScanInt;
  }

  /** A two-digit field is read back whatever follows it. */
  lemma ScanPadded(n: nat, rest: string)
    requires n < 100
    ensures ScanInt(Padded(n) + rest, 2) == Some((n, rest))
  {
    var d := Padded(n);
    DigitsValue(n);
    DigitsLength(n);
    ZeroInFront(Digits(n));
    assert |d| == 2 && AllDigits(d) && Value(d) == n;
    var s := d + rest;
    assert IsDigit(s[0]);
    RunOf(d, rest, 2);
    assert s[..2] == d && s[2..] == rest;
  }

  lemma PaddedThen(n: nat, literal: char, rest: string)
    requires n < 100
    ensures ScanThen(Padded(n) + ([literal] + rest), 2, literal) == Some((n, rest))
  {
    ScanPadded(n, [literal] + rest);
  }

  /** The year field holds four characters, the sign included. */
  lemma ScanYear(year: int, rest: string)
    ensures ScanThen(Decimal(year) + ("-" + rest), 4, '-') == if -999 <= year <= 9999 then Some((year, rest)) else None
  {
    hide DigitRun, ScanInt, Value, Digits;
    var n := if year < 0 then -year else year;
    var width := if year < 0 then 3 else 4;
    var d := Digits(n);
    var tail := "-" + rest;
    DigitsValue(n);
    DigitsLength(n);
    YearRun(d, rest, width);
    assert (d + tail)[0] == d[0] && IsDigit(d[0]);
    if year < 0 {
      assert Decimal(year) + tail == "-" + (d + tail) && ("-" + (d + tail))[1..] == d + tail;
      ScanMinus("-" + (d + tail));
    } else {
      ScanUnsigned(d + tail, 4);
    }
  }

  /** The digits of a year and what stops them. */
  lemma YearRun(d: string, rest: string, width: nat)
    requires AllDigits(d)
    ensures var u := d + ("-" + rest);
      var n := DigitRun(u, width);
      if |d| <= width then n == |d| && u[..n] == d && u[n..] == "-" + rest && u[n..][0] == '-' && u[n..][1..] == rest
      else n == width && u[n..] != "" && u[n..][0] != '-'
  {
    hide DigitRun;
    var tail := "-" + rest;
    var u := d + tail;
    if |d| <= width {
      RunOf(d, tail, width);
      assert u[..|d|] == d && u[|d|..] == tail && tail[1..] == rest;
    } else {
      RunStops(d, tail, width);
      assert u[width..][0] == d[width];
    }
  }

  /** No blank to skip and no sign. */
  lemma ScanUnsigned(u: string, width: nat)
    requires u != "" && IsDigit(u[0]) && width > 0
    ensures var n := DigitRun(u, width); n > 0 && ScanInt(u, width) == Some((Value(u[..n]) as int, u[n..]))
  {
    assert SkipSpace(u) == u;
    hide SkipSpace, Value;
  }

  /** A minus sign takes one character of the width. */
  lemma ScanMinus(s: string)
    requires |s| > 1 && s[0] == '-' && IsDigit(s[1])
    ensures var u := s[1..];
      var n := DigitRun(u, 3);
      n > 0 && ScanInt(s, 4) == Some((0 - Value(u[..n]), u[n..]))
  {
    assert SkipSpace(s) == s;
    hide SkipSpace, Value;
  }

  /** Printed fields are read back exactly when the year fits four characters. */
  lemma PrintScan(f: Fields)
    requires 0 <= f.month < 100 && 0 <= f.day < 100 && 0 <= f.hour < 100 && 0 <= f.minute < 100 && 0 <= f.second < 100
    ensures Scan(Print(f)) == if -999 <= f.year <= 9999 then Some(f) else None
  {
    hide ScanInt, ScanThen, Decimal, Padded;
    var s5 := Padded(f.second) + "Z";
    var s4 := Padded(f.minute) + ([':'] + s5);
    var s3 := Padded(f.hour) + ([':'] + s4);
    var s2 := Padded(f.day) + (['T'] + s3);
    var s1 := Padded(f.month) + (['-'] + s2);
    assert Print(f) == Decimal(f.year) + ("-" + s1);
    ScanYear(f.year, s1);
    PaddedThen(f.month, '-', s2);
    PaddedThen(f.day, 'T', s3);
    PaddedThen(f.hour, ':', s4);
    PaddedThen(f.minute, ':', s5);
    ScanPadded(f.second, "Z");
  }

  // ---------- DateTime values

  /** toTm: the six numbers of a DateTime, from getYMD and getHMS. */
  function FieldsOf(date: int, time: int): Fields {
    var x := GetYMD(date);
    var ticks := time / MILLIS_PER_SEC;
    Fields(x.year, x.month, x.day, ticks / 3600, ticks / 60 % 60, ticks % 60)
  }

  function MakeHMS(hour: int, minute: int, second: int, millis: int): int {
    MILLIS_PER_SEC * (3600 * hour + 60 * minute + second) + millis
  }

  lemma FieldRanges(date: int, time: int)
    requires date >= EPOCH_DAY && 0 <= time < MILLIS_PER_DAY
    ensures var f := FieldsOf(date, time);
      1 <= f.month <= 12 && 1 <= f.day <= 31 && 0 <= f.hour < 24 && 0 <= f.minute < 60 && 0 <= f.second < 60
      && JulianDate(f.year, f.month, f.day) == date
      && MakeHMS(f.hour, f.minute, f.second, 0) == time - time % MILLIS_PER_SEC
  {
    hide GetYMD, JulianDate;
    GetYMDSound(date);
    var x := GetYMD(date);
    assert MonthLength(x.year, x.month) <= 31;
    SplitTicks(time / MILLIS_PER_SEC);
    assert time / MILLIS_PER_SEC < SECONDS_PER_DAY;
  }

  /** The number that two digits stand for, if that is what they are. */
  function TwoDigits(s: string, i: nat): int
    requires i + 1 < |s|
  {
    if IsDigit(s[i]) && IsDigit(s[i + 1]) then 10 * (s[i] as int - '0' as int) + (s[i + 1] as int - '0' as int) else -1
  }

  lemma PaddedDigits(n: nat)
    requires n < 100
    ensures |Padded(n)| == 2 && TwoDigits(Padded(n), 0) == n
  {
    DigitsLength(n);
    DigitsValue(n);
    if n >= 10 {
      assert Digits(n) == [Digit(n / 10)] + [Digit(n % 10)];
    }
  }

  /** Where everything stands in a printed value: all but the year counted from the end. */
  lemma PrintedAt(f: Fields)
    requires 0 <= f.month < 100 && 0 <= f.day < 100 && 0 <= f.hour < 100 && 0 <= f.minute < 100 && 0 <= f.second < 100
    ensures var s := Print(f);
      var y := |s| - 16;
      y > 0 && s[..y] == Decimal(f.year)
      && s[y] == '-' && s[y + 3] == '-' && s[y + 6] == 'T' && s[y + 9] == ':' && s[y + 12] == ':' && s[y + 15] == 'Z'
      && TwoDigits(s, y + 1) == f.month && TwoDigits(s, y + 4) == f.day && TwoDigits(s, y + 7) == f.hour
      && TwoDigits(s, y + 10) == f.minute && TwoDigits(s, y + 13) == f.second
  {
    hide Padded, Decimal, TwoDigits;
    PaddedDigits(f.month);
    PaddedDigits(f.day);
    PaddedDigits(f.hour);
    PaddedDigits(f.minute);
    PaddedDigits(f.second);
    DecimalDigits(f.year);
    Layout(Decimal(f.year), Padded(f.month), Padded(f.day), Padded(f.hour), Padded(f.minute), Padded(f.second));
  }

  lemma Layout(year: string, month: string, day: string, hour: string, minute: string, second: string)
    requires |month| == |day| == |hour| == |minute| == |second| == 2
    ensures var s := year + "-" + month + "-" + day + "T" + hour + ":" + minute + ":" + second + "Z";
      var y := |year|;
      |s| == y + 16 && s[..y] == year
      && s[y] == '-' && s[y + 3] == '-' && s[y + 6] == 'T' && s[y + 9] == ':' && s[y + 12] == ':' && s[y + 15] == 'Z'
      && TwoDigits(s, y + 1) == TwoDigits(month, 0) && TwoDigits(s, y + 4) == TwoDigits(day, 0)
      && TwoDigits(s, y + 7) == TwoDigits(hour, 0) && TwoDigits(s, y + 10) == TwoDigits(minute, 0)
      && TwoDigits(s, y + 13) == TwoDigits(second, 0)
  {
    var a := year + "-" + month;
    var b := a + "-" + day;
    var c := b + "T" + hour;
    var d := c + ":" + minute;
    var s := d + ":" + second + "Z";
    assert s == year + "-" + month + "-" + day + "T" + hour + ":" + minute + ":" + second + "Z";
    assert s[..|d|] == d && d[..|c|] == c && c[..|b|] == b && b[..|a|] == a;
  }

  /** The year: a minus sign if it is negative, and its digits without a zero in front. */
  lemma DecimalDigits(n: int)
    ensures |Decimal(n)| > 0
    ensures n >= 0 ==> AllDigits(Decimal(n)) && Value(Decimal(n)) == n && (n > 0 ==> Decimal(n)[0] != '0')
    ensures n < 0 ==> Decimal(n)[0] == '-' && Decimal(n)[1..] == Decimal(-n)
  {
    DigitsValue(if n < 0 then -n else n);
    if n > 0 {
      NoLeadingZero(n);
    }
  }

  lemma {:induction false} NoLeadingZero(n: nat)
    requires n > 0
    ensures Digits(n)[0] != '0'
  {
    if n >= 10 {
      NoLeadingZero(n / 10);
    }
  }

  /** toXmlDateTime and the constructor from a string. */
  method ToXmlDateTime(x: DateTime) returns (s: string)
    requires x.date >= EPOCH_DAY && 0 <= x.time < MILLIS_PER_DAY
    ensures s == Print(FieldsOf(x.date, x.time))
    ensures var y := |s| - 16;
      y > 0 && s[..y] == Decimal(GetYMD(x.date).year)
      && s[y] == '-' && s[y + 3] == '-' && s[y + 6] == 'T' && s[y + 9] == ':' && s[y + 12] == ':' && s[y + 15] == 'Z'
      && TwoDigits(s, y + 1) == GetYMD(x.date).month && TwoDigits(s, y + 4) == GetYMD(x.date).day
      && TwoDigits(s, y + 7) == x.time / 3600000 && TwoDigits(s, y + 10) == x.time / 60000 % 60
      && TwoDigits(s, y + 13) == x.time / 1000 % 60
    ensures Scan(s).Some? <==> -999 <= GetYMD(x.date).year <= 9999
  {
    hide GetYMD, JulianDate, Print, Scan, TwoDigits, Decimal;
    FieldRanges(x.date, x.time);
    var f := FieldsOf(x.date, x.time);
    PrintScan(f);
    PrintedAt(f);
    s := Print(f);
  }

  /** The constructor; None where the source would go on with fields it never set. */
  method FromXml(s: string) returns (x: DateTime?)
    ensures x == null <==> Scan(s).None?
    ensures x != null ==> fresh(x) && var f := Scan(s).value;
      x.date == JulianDate(f.year, f.month, f.day) && x.time == MakeHMS(f.hour, f.minute, f.second, 0)
  {
    var tmp := Scan(s);
    if tmp.None? {
      return null;
    }
    var f := tmp.value;
    x := new DateTime(JulianDate(f.year, f.month, f.day), MakeHMS(f.hour, f.minute, f.second, 0));
  }

  /** Printing and reading a value: the same date and the time to the second, exactly for years of four characters. */
  method PrintAndRead(x: DateTime) returns (y: DateTime?)
    requires x.date >= EPOCH_DAY && 0 <= x.time < MILLIS_PER_DAY
    ensures y != null <==> -999 <= GetYMD(x.date).year <= 9999
    ensures y != null ==> fresh(y) && y.date == x.date && y.time == x.time - x.time % MILLIS_PER_SEC
  {
    hide GetYMD, JulianDate, Print, Scan, FieldsOf, MakeHMS;
    var s := ToXmlDateTime(x);
    XmlRoundTrip(x.date, x.time);
    y := FromXml(s);
  }

  /** Reading what was printed gives the date back, and the time to the second, exactly for years of four characters. */
  lemma XmlRoundTrip(date: int, time: int)
    requires date >= EPOCH_DAY && 0 <= time < MILLIS_PER_DAY
    ensures FieldsOf(date, time).month >= 0 && FieldsOf(date, time).day >= 0 && FieldsOf(date, time).hour >= 0
            && FieldsOf(date, time).minute >= 0 && FieldsOf(date, time).second >= 0
    ensures match Scan(Print(FieldsOf(date, time)))
      case None => !(-999 <= GetYMD(date).year <= 9999)
      case Some(f) => -999 <= GetYMD(date).year <= 9999 && JulianDate(f.year, f.month, f.day) == date
                      && MakeHMS(f.hour, f.minute, f.second, 0) == time - time % MILLIS_PER_SEC
  {
    hide GetYMD, JulianDate, Print, Scan, MakeHMS;
    FieldRanges(date, time);
    PrintScan(FieldsOf(date, time));
  }

  /** The first year that is printed but not read. */
  lemma YearTenThousand()
    ensures Scan(Print(Fields(10000, 1, 1, 0, 0, 0))).None?
  {
    hide Print, Scan;
    PrintScan(Fields(10000, 1, 1, 0, 0, 0));
  }
}
