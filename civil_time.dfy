/** Reading a sink timestamp field: Go's `time.ParseInLocation("2006-01-02 15:04:05", v, +08:00)`
    followed by `UnixMilli`, as exact integer calendar arithmetic. */
module CivilTime {
  import opened Wrappers
  import opened GoStrings

  /** A wall-clock reading in the fixed +08:00 zone, to the millisecond. */
  datatype LocalTime = LocalTime(year: int, month: int, day: int, hour: int, minute: int, second: int, milli: int)

  /** The zone's offset east of UTC, in seconds. */
  const ZoneOffsetSeconds: int := 8 * 60 * 60

  // ---------------------------------------------------------------------------
  // The proleptic Gregorian calendar
  // ---------------------------------------------------------------------------

  predicate IsLeap(y: int) {
    y % 4 == 0 && (y % 100 != 0 || y % 400 == 0)
  }

  function YearLength(y: int): int {
    if IsLeap(y) then 366 else 365
  }

  function DaysIn(month: int, year: int): (n: int)
    requires 1 <= month <= 12
    ensures 28 <= n <= 31
  {
    if month == 2 then (if IsLeap(year) then 29 else 28)
    else if month == 4 || month == 6 || month == 9 || month == 11 then 30
    else 31
  }

  /** A reading the parser can produce: a four-digit year, a real day of a real month. */
  predicate Valid(t: LocalTime) {
    && 0 <= t.year <= 9999
    && 1 <= t.month <= 12
    && 1 <= t.day <= DaysIn(t.month, t.year)
    && 0 <= t.hour < 24 && 0 <= t.minute < 60 && 0 <= t.second < 60
    && 0 <= t.milli < 1000
  }

  /** Days from 0000-01-01 to January 1st of year `y`: 365 per year plus one per leap year before it. */
  function DaysBeforeYear(y: nat): int {
    365 * y + (y + 3) / 4 - (y + 99) / 100 + (y + 399) / 400
  }

  /** Days from January 1st to the first of month `m` of year `y`. */
  function DaysBeforeMonth(m: int, y: int): int
    requires 1 <= m <= 12
  {
    var common :=
      if m == 1 then 0 else if m == 2 then 31 else if m == 3 then 59 else if m == 4 then 90
      else if m == 5 then 120 else if m == 6 then 151 else if m == 7 then 181 else if m == 8 then 212
      else if m == 9 then 243 else if m == 10 then 273 else if m == 11 then 304 else 334;
    common + if m > 2 && IsLeap(y) then 1 else 0
  }

  /** Days from 0000-01-01 to 1970-01-01. */
  const UnixEpochDay: int := 719528

  /** Days from 1970-01-01 to the given date (negative before it). */
  function DaysFromCivil(y: nat, m: int, d: int): int
    requires 1 <= m <= 12
  {
    DaysBeforeYear(y) - UnixEpochDay + DaysBeforeMonth(m, y) + d - 1
  }

  /** Milliseconds since 1970-01-01T00:00:00Z of a reading in the +08:00 zone. */
  function UnixMillis(t: LocalTime): int
    requires t.year >= 0 && 1 <= t.month <= 12
  {
    var seconds := DaysFromCivil(t.year, t.month, t.day) * 86400 + t.hour * 3600 + t.minute * 60 + t.second;
    (seconds - ZoneOffsetSeconds) * 1000 + t.milli
  }

  // The same counts, by adding up year and month lengths one at a time.

  function CountedDaysBeforeYear(y: nat): int {
    if y == 0 then 0 else CountedDaysBeforeYear(y - 1) + YearLength(y - 1)
  }

  function CountedDaysBeforeMonth(m: int, y: int): int
    requires 1 <= m <= 12
  {
    if m == 1 then 0 else CountedDaysBeforeMonth(m - 1, y) + DaysIn(m - 1, y)
  }

  /** The closed-form leap-year count agrees with adding up year lengths. */
  lemma {:induction false} DaysBeforeYearCounts(y: nat)
    ensures DaysBeforeYear(y) == CountedDaysBeforeYear(y)
  {
    if y > 0 {
      DaysBeforeYearCounts(y - 1);
      YearStep(y - 1);
    }
  }

  lemma YearStep(y: nat)
    ensures DaysBeforeYear(y + 1) == DaysBeforeYear(y) + YearLength(y)
  {
    CeilingStep(y, 4);
    CeilingStep(y, 100);
    CeilingStep(y, 400);
    if y % 100 == 0 {
      MultipleOfMultiple(y / 100, 25, 4);
    }
    if y % 400 == 0 {
      MultipleOfMultiple(y / 400, 4, 100);
    }
    var a1, b1, c1 := (y + 4) / 4, (y + 100) / 100, (y + 400) / 400;
    var a0, b0, c0 := (y + 3) / 4, (y + 99) / 100, (y + 399) / 400;
    assert DaysBeforeYear(y + 1) == 365 * y + 365 + a1 - b1 + c1;
    assert DaysBeforeYear(y) == 365 * y + a0 - b0 + c0;
  }

  /** A multiple of `k * d` is a multiple of `d`. */
  lemma MultipleOfMultiple(n: int, k: int, d: int)
    requires d > 0
    ensures (n * (k * d)) % d == 0
  {
    assert n * (k * d) == (n * k) * d + 0;
    QuotientOf(n * k, 0, d);
  }

  /** Counting the multiples of `d` below `y + 1` instead of below `y` adds one exactly when
      `d` divides `y`. */
  lemma CeilingStep(y: nat, d: nat)
    requires d > 0
    ensures (y + d) / d - (y + d - 1) / d == if y % d == 0 then 1 else 0
  {
    var q, r := y / d, y % d;
    assert y + d == (q + 1) * d + r;
    QuotientOf(q + 1, r, d);
    if r == 0 {
      assert y + d - 1 == q * d + (d - 1);
      QuotientOf(q, d - 1, d);
    } else {
      assert y + d - 1 == (q + 1) * d + (r - 1);
      QuotientOf(q + 1, r - 1, d);
    }
  }

  /** Division by `d` undoes `q * d + r` when the remainder is in range. */
  lemma QuotientOf(q: int, r: int, d: int)
    requires d > 0 && 0 <= r < d
    ensures (q * d + r) / d == q && (q * d + r) % d == r
  {
    var x := q * d + r;
    var q', r' := x / d, x % d;
    assert x == q' * d + r';
    assert (q' - q) * d == r - r';
    if q' > q {
      AtLeastOnce(q' - q, d);
    } else if q' < q {
      AtLeastOnce(q - q', d);
    }
  }

  lemma AtLeastOnce(k: int, d: int)
    requires k >= 1 && d > 0
    ensures k * d >= d
  {
    var j := k - 1;
    assert k * d == j * d + d;
    assert j * d >= 0;
  }

  /** The month table agrees with adding up month lengths. */
  lemma {:induction false} DaysBeforeMonthCounts(m: int, y: int)
    requires 1 <= m <= 12
    ensures DaysBeforeMonth(m, y) == CountedDaysBeforeMonth(m, y)
  {
    if m > 1 {
      DaysBeforeMonthCounts(m - 1, y);
    }
  }

  /** Day 0 is 1970-01-01. */
  lemma UnixEpochIsDayZero()
    ensures DaysFromCivil(1970, 1, 1) == 0
  {
  }

  /** Consecutive calendar days get consecutive day numbers, across month and year ends. */
  lemma NextDayIsOneLater(y: nat, m: int, d: int)
    requires 1 <= m <= 12 && 1 <= d <= DaysIn(m, y)
    ensures d < DaysIn(m, y) ==> DaysFromCivil(y, m, d + 1) == DaysFromCivil(y, m, d) + 1
    ensures d == DaysIn(m, y) && m < 12 ==> DaysFromCivil(y, m + 1, 1) == DaysFromCivil(y, m, d) + 1
    ensures d == DaysIn(m, y) && m == 12 ==> DaysFromCivil(y + 1, 1, 1) == DaysFromCivil(y, m, d) + 1
  {
    if m < 12 {
      DaysBeforeMonthCounts(m + 1, y);
      DaysBeforeMonthCounts(m, y);
    } else {
      YearStep(y);
    }
  }

  // ---------------------------------------------------------------------------
  // The parser for layout "2006-01-02 15:04:05"
  // ---------------------------------------------------------------------------

  /** A number read from the front of the text, and the text after it. */
  datatype Scan = Scan(n: nat, rest: string)

  /** Exactly `width` digits (the four-digit year, and the zero-padded month, day, minute and
      second). */
  function Digits(s: string, width: nat): (r: Option<Scan>)
    ensures r.Some? <==> |s| >= width && AllDigits(s[..width])
    ensures r.Some? ==> r.value.n < Pow10(width) && r.value.rest == s[width..]
  {
    if |s| >= width && AllDigits(s[..width]) then Some(Scan(DigitsValue(s[..width]), s[width..])) else None
  }

  /** The hour: one digit, or two when a second digit follows. */
  function OneOrTwoDigits(s: string): (r: Option<Scan>)
    ensures r.Some? ==> r.value.n < 100
  {
    if |s| == 0 || !IsDigit(s[0]) then None
    else if |s| >= 2 && IsDigit(s[1]) then Some(Scan(DigitsValue(s[..2]), s[2..]))
    else Some(Scan(DigitValue(s[0]), s[1..]))
  }

  /** A separator character of the layout. */
  function Literal(s: string, c: char): Option<string>
  {
    if |s| > 0 && s[0] == c then Some(s[1..]) else None
  }

  function DropBlanks(s: string): string
  {
    if |s| > 0 && s[0] == ' ' then DropBlanks(s[1..]) else s
  }

  /** The layout's space: the text must not start with anything else, and every leading blank
      is consumed. */
  function SkipSpaces(s: string): Option<string>
  {
    if |s| > 0 && s[0] != ' ' then None else Some(DropBlanks(s))
  }

  function LeadingDigits(s: string): (k: nat)
    ensures k <= |s| && AllDigits(s[..k])
  {
    if |s| > 0 && IsDigit(s[0]) then
      var k := 1 + LeadingDigits(s[1..]);
      assert forall i :: 1 <= i < k ==> s[..k][i] == s[1..][..k - 1][i - 1];
      k
    else 0
  }

  /** The milliseconds of a fraction's digits: the first three, padded with zeros on the right;
      later digits are below a millisecond. */
  function FractionMillis(digits: string): (ms: nat)
    requires AllDigits(digits)
    ensures ms < 1000
  {
    var t := if |digits| < 3 then |digits| else 3;
    assert AllDigits(digits[..t]);
    DigitsValue(digits[..t]) * Pow10(3 - t)
  }

  /** Fractional seconds after the seconds field: a '.' or ',' and at least one digit, all of
      whose digits are consumed. Anything else leaves the text alone. */
  function Fraction(s: string): (r: Scan)
    ensures r.n < 1000
  {
    if |s| >= 2 && (s[0] == '.' || s[0] == ',') && IsDigit(s[1]) then
      var k := 1 + LeadingDigits(s[1..]);
      assert s[1..k] == s[1..][..k - 1];
      Scan(FractionMillis(s[1..k]), s[k..])
    else Scan(0, s)
  }

  /** The time of day read after the date. */
  datatype Clock = Clock(hour: nat, minute: nat, second: nat, milli: nat)

  /** The "15:04:05" part, with optional fractional seconds, up to the end of the text. */
  function ParseClock(s: string): Option<Clock>
  {
    var h :- OneOrTwoDigits(s);
    if h.n >= 24 then None
    else
      var s1 :- Literal(h.rest, ':');
      var c :- ParseMinutes(s1);
      Some(c.(hour := h.n))
  }

  /** "04:05" and the fraction, up to the end of the text; the hour is filled in by the caller. */
  function ParseMinutes(s: string): Option<Clock>
  {
    var mi :- Digits(s, 2);
    if mi.n >= 60 then None
    else
      var s1 :- Literal(mi.rest, ':');
      var c :- ParseSeconds(s1);
      Some(c.(minute := mi.n))
  }

  /** "05" and the fraction, up to the end of the text. */
  function ParseSeconds(s: string): Option<Clock>
  {
    var sec :- Digits(s, 2);
    if sec.n >= 60 then None
    else
      var frac := Fraction(sec.rest);
      if frac.rest != [] then None else Some(Clock(0, 0, sec.n, frac.n))
  }

  /** `time.ParseInLocation("2006-01-02 15:04:05", v, +08:00)`: `None` is a parse error. */
  function ParseLocal(v: string): (r: Option<LocalTime>)
    ensures r.Some? ==> Valid(r.value)
  {
    assert Pow10(4) == 10000;
    var y :- Digits(v, 4);
    var s1 :- Literal(y.rest, '-');
    var mo :- Digits(s1, 2);
    if !(1 <= mo.n <= 12) then None
    else
      var s2 :- Literal(mo.rest, '-');
      var d :- Digits(s2, 2);
      var s3 :- SkipSpaces(d.rest);
      var c :- ParseClock(s3);
      if !(1 <= d.n <= DaysIn(mo.n, y.n)) then None
      else Some(LocalTime(y.n, mo.n, d.n, c.hour, c.minute, c.second, c.milli))
  }

  /** Everything the parser accepts is a real reading. */
  lemma ParseIsValid(v: string)
    ensures ParseLocal(v).Some? ==> Valid(ParseLocal(v).value)
  {
    assert Pow10(4) == 10000;
  }

  // ---------------------------------------------------------------------------
  // Writing a reading in the layout, and reading it back
  // ---------------------------------------------------------------------------

  /** A reading in the layout, zero-padded, with ".mmm" only when there are milliseconds. */
  function Format(t: LocalTime): string
    requires Valid(t)
  {
    assert Pow10(2) == 100 && Pow10(3) == 1000 && Pow10(4) == 10000;
    Pad(t.year, 4) + ("-" + (Pad(t.month, 2) + ("-" + (Pad(t.day, 2) + (" " + ClockText(t))))))
  }

  function ClockText(t: LocalTime): string
    requires Valid(t)
  {
    assert Pow10(2) == 100 && Pow10(3) == 1000;
    Pad(t.hour, 2) + (":" + (Pad(t.minute, 2) + (":" + (Pad(t.second, 2) + MilliText(t.milli)))))
  }

  function MilliText(ms: nat): string
    requires ms < 1000
  {
    assert Pow10(3) == 1000;
    if ms == 0 then "" else "." + Pad(ms, 3)
  }

  lemma DigitsOfPad(n: nat, width: nat, rest: string)
    requires n < Pow10(width)
    ensures Digits(Pad(n, width) + rest, width) == Some(Scan(n, rest))
  {
    assert (Pad(n, width) + rest)[..width] == Pad(n, width);
    assert (Pad(n, width) + rest)[width..] == rest;
  }

  lemma HourOfDigits(s: string, n: nat, rest: string)
    requires Digits(s, 2) == Some(Scan(n, rest)) && |rest| > 0 && !IsDigit(rest[0])
    ensures OneOrTwoDigits(s) == Some(Scan(n, rest))
  {
    assert s[2..] == rest;
  }

  lemma LiteralOf(c: char, rest: string)
    ensures Literal([c] + rest, c) == Some(rest)
  {
    assert ([c] + rest)[1..] == rest;
  }

  lemma SkipOneSpace(rest: string)
    requires |rest| > 0 && rest[0] != ' '
    ensures SkipSpaces(" " + rest) == Some(rest)
  {
    assert (" " + rest)[1..] == rest;
    assert DropBlanks(rest) == rest;
  }

  lemma {:induction false} LeadingDigitsOfDigits(s: string)
    requires AllDigits(s)
    ensures LeadingDigits(s) == |s|
  {
    if |s| > 0 {
      LeadingDigitsOfDigits(s[1..]);
    }
  }

  lemma FractionOfMilliText(ms: nat)
    requires ms < 1000
    ensures Fraction(MilliText(ms)) == Scan(ms, "")
  {
    assert Pow10(3) == 1000;
    if ms != 0 {
      var s := MilliText(ms);
      assert s[1..] == Pad(ms, 3);
      LeadingDigitsOfDigits(s[1..]);
      assert s[1..4] == Pad(ms, 3);
      assert Pad(ms, 3)[..3] == Pad(ms, 3);
      assert FractionMillis(s[1..4]) == ms;
      assert s[4..] == [];
    }
  }

  // Each stage of the parser, first over any text whose pieces read as given, then over the
  // layout's own text. Keeping `Pad` out of the first kind keeps the solver's work small.

  lemma ParseSecondsOf(s: string, second: nat, milli: nat, frac: string)
    requires second < 60 && Digits(s, 2) == Some(Scan(second, frac)) && Fraction(frac) == Scan(milli, "")
    ensures ParseSeconds(s) == Some(Clock(0, 0, second, milli))
  {
  }

  lemma ParseSecondsText(second: nat, milli: nat)
    requires second < 60 && milli < 1000
    ensures ParseSeconds(Pad(second, 2) + MilliText(milli)) == Some(Clock(0, 0, second, milli))
  {
    assert Pow10(2) == 100;
    DigitsOfPad(second, 2, MilliText(milli));
    FractionOfMilliText(milli);
    ParseSecondsOf(Pad(second, 2) + MilliText(milli), second, milli, MilliText(milli));
  }

  lemma ParseMinutesOf(s: string, minute: nat, rest: string, c: Clock)
    requires minute < 60 && ParseSeconds(rest) == Some(c)
    requires Digits(s, 2) == Some(Scan(minute, ":" + rest))
    ensures ParseMinutes(s) == Some(c.(minute := minute))
  {
    LiteralOf(':', rest);
  }

  lemma ParseMinutesText(minute: nat, rest: string, c: Clock)
    requires minute < 60 && ParseSeconds(rest) == Some(c)
    ensures ParseMinutes(Pad(minute, 2) + (":" + rest)) == Some(c.(minute := minute))
  {
    assert Pow10(2) == 100;
    DigitsOfPad(minute, 2, ":" + rest);
    ParseMinutesOf(Pad(minute, 2) + (":" + rest), minute, rest, c);
  }

  lemma ParseHourOf(s: string, hour: nat, rest: string, c: Clock)
    requires hour < 24 && ParseMinutes(rest) == Some(c)
    requires OneOrTwoDigits(s) == Some(Scan(hour, ":" + rest))
    ensures ParseClock(s) == Some(c.(hour := hour))
  {
    LiteralOf(':', rest);
  }

  lemma ParseHourText(hour: nat, rest: string, c: Clock)
    requires hour < 24 && ParseMinutes(rest) == Some(c)
    ensures ParseClock(Pad(hour, 2) + (":" + rest)) == Some(c.(hour := hour))
  {
    assert Pow10(2) == 100;
    var tail := ":" + rest;
    var s := Pad(hour, 2) + tail;
    DigitsOfPad(hour, 2, tail);
    HourOfDigits(s, hour, tail);
    ParseHourOf(s, hour, rest, c);
  }

  lemma ParseClockText(t: LocalTime)
    requires Valid(t)
    ensures ParseClock(ClockText(t)) == Some(Clock(t.hour, t.minute, t.second, t.milli))
  {
    var sec := Pad(t.second, 2) + MilliText(t.milli);
    ParseSecondsText(t.second, t.milli);
    var mi := Pad(t.minute, 2) + (":" + sec);
    ParseMinutesText(t.minute, sec, Clock(0, 0, t.second, t.milli));
    ParseHourText(t.hour, mi, Clock(0, t.minute, t.second, t.milli));
  }

  lemma ParseLocalOf(v: string, t: LocalTime, month: string, day: string, clock: string)
    requires Valid(t)
    requires Digits(v, 4) == Some(Scan(t.year, "-" + month))
    requires Digits(month, 2) == Some(Scan(t.month, "-" + day))
    requires Digits(day, 2) == Some(Scan(t.day, " " + clock))
    requires SkipSpaces(" " + clock) == Some(clock)
    requires ParseClock(clock) == Some(Clock(t.hour, t.minute, t.second, t.milli))
    ensures ParseLocal(v) == Some(t)
  {
    LiteralOf('-', month);
    LiteralOf('-', day);
  }

  lemma MonthOutOfRangeRejected(v: string, m: string, year: nat, month: nat, rest: string)
    requires Digits(v, 4) == Some(Scan(year, "-" + m))
    requires Digits(m, 2) == Some(Scan(month, rest))
    requires !(1 <= month <= 12)
    ensures ParseLocal(v).None?
  {
    LiteralOf('-', m);
  }

  lemma DayOutOfRangeRejected(v: string, m: string, d: string, year: nat, month: nat, day: nat, rest: string)
    requires Digits(v, 4) == Some(Scan(year, "-" + m))
    requires Digits(m, 2) == Some(Scan(month, "-" + d))
    requires Digits(d, 2) == Some(Scan(day, rest))
    requires 1 <= month <= 12 && day > DaysIn(month, year)
    ensures ParseLocal(v).None?
  {
    LiteralOf('-', m);
    LiteralOf('-', d);
  }

  /** A text in the layout whose month is out of range does not parse. */
  lemma MonthRejectedOf(year: nat, month: nat, rest: string)
    requires year < 10000 && month < 100 && !(1 <= month <= 12)
    ensures ParseLocal(Pad(year, 4) + ("-" + (Pad(month, 2) + rest))).None?
  {
    var m := Pad(month, 2) + rest;
    assert Pow10(4) == 10000 && Pow10(2) == 100;
    DigitsOfPad(year, 4, "-" + m);
    DigitsOfPad(month, 2, rest);
    MonthOutOfRangeRejected(Pad(year, 4) + ("-" + m), m, year, month, rest);
  }

  /** A text in the layout whose day is past the end of its month does not parse. */
  lemma DayRejectedOf(year: nat, month: nat, day: nat, rest: string)
    requires year < 10000 && 1 <= month <= 12 && DaysIn(month, year) < day < 100
    ensures ParseLocal(Pad(year, 4) + ("-" + (Pad(month, 2) + ("-" + (Pad(day, 2) + rest))))).None?
  {
    var d := Pad(day, 2) + rest;
    var m := Pad(month, 2) + ("-" + d);
    assert Pow10(4) == 10000 && Pow10(2) == 100;
    DigitsOfPad(year, 4, "-" + m);
    DigitsOfPad(month, 2, "-" + d);
    DigitsOfPad(day, 2, rest);
    DayOutOfRangeRejected(Pad(year, 4) + ("-" + m), m, d, year, month, day, rest);
  }

  /** Two digits make the hour whatever follows them. */
  lemma TwoDigitHour(s: string, n: nat, rest: string)
    requires Digits(s, 2) == Some(Scan(n, rest))
    ensures OneOrTwoDigits(s) == Some(Scan(n, rest))
  {
    assert IsDigit(s[..2][0]) && IsDigit(s[..2][1]);
  }

  /** A date in the layout followed by a blank and a clock part that does not parse is rejected. */
  lemma ClockRejected(v: string, m: string, d: string, h: string, year: nat, month: nat, day: nat)
    requires Digits(v, 4) == Some(Scan(year, "-" + m))
    requires Digits(m, 2) == Some(Scan(month, "-" + d))
    requires Digits(d, 2) == Some(Scan(day, " " + h))
    requires SkipSpaces(" " + h) == Some(h) && ParseClock(h).None?
    ensures ParseLocal(v).None?
  {
    LiteralOf('-', m);
    LiteralOf('-', d);
  }

  /** A text in the layout with a real date but an hour from 24 to 99 does not parse. */
  lemma HourRejectedOf(year: nat, month: nat, day: nat, hour: nat, rest: string)
    requires year < 10000 && 1 <= month <= 12 && 1 <= day <= DaysIn(month, year)
    requires 24 <= hour < 100
    ensures ParseLocal(Pad(year, 4) + ("-" + (Pad(month, 2) + ("-" + (Pad(day, 2) + (" " + (Pad(hour, 2) + rest))))))).None?
  {
    var h := Pad(hour, 2) + rest;
    var d := Pad(day, 2) + (" " + h);
    var m := Pad(month, 2) + ("-" + d);
    assert Pow10(4) == 10000 && Pow10(2) == 100;
    DigitsOfPad(year, 4, "-" + m);
    DigitsOfPad(month, 2, "-" + d);
    DigitsOfPad(day, 2, " " + h);
    assert SkipSpaces(" " + h) == Some(h) && ParseClock(h).None? by {
      DigitsOfPad(hour, 2, rest);
      TwoDigitHour(h, hour, rest);
      assert IsDigit(h[..2][0]);
      SkipOneSpace(h);
    }
    ClockRejected(Pad(year, 4) + ("-" + m), m, d, h, year, month, day);
  }

  /** Reading the layout back gives the same reading. */
  lemma ParseFormat(t: LocalTime)
    requires Valid(t)
    ensures ParseLocal(Format(t)) == Some(t)
  {
    assert Pow10(2) == 100 && Pow10(4) == 10000;
    var clock := ClockText(t);
    var day := Pad(t.day, 2) + (" " + clock);
    var month := Pad(t.month, 2) + ("-" + day);
    DigitsOfPad(t.year, 4, "-" + month);
    DigitsOfPad(t.month, 2, "-" + day);
    DigitsOfPad(t.day, 2, " " + clock);
    assert clock[0] == Pad(t.hour, 2)[0];
    SkipOneSpace(clock);
    ParseClockText(t);
    ParseLocalOf(Format(t), t, month, day, clock);
  }

  // The worked example is assembled from small lemmas: `ExampleYear` and `PadTwo` give the
  // padded pieces, `ClockJoin` and `ExampleJoin` glue the literals. Evaluating `Format` or
  // `ParseLocal` on the whole literal in one proof makes the solver unfold them character by
  // character, which costs far more than these steps.
  lemma ExampleYear()
    ensures Pow10(4) == 10000 && Pad(2024, 4) == "2024"
  {
    assert Pow10(4) == 10000;
    assert Pad(2024, 4) == Pad(202, 3) + "4";
    assert Pad(202, 3) == Pad(20, 2) + "2";
    assert Pad(20, 2) == Pad(2, 1) + "0";
  }

  lemma PadTwo(n: nat)
    requires n < 100
    ensures Pow10(2) == 100 && Pad(n, 2) == [DigitChar(n / 10), DigitChar(n % 10)]
  {
    assert Pow10(2) == 100;
    assert Pad(n / 10, 1) == Pad(n / 100, 0) + [DigitChar(n / 10 % 10)];
  }

  lemma ExampleClock(t: LocalTime)
    requires t == LocalTime(2024, 11, 24, 20, 15, 35, 0)
    ensures Valid(t) && ClockText(t) == "20:15:35"
  {
    assert Valid(t);
    PadTwo(20);
    PadTwo(15);
    PadTwo(35);
    assert Pad(20, 2) == "20" && Pad(15, 2) == "15" && Pad(35, 2) == "35";
    assert MilliText(0) == "";
    ClockJoin();
  }

  lemma ClockJoin()
    ensures "20" + (":" + ("15" + (":" + ("35" + "")))) == "20:15:35"
  {
  }

  lemma ExampleText(t: LocalTime)
    requires t == LocalTime(2024, 11, 24, 20, 15, 35, 0)
    ensures Valid(t) && Format(t) == "2024-11-24 20:15:35"
  {
    ExampleYear();
    ExampleClock(t);
    PadTwo(11);
    PadTwo(24);
    assert Pad(11, 2) == "11" && Pad(24, 2) == "24";
    ExampleJoin();
  }

  lemma ExampleJoin()
    ensures "2024" + ("-" + ("11" + ("-" + ("24" + (" " + "20:15:35"))))) == "2024-11-24 20:15:35"
  {
  }

  lemma ExampleMillis()
    ensures UnixMillis(LocalTime(2024, 11, 24, 20, 15, 35, 0)) == 1732450535000
  {
    assert DaysBeforeYear(2024) == 739251;
    assert DaysBeforeMonth(11, 2024) == 305;
    assert DaysFromCivil(2024, 11, 24) == 20051;
  }

  /** The example in the sink's source comment. */
  lemma ExampleTimestamp()
    ensures ParseLocal("2024-11-24 20:15:35") == Some(LocalTime(2024, 11, 24, 20, 15, 35, 0))
    ensures UnixMillis(LocalTime(2024, 11, 24, 20, 15, 35, 0)) == 1732450535000
  {
    var t := LocalTime(2024, 11, 24, 20, 15, 35, 0);
    ExampleText(t);
    ParseFormat(t);
    ExampleMillis();
  }
}
