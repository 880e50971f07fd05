/** Reading printed times back. The reader works by character positions and a closed form of
    the calendar, so that what `Format` prints is pinned to the date it means. */
module Reading {
  import opened Wrappers
  import opened Decimal
  import opened Timestamps

  // ----------------------------------------------------------------- the reader

  /** The value of a string of decimal digits. */
  function Numeral(s: string): nat
    requires AllDigits(s)
  {
    if s == "" then 0
    else
      assert IsDigit(s[|s| - 1]);
      10 * Numeral(s[..|s| - 1]) + (s[|s| - 1] as int - '0' as int)
  }

  /** The number of a day since 0000-01-01, for years that start in March: then the months
      have (153 m + 2) / 5 days before them, and a leap day ends its year. */
  function DayNumber(year: int, month: nat, day: nat): int {
    var y, m := if month <= 2 then year - 1 else year, if month <= 2 then month + 9 else month - 3;
    365 * y + y / 4 - y / 100 + y / 400 + (153 * m + 2) / 5 + day + 59
  }

  /** The fixed part of the text: 2006-01-02T15:04:05. */
  predicate SecondShape(s: string) {
    && |s| == 19
    && s[4] == '-' && s[7] == '-' && s[10] == 'T' && s[13] == ':' && s[16] == ':'
    && AllDigits(s[..4]) && AllDigits(s[5..7]) && AllDigits(s[8..10])
    && AllDigits(s[11..13]) && AllDigits(s[14..16]) && AllDigits(s[17..19])
  }

  function ReadSecond(s: string): int
    requires SecondShape(s)
  {
    86_400 * DayNumber(Numeral(s[..4]), Numeral(s[5..7]), Numeral(s[8..10]))
    + 3600 * Numeral(s[11..13]) + 60 * Numeral(s[14..16]) + Numeral(s[17..19])
  }

  /** Nothing, or a point and up to nine digits. */
  predicate FractionShape(f: string) {
    f == "" || (2 <= |f| <= 10 && f[0] == '.' && AllDigits(f[1..]))
  }

  function ReadFraction(f: string): nat
    requires FractionShape(f)
  {
    if f == "" then 0 else Numeral(f[1..]) * Pow10(10 - |f|)
  }

  /** The instant that an RFC 3339 time in UTC names. */
  function ReadTime(s: string): Option<Instant> {
    if |s| >= 20 && s[|s| - 1] == 'Z' && SecondShape(s[..19]) && FractionShape(s[19..|s| - 1])
    then Some(ReadSecond(s[..19]) * 1_000_000_000 + ReadFraction(s[19..|s| - 1]))
    else None
  }

  // ------------------------------------------------------------------- numerals

  lemma {:induction false} NumeralOfPad(n: nat, width: nat)
    requires n < Pow10(width)
    ensures Numeral(Pad(n, width)) == n
  {
    if width > 0 {
      NumeralOfPad(n / 10, width - 1);
      assert Pad(n, width)[..width - 1] == Pad(n / 10, width - 1);
    }
  }

  lemma NumeralOfZero(a: string)
    requires AllDigits(a)
    ensures AllDigits(a + "0") && Numeral(a + "0") == 10 * Numeral(a)
  {
    var s := a + "0";
    assert s[..|s| - 1] == a && s[|s| - 1] == '0';
  }

  lemma {:induction false} NumeralOfZeros(a: string, n: nat)
    requires AllDigits(a)
    ensures AllDigits(a + Zeros(n)) && Numeral(a + Zeros(n)) == Numeral(a) * Pow10(n)
  {
    if n == 0 {
      assert a + Zeros(0) == a;
    } else {
      NumeralOfZeros(a, n - 1);
      OneMoreZero(a, n - 1);
      Tenfold(Numeral(a), Pow10(n - 1));
    }
  }

  lemma OneMoreZero(a: string, n: nat)
    requires AllDigits(a + Zeros(n))
    ensures AllDigits(a + Zeros(n + 1)) && Numeral(a + Zeros(n + 1)) == 10 * Numeral(a + Zeros(n))
  {
    ZerosEnd(n);
    NumeralOfZero(a + Zeros(n));
    assert a + Zeros(n + 1) == (a + Zeros(n)) + "0";
  }

  lemma Tenfold(x: nat, p: nat)
    ensures 10 * (x * p) == x * (10 * p)
  {
  }

  lemma FractionReadsBack(nanos: nat)
    requires nanos < NANOS_PER_SECOND
    ensures FractionShape(Fraction(nanos)) && ReadFraction(Fraction(nanos)) == nanos
  {
    var digits := FractionDigits(nanos);
    Pow10Values();
    TrimZerosShape(Pad(nanos, 9));
    NumeralOfPad(nanos, 9);
    NumeralOfZeros(digits, 9 - |digits|);
    if digits != "" { assert Fraction(nanos)[1..] == digits; }
  }

  // ------------------------------------------------------------------- calendar

  lemma OneMultipleMore(y: nat, k: nat)
    requires k == 4 || k == 100 || k == 400
    ensures (y + k - 1) / k == (y - 1) / k + 1 && (y + k) / k == y / k + 1
  {
    if k == 4 {
      assert (y + 3) / 4 == (y - 1) / 4 + 1;
    } else if k == 100 {
      assert (y + 99) / 100 == (y - 1) / 100 + 1;
    } else {
      assert (y + 399) / 400 == (y - 1) / 400 + 1;
    }
  }

  lemma LeapYearsAre(y: nat)
    ensures LeapYearsBefore(y) == (y - 1) / 4 - (y - 1) / 100 + (y - 1) / 400 + 1
    ensures LeapYearsBefore(y + 1) == y / 4 - y / 100 + y / 400 + 1
  {
    OneMultipleMore(y, 4);
    OneMultipleMore(y, 100);
    OneMultipleMore(y, 400);
  }

  lemma MonthsFromMarch(y: nat, m: nat)
    requires 1 <= m <= 12
    ensures m <= 2 ==> DaysBeforeMonth(y, m) == (153 * (m + 9) + 2) / 5 - 306
    ensures m > 2 ==> DaysBeforeMonth(y, m) == (153 * (m - 3) + 2) / 5 + 59 + (DaysInYear(y) - 365)
  {
    assert DaysBeforeMonth(y, 2) == 31;
    assert DaysBeforeMonth(y, 3) == 31 + DaysInMonth(y, 2);
    assert DaysBeforeMonth(y, 4) == DaysBeforeMonth(y, 3) + 31;
    assert DaysBeforeMonth(y, 5) == DaysBeforeMonth(y, 4) + 30;
    assert DaysBeforeMonth(y, 6) == DaysBeforeMonth(y, 5) + 31;
    assert DaysBeforeMonth(y, 7) == DaysBeforeMonth(y, 6) + 30;
    assert DaysBeforeMonth(y, 8) == DaysBeforeMonth(y, 7) + 31;
    assert DaysBeforeMonth(y, 9) == DaysBeforeMonth(y, 8) + 31;
    assert DaysBeforeMonth(y, 10) == DaysBeforeMonth(y, 9) + 30;
    assert DaysBeforeMonth(y, 11) == DaysBeforeMonth(y, 10) + 31;
    assert DaysBeforeMonth(y, 12) == DaysBeforeMonth(y, 11) + 30;
  }

  /** The calendar date of a day number has that number, by the closed form. */
  lemma DateReadsBack(d: nat)
    ensures var date := DateOf(d); DayNumber(date.year, date.month, date.day) == d
  {
    var y, m, before := DateParts(d);
    DaysBeforeYearClosed(y);
    LeapYearsStep(y);
    LeapYearsAre(y);
    MonthsFromMarch(y, m);
  }

  // ----------------------------------------------------------------------- text

  lemma PrintLayout(layout: seq<Field>, v: seq<nat>)
    requires layout == LAYOUT && |v| == 5
    ensures Print(layout, v) ==
            "-" + Pad(v[0], 2) + "-" + Pad(v[1], 2) + "T" + Pad(v[2], 2) + ":" + Pad(v[3], 2) + ":" + Pad(v[4], 2)
  {
    var l1, l2, l3, l4, l5 := layout[1..], layout[2..], layout[3..], layout[4..], layout[5..];
    var v1, v2, v3, v4, v5 := v[1..], v[2..], v[3..], v[4..], v[5..];
    assert l1[1..] == l2 && l2[1..] == l3 && l3[1..] == l4 && l4[1..] == l5;
    assert v1[1..] == v2 && v2[1..] == v3 && v3[1..] == v4 && v4[1..] == v5;
    assert Print(l5, v5) == "";
    assert Print(l4, v4) == ":" + Pad(v[4], 2);
    assert Print(l3, v3) == ":" + Pad(v[3], 2) + Print(l4, v4);
    assert Print(l2, v2) == "T" + Pad(v[2], 2) + Print(l3, v3);
    assert Print(l1, v1) == "-" + Pad(v[1], 2) + Print(l2, v2);
  }

  lemma Positions(y: string, a: string, b: string, c: string, d: string, e: string, s: string)
    requires |y| == 4 && |a| == |b| == |c| == |d| == |e| == 2
    requires s == y + ("-" + a + "-" + b + "T" + c + ":" + d + ":" + e)
    ensures |s| == 19 && s[4] == '-' && s[7] == '-' && s[10] == 'T' && s[13] == ':' && s[16] == ':'
    ensures s[..4] == y && s[5..7] == a && s[8..10] == b && s[11..13] == c && s[14..16] == d && s[17..19] == e
  {
  }

  lemma ClockReadsBack(clock: nat)
    requires clock < SECONDS_PER_DAY
    ensures 3600 * (clock / 3600) + 60 * (clock / 60 % 60) + clock % 60 == clock
    ensures clock / 3600 < 100
  {
    assert clock / 3600 == clock / 60 / 60;
  }

  lemma SecondReadsBack(s: int)
    requires SecondInRange(s)
    ensures SecondShape(SecondText(s)) && ReadSecond(SecondText(s)) == s
  {
    var d, clock := s / SECONDS_PER_DAY, s % SECONDS_PER_DAY;
    var date := DateOf(d);
    var v := FieldsOf(date, clock);
    DateBounds(d);
    DateReadsBack(d);
    ClockReadsBack(clock);
    PrintLayout(LAYOUT, v);
    Pow10Values();
    NumeralOfPad(date.year, 4);
    NumeralOfPad(v[0], 2);
    NumeralOfPad(v[1], 2);
    NumeralOfPad(v[2], 2);
    NumeralOfPad(v[3], 2);
    NumeralOfPad(v[4], 2);
    Positions(YearText(date.year), Pad(v[0], 2), Pad(v[1], 2), Pad(v[2], 2), Pad(v[3], 2), Pad(v[4], 2), SecondText(s));
  }

  /** What is printed for an instant of years 0000 to 9999 is read back as that instant. */
  lemma FormatReadsBack(t: Instant)
    requires InRange(t)
    ensures ReadTime(Format(t)) == Some(t)
  {
    SecondsOfRange(t);
    SecondReadsBack(t / NANOS_PER_SECOND);
    FractionReadsBack(t % NANOS_PER_SECOND);
    TextReadsBack(SecondText(t / NANOS_PER_SECOND), Fraction(t % NANOS_PER_SECOND), Format(t), t);
  }

  lemma SecondsOfRange(t: Instant)
    requires InRange(t)
    ensures SecondInRange(t / NANOS_PER_SECOND)
    ensures t == t / NANOS_PER_SECOND * 1_000_000_000 + t % NANOS_PER_SECOND
  {
    assert NANOS_PER_DAY == SECONDS_PER_DAY * NANOS_PER_SECOND;
  }

  lemma TextReadsBack(second: string, fraction: string, text: string, t: Instant)
    requires SecondShape(second) && FractionShape(fraction) && text == second + (fraction + "Z")
    requires t == ReadSecond(second) * 1_000_000_000 + ReadFraction(fraction)
    ensures ReadTime(text) == Some(t)
  {
    assert text[..19] == second && text[19..|text| - 1] == fraction && text[|text| - 1] == 'Z';
  }

  /** Nanosecond times count from the start of 1970. */
  lemma EpochIs1970(n: int)
    ensures FromUnixNanos(n) == 86_400 * DayNumber(1970, 1, 1) * 1_000_000_000 + n
  {
  }
}
