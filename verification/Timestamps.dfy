/** Instants and the text Go prints for them with time.RFC3339Nano, in UTC.
    An instant is a number of nanoseconds since 0000-01-01T00:00:00Z in the proleptic
    Gregorian calendar. The layout trims trailing zeros of the fraction, which is why
    section 5.1 of RFC 3339 does not promise that text order is time order. */
module Timestamps {
  import opened Texts
  import opened Decimal

  type Instant = int

  const NANOS_PER_SECOND: nat := 1_000_000_000
  const SECONDS_PER_DAY: nat := 86_400
  const NANOS_PER_DAY: nat := 86_400_000_000_000

  /** The days before year 1970 and before year 10000, by `CalendarTotals`. */
  const DAYS_BEFORE_1970: nat := 719_528
  const DAYS_BEFORE_10000: nat := 3_652_425

  // ------------------------------------------------------------------- calendar

  predicate IsLeap(y: nat) {
    y % 4 == 0 && (y % 100 != 0 || y % 400 == 0)
  }

  function DaysInYear(y: nat): nat {
    if IsLeap(y) then 366 else 365
  }

  function DaysBeforeYear(y: nat): nat {
    if y == 0 then 0 else DaysBeforeYear(y - 1) + DaysInYear(y - 1)
  }

  function DaysInMonth(y: nat, m: nat): nat {
    if m == 2 then (if IsLeap(y) then 29 else 28)
    else if m == 4 || m == 6 || m == 9 || m == 11 then 30
    else 31
  }

  /** Days of year `y` before month `m` (1 is January). */
  function DaysBeforeMonth(y: nat, m: nat): nat {
    if m <= 1 then 0 else DaysBeforeMonth(y, m - 1) + DaysInMonth(y, m - 1)
  }

  /** The year that day number `d` falls in, searched upward from `y`. */
  function YearFrom(y: nat, d: nat): (r: nat)
    requires DaysBeforeYear(y) <= d
    ensures DaysBeforeYear(r) <= d < DaysBeforeYear(r + 1)
    decreases d - DaysBeforeYear(y)
  {
    if d < DaysBeforeYear(y + 1) then y else YearFrom(y + 1, d)
  }

  /** The month that day `d` of year `y` falls in, searched upward from `m`. */
  function MonthFrom(y: nat, m: nat, d: nat): (r: nat)
    requires 1 <= m <= 12 && DaysBeforeMonth(y, m) <= d < DaysBeforeMonth(y, 13)
    ensures 1 <= r <= 12 && DaysBeforeMonth(y, r) <= d < DaysBeforeMonth(y, r + 1)
    decreases 12 - m
  {
    if d < DaysBeforeMonth(y, m + 1) then m else MonthFrom(y, m + 1, d)
  }

  datatype Date = Date(year: int, month: nat, day: nat)

  lemma MonthsFillTheYear(y: nat)
    ensures DaysBeforeMonth(y, 13) == DaysInYear(y)
  {
    assert DaysBeforeMonth(y, 2) == 31;
    assert DaysBeforeMonth(y, 3) == 31 + DaysInMonth(y, 2);
    assert DaysBeforeMonth(y, 5) == DaysBeforeMonth(y, 3) + 61;
    assert DaysBeforeMonth(y, 7) == DaysBeforeMonth(y, 5) + 61;
    assert DaysBeforeMonth(y, 9) == DaysBeforeMonth(y, 7) + 62;
    assert DaysBeforeMonth(y, 11) == DaysBeforeMonth(y, 9) + 61;
    assert DaysBeforeMonth(y, 13) == DaysBeforeMonth(y, 11) + 61;
  }

  /** The calendar date of a day number; the calendar repeats every 400 years. */
  function DateOf(d: int): Date
    decreases if d < 0 then -d else 0
  {
    if d < 0 then
      var later := DateOf(d + 146_097);
      later.(year := later.year - 400)
    else
      var y := YearFrom(0, d);
      MonthsFillTheYear(y);
      var inYear := d - DaysBeforeYear(y);
      var m := MonthFrom(y, 1, inYear);
      Date(y, m, inYear - DaysBeforeMonth(y, m) + 1)
  }

  // ------------------------------------------------------------------- printing

  /** Go pads years to four digits and lets longer ones grow. */
  function YearText(y: int): string {
    if y < 0 then "-" + (if -y < 10_000 then Pad(-y, 4) else Digits(-y))
    else if y < 10_000 then Pad(y, 4)
    else Digits(y)
  }

  /** A fixed-width field of the layout and the separator printed before it. */
  datatype Field = Field(separator: string, width: nat)

  /** The layout after the year: -01-02T15:04:05. */
  const LAYOUT: seq<Field> := [Field("-", 2), Field("-", 2), Field("T", 2), Field(":", 2), Field(":", 2)]

  function Print(layout: seq<Field>, values: seq<nat>): string
    requires |layout| == |values|
  {
    if layout == [] then ""
    else layout[0].separator + (Pad(values[0], layout[0].width) + Print(layout[1..], values[1..]))
  }

  /** Month, day, hour, minute and second. */
  function FieldsOf(date: Date, clock: nat): (values: seq<nat>) {
    [date.month, date.day, clock / 3600, clock / 60 % 60, clock % 60]
  }

  function SecondText(s: int): string {
    var date := DateOf(s / SECONDS_PER_DAY);
    YearText(date.year) + Print(LAYOUT, FieldsOf(date, s % SECONDS_PER_DAY))
  }

  function TrimZeros(s: string): string {
    if s != "" && s[|s| - 1] == '0' then TrimZeros(s[..|s| - 1]) else s
  }

  /** The fraction digits that survive trimming; empty for a whole second. */
  function FractionDigits(nanos: nat): string {
    TrimZeros(Pad(nanos, 9))
  }

  function Dotted(digits: string): string {
    if digits == "" then "" else "." + digits
  }

  function Fraction(nanos: nat): string {
    Dotted(FractionDigits(nanos))
  }

  /** t.UTC().Format(time.RFC3339Nano). */
  function Format(t: Instant): string {
    SecondText(t / NANOS_PER_SECOND) + (Fraction(t % NANOS_PER_SECOND) + "Z")
  }

  /** The instants of years 0000 to 9999. */
  predicate InRange(t: Instant) {
    0 <= t < DAYS_BEFORE_10000 * NANOS_PER_DAY
  }

  /** time.Unix(0, n). */
  function FromUnixNanos(n: int): Instant {
    DAYS_BEFORE_1970 * NANOS_PER_DAY + n
  }

  // ----------------------------------------------------- order of whole seconds

  lemma {:induction false} YearsGrow(a: nat, b: nat)
    requires a <= b
    ensures DaysBeforeYear(a) + 365 * (b - a) <= DaysBeforeYear(b)
    decreases b - a
  {
    if a < b { YearsGrow(a, b - 1); }
  }

  /** One more number below y is a multiple of k exactly when y - 1 is. */
  lemma MultiplesStep(z: nat, k: nat)
    requires k == 4 || k == 100 || k == 400
    ensures (z + k) / k == (z + k - 1) / k + if z % k == 0 then 1 else 0
  {
    if k == 4 {
      assert (z + 4) / 4 == (z + 3) / 4 + if z % 4 == 0 then 1 else 0;
    } else if k == 100 {
      assert (z + 100) / 100 == (z + 99) / 100 + if z % 100 == 0 then 1 else 0;
    } else {
      assert (z + 400) / 400 == (z + 399) / 400 + if z % 400 == 0 then 1 else 0;
    }
  }

  function LeapYearsBefore(y: nat): int {
    (y + 3) / 4 - (y + 99) / 100 + (y + 399) / 400
  }

  lemma CenturiesAreFourths(z: nat)
    ensures z % 100 == 0 ==> z % 4 == 0
    ensures z % 400 == 0 ==> z % 100 == 0
  {
    if z % 100 == 0 { assert z == 4 * (25 * (z / 100)); }
    if z % 400 == 0 { assert z == 100 * (4 * (z / 400)); }
  }

  lemma LeapYearsStep(z: nat)
    ensures LeapYearsBefore(z + 1) == LeapYearsBefore(z) + DaysInYear(z) - 365
  {
    var fours, hundreds, fourHundreds := (z + 3) / 4, (z + 99) / 100, (z + 399) / 400;
    assert LeapYearsBefore(z + 1) == (z + 4) / 4 - (z + 100) / 100 + (z + 400) / 400;
    assert (z + 4) / 4 == fours + if z % 4 == 0 then 1 else 0 by { MultiplesStep(z, 4); }
    assert (z + 100) / 100 == hundreds + if z % 100 == 0 then 1 else 0 by { MultiplesStep(z, 100); }
    assert (z + 400) / 400 == fourHundreds + if z % 400 == 0 then 1 else 0 by { MultiplesStep(z, 400); }
    CenturiesAreFourths(z);
  }

  /** The Gregorian leap rule, summed: a leap day every 4 years but for 3 of them in 400. */
  lemma {:induction false} DaysBeforeYearClosed(y: nat)
    ensures DaysBeforeYear(y) == 365 * y + LeapYearsBefore(y)
  {
    if y > 0 {
      DaysBeforeYearClosed(y - 1);
      LeapYearsStep(y - 1);
    }
  }

  /** The days before 1970 and before 10000, and enough before 2263 for every int64 of nanoseconds. */
  lemma CalendarTotals(y: nat)
    ensures y == 1970 ==> DaysBeforeYear(y) == DAYS_BEFORE_1970
    ensures y == 2263 ==> DaysBeforeYear(y) > DAYS_BEFORE_1970 + 106_751
    ensures y == 10_000 ==> DaysBeforeYear(y) == DAYS_BEFORE_10000
  {
    DaysBeforeYearClosed(y);
  }

  lemma {:induction false} MonthsGrow(y: nat, a: nat, b: nat)
    requires a <= b
    ensures DaysBeforeMonth(y, a) <= DaysBeforeMonth(y, b)
    decreases b - a
  {
    if a < b { MonthsGrow(y, a, b - 1); }
  }

  predicate DateBefore(a: Date, b: Date) {
    a.year < b.year || (a.year == b.year && (a.month < b.month || (a.month == b.month && a.day < b.day)))
  }

  /** What DateOf says about a day number that is not negative. */
  lemma DateParts(d: nat) returns (y: nat, m: nat, before: nat)
    ensures before == DaysBeforeYear(y) <= d < DaysBeforeYear(y + 1)
    ensures DaysBeforeMonth(y, m) <= d - before < DaysBeforeMonth(y, m + 1) && 1 <= m <= 12
    ensures DateOf(d) == Date(y, m, d - before - DaysBeforeMonth(y, m) + 1)
  {
    y := YearFrom(0, d);
    MonthsFillTheYear(y);
    before := DaysBeforeYear(y);
    m := MonthFrom(y, 1, d - before);
  }

  lemma YearsInOrder(y: nat, z: nat, d: nat, e: nat)
    requires DaysBeforeYear(y) <= d <= e < DaysBeforeYear(z + 1)
    ensures y <= z
  {
    if y > z { YearsGrow(z + 1, y); }
  }

  lemma MonthsInOrder(y: nat, m: nat, n: nat, d: int, e: int)
    requires DaysBeforeMonth(y, m) <= d <= e < DaysBeforeMonth(y, n + 1)
    ensures m <= n
  {
    if m > n { MonthsGrow(y, n + 1, m); }
  }

  /** Later day numbers have later calendar dates. */
  lemma DatesInOrder(d: nat, e: nat)
    requires d < e
    ensures DateBefore(DateOf(d), DateOf(e))
  {
    var y, m, before := DateParts(d);
    var z, n, before' := DateParts(e);
    YearsInOrder(y, z, d, e);
    if y == z {
      assert DaysBeforeMonth(y, n) <= e - before < DaysBeforeMonth(y, n + 1);
      MonthsInOrder(y, m, n, d - before, e - before);
    }
  }

  lemma DateBounds(d: nat)
    requires d < DAYS_BEFORE_10000
    ensures 0 <= DateOf(d).year < 10_000 && 1 <= DateOf(d).month <= 12 && 1 <= DateOf(d).day <= 31
  {
    var y, m, before := DateParts(d);
    DaysBeforeYearClosed(y);
    assert y < 10_000;
  }

  lemma {:induction false} PrintLength(layout: seq<Field>, v: seq<nat>, w: seq<nat>)
    requires |layout| == |v| == |w|
    ensures |Print(layout, v)| == |Print(layout, w)|
  {
    if layout != [] { PrintLength(layout[1..], v[1..], w[1..]); }
  }

  /** Fixed-width fields print in the order of the first field that differs. */
  lemma {:induction false} PrintOrder(layout: seq<Field>, v: seq<nat>, w: seq<nat>, k: nat)
    requires |layout| == |v| == |w| && k < |v|
    requires (forall i | 0 <= i < k :: v[i] == w[i]) && v[k] < w[k] < Pow10(layout[k].width)
    ensures Less(Print(layout, v), Print(layout, w))
  {
    var a, b := Pad(v[0], layout[0].width), Pad(w[0], layout[0].width);
    var x, y := Print(layout[1..], v[1..]), Print(layout[1..], w[1..]);
    if k == 0 {
      PadOrder(v[0], w[0], layout[0].width);
      LessByHead(a, b, x, y);
    } else {
      PrintOrder(layout[1..], v[1..], w[1..], k - 1);
      LessAfterPrefix(a, x, y);
    }
    LessAfterPrefix(layout[0].separator, a + x, b + y);
  }

  predicate SecondInRange(s: int) {
    0 <= s < DAYS_BEFORE_10000 * SECONDS_PER_DAY
  }

  /** The first field after the year in which two seconds of one year differ. */
  lemma FirstDifference(a: Date, b: Date, r: nat, s: nat) returns (k: nat)
    requires a.year == b.year && b.month <= 12 && b.day <= 31 && s < SECONDS_PER_DAY
    requires DateBefore(a, b) || (a == b && r < s)
    ensures k < 5 && forall i | 0 <= i < k :: FieldsOf(a, r)[i] == FieldsOf(b, s)[i]
    ensures FieldsOf(a, r)[k] < FieldsOf(b, s)[k] < 100
  {
    var v, w := FieldsOf(a, r), FieldsOf(b, s);
    if a.month != b.month { return 0; }
    if a.day != b.day { return 1; }
    ClockOrder(r, s);
    k := if v[2] != w[2] then 2 else if v[3] != w[3] then 3 else 4;
  }

  lemma ClockOrder(r: nat, s: nat)
    requires r < s < SECONDS_PER_DAY
    ensures r / 3600 <= s / 3600 < 100
    ensures r / 3600 == s / 3600 ==> r / 60 % 60 <= s / 60 % 60
    ensures r / 3600 == s / 3600 && r / 60 % 60 == s / 60 % 60 ==> r % 60 < s % 60
  {
    assert r / 3600 == r / 60 / 60 && s / 3600 == s / 60 / 60;
  }

  lemma LayoutWidths()
    ensures |LAYOUT| == 5 && forall f <- LAYOUT :: f.width == 2
  {
  }

  lemma FieldsInOrder(layout: seq<Field>, a: Date, b: Date, r: nat, s: nat)
    requires |layout| == 5 && forall f <- layout :: f.width == 2
    requires a.year == b.year && b.month <= 12 && b.day <= 31 && s < SECONDS_PER_DAY
    requires DateBefore(a, b) || (a == b && r < s)
    ensures Less(Print(layout, FieldsOf(a, r)), Print(layout, FieldsOf(b, s)))
  {
    var k := FirstDifference(a, b, r, s);
    assert layout[k].width == 2;
    Pow10Values();
    PrintOrder(layout, FieldsOf(a, r), FieldsOf(b, s), k);
  }

  lemma Pow10Values()
    ensures Pow10(2) == 100 && Pow10(4) == 10_000 && Pow10(9) == NANOS_PER_SECOND
  {
    assert Pow10(3) == 1000 && Pow10(5) == 100_000 && Pow10(7) == 10_000_000;
  }

  lemma YearTextOrder(y: nat, z: nat)
    requires y < 10_000 && z < 10_000
    ensures |YearText(y)| == |YearText(z)|
    ensures y < z ==> Less(YearText(y), YearText(z))
  {
    Pow10Values();
    if y < z { PadOrder(y, z, 4); }
  }

  lemma DateTextOrder(layout: seq<Field>, a: Date, b: Date, r: nat, s: nat)
    requires |layout| == 5 && forall f <- layout :: f.width == 2
    requires 0 <= a.year < 10_000 && 0 <= b.year < 10_000 && b.month <= 12 && b.day <= 31
    requires s < SECONDS_PER_DAY
    requires DateBefore(a, b) || (a == b && r < s)
    ensures var x, y := Print(layout, FieldsOf(a, r)), Print(layout, FieldsOf(b, s));
            |YearText(a.year) + x| == |YearText(b.year) + y| && Less(YearText(a.year) + x, YearText(b.year) + y)
  {
    var v, w := FieldsOf(a, r), FieldsOf(b, s);
    var x, y := Print(layout, v), Print(layout, w);
    PrintLength(layout, v, w);
    YearTextOrder(a.year, b.year);
    if a.year < b.year {
      LessByHead(YearText(a.year), YearText(b.year), x, y);
    } else {
      FieldsInOrder(layout, a, b, r, s);
      LessAfterPrefix(YearText(a.year), x, y);
    }
  }

  /** Whole seconds print in a fixed width, and in order. */
  lemma SecondOrder(r: int, s: int)
    requires SecondInRange(r) && SecondInRange(s) && r < s
    ensures |SecondText(r)| == |SecondText(s)| && Less(SecondText(r), SecondText(s))
  {
    var d, e := r / SECONDS_PER_DAY, s / SECONDS_PER_DAY;
    DateBounds(d);
    DateBounds(e);
    if d < e { DatesInOrder(d, e); }
    LayoutWidths();
    DateTextOrder(LAYOUT, DateOf(d), DateOf(e), r % SECONDS_PER_DAY, s % SECONDS_PER_DAY);
  }

  // --------------------------------------------------------- order of fractions

  function Zeros(n: nat): string {
    if n == 0 then "" else "0" + Zeros(n - 1)
  }

  lemma {:induction false} ZerosEnd(n: nat)
    ensures |Zeros(n)| == n && Zeros(n + 1) == Zeros(n) + "0"
  {
    if n > 0 { ZerosEnd(n - 1); }
  }

  lemma {:induction false} TrimZerosShape(s: string)
    ensures |TrimZeros(s)| <= |s|
    ensures s == TrimZeros(s) + Zeros(|s| - |TrimZeros(s)|)
    ensures AllDigits(s) ==> AllDigits(TrimZeros(s))
  {
    if s != "" && s[|s| - 1] == '0' {
      var u := s[..|s| - 1];
      TrimZerosShape(u);
      ZerosEnd(|u| - |TrimZeros(u)|);
      assert s == u + "0";
      assert s == TrimZeros(u) + (Zeros(|u| - |TrimZeros(u)|) + "0");
    }
  }

  lemma {:induction false} NothingBelowZeros(s: string, n: nat)
    requires AllDigits(s) && |s| == n
    ensures !Less(s, Zeros(n))
  {
    if n > 0 {
      assert IsDigit(s[0]);
      NothingBelowZeros(s[1..], n - 1);
    }
  }

  /** The order of two trimmed fractions, given the order of the untrimmed ones. */
  lemma {:induction false} TrimmedOrder(a: string, b: string, i: nat, j: nat)
    requires AllDigits(a) && AllDigits(b) && |a| + i == |b| + j
    requires Less(a + Zeros(i), b + Zeros(j))
    ensures !ProperPrefix(a, b) ==> Less(a + "Z", b + "Z")
    ensures ProperPrefix(a, b) ==> Less(b + "Z", a + "Z")
  {
    ZerosEnd(i);
    ZerosEnd(j);
    if b == "" {
      var s := a + Zeros(i);
      forall c | c in s ensures IsDigit(c) { ZerosAreDigits(i); }
      assert b + Zeros(j) == Zeros(j);
      NothingBelowZeros(s, j);
      assert false;
    } else if a == "" {
      assert IsDigit(b[0]);
      LessTrichotomy(a + "Z", b + "Z");
    } else {
      assert IsDigit(a[0]) && IsDigit(b[0]);
      assert (a + Zeros(i))[1..] == a[1..] + Zeros(i) && (b + Zeros(j))[1..] == b[1..] + Zeros(j);
      assert (a + "Z")[1..] == a[1..] + "Z" && (b + "Z")[1..] == b[1..] + "Z";
      if a[0] == b[0] {
        TrimmedOrder(a[1..], b[1..], i, j);
        assert a == [a[0]] + a[1..] && b == [b[0]] + b[1..];
        assert ProperPrefix(a, b) == ProperPrefix(a[1..], b[1..]);
      }
    }
  }

  lemma {:induction false} ZerosAreDigits(n: nat)
    ensures AllDigits(Zeros(n))
  {
    if n > 0 { ZerosAreDigits(n - 1); }
  }

  /** A number whose trimmed digits are a proper prefix of another's is the smaller one. */
  lemma PrefixIsSmaller(a: string, b: string, width: nat)
    requires AllDigits(b) && |b| <= width && ProperPrefix(a, b)
    ensures !Less(b + Zeros(width - |b|), a + Zeros(width - |a|))
  {
    var rest := b[|a|..] + Zeros(width - |b|);
    ZerosEnd(width - |b|);
    ZerosAreDigits(width - |b|);
    assert b + Zeros(width - |b|) == a + rest;
    assert AllDigits(rest);
    NothingBelowZeros(rest, width - |a|);
    LessAfterPrefix(a, rest, Zeros(width - |a|));
  }

  /** The order of trimmed digit strings: turned around exactly on proper prefixes. */
  predicate TrimmedOutcome(a: string, b: string) {
    && AllDigits(a) && AllDigits(b) && a != b
    && !ProperPrefix(b, a)
    && (!ProperPrefix(a, b) ==> Less(a + "Z", b + "Z"))
    && (ProperPrefix(a, b) ==> Less(b + "Z", a + "Z"))
  }

  lemma PaddedOrder(a: string, b: string, width: nat)
    requires AllDigits(a) && AllDigits(b) && |a| <= width && |b| <= width
    requires Less(a + Zeros(width - |a|), b + Zeros(width - |b|))
    ensures TrimmedOutcome(a, b)
  {
    LessTrichotomy(a + Zeros(width - |a|), b + Zeros(width - |b|));
    TrimmedOrder(a, b, width - |a|, width - |b|);
    if ProperPrefix(b, a) { PrefixIsSmaller(b, a, width); }
  }

  lemma TrimmedNumberOrder(m: nat, n: nat, width: nat)
    requires m < n < Pow10(width)
    ensures TrimmedOutcome(TrimZeros(Pad(m, width)), TrimZeros(Pad(n, width)))
  {
    PadOrder(m, n, width);
    TrimZerosShape(Pad(m, width));
    TrimZerosShape(Pad(n, width));
    PaddedOrder(TrimZeros(Pad(m, width)), TrimZeros(Pad(n, width)), width);
  }

  lemma DottedOrder(a: string, b: string)
    requires AllDigits(a) && AllDigits(b)
    ensures Less(Dotted(a) + "Z", Dotted(b) + "Z") == Less(a + "Z", b + "Z")
  {
    LessAfterPrefix(".", a + "Z", b + "Z");
    if a != "" { assert IsDigit(a[0]) && Dotted(a) + "Z" == "." + (a + "Z"); }
    if b != "" { assert IsDigit(b[0]) && Dotted(b) + "Z" == "." + (b + "Z"); }
  }

  lemma FractionOrder(m: nat, n: nat)
    requires m < n < NANOS_PER_SECOND
    ensures var a, b := FractionDigits(m), FractionDigits(n);
            && !ProperPrefix(b, a) && a != b
            && (!ProperPrefix(a, b) ==> Less(Fraction(m) + "Z", Fraction(n) + "Z"))
            && (ProperPrefix(a, b) ==> Less(Fraction(n) + "Z", Fraction(m) + "Z"))
  {
    Pow10Values();
    TrimmedNumberOrder(m, n, 9);
    DottedOrder(FractionDigits(m), FractionDigits(n));
    DottedOrder(FractionDigits(n), FractionDigits(m));
  }

  // --------------------------------------------------------------- main theorems

  /** Both instants fall in one second, and one trimmed fraction (possibly empty) is a
      proper prefix of the other. This is exactly when the printed order is reversed. */
  predicate Reversed(t: Instant, u: Instant) {
    && t / NANOS_PER_SECOND == u / NANOS_PER_SECOND
    && var a, b := FractionDigits(t % NANOS_PER_SECOND), FractionDigits(u % NANOS_PER_SECOND);
       ProperPrefix(a, b) || ProperPrefix(b, a)
  }

  /** Text order against time order, exactly. */
  lemma TextOrder(t: Instant, u: Instant)
    requires InRange(t) && InRange(u) && t < u
    ensures Less(Format(t), Format(u)) <==> !Reversed(t, u)
    ensures Less(Format(u), Format(t)) <==> Reversed(t, u)
  {
    var r, s := t / NANOS_PER_SECOND, u / NANOS_PER_SECOND;
    var x, y := Fraction(t % NANOS_PER_SECOND) + "Z", Fraction(u % NANOS_PER_SECOND) + "Z";
    assert NANOS_PER_DAY == SECONDS_PER_DAY * NANOS_PER_SECOND;
    assert SecondInRange(r) && SecondInRange(s);
    if r < s {
      SecondOrder(r, s);
      LessByHead(SecondText(r), SecondText(s), x, y);
    } else {
      var m, n := t % NANOS_PER_SECOND, u % NANOS_PER_SECOND;
      FractionOrder(m, n);
      LessAfterPrefix(SecondText(r), x, y);
      LessAfterPrefix(SecondText(r), y, x);
    }
    LessTrichotomy(Format(t), Format(u));
  }

  /** Printing is injective on years 0000 to 9999. */
  lemma FormatInjective(t: Instant, u: Instant)
    requires InRange(t) && InRange(u) && Format(t) == Format(u)
    ensures t == u
  {
    LessTrichotomy(Format(t), Format(u));
    if t < u { TextOrder(t, u); }
    if u < t { TextOrder(u, t); }
  }

  /** The text test `event_time >= bound` keeps an instant exactly when it is not earlier
      than the bound, except that the answer is turned around on reversed pairs. */
  lemma TextBound(t: Instant, bound: Instant)
    requires InRange(t) && InRange(bound)
    ensures !Less(Format(t), Format(bound)) <==> if Reversed(t, bound) then t < bound else bound <= t
  {
    LessTrichotomy(Format(t), Format(bound));
    if t < bound { TextOrder(t, bound); }
    if bound < t {
      TextOrder(bound, t);
      assert Reversed(t, bound) == Reversed(bound, t);
    }
    if t == bound { assert !Reversed(t, bound); }
  }

  /** So a text bound can misplace only instants of the bound's own second. */
  lemma MisplacedOnlyWithinSecond(t: Instant, bound: Instant)
    requires InRange(t) && InRange(bound)
    ensures !Less(Format(t), Format(bound)) != (bound <= t) ==>
            t / NANOS_PER_SECOND == bound / NANOS_PER_SECOND && t != bound
  {
    TextBound(t, bound);
  }

  lemma {:induction false} TrimAllZeros(n: nat)
    ensures TrimZeros(Zeros(n)) == ""
  {
    if n > 0 {
      ZerosEnd(n - 1);
      assert Zeros(n)[..n - 1] == Zeros(n - 1);
      TrimAllZeros(n - 1);
    }
  }

  lemma {:induction false} PadZero(width: nat)
    ensures Pad(0, width) == Zeros(width)
  {
    if width > 0 { PadZero(width - 1); ZerosEnd(width - 1); }
  }

  lemma FractionOfZero()
    ensures FractionDigits(0) == ""
  {
    PadZero(9);
    TrimAllZeros(9);
  }

  lemma {:induction false} NoZeroAtEnd(s: string)
    ensures TrimZeros(s) != "" ==> TrimZeros(s)[|TrimZeros(s)| - 1] != '0'
  {
    if s != "" && s[|s| - 1] == '0' { NoZeroAtEnd(s[..|s| - 1]); }
  }

  /** A printed fraction is missing exactly for whole seconds, and never ends in a zero. */
  lemma FractionTrimmed(nanos: nat)
    requires nanos < NANOS_PER_SECOND
    ensures Fraction(nanos) == "" <==> nanos == 0
    ensures nanos != 0 ==> Fraction(nanos)[0] == '.' && Fraction(nanos)[|Fraction(nanos)| - 1] != '0'
  {
    NoZeroAtEnd(Pad(nanos, 9));
    FractionOfZero();
    if nanos != 0 { FractionOrder(0, nanos); }
  }

  lemma SplitSecond(s: int, nanos: nat)
    requires nanos < NANOS_PER_SECOND
    ensures (s * NANOS_PER_SECOND + nanos) / NANOS_PER_SECOND == s
    ensures (s * NANOS_PER_SECOND + nanos) % NANOS_PER_SECOND == nanos
  {
  }

  /** A whole second prints above every other instant of that second. */
  lemma WholeSecondPrintsLast(s: int, nanos: nat)
    requires 0 < nanos < NANOS_PER_SECOND
    ensures Less(Format(s * NANOS_PER_SECOND + nanos), Format(s * NANOS_PER_SECOND + 0))
  {
    SplitSecond(s, nanos);
    SplitSecond(s, 0);
    FractionOfZero();
    FractionOrder(0, nanos);
    LessAfterPrefix(SecondText(s), Fraction(nanos) + "Z", Fraction(0) + "Z");
  }

  /** Every int64 nanosecond time that is not negative lies in years 1970 to 2262. */
  lemma UnixNanosInRange(n: int)
    requires 0 <= n <= MAX_INT64
    ensures InRange(FromUnixNanos(n))
    ensures 1970 <= DateOf(FromUnixNanos(n) / NANOS_PER_DAY).year <= 2262
  {
    var d := FromUnixNanos(n) / NANOS_PER_DAY;
    assert DAYS_BEFORE_1970 <= d <= DAYS_BEFORE_1970 + 106_751;
    var y, m, before := DateParts(d);
    YearOfInt64(y, d, 1970, 2263);
  }

  lemma YearOfInt64(y: nat, d: nat, first: nat, end: nat)
    requires first == 1970 && end == 2263
    requires DaysBeforeYear(y) <= d < DaysBeforeYear(y + 1)
    requires DAYS_BEFORE_1970 <= d <= DAYS_BEFORE_1970 + 106_751
    ensures first <= y < end
  {
    CalendarTotals(first);
    CalendarTotals(end);
    if y < first { YearsGrow(y + 1, first); }
    if end <= y { YearsGrow(end, y); }
  }

  lemma {:induction false} PrintBytes(layout: seq<Field>, v: seq<nat>)
    requires |layout| == |v| && forall f <- layout :: '|' !in f.separator
    ensures '|' !in Print(layout, v)
  {
    if layout != [] {
      assert forall c <- Pad(v[0], layout[0].width) :: IsDigit(c);
      PrintBytes(layout[1..], v[1..]);
    }
  }

  lemma YearTextBytes(y: int)
    ensures '|' !in YearText(y)
  {
    DigitsShape(if y < 0 then -y else y);
  }

  /** No printed instant, of any year, contains a vertical bar. */
  lemma FormatBytes(t: Instant)
    ensures Format(t) != "" && '|' !in Format(t)
  {
    var s := t / NANOS_PER_SECOND;
    YearTextBytes(DateOf(s / SECONDS_PER_DAY).year);
    assert forall f <- LAYOUT :: '|' !in f.separator;
    PrintBytes(LAYOUT, FieldsOf(DateOf(s / SECONDS_PER_DAY), s % SECONDS_PER_DAY));
    TrimZerosShape(Pad(t % NANOS_PER_SECOND, 9));
    assert '|' !in Fraction(t % NANOS_PER_SECOND);
  }
}
