/** Decimal printing and parsing as Go's strconv does it for int64. */
module Decimal {
  import opened Texts

  const MIN_INT64: int := -0x8000_0000_0000_0000
  const MAX_INT64: int := 0x7FFF_FFFF_FFFF_FFFF
  const MAX_UINT64: int := 0xFFFF_FFFF_FFFF_FFFF

  predicate IsInt64(n: int) {
    MIN_INT64 <= n <= MAX_INT64
  }

  function Clamp(n: int): int {
    if n < MIN_INT64 then MIN_INT64 else if n > MAX_INT64 then MAX_INT64 else n
  }

  predicate IsDigit(c: char) {
    '0' <= c <= '9'
  }

  predicate AllDigits(s: string) {
    forall c <- s :: IsDigit(c)
  }

  function Digit(n: nat): (c: char)
    requires n < 10
    ensures IsDigit(c)
  {
    ('0' as int + n) as char
  }

  function DigitValue(c: char): (n: nat)
    requires IsDigit(c)
    ensures n < 10 && Digit(n) == c
  {
    c as int - '0' as int
  }

  // ------------------------------------------------------------------- printing

  function Digits(n: nat): string {
    if n < 10 then [Digit(n)] else Digits(n / 10) + [Digit(n % 10)]
  }

  /** strconv.FormatInt(n, 10). */
  function FormatInt(n: int): string {
    if n < 0 then "-" + Digits(-n) else Digits(n)
  }

  /** The last `width` decimal digits of `n`, zero padded. */
  function Pad(n: nat, width: nat): (s: string)
    ensures |s| == width && AllDigits(s)
  {
    if width == 0 then "" else Pad(n / 10, width - 1) + [Digit(n % 10)]
  }

  function Pow10(w: nat): nat {
    if w == 0 then 1 else 10 * Pow10(w - 1)
  }

  /** Fixed-width printing preserves order. */
  lemma {:induction false} PadOrder(m: nat, n: nat, width: nat)
    requires m < n < Pow10(width)
    ensures Less(Pad(m, width), Pad(n, width))
  {
    var a, b := Pad(m / 10, width - 1), Pad(n / 10, width - 1);
    if m / 10 < n / 10 {
      PadOrder(m / 10, n / 10, width - 1);
      LessByHead(a, b, [Digit(m % 10)], [Digit(n % 10)]);
    } else {
      LessAfterPrefix(a, [Digit(m % 10)], [Digit(n % 10)]);
    }
  }

  lemma {:induction false} DigitsShape(n: nat)
    ensures |Digits(n)| >= 1 && AllDigits(Digits(n))
  {
    if n >= 10 { DigitsShape(n / 10); }
  }

  // -------------------------------------------------------------------- parsing

  /** The number a digit string denotes, when `acc` was read before it. */
  function ValueFrom(acc: nat, s: string): nat
    requires AllDigits(s)
    decreases |s|
  {
    if s == "" then acc else ValueFrom(10 * acc + DigitValue(s[0]), s[1..])
  }

  datatype Scan = Malformed | TooLarge | Scanned(n: nat)

  /** The digit loop of strconv.ParseUint for base 10: it leaves at the first byte that is
      no digit, and also at the first digit that overflows, before looking further. */
  function ScanUint(acc: nat, s: string): Scan
    decreases |s|
  {
    if s == "" then Scanned(acc)
    else if !IsDigit(s[0]) then Malformed
    else if acc >= MAX_UINT64 / 10 + 1 || 10 * acc + DigitValue(s[0]) > MAX_UINT64 then TooLarge
    else ScanUint(10 * acc + DigitValue(s[0]), s[1..])
  }

  datatype Parsed = Parsed(value: int, ok: bool)

  /** strconv.ParseInt(s, 10, 64): the value it returns and whether the error is nil.
      A malformed string yields 0; an out-of-range one the nearest int64. */
  function ParseInt(s: string): Parsed {
    var negative := s != "" && s[0] == '-';
    var body := if s != "" && (s[0] == '-' || s[0] == '+') then s[1..] else s;
    if body == "" then Parsed(0, false)
    else match ScanUint(0, body)
      case Malformed => Parsed(0, false)
      case TooLarge => Parsed(if negative then MIN_INT64 else MAX_INT64, false)
      case Scanned(n) =>
        if !negative && n > MAX_INT64 then Parsed(MAX_INT64, false)
        else if negative && n > -MIN_INT64 then Parsed(MIN_INT64, false)
        else Parsed(if negative then -(n as int) else n, true)
  }

  lemma {:induction false} ValueFromGrows(acc: nat, s: string)
    requires AllDigits(s)
    ensures ValueFrom(acc, s) >= acc
    decreases |s|
  {
    if s != "" { ValueFromGrows(10 * acc + DigitValue(s[0]), s[1..]); }
  }

  /** On digit strings the scan reports exactly the value, or that it exceeds 64 bits. */
  lemma {:induction false} ScanDigits(acc: nat, s: string)
    requires AllDigits(s) && acc <= MAX_UINT64
    ensures ScanUint(acc, s) == if ValueFrom(acc, s) <= MAX_UINT64 then Scanned(ValueFrom(acc, s)) else TooLarge
    decreases |s|
  {
    if s != "" {
      var next := 10 * acc + DigitValue(s[0]);
      ValueFromGrows(next, s[1..]);
      if next <= MAX_UINT64 { ScanDigits(next, s[1..]); }
    }
  }

  /** Out-of-range decimal strings saturate: parsing clamps the exact value. */
  lemma ParseIntSaturates(sign: string, s: string)
    requires sign == "" || sign == "+" || sign == "-"
    requires s != "" && AllDigits(s)
    ensures var exact := if sign == "-" then -(ValueFrom(0, s) as int) else ValueFrom(0, s);
            ParseInt(sign + s) == Parsed(Clamp(exact), IsInt64(exact))
  {
    ScanDigits(0, s);
    assert IsDigit(s[0]);
    if sign == "" { assert sign + s == s; } else { assert (sign + s)[1..] == s; }
  }

  /** After a byte that is no digit nothing matters, except that digits before it which exceed
      64 bits have already ended the scan. */
  lemma {:induction false} ScanStops(acc: nat, digits: string, c: char, rest: string)
    requires AllDigits(digits) && !IsDigit(c) && acc <= MAX_UINT64
    ensures ScanUint(acc, digits + [c] + rest) == if ValueFrom(acc, digits) > MAX_UINT64 then TooLarge else Malformed
    decreases |digits|
  {
    var s := digits + [c] + rest;
    if digits == "" {
      assert s[0] == c;
    } else {
      var next := 10 * acc + DigitValue(digits[0]);
      assert s[1..] == digits[1..] + [c] + rest;
      ValueFromGrows(next, digits[1..]);
      if next <= MAX_UINT64 { ScanStops(next, digits[1..], c, rest); }
    }
  }

  /** A malformed string is read as 0 unless the digits before its first other byte exceed
      64 bits: then it saturates as if nothing followed them. */
  lemma ParseIntStops(sign: string, digits: string, c: char, rest: string)
    requires sign == "" || sign == "+" || sign == "-"
    requires AllDigits(digits) && !IsDigit(c) && (digits == "" && sign == "" ==> c != '+' && c != '-')
    ensures ParseInt(sign + (digits + [c] + rest)) ==
            if ValueFrom(0, digits) > MAX_UINT64 then Parsed(if sign == "-" then MIN_INT64 else MAX_INT64, false)
            else Parsed(0, false)
  {
    var body := digits + [c] + rest;
    ScanStops(0, digits, c, rest);
    assert digits != "" ==> IsDigit(body[0]) && body[0] == digits[0];
    if sign == "" { assert sign + body == body; } else { assert (sign + body)[1..] == body; }
  }

  lemma {:induction false} ValueFromAppend(acc: nat, s: string, c: char)
    requires AllDigits(s) && IsDigit(c)
    ensures AllDigits(s + [c])
    ensures ValueFrom(acc, s + [c]) == 10 * ValueFrom(acc, s) + DigitValue(c)
    decreases |s|
  {
    if s == "" {
      assert s + [c] == [c];
    } else {
      ValueFromAppend(10 * acc + DigitValue(s[0]), s[1..], c);
      assert (s + [c])[1..] == s[1..] + [c];
    }
  }

  lemma {:induction false} ValueOfDigits(n: nat)
    ensures AllDigits(Digits(n)) && ValueFrom(0, Digits(n)) == n
  {
    DigitsShape(n);
    if n >= 10 {
      ValueOfDigits(n / 10);
      ValueFromAppend(0, Digits(n / 10), Digit(n % 10));
    }
  }

  /** Parsing inverts printing. */
  lemma ParseFormat(n: int)
    requires IsInt64(n)
    ensures ParseInt(FormatInt(n)) == Parsed(n, true)
  {
    var m := if n < 0 then -n else n;
    ValueOfDigits(m);
    DigitsShape(m);
    ParseIntSaturates(if n < 0 then "-" else "", Digits(m));
    if n >= 0 { assert "" + Digits(m) == Digits(m); }
  }

  lemma FormatIntInjective(m: int, n: int)
    requires FormatInt(m) == FormatInt(n)
    ensures m == n
  {
    var a, b := if m < 0 then -m else m, if n < 0 then -n else n;
    ValueOfDigits(a);
    ValueOfDigits(b);
    DigitsShape(a);
    DigitsShape(b);
    if m < 0 && n < 0 { assert FormatInt(m)[1..] == Digits(a) && FormatInt(n)[1..] == Digits(b); }
  }

  lemma FormatIntBytes(n: int)
    ensures FormatInt(n) != "" && forall c <- FormatInt(n) :: c == '-' || IsDigit(c)
  {
    DigitsShape(if n < 0 then -n else n);
  }
}
