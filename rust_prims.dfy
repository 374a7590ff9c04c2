/** The behaviour of the Rust primitives that the color picker relies on:
    `u16` values, clamping, saturating float-to-integer casts, the `f32`
    remainder, `u32::from_str_radix` in base 16, the UTF-8 byte length of a
    `String`, and the uppercase-hexadecimal and decimal formatting of integers.
    Floats are modelled as exact reals. */
module Prims {

  datatype Option<+T> = None | Some(value: T)

  /** Rust's `u16`. */
  type U16 = x: int | 0 <= x <= 0xFFFF

  const U16_MAX: U16 := 0xFFFF
  const U32_LIMIT: nat := 0x1_0000_0000

  /** `x.clamp(lo, hi)` on integers (Rust panics when `lo > hi`). */
  function Clamp(x: int, lo: int, hi: int): (r: int)
    requires lo <= hi
    ensures lo <= r <= hi
    ensures lo <= x <= hi ==> r == x
    ensures x < lo ==> r == lo
    ensures hi < x ==> r == hi
  {
    if x < lo then lo else if x > hi then hi else x
  }

  /** `x.clamp(lo, hi)` on floats. */
  function ClampReal(x: real, lo: real, hi: real): (r: real)
    requires lo <= hi
    ensures lo <= r <= hi
    ensures lo <= x <= hi ==> r == x
  {
    if x < lo then lo else if x > hi then hi else x
  }

  function RMax(a: real, b: real): real { if a >= b then a else b }

  function RMin(a: real, b: real): real { if a <= b then a else b }

  function RAbs(a: real): real { if a < 0.0 then -a else a }

  /** The cast `x as u16` of a finite float: truncation toward zero, with
      negative values saturating to 0 and large ones to 65535. */
  function AsU16(x: real): (r: U16)
    ensures x < 1.0 ==> r == 0
    ensures 0.0 <= x < 65536.0 ==> r as real <= x < r as real + 1.0
    ensures 65535.0 <= x ==> r == U16_MAX
  {
    if x < 0.0 then 0 else if x >= 65535.0 then U16_MAX else x.Floor
  }

  lemma AsU16Monotonic(x: real, y: real)
    requires x <= y
    ensures AsU16(x) <= AsU16(y)
  {
  }

  /** Casting a quotient of naturals truncates it exactly as integer division does. */
  lemma AsU16Quotient(q: int, d: int)
    requires 0 <= q && 0 < d && q / d <= U16_MAX
    ensures AsU16(q as real / d as real) == q / d
  {
    var k, rem := q / d, q % d;
    assert q == k * d + rem;
    assert q as real == k as real * d as real + rem as real;
    assert q as real / d as real == k as real + rem as real / d as real;
    assert 0.0 <= rem as real / d as real < 1.0;
  }

  /** The `%` of two `f32` values with a positive divisor: the remainder of
      the division truncated toward zero, carrying the sign of `x`. */
  function FRem(x: real, y: real): (r: real)
    requires y > 0.0
    ensures 0.0 <= x ==> 0.0 <= r < y
    ensures 0.0 <= x < y ==> r == x
    ensures x < 0.0 ==> -y < r <= 0.0
  {
    var q := (RAbs(x) / y).Floor;
    MulFloorBounds(RAbs(x), y);
    if x >= 0.0 then x - y * (q as real) else x + y * (q as real)
  }

  lemma MulFloorBounds(a: real, y: real)
    requires 0.0 <= a && 0.0 < y
    ensures 0 <= (a / y).Floor
    ensures y * ((a / y).Floor as real) <= a < y * ((a / y).Floor as real) + y
    ensures a < y ==> (a / y).Floor == 0
  {
    var q := a / y;
    var f := q.Floor as real;
    assert q < f + 1.0;
    assert y * q == a;
    MulMonotonic(y, f, q);
    MulMonotonic(y, q, f + 1.0);
    assert y * (f + 1.0) == y * f + y;
    assert a < y * f + y;
    if a < y && q >= 1.0 {
      MulMonotonic(y, 1.0, q);
      assert false;
    }
  }

  lemma SmallMod(a: int, m: int)
    requires 0 <= a < m
    ensures a % m == a
  {
  }

  /** Scaling a non-negative number by a weight in 0..1 keeps it between 0 and itself. */
  lemma ScaleDown(a: real, w: real)
    requires 0.0 <= a && 0.0 <= w <= 1.0
    ensures 0.0 <= a * w <= a && 0.0 <= w * a <= a
  {
    MulMonotonic(1.0 + a, 0.0, w);
    if a > 0.0 {
      MulMonotonic(a, w, 1.0);
    }
  }

  /** A quotient of a non-negative number by a larger positive one lies in 0..1. */
  lemma QuotientInUnit(a: real, b: real)
    requires 0.0 <= a <= b && 0.0 < b
    ensures 0.0 <= a / b <= 1.0
    ensures a == 0.0 ==> a / b == 0.0
    ensures a == b ==> a / b == 1.0
  {
    var q := a / b;
    assert b * q == a;
    if a == b {
      assert b * 1.0 == a;
    }
    if q > 1.0 {
      MulMonotonic(b, 1.0, q);
    } else if q < 0.0 {
      MulMonotonic(b, q, 0.0);
    }
  }

  lemma MulMonotonic(y: real, u: real, w: real)
    requires 0.0 < y && u <= w
    ensures y * u <= y * w
    ensures u < w ==> y * u < y * w
  {
  }

  // ---------------------------------------------------------------------
  // Digits and base-16 parsing (`char::to_digit(16)`, `u32::from_str_radix`)
  // ---------------------------------------------------------------------

  /** `ch.to_digit(16)`: the value of a hexadecimal digit of either case. */
  function HexDigitValue(ch: char): (d: Option<nat>)
    ensures d.Some? ==> d.value < 16 && (ch as int) < 0x80 && ch != '+' && ch != '-'
  {
    if '0' <= ch <= '9' then Some(ch as int - '0' as int)
    else if 'a' <= ch <= 'f' then Some(ch as int - 'a' as int + 10)
    else if 'A' <= ch <= 'F' then Some(ch as int - 'A' as int + 10)
    else None
  }

  /** Every character of `ds` is a hexadecimal digit. */
  predicate AllHexDigits(ds: string)
  {
    forall i :: 0 <= i < |ds| ==> HexDigitValue(ds[i]).Some?
  }

  function Pow16(n: nat): (p: nat)
    ensures p >= 1
  {
    if n == 0 then 1 else 16 * Pow16(n - 1)
  }

  /** The big-endian value of a string of hexadecimal digits, or None when one
      of them is not a digit. */
  function ParseHexDigits(ds: string): (r: Option<nat>)
    ensures r.Some? <==> AllHexDigits(ds)
    ensures r.Some? ==> r.value < Pow16(|ds|)
  {
    if |ds| == 0 then Some(0)
    else
      var init, last := ds[..|ds| - 1], ds[|ds| - 1];
      assert forall i :: 0 <= i < |init| ==> init[i] == ds[i];
      match ParseHexDigits(init)
      case None => None
      case Some(high) =>
        match HexDigitValue(last)
        case None => None
        case Some(d) => Some(high * 16 + d)
  }

  /** Appending a digit shifts the value one place and adds the digit. */
  lemma ParseHexAppend(ds: string, ch: char, high: nat, d: nat)
    requires ParseHexDigits(ds) == Some(high) && HexDigitValue(ch) == Some(d)
    ensures ParseHexDigits(ds + [ch]) == Some(high * 16 + d)
  {
    var s := ds + [ch];
    assert s[..|s| - 1] == ds;
    assert s[|s| - 1] == ch;
  }

  lemma AllHexDigitsConcat(a: string, b: string)
    requires AllHexDigits(a) && AllHexDigits(b)
    ensures AllHexDigits(a + b)
  {
    forall i | 0 <= i < |a + b| ensures HexDigitValue((a + b)[i]).Some? {
      if i < |a| {
        assert (a + b)[i] == a[i];
      } else {
        assert (a + b)[i] == b[i - |a|];
      }
    }
  }

  /** Reading the digits of `a + b` reads `a`, shifts it by the length of
      `b`, and adds `b`. */
  lemma {:induction false} ParseHexConcat(a: string, b: string)
    requires AllHexDigits(a) && AllHexDigits(b)
    ensures ParseHexDigits(a + b) == Some(ParseHexDigits(a).value * Pow16(|b|) + ParseHexDigits(b).value)
  {
    if |b| == 0 {
      assert a + b == a;
    } else {
      var b', last := b[..|b| - 1], b[|b| - 1];
      assert b' + [last] == b;
      assert (a + b') + [last] == a + b;
      assert AllHexDigits(b') by {
        forall i | 0 <= i < |b'| ensures HexDigitValue(b'[i]).Some? {
          assert b'[i] == b[i];
        }
      }
      ParseHexConcat(a, b');
      var pa, pb' := ParseHexDigits(a).value, ParseHexDigits(b').value;
      var d := HexDigitValue(last).value;
      ParseHexAppend(b', last, pb', d);
      ParseHexAppend(a + b', last, pa * Pow16(|b'|) + pb', d);
      ShiftOneDigit(pa, Pow16(|b'|), pb', d);
    }
  }

  lemma ShiftOneDigit(pa: nat, p: nat, pb: nat, d: nat)
    ensures (pa * p + pb) * 16 + d == pa * (16 * p) + (pb * 16 + d)
  {
  }

  /** `u32::from_str_radix(src, 16)`: an optional leading `+` followed by at
      least one hexadecimal digit, whose value must fit in 32 bits. */
  function FromStrRadix16(src: string): (r: Option<nat>)
    ensures r.Some? ==> r.value < U32_LIMIT
  {
    if |src| == 0 then None
    else if (src[0] == '+' || src[0] == '-') && |src| == 1 then None
    else
      var digits := if src[0] == '+' then src[1..] else src;
      match ParseHexDigits(digits)
      case None => None
      case Some(n) => if n < U32_LIMIT then Some(n) else None
  }

  /** Unsigned digits are read as they are, when the value fits in 32 bits. */
  lemma FromStrRadix16Digits(src: string)
    requires 0 < |src| && AllHexDigits(src) && ParseHexDigits(src).value < U32_LIMIT
    ensures FromStrRadix16(src) == ParseHexDigits(src)
  {
    assert HexDigitValue(src[0]).Some?;
  }

  /** `s.strip_prefix(ch)`. */
  function StripPrefix(s: string, ch: char): (r: Option<string>)
    ensures r.Some? <==> |s| > 0 && s[0] == ch
    ensures r.Some? ==> r.value == s[1..]
  {
    if |s| > 0 && s[0] == ch then Some(s[1..]) else None
  }

  // ---------------------------------------------------------------------
  // UTF-8 length (`String::len` counts bytes)
  // ---------------------------------------------------------------------

  predicate IsAscii(ch: char) { (ch as int) < 0x80 }

  /** The number of bytes UTF-8 uses for one scalar value. */
  function Utf8Width(ch: char): (w: nat)
    ensures 1 <= w <= 4
    ensures w == 1 <==> IsAscii(ch)
  {
    if (ch as int) < 0x80 then 1
    else if (ch as int) < 0x800 then 2
    else if (ch as int) < 0x1_0000 then 3
    else 4
  }

  /** The byte length of the UTF-8 encoding of `s`: never less than its
      number of characters, and equal to it exactly when all are ASCII. */
  function Utf8Len(s: string): (n: nat)
    ensures n >= |s|
    ensures n == |s| <==> forall i :: 0 <= i < |s| ==> IsAscii(s[i])
  {
    if |s| == 0 then 0
    else
      var rest := s[1..];
      assert forall i :: 0 <= i < |rest| ==> rest[i] == s[i + 1];
      Utf8Width(s[0]) + Utf8Len(rest)
  }

  // ---------------------------------------------------------------------
  // Formatting of integers
  // ---------------------------------------------------------------------

  /** The uppercase hexadecimal digit for `d`. */
  function UpperHexDigit(d: nat): (ch: char)
    requires d < 16
    ensures HexDigitValue(ch) == Some(d)
    ensures '0' <= ch <= '9' || 'A' <= ch <= 'F'
  {
    if d < 10 then ('0' as int + d) as char else ('A' as int + d - 10) as char
  }

  /** `format!("{:X}", n)`: uppercase hexadecimal without leading zeros. */
  function UpperHex(n: nat): (s: string)
    ensures 1 <= |s|
    ensures n < 16 <==> |s| == 1
    ensures n < 256 ==> |s| <= 2
    ensures AllHexDigits(s)
    ensures forall i :: 0 <= i < |s| ==> '0' <= s[i] <= '9' || 'A' <= s[i] <= 'F'
    decreases n
  {
    if n < 16 then [UpperHexDigit(n)]
    else
      var high := UpperHex(n / 16);
      var s := high + [UpperHexDigit(n % 16)];
      assert forall i :: 0 <= i < |high| ==> s[i] == high[i];
      s
  }

  /** Reading back the digits `UpperHex` writes gives the number. */
  lemma {:induction false} UpperHexParses(n: nat)
    ensures ParseHexDigits(UpperHex(n)) == Some(n)
    decreases n
  {
    if n >= 16 {
      UpperHexParses(n / 16);
      var s := UpperHex(n);
      assert s[..|s| - 1] == UpperHex(n / 16);
    }
  }

  /** The decimal digit for `d`. */
  function DecimalDigit(d: nat): (ch: char)
    requires d < 10
    ensures '0' <= ch <= '9' && ch as int - '0' as int == d
  {
    ('0' as int + d) as char
  }

  /** `n.to_string()`: decimal without leading zeros. */
  function Decimal(n: nat): (s: string)
    ensures 1 <= |s|
    ensures forall i :: 0 <= i < |s| ==> '0' <= s[i] <= '9'
    decreases n
  {
    if n < 10 then [DecimalDigit(n)]
    else
      var high := Decimal(n / 10);
      var s := high + [DecimalDigit(n % 10)];
      assert forall i :: 0 <= i < |high| ==> s[i] == high[i];
      s
  }

  /** The value of a string of decimal digits. */
  function DecimalValue(s: string): nat
    requires forall i :: 0 <= i < |s| ==> '0' <= s[i] <= '9'
  {
    if |s| == 0 then 0
    else
      var init := s[..|s| - 1];
      assert forall i :: 0 <= i < |init| ==> init[i] == s[i];
      DecimalValue(init) * 10 + (s[|s| - 1] as int - '0' as int)
  }

  /** The text `Decimal` writes reads back as the number. */
  lemma {:induction false} DecimalRoundTrip(n: nat)
    ensures DecimalValue(Decimal(n)) == n
    decreases n
  {
    if n >= 10 {
      DecimalRoundTrip(n / 10);
      var s := Decimal(n);
      assert s[..|s| - 1] == Decimal(n / 10);
    }
  }
}
