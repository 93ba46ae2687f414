/** Bytes, decimal numerals over bytes, and the integer widths of the program. */
module Bytes {
  import opened Wrappers

  type Byte = b: int | 0 <= b < 256

  type Bytes = seq<Byte>

  const U64_MAX: nat := 0xFFFF_FFFF_FFFF_FFFF
  /** `usize` on a 64-bit platform. */
  const USIZE_MAX: nat := 0xFFFF_FFFF_FFFF_FFFF

  /** Index of the first `b`, or the length when there is none. */
  function FindByte(s: Bytes, b: Byte): (k: nat)
    ensures k <= |s| && (k < |s| ==> s[k] == b)
    ensures forall i | 0 <= i < k :: s[i] != b
  {
    if s == [] || s[0] == b then 0 else 1 + FindByte(s[1..], b)
  }

  lemma {:induction false} FindByteIs(s: Bytes, b: Byte, k: nat)
    requires k <= |s| && (forall i | 0 <= i < k :: s[i] != b) && (k < |s| ==> s[k] == b)
    ensures FindByte(s, b) == k
  {
    if 0 < k {
      FindByteIs(s[1..], b, k - 1);
    }
  }

  predicate AllZero(s: Bytes) {
    forall i | 0 <= i < |s| :: s[i] == 0
  }

  predicate AllDigits(s: Bytes) {
    forall i | 0 <= i < |s| :: 48 <= s[i] <= 57
  }

  function DigitsValue(s: Bytes): nat
    requires AllDigits(s)
  {
    if s == [] then 0 else 10 * DigitsValue(s[..|s| - 1]) + (s[|s| - 1] - 48)
  }

  /** Unsigned parsing of the Rust standard library: an optional plus sign, digits, no overflow. */
  function ParseUnsigned(s: Bytes, max: nat): Option<nat> {
    var digits := if |s| > 1 && s[0] == 43 then s[1..] else s;
    if digits != [] && AllDigits(digits) && DigitsValue(digits) <= max then Some(DigitsValue(digits)) else None
  }

  function Decimal(n: nat): (s: Bytes)
    ensures |s| > 0
  {
    (if n < 10 then [] else Decimal(n / 10)) + [48 + n % 10]
  }

  /** Number of digits `n` is written with. */
  function Width(n: nat): nat {
    |Decimal(n)|
  }

  lemma {:induction false} DecimalRoundTrip(n: nat)
    ensures AllDigits(Decimal(n)) && DigitsValue(Decimal(n)) == n
  {
    var s := Decimal(n);
    if n >= 10 {
      DecimalRoundTrip(n / 10);
      assert s[..|s| - 1] == Decimal(n / 10);
    } else {
      assert s[..|s| - 1] == [];
    }
  }

  /** A printed number parses back, whenever it fits the width. */
  lemma {:induction false} ParseDecimal(n: nat, max: nat)
    ensures ParseUnsigned(Decimal(n), max) == if n <= max then Some(n) else None
  {
    DecimalRoundTrip(n);
    assert 48 <= Decimal(n)[0] <= 57;
  }

  lemma {:induction false} WidthMonotone(a: nat, b: nat)
    requires a <= b
    ensures Width(a) <= Width(b)
  {
    if a >= 10 {
      WidthMonotone(a / 10, b / 10);
    }
  }

  lemma {:induction false} WidthBound(n: nat)
    ensures Width(n) <= n / 10 + 1
  {
    if n >= 10 {
      WidthBound(n / 10);
    }
  }

  /** Fewer digits than it was written with are enough for any numeral's value. */
  lemma {:induction false} WidthOfValue(s: Bytes)
    requires s != [] && AllDigits(s)
    ensures Width(DigitsValue(s)) <= |s|
  {
    var front := s[..|s| - 1];
    if front == [] {
      assert DigitsValue(front) == 0;
    } else {
      WidthOfValue(front);
      var v := DigitsValue(s);
      if v >= 10 {
        assert v / 10 == DigitsValue(front);
      }
    }
  }
}
