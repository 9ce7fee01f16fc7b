/**
 * Unsigned 64-bit match identifiers and an idealised decimal parser standing
 * for `ulong.TryParse`: a non-empty string of ASCII digits whose value fits
 * in 64 bits.
 */
module UInt64 {
  import opened Wrappers

  /** The largest value of a C# `ulong`, 2^64 - 1. */
  const MaxULong: int := 0xFFFF_FFFF_FFFF_FFFF

  type ULong = x: int | 0 <= x <= MaxULong

  predicate IsDigit(c: char) {
    '0' <= c <= '9'
  }

  predicate AllDigits(s: string) {
    forall i :: 0 <= i < |s| ==> IsDigit(s[i])
  }

  predicate IsDecimal(s: string) {
    |s| > 0 && AllDigits(s)
  }

  /** The value of a string of decimal digits, most significant first. */
  function DecimalValue(s: string): nat
    requires AllDigits(s)
    decreases |s|
  {
    if s == [] then 0
    else DecimalValue(s[..|s| - 1]) * 10 + (s[|s| - 1] as int - '0' as int)
  }

  /** `ulong.TryParse`: the value when the text is a decimal that fits, otherwise nothing. */
  function TryParse(s: string): Option<ULong> {
    if IsDecimal(s) && DecimalValue(s) <= MaxULong then Some(DecimalValue(s)) else None
  }

  function DigitChar(d: nat): char
    requires d < 10
  {
    ('0' as int + d) as char
  }

  /** The canonical decimal text of a number (no sign, no leading zero). */
  function ToDecimal(n: nat): string
    decreases n
  {
    if n < 10 then [DigitChar(n)] else ToDecimal(n / 10) + [DigitChar(n % 10)]
  }

  function Pow10(k: nat): (p: nat)
    ensures p >= 1
  {
    if k == 0 then 1 else 10 * Pow10(k - 1)
  }

  lemma {:induction false} ToDecimalValue(n: nat)
    ensures IsDecimal(ToDecimal(n))
    ensures DecimalValue(ToDecimal(n)) == n
  {
    if n >= 10 {
      ToDecimalValue(n / 10);
      var s := ToDecimal(n);
      assert s[..|s| - 1] == ToDecimal(n / 10);
    }
  }

  /** Every ulong's decimal text parses back to it. */
  lemma TryParseToDecimal(n: ULong)
    ensures TryParse(ToDecimal(n)) == Some(n)
  {
    ToDecimalValue(n);
  }

  /** A number beyond 2^64 - 1 written in decimal is refused, not wrapped around. */
  lemma TryParseRejectsOverflow(n: nat)
    requires n > MaxULong
    ensures TryParse(ToDecimal(n)) == None
  {
    ToDecimalValue(n);
  }

  lemma {:induction false} DecimalValueBound(s: string)
    requires AllDigits(s)
    ensures DecimalValue(s) < Pow10(|s|)
  {
    if s != [] {
      DecimalValueBound(s[..|s| - 1]);
    }
  }

  lemma {:induction false} Pow10Monotone(j: nat, k: nat)
    requires j <= k
    ensures Pow10(j) <= Pow10(k)
  {
    if j < k {
      Pow10Monotone(j, k - 1);
    }
  }

  /** 10^19, unfolded one power at a time. */
  lemma Pow10Nineteen()
    ensures Pow10(19) == 10_000_000_000_000_000_000
  {
    assert Pow10(1) == 10;
    assert Pow10(2) == 100;
    assert Pow10(3) == 1000;
    assert Pow10(4) == 10000;
    assert Pow10(5) == 100000;
    assert Pow10(6) == 1000000;
    assert Pow10(7) == 10000000;
    assert Pow10(8) == 100000000;
    assert Pow10(9) == 1000000000;
    assert Pow10(10) == 10000000000;
    assert Pow10(11) == 100000000000;
    assert Pow10(12) == 1000000000000;
    assert Pow10(13) == 10000000000000;
    assert Pow10(14) == 100000000000000;
    assert Pow10(15) == 1000000000000000;
    assert Pow10(16) == 10000000000000000;
    assert Pow10(17) == 100000000000000000;
    assert Pow10(18) == 1000000000000000000;
    assert Pow10(19) == 10000000000000000000;
  }

  /** Any decimal of at most 19 digits fits in a ulong, so it parses. */
  lemma ShortDecimalParses(s: string)
    requires IsDecimal(s) && |s| <= 19
    ensures TryParse(s) == Some(DecimalValue(s))
  {
    DecimalValueBound(s);
    Pow10Monotone(|s|, 19);
    Pow10Nineteen();
  }

  /** Leading zeros do not change the parsed value. */
  lemma {:induction false} LeadingZeroIgnored(s: string)
    requires AllDigits(s)
    ensures AllDigits("0" + s) && DecimalValue("0" + s) == DecimalValue(s)
  {
    if s != [] {
      var t := "0" + s;
      assert t[..|t| - 1] == "0" + s[..|s| - 1];
      LeadingZeroIgnored(s[..|s| - 1]);
    }
  }

  lemma TryParseLeadingZero(s: string)
    requires IsDecimal(s)
    ensures TryParse("0" + s) == TryParse(s)
  {
    LeadingZeroIgnored(s);
  }
}
