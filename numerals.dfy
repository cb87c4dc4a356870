/**
 * Decimal integers as the Kotlin runtime reads and writes them:
 * `String.toIntOrNull()` (used for the `limit`/`offset` query parameters and the
 * OTA progress percentage) and `Int.toString()` (used for the espota port and timeout).
 */
module Numerals {
  import opened Wrappers

  const IntMin: int := -0x8000_0000
  const IntMax: int := 0x7fff_ffff

  /** The values of Kotlin's 32-bit `Int`. */
  predicate IsInt32(n: int) {
    IntMin <= n <= IntMax
  }

  predicate IsDigit(c: char) {
    '0' <= c <= '9'
  }

  predicate AllDigits(s: string) {
    forall i :: 0 <= i < |s| ==> IsDigit(s[i])
  }

  /** The value of a string of decimal digits, most significant first. */
  function DigitsValue(s: string): nat
    requires AllDigits(s)
  {
    if s == [] then 0 else DigitsValue(s[..|s| - 1]) * 10 + ((s[|s| - 1] as int) - ('0' as int))
  }

  /** The digits after an optional leading sign. */
  function Unsigned(s: string): string {
    if s != [] && (s[0] == '-' || s[0] == '+') then s[1..] else s
  }

  /** An optional `+` or `-` followed by at least one decimal digit. */
  predicate WellFormed(s: string) {
    Unsigned(s) != [] && AllDigits(Unsigned(s))
  }

  /** The value a well-formed string denotes, before the range check. */
  function SignedValue(s: string): int
    requires WellFormed(s)
  {
    var magnitude: int := DigitsValue(Unsigned(s));
    if s[0] == '-' then -magnitude else magnitude
  }

  /**
   * Kotlin's `toIntOrNull()` in radix 10: an optional `+` or `-`, at least one digit,
   * and a value that fits in an `Int`; anything else is null.
   */
  function ToIntOrNull(s: string): (r: Option<int>)
    ensures r.Some? <==> WellFormed(s) && IsInt32(SignedValue(s))
    ensures r.Some? ==> r.value == SignedValue(s) && IsInt32(r.value)
    ensures r.Some? ==> s != [] && (IsDigit(s[0]) || ((s[0] == '-' || s[0] == '+') && |s| >= 2))
    ensures s == [] ==> r == None
  {
    if s == [] then None
    else
      var negative := s[0] == '-';
      var digits := if s[0] == '-' || s[0] == '+' then s[1..] else s;
      if digits == [] || !AllDigits(digits) then None
      else
        var magnitude: int := DigitsValue(digits);
        var v := if negative then -magnitude else magnitude;
        if IsInt32(v) then Some(v) else None
  }

  /** Leading zeros and a leading `+` are accepted; a bare sign and a value past the `Int` range are not. */
  lemma ToIntOrNullExamples()
    ensures ToIntOrNull("007") == Some(7)
    ensures ToIntOrNull("+5") == Some(5)
    ensures ToIntOrNull("-12") == Some(-12)
    ensures ToIntOrNull("-") == None
    ensures ToIntOrNull("1a") == None
  {
    assert Unsigned("007") == "007" && "007"[..2] == "00" && "00"[..1] == "0" && "0"[..0] == "";
    assert DigitsValue("007") == 7;
    assert Unsigned("+5") == "5" && "5"[..0] == "";
    assert DigitsValue("5") == 5;
    assert Unsigned("-12") == "12" && "12"[..1] == "1" && "1"[..0] == "";
    assert DigitsValue("12") == 12;
    assert Unsigned("-") == [];
    assert !AllDigits("1a") by { assert !IsDigit("1a"[1]); }
  }

  /** The digits of a value one past the largest `Int` do not read back. */
  lemma PastIntMaxIsNull()
    ensures ToIntOrNull(NatToString(IntMax + 1)) == None
  {
    var s := NatToString(IntMax + 1);
    NatToStringValue(IntMax + 1);
    assert IsDigit(s[0]);
    assert Unsigned(s) == s;
  }

  function DigitChar(d: nat): (c: char)
    requires d < 10
    ensures IsDigit(c) && (c as int) - ('0' as int) == d
  {
    (('0' as int) + d) as char
  }

  /** Decimal rendering of a natural number without leading zeros. */
  function NatToString(n: nat): (s: string)
    ensures |s| >= 1 && AllDigits(s)
  {
    if n < 10 then [DigitChar(n)] else NatToString(n / 10) + [DigitChar(n % 10)]
  }

  /** Kotlin's `Int.toString()`: a leading `-` for negative values, then the digits. */
  function IntToString(n: int): (s: string)
    ensures |s| >= 1
  {
    if n < 0 then "-" + NatToString(-n) else NatToString(n)
  }

  lemma {:induction false} NatToStringValue(n: nat)
    ensures DigitsValue(NatToString(n)) == n
  {
    if n >= 10 {
      var s := NatToString(n);
      NatToStringValue(n / 10);
      assert s[..|s| - 1] == NatToString(n / 10);
    }
  }

  /** Reading back what `Int.toString()` wrote gives the same `Int`. */
  lemma IntToStringRoundTrip(n: int)
    requires IsInt32(n)
    ensures ToIntOrNull(IntToString(n)) == Some(n)
  {
    if n < 0 {
      NatToStringValue(-n);
      assert IntToString(n)[1..] == NatToString(-n);
    } else {
      NatToStringValue(n);
    }
  }
}
