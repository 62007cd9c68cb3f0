/**
 * Decimal text of integers: Swift's `Int(_: String)` initializer on the
 * 64-bit `Int` of the platforms the functions run on, and the rendering of
 * a number as decimal digits.
 */
module Numerals {
  import opened Results

  /** The bounds of Swift's 64-bit `Int`. */
  const IntMin: int := -0x8000_0000_0000_0000
  const IntMax: int := 0x7FFF_FFFF_FFFF_FFFF

  predicate IsDigit(c: char) {
    '0' <= c <= '9'
  }

  predicate AllDigits(s: string) {
    forall i :: 0 <= i < |s| ==> IsDigit(s[i])
  }

  function DigitValue(c: char): nat
    requires IsDigit(c)
  {
    c as int - '0' as int
  }

  /** The value of a string of decimal digits, most significant first. */
  function DigitsValue(s: string): nat
    requires AllDigits(s)
    decreases |s|
  {
    if s == [] then 0 else 10 * DigitsValue(s[..|s| - 1]) + DigitValue(s[|s| - 1])
  }

  function Digit(d: nat): (c: char)
    requires d < 10
    ensures IsDigit(c) && DigitValue(c) == d
  {
    ('0' as int + d) as char
  }

  /** The decimal text of `n`, without leading zeros. */
  function ShowNat(n: nat): (s: string)
    ensures |s| > 0 && AllDigits(s)
    decreases n
  {
    if n < 10 then [Digit(n)] else ShowNat(n / 10) + [Digit(n % 10)]
  }

  /** Reading back the decimal text of `n` gives `n`; so `ShowNat` is injective. */
  lemma {:induction false} ValueOfShowNat(n: nat)
    ensures DigitsValue(ShowNat(n)) == n
    decreases n
  {
    if n >= 10 {
      ValueOfShowNat(n / 10);
      var s := ShowNat(n);
      assert s[..|s| - 1] == ShowNat(n / 10);
    }
  }

  /** `String(n)` for an `Int`: a minus sign for negative values, then the digits. */
  function ShowInt(n: int): (s: string)
    ensures |s| > 0
    ensures s[0] == '-' <==> n < 0
    ensures forall i :: 0 < i < |s| ==> IsDigit(s[i])
    ensures n >= 0 ==> IsDigit(s[0])
  {
    if n < 0 then "-" + ShowNat(-n) else ShowNat(n)
  }

  /** An optional `+` or `-`, then one or more ASCII digits (leading zeros allowed). */
  predicate Numeral(s: string) {
    if |s| > 0 && (s[0] == '+' || s[0] == '-') then |s| > 1 && AllDigits(s[1..])
    else |s| > 0 && AllDigits(s)
  }

  /** The number a numeral denotes, its sign applied. */
  function NumeralValue(s: string): int
    requires Numeral(s)
  {
    if s[0] == '-' then -(DigitsValue(s[1..]) as int)
    else if s[0] == '+' then DigitsValue(s[1..])
    else DigitsValue(s)
  }

  /**
   * Swift's `Int(text)`: an optional `+` or `-`, then one or more ASCII
   * digits whose value fits in `Int`; `nil` for any other text.
   */
  function ParseInt(s: string): (r: Option<int>)
    ensures r.Some? <==> Numeral(s) && IntMin <= NumeralValue(s) <= IntMax
    ensures r.Some? ==> r.value == NumeralValue(s)
    ensures r.Some? ==> IntMin <= r.value <= IntMax
    ensures r.Some? ==> |s| > 0 && (IsDigit(s[0]) || s[0] == '+' || s[0] == '-')
    ensures r.Some? ==> forall i :: 0 < i < |s| ==> IsDigit(s[i])
    ensures r.Some? && s[0] == '-' ==> r.value <= 0
    ensures r.Some? && s[0] != '-' ==> r.value >= 0
  {
    if |s| > 0 && (s[0] == '+' || s[0] == '-') then
      var digits := s[1..];
      if digits == [] || !AllDigits(digits) then None
      else
        var v: int := if s[0] == '-' then -(DigitsValue(digits) as int) else DigitsValue(digits);
        if IntMin <= v <= IntMax then Some(v) else None
    else if s == [] || !AllDigits(s) then None
    else if DigitsValue(s) <= IntMax then Some(DigitsValue(s))
    else None
  }

  /** Round trip: the decimal text of any `Int` parses back to it. */
  lemma ParseShowInt(n: int)
    requires IntMin <= n <= IntMax
    ensures ParseInt(ShowInt(n)) == Some(n)
  {
    if n < 0 {
      ValueOfShowNat(-n);
      assert ("-" + ShowNat(-n))[1..] == ShowNat(-n);
    } else {
      ValueOfShowNat(n);
    }
  }

  /** A `+` sign and leading zeros are accepted, and a negative zero is zero. */
  lemma ParseIntAcceptsSignAndZeros()
    ensures ParseInt("+5") == Some(5)
    ensures ParseInt("007") == Some(7)
    ensures ParseInt("-0") == Some(0)
  {
    assert "+5"[1..] == "5";
    assert "007"[..2] == "00" && "00"[..1] == "0" && "0"[..0] == "";
    assert "-0"[1..] == "0";
  }

  /** A sign alone, the empty text and text with a non-digit are rejected. */
  lemma ParseIntRejects(s: string, i: nat)
    requires i < |s| && !IsDigit(s[i]) && (i > 0 || (s[0] != '+' && s[0] != '-'))
    ensures ParseInt(s) == None && ParseInt("") == None && ParseInt("+") == None && ParseInt("-") == None
  {
  }
}
