/**
 * Rust's `str::parse` for the 32-bit integer types (`i32`, `u32`): an
 * optional sign, then one or more decimal digits, and a value in range.
 */
module Numbers {
  import opened Wrappers

  const I32Min: int := -0x8000_0000
  const I32Max: int := 0x7FFF_FFFF
  const U32Max: int := 0xFFFF_FFFF

  /** `Ord::min` on integers. */
  function Min(a: int, b: int): int {
    if a <= b then a else b
  }

  predicate IsDigit(c: char) {
    '0' <= c <= '9'
  }

  predicate AllDigits(s: string) {
    forall i :: 0 <= i < |s| ==> IsDigit(s[i])
  }

  /** The value of a string of decimal digits, most significant first. */
  function DigitsValue(s: string): nat
    requires AllDigits(s)
    decreases |s|
  {
    if s == [] then 0
    else 10 * DigitsValue(s[..|s| - 1]) + (s[|s| - 1] as int - '0' as int)
  }

  function Pow10(n: nat): nat {
    if n == 0 then 1 else 10 * Pow10(n - 1)
  }

  lemma {:induction false} DigitsValueBound(s: string)
    requires AllDigits(s)
    decreases |s|
    ensures DigitsValue(s) < Pow10(|s|)
  {
    if s != [] {
      DigitsValueBound(s[..|s| - 1]);
    }
  }

  /**
   * `from_str_radix(s, 10)` for a type whose values are `lo..=hi`. An empty
   * string and a lone sign are rejected; `+` is accepted before the digits,
   * and `-` only for a signed type (for an unsigned one it is not a digit).
   */
  function ParseInt(s: string, signed: bool, lo: int, hi: int): (r: Option<int>)
    ensures r.Some? ==> lo <= r.value <= hi
    ensures r.Some? && (s == [] || s[0] != '-') ==> r.value >= 0
    ensures r.Some? ==> s != [] && (IsDigit(s[0]) || s[0] == '+' || (signed && s[0] == '-'))
    ensures r.Some? ==> AllDigits(s[1..])
  {
    if s == [] then None
    else if (s[0] == '+' || s[0] == '-') && |s| == 1 then None
    else
      var negative := signed && s[0] == '-';
      var digits := if s[0] == '+' || negative then s[1..] else s;
      if !AllDigits(digits) then None
      else
        var v: int := if negative then -(DigitsValue(digits) as int) else DigitsValue(digits);
        if lo <= v <= hi then Some(v) else None
  }

  /** `s.parse::<i32>()`. */
  function ParseI32(s: string): Option<int> {
    ParseInt(s, true, I32Min, I32Max)
  }

  /** `s.parse::<u32>()`. */
  function ParseU32(s: string): Option<int> {
    ParseInt(s, false, 0, U32Max)
  }

  /** Up to nine plain digits always parse, to their decimal value, in both types. */
  lemma ParseShortDigits(s: string)
    requires s != [] && |s| <= 9 && AllDigits(s)
    ensures ParseI32(s) == Some(DigitsValue(s))
    ensures ParseU32(s) == Some(DigitsValue(s))
  {
    DigitsValueBound(s);
    assert Pow10(|s|) <= Pow10(9) by { Pow10Monotone(|s|, 9); }
  }

  lemma {:induction false} Pow10Monotone(m: nat, n: nat)
    requires m <= n
    decreases n
    ensures Pow10(m) <= Pow10(n)
  {
    if m < n {
      Pow10Monotone(m, n - 1);
    }
  }

  /** A character that is neither a digit nor a leading sign makes the parse fail. */
  lemma StrayCharRejected(s: string, i: nat, signed: bool, lo: int, hi: int)
    requires i < |s| && !IsDigit(s[i])
    requires i > 0 || (s[i] != '+' && s[i] != '-')
    ensures ParseInt(s, signed, lo, hi).None?
  {
  }
}
