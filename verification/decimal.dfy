/** Parsing a post number as an unsigned 64-bit integer, the way the
    standard `u64` parser does: an optional single leading `+`, then at least
    one ASCII digit, and a value that fits in 64 bits. */
module Decimal {
  import opened Results

  const U64Max: nat := 0xFFFF_FFFF_FFFF_FFFF

  predicate IsDigit(c: char) {
    '0' <= c <= '9'
  }

  predicate AllDigits(s: string) {
    forall j :: 0 <= j < |s| ==> IsDigit(s[j])
  }

  function DigitValue(c: char): (d: nat)
    requires IsDigit(c)
    ensures d < 10
  {
    c as int - '0' as int
  }

  function DigitChar(d: nat): (c: char)
    requires d < 10
    ensures IsDigit(c) && DigitValue(c) == d
  {
    ('0' as int + d) as char
  }

  /** Value of a digit string read most significant digit first. */
  function DigitsValue(s: string): nat
    requires AllDigits(s)
    decreases |s|
  {
    if s == [] then 0 else 10 * DigitsValue(s[..|s| - 1]) + DigitValue(s[|s| - 1])
  }

  /** `str::parse::<u64>`: `None` for empty text, a bare sign, any non-digit
      (a `-` included) or a value above 2^64 - 1. */
  function ParseU64(s: string): (r: Option<nat>)
    ensures r.Some? ==> r.value <= U64Max
    ensures r.Some? ==> s != [] && (s[0] == '+' || IsDigit(s[0]))
    ensures r.Some? ==> var digits := if s[0] == '+' then s[1..] else s;
      digits != [] && AllDigits(digits) && DigitsValue(digits) == r.value
    ensures s == [] || s == "+" ==> r.None?
    ensures r.Some? <==>
      (s != [] && var digits := if s[0] == '+' then s[1..] else s;
        digits != [] && AllDigits(digits) && DigitsValue(digits) <= U64Max)
  {
    if s == [] then None
    else
      var digits := if s[0] == '+' then s[1..] else s;
      if digits == [] || !AllDigits(digits) then None
      else
        var v := DigitsValue(digits);
        if v <= U64Max then Some(v) else None
  }

  /** The canonical decimal rendering of a number. */
  function DecimalString(n: nat): (s: string)
    ensures s != [] && AllDigits(s)
    decreases n
  {
    if n < 10 then [DigitChar(n)] else DecimalString(n / 10) + [DigitChar(n % 10)]
  }

  lemma {:induction false} DecimalStringValue(n: nat)
    ensures DigitsValue(DecimalString(n)) == n
    decreases n
  {
    var s := DecimalString(n);
    if n >= 10 {
      DecimalStringValue(n / 10);
      assert s[..|s| - 1] == DecimalString(n / 10);
    }
  }

  /** Every `u64` survives rendering and parsing back. */
  lemma ParseDecimalString(n: nat)
    requires n <= U64Max
    ensures ParseU64(DecimalString(n)) == Some(n)
  {
    DecimalStringValue(n);
  }
}
