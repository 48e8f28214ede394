/**
 Decimal rendering of run lengths, as Rust's `{}` formatting of a positive
 integer writes them, and the digit reading used to parse a compressed CIGAR
 back.
 */
module Decimal {

  predicate IsDigit(c: char)
  {
    '0' as int <= c as int <= '9' as int
  }

  /** The character of the decimal digit `d`. */
  function DigitChar(d: nat): char
    requires d < 10
  {
    ('0' as int + d) as char
  }

  /** The number a string of decimal digits denotes, most significant first. */
  function Value(ds: string): nat
    requires forall j :: 0 <= j < |ds| ==> IsDigit(ds[j])
  {
    if ds == [] then 0
    else
      assert IsDigit(ds[|ds| - 1]);
      10 * Value(ds[..|ds| - 1]) + (ds[|ds| - 1] as int - '0' as int)
  }

  /**
   The decimal digits of `n`: never empty, no leading zero, and they read
   back as `n`.
   */
  function Digits(n: nat): (ds: string)
    ensures |ds| >= 1
    ensures forall j :: 0 <= j < |ds| ==> IsDigit(ds[j])
    ensures n >= 1 ==> ds[0] != '0'
    ensures Value(ds) == n
  {
    if n < 10 then [DigitChar(n)]
    else
      var prefix := Digits(n / 10);
      assert (prefix + [DigitChar(n % 10)])[..|prefix|] == prefix;
      prefix + [DigitChar(n % 10)]
  }

  /** Number of leading digit characters of `t`. */
  function DigitSpan(t: string): (k: nat)
    ensures k <= |t|
    ensures forall j :: 0 <= j < k ==> IsDigit(t[j])
    ensures k == |t| || !IsDigit(t[k])
  {
    if t == [] || !IsDigit(t[0]) then 0 else 1 + DigitSpan(t[1..])
  }

  /** The leading digit span is determined by its defining facts. */
  lemma DigitSpanUnique(t: string, k: nat)
    requires k <= |t|
    requires forall j :: 0 <= j < k ==> IsDigit(t[j])
    requires k == |t| || !IsDigit(t[k])
    ensures DigitSpan(t) == k
  {
  }

  /** In digits followed by a non-digit, the digit span stops exactly at the digits. */
  lemma DigitSpanOfNumber(n: nat, c: char, rest: string)
    requires !IsDigit(c)
    ensures DigitSpan(Digits(n) + [c] + rest) == |Digits(n)|
  {
    var t := Digits(n) + [c] + rest;
    assert t[|Digits(n)|] == c;
    DigitSpanUnique(t, |Digits(n)|);
  }
}
