/** Decimal text of unsigned 32-bit integers: the form in which the seqno
    sub-record travels, and the partial parse the decoder applies to it. */
module Decimal {
  import opened SyncTypes

  predicate IsDigit(c: char) {
    '0' <= c <= '9'
  }

  predicate AllDigits(s: string) {
    forall i | 0 <= i < |s| :: IsDigit(s[i])
  }

  function DigitChar(d: nat): (c: char)
    requires d < 10
    ensures IsDigit(c) && c as int - '0' as int == d
  {
    ('0' as int + d) as char
  }

  /** The number a string of decimal digits denotes (leading zeros allowed). */
  function DigitsValue(s: string): nat
    requires AllDigits(s)
  {
    if s == [] then 0
    else 10 * DigitsValue(s[..|s| - 1]) + (s[|s| - 1] as int - '0' as int)
  }

  /** The decimal text of n, without leading zeros: a non-empty string of
      digits that denotes exactly n. */
  function ToDecimal(n: nat): (s: string)
    ensures |s| > 0 && AllDigits(s)
    ensures s[0] == '0' ==> n == 0
    ensures DigitsValue(s) == n
  {
    if n < 10 then [DigitChar(n)]
    else
      var prefix := ToDecimal(n / 10);
      var s := prefix + [DigitChar(n % 10)];
      assert s[..|s| - 1] == prefix;
      s
  }

  /** Conversion of text to an unsigned 32-bit integer: it fails on empty
      text, on any character that is not a decimal digit, and on a value that
      does not fit in 32 bits. */
  function ParseU32(s: string): Option<u32>
  {
    if |s| > 0 && AllDigits(s) && DigitsValue(s) < U32_LIMIT then Some(DigitsValue(s))
    else None
  }

  /** Parsing the decimal text of a 32-bit value gives that value back. */
  lemma ParseOfDecimal(n: u32)
    ensures ParseU32(ToDecimal(n)) == Some(n)
  {
  }

  /** The parse rejects empty text and text containing a non-digit. */
  lemma ParseRejectsNonNumeric(s: string, i: nat)
    requires i < |s| && !IsDigit(s[i])
    ensures ParseU32(s) == None && ParseU32([]) == None
  {
  }

  /** A value that does not fit in 32 bits is rejected, not truncated. */
  lemma ParseOverflow(n: nat)
    requires n >= U32_LIMIT
    ensures ParseU32(ToDecimal(n)) == None
  {
  }
}
