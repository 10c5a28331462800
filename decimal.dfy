/** Base-10 text of unsigned integers: `strconv.ParseUint(s, 10, 32)`, which
    the request handlers use on every numeric header, and the `%d` rendering
    that the report formatters and the beacon scripts use. */
module Decimal {
  import opened Wrappers
  import opened Ints

  predicate IsDigit(c: char) {
    '0' <= c <= '9'
  }

  predicate AllDigits(s: string) {
    forall i :: 0 <= i < |s| ==> IsDigit(s[i])
  }

  function DigitValue(c: char): (d: nat)
    requires IsDigit(c)
    ensures d < 10
  {
    c as int - '0' as int
  }

  function DigitChar(d: nat): (c: char)
    requires d < 10
    ensures IsDigit(c) && DigitValue(c) == d
  {
    ('0' as int + d) as char
  }

  /** The number a string of digits denotes, most significant digit first
      (leading zeros allowed, as in Go). */
  function Value(s: string): nat
    requires AllDigits(s)
  {
    if s == [] then 0 else Value(s[..|s| - 1]) * 10 + DigitValue(s[|s| - 1])
  }

  /** `strconv.FormatUint(n, 10)` / `fmt.Sprintf("%d", n)` for n >= 0. */
  function Format(n: nat): (s: string)
    ensures s != [] && AllDigits(s)
    ensures |s| > 1 ==> s[0] != '0'
  {
    if n < 10 then [DigitChar(n)] else Format(n / 10) + [DigitChar(n % 10)]
  }

  /** `%d` of a signed integer: a minus sign before the digits. */
  function FormatInt(n: int): (s: string)
    ensures s != []
    ensures n < 0 <==> s[0] == '-'
  {
    if n < 0 then "-" + Format(-n) else Format(n)
  }

  /** `strconv.ParseUint(s, 10, 32)`: a non-empty run of decimal digits
      (no sign, no underscores, no prefix) whose value fits in 32 bits;
      anything else is an error. */
  function ParseUint32(s: string): (r: Option<uint32>)
    ensures r.Some? <==> s != [] && AllDigits(s) && Value(s) < TWO_TO_THE_32
    ensures r.Some? ==> r.value == Value(s)
  {
    if s != [] && AllDigits(s) && Value(s) < TWO_TO_THE_32 then Some(Value(s)) else None
  }

  /** Formatting then reading back gives the number again. */
  lemma {:induction false} ValueOfFormat(n: nat)
    ensures Value(Format(n)) == n
  {
    if n >= 10 {
      var s := Format(n);
      assert s[..|s| - 1] == Format(n / 10);
      ValueOfFormat(n / 10);
    }
  }

  /** The decimal text of any uint32 is accepted by the header parser and
      yields that number. */
  lemma ParseFormatRoundTrip(n: uint32)
    ensures ParseUint32(Format(n)) == Some(n)
  {
    ValueOfFormat(n);
  }

  /** The empty string (Go's value of a missing header) is rejected. */
  lemma ParseRejectsEmpty()
    ensures ParseUint32("") == None
  {
  }
}
