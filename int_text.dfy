/** The text form of a 32-bit integer, as `Int32.ToString()` produces it:
    optional minus sign, then decimal digits without leading zeros.
    The duplicate-check service uses this text as its cache key, so what
    matters here is that distinct ids never share a key. */
module IntText {

  /** C#'s `int`: a signed 32-bit integer. */
  newtype int32 = x: int | -0x8000_0000 <= x < 0x8000_0000

  predicate IsDigit(c: char) {
    '0' <= c <= '9'
  }

  predicate AllDigits(s: string) {
    forall i :: 0 <= i < |s| ==> IsDigit(s[i])
  }

  /** A digit string with no superfluous leading zero: the only form ToString emits. */
  predicate Canonical(s: string) {
    |s| >= 1 && AllDigits(s) && (|s| > 1 ==> s[0] != '0')
  }

  function DigitChar(d: nat): (c: char)
    requires d < 10
    ensures IsDigit(c)
  {
    (48 + d) as char
  }

  function DigitValue(c: char): (d: nat)
    requires IsDigit(c)
    ensures d < 10
  {
    c as int - 48
  }

  /** The decimal digits of `n`, most significant first. */
  function DecimalString(n: nat): (s: string)
    ensures Canonical(s)
    ensures |s| == 1 <==> n < 10
  {
    if n < 10 then [DigitChar(n)] else DecimalString(n / 10) + [DigitChar(n % 10)]
  }

  /** The value of a digit string, the inverse of DecimalString. */
  function ParseDecimal(s: string): nat
    requires AllDigits(s)
  {
    if s == [] then 0 else 10 * ParseDecimal(s[..|s| - 1]) + DigitValue(s[|s| - 1])
  }

  /** `id.ToString()` for a C# int under the invariant culture. */
  function ToString(id: int32): (k: string)
    ensures |k| >= 1
    ensures k[0] == '-' <==> id < 0
    ensures id >= 0 ==> Canonical(k) && ParseDecimal(k) == id as int
    ensures id < 0 ==> Canonical(k[1..]) && ParseDecimal(k[1..]) == -(id as int)
  {
    var magnitude := if id < 0 then -(id as int) else id as int;
    ParseOfDecimalString(magnitude);
    if id < 0 then
      var k := ['-'] + DecimalString(magnitude);
      assert k[1..] == DecimalString(magnitude);
      k
    else DecimalString(magnitude)
  }

  lemma {:induction false} ParseOfDecimalString(n: nat)
    ensures ParseDecimal(DecimalString(n)) == n
  {
    var s := DecimalString(n);
    if n >= 10 {
      assert s[..|s| - 1] == DecimalString(n / 10);
      ParseOfDecimalString(n / 10);
    }
  }

  /** A canonical digit string that does not consist of a single zero denotes a positive number. */
  lemma {:induction false} ParsePositive(s: string)
    requires Canonical(s) && s[0] != '0'
    ensures ParseDecimal(s) >= 1
  {
    if |s| > 1 {
      var init := s[..|s| - 1];
      assert init[0] == s[0];
      ParsePositive(init);
    }
  }

  lemma {:induction false} DecimalStringOfParse(s: string)
    requires Canonical(s)
    ensures DecimalString(ParseDecimal(s)) == s
  {
    if |s| > 1 {
      var init := s[..|s| - 1];
      assert init[0] == s[0];
      ParsePositive(init);
      DecimalStringOfParse(init);
      var n := ParseDecimal(s);
      assert n / 10 == ParseDecimal(init) && n % 10 == DigitValue(s[|s| - 1]);
      assert s == init + [s[|s| - 1]];
    }
  }

  /** Distinct naturals have distinct decimal strings. */
  lemma DecimalStringInjective(a: nat, b: nat)
    ensures DecimalString(a) == DecimalString(b) <==> a == b
  {
    ParseOfDecimalString(a);
    ParseOfDecimalString(b);
  }

  /** Distinct ints have distinct `ToString()` keys: a cache keyed by them has no false duplicates. */
  lemma ToStringInjective(a: int32, b: int32)
    ensures ToString(a) == ToString(b) <==> a == b
  {
    if ToString(a) == ToString(b) {
      if a < 0 && b < 0 {
        assert ToString(a)[1..] == DecimalString(-(a as int));
        assert ToString(b)[1..] == DecimalString(-(b as int));
        DecimalStringInjective(-(a as int), -(b as int));
      } else if a >= 0 && b >= 0 {
        DecimalStringInjective(a as int, b as int);
      }
    }
  }
}
