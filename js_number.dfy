/**
 * The two number operations of the channel table that are exact on
 * integers: the string conversion `'' + n` (used to build a row's React
 * key from its id) and `Math.ceil(a / b)` for a non-negative numerator and
 * a positive divisor (used to count the loaded pages).
 */
module JsNumber {
  import opened Wrappers

  predicate IsDigit(c: char) {
    '0' <= c <= '9'
  }

  predicate AllDigits(s: string) {
    |s| > 0 && forall i :: 0 <= i < |s| ==> IsDigit(s[i])
  }

  function DigitChar(d: nat): (c: char)
    requires d < 10
    ensures IsDigit(c)
  {
    ('0' as int + d) as char
  }

  function DigitValue(c: char): (d: nat)
    requires IsDigit(c)
    ensures d < 10
  {
    c as int - '0' as int
  }

  /** The decimal digits of `n`, without leading zeros. */
  function NatToString(n: nat): (s: string)
    ensures AllDigits(s)
  {
    if n < 10 then [DigitChar(n)] else NatToString(n / 10) + [DigitChar(n % 10)]
  }

  /** `'' + n` for an integer `n` of magnitude below 10^21 (the range JavaScript prints in plain decimal). */
  function ToString(n: int): string
  {
    if n < 0 then "-" + NatToString(-n) else NatToString(n)
  }

  /** The value of a non-empty string of decimal digits. */
  function DigitsValue(s: string): nat
    requires AllDigits(s)
  {
    if |s| == 1 then DigitValue(s[0])
    else DigitsValue(s[..|s| - 1]) * 10 + DigitValue(s[|s| - 1])
  }

  /** Reads back an optionally signed decimal integer; `None` for anything else. */
  function ParseInteger(s: string): (r: Option<int>)
  {
    if |s| > 0 && s[0] == '-' then
      (if AllDigits(s[1..]) then Some(-(DigitsValue(s[1..]) as int)) else None)
    else if AllDigits(s) then Some(DigitsValue(s))
    else None
  }

  lemma {:induction false} NatToStringRoundTrip(n: nat)
    ensures DigitsValue(NatToString(n)) == n
  {
    if n >= 10 {
      NatToStringRoundTrip(n / 10);
      var s := NatToString(n);
      assert s[..|s| - 1] == NatToString(n / 10);
    }
  }

  /** Parsing the string form of an integer gives the integer back. */
  lemma ToStringRoundTrip(n: int)
    ensures ParseInteger(ToString(n)) == Some(n)
  {
    if n < 0 {
      NatToStringRoundTrip(-n);
      assert ToString(n)[1..] == NatToString(-n);
    } else {
      NatToStringRoundTrip(n);
    }
  }

  /** Distinct integers have distinct string forms. */
  lemma ToStringInjective(a: int, b: int)
    ensures ToString(a) == ToString(b) <==> a == b
  {
    ToStringRoundTrip(a);
    ToStringRoundTrip(b);
  }

  /** `Math.ceil(a / b)`, exact for integers of the magnitude a row count has. */
  function CeilDiv(a: nat, b: nat): (c: nat)
    requires b > 0
    ensures (c - 1) * b < a <= c * b
  {
    (a + b - 1) / b
  }

  /** The bounds of `CeilDiv` pin its value down: it is the least `c` with `a <= c * b`. */
  lemma CeilDivUnique(a: nat, b: nat, c: int)
    requires b > 0
    ensures (c - 1) * b < a <= c * b <==> c == CeilDiv(a, b)
  {
    var q: int := CeilDiv(a, b);
    if c <= q - 1 {
      MulMonotone(c, q - 1, b);  // then c * b < a
    }
    if c >= q + 1 {
      MulMonotone(q, c - 1, b);  // then a <= (c - 1) * b
    }
  }

  lemma MulMonotone(x: int, y: int, b: int)
    requires x <= y && b >= 0
    ensures x * b <= y * b
  {
  }
}
