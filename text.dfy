/** The string operations the game's messages depend on: the decimal rendering
    a JavaScript template literal gives an integer (for the integers a double
    holds exactly), `String.prototype.includes`
    (used to decide whether "Play Again" is shown), and a suffix test used to
    read a parity hint back out of a message. */
module Text {

  predicate IsDigit(c: char) {
    '0' <= c <= '9'
  }

  function Digit(d: int): (c: char)
    requires 0 <= d < 10
    ensures IsDigit(c) && c as int - '0' as int == d
  {
    ('0' as int + d) as char
  }

  function DigitValue(c: char): (d: int) {
    c as int - '0' as int
  }

  /** Decimal digits of a natural number, most significant first, no leading zeros. */
  function NatToDecimal(n: nat): (s: string)
    ensures |s| > 0
    ensures forall k :: 0 <= k < |s| ==> IsDigit(s[k])
    ensures n >= 10 ==> s[0] != '0'
    decreases n
  {
    if n < 10 then [Digit(n)] else NatToDecimal(n / 10) + [Digit(n % 10)]
  }

  /** How `${i}` renders an integer: a minus sign for negatives, then the digits. */
  function IntToDecimal(i: int): (s: string)
    ensures |s| > 0 && IsDigit(s[|s| - 1])
    ensures forall k :: 0 <= k < |s| ==> IsDigit(s[k]) || (k == 0 && s[k] == '-')
    ensures (s[0] == '-') <==> i < 0
  {
    if i < 0 then "-" + NatToDecimal(-i) else NatToDecimal(i)
  }

  /** The value of a string of decimal digits (the inverse of NatToDecimal). */
  function DecimalValue(s: string): (n: int)
    decreases |s|
  {
    if |s| == 0 then 0 else DecimalValue(s[..|s| - 1]) * 10 + DigitValue(s[|s| - 1])
  }

  /** The value of an optionally signed decimal (the inverse of IntToDecimal). */
  function SignedDecimalValue(s: string): (i: int) {
    if |s| > 0 && s[0] == '-' then -DecimalValue(s[1..]) else DecimalValue(s)
  }

  lemma {:induction false} NatToDecimalRoundTrip(n: nat)
    ensures DecimalValue(NatToDecimal(n)) == n
    decreases n
  {
    if n >= 10 {
      NatToDecimalRoundTrip(n / 10);
      var s := NatToDecimal(n);
      assert s[..|s| - 1] == NatToDecimal(n / 10);
    }
  }

  lemma IntToDecimalRoundTrip(i: int)
    ensures SignedDecimalValue(IntToDecimal(i)) == i
  {
    if i < 0 {
      NatToDecimalRoundTrip(-i);
      assert IntToDecimal(i)[1..] == NatToDecimal(-i);
    } else {
      NatToDecimalRoundTrip(i);
    }
  }

  /** Distinct integers render to distinct strings. */
  lemma IntToDecimalInjective(i: int, j: int)
    requires IntToDecimal(i) == IntToDecimal(j)
    ensures i == j
  {
    IntToDecimalRoundTrip(i);
    IntToDecimalRoundTrip(j);
  }

  /** `s.includes(sub)`: sub occurs in s at some position. */
  predicate Contains(s: string, sub: string)
    decreases |s|
  {
    if |s| < |sub| then false
    else s[..|sub|] == sub || Contains(s[1..], sub)
  }

  lemma ContainsPrefix(sub: string, rest: string)
    ensures Contains(sub + rest, sub)
  {
    assert (sub + rest)[..|sub|] == sub;
  }

  /** Text added at the end does not hide an occurrence. */
  lemma {:induction false} ContainsAppend(s: string, sub: string, rest: string)
    requires Contains(s, sub)
    ensures Contains(s + rest, sub)
    decreases |s|
  {
    assert (s + rest)[..|sub|] == s[..|sub|];
    if s[..|sub|] != sub {
      assert (s + rest)[1..] == s[1..] + rest;
      ContainsAppend(s[1..], sub, rest);
    }
  }

  /** A string that lacks the first character of sub cannot contain sub. */
  lemma {:induction false} AbsentFirstCharNotContained(s: string, sub: string)
    requires |sub| > 0 && sub[0] !in s
    ensures !Contains(s, sub)
    decreases |s|
  {
    if |s| >= |sub| {
      assert s[..|sub|][0] == s[0];
      assert forall c :: c in s[1..] ==> c in s;
      AbsentFirstCharNotContained(s[1..], sub);
    }
  }

  predicate EndsWith(s: string, suffix: string) {
    |suffix| <= |s| && s[|s| - |suffix|..] == suffix
  }

  lemma EndsWithAppend(s: string, suffix: string)
    ensures EndsWith(s + suffix, suffix)
  {
    assert (s + suffix)[|s|..] == suffix;
  }

  /** If s ends with suffix, the last k characters of both agree. */
  lemma EndsWithTail(s: string, suffix: string, k: nat)
    requires k <= |suffix|
    ensures EndsWith(s, suffix) ==> |s| >= k && s[|s| - k..] == suffix[|suffix| - k..]
  {
    if EndsWith(s, suffix) {
      assert s[|s| - k..] == s[|s| - |suffix|..][|suffix| - k..];
    }
  }

  /** The last k characters of a + b are those of b when b has at least k. */
  lemma AppendTail(a: string, b: string, k: nat)
    requires k <= |b|
    ensures (a + b)[|a + b| - k..] == b[|b| - k..]
  {
  }
}
