/**
 * Decimal text of an integer, as Number.prototype.toString renders the
 * integer thresholds of the application (no exponent form: every value the
 * model handles lies within the safe-integer range), and its inverse.
 */
module NumberText {

  predicate IsDigit(c: char)
  {
    '0' <= c <= '9'
  }

  function DigitChar(d: nat): (c: char)
    requires d < 10
    ensures IsDigit(c)
  {
    "0123456789"[d]
  }

  function DigitValue(c: char): nat
    requires IsDigit(c)
  {
    (c as int - '0' as int) as nat
  }

  lemma DigitRoundTrip(d: nat)
    requires d < 10
    ensures DigitValue(DigitChar(d)) == d
  {
  }

  /** Digits of a natural number, most significant first, without leading zeros. */
  function NatToString(n: nat): (s: string)
    ensures |s| > 0 && forall i :: 0 <= i < |s| ==> IsDigit(s[i])
    decreases n
  {
    if n < 10 then [DigitChar(n)] else NatToString(n / 10) + [DigitChar(n % 10)]
  }

  /** toString of an integer: a minus sign for negative values, then the digits. */
  function IntToString(n: int): (s: string)
    ensures IsNumberText(s)
  {
    if n < 0 then "-" + NatToString(-n) else NatToString(n)
  }

  /** The value of a digit string. */
  function ParseDigits(s: string): nat
    requires forall i :: 0 <= i < |s| ==> IsDigit(s[i])
    decreases |s|
  {
    if s == [] then 0 else 10 * ParseDigits(s[..|s| - 1]) + DigitValue(s[|s| - 1])
  }

  /** An optional minus sign followed by digits. */
  predicate IsNumberText(s: string)
  {
    |s| > 0 && (forall i :: 1 <= i < |s| ==> IsDigit(s[i])) && (s[0] == '-' || IsDigit(s[0]))
  }

  /** The value of an optional minus sign followed by digits. */
  function ParseInt(s: string): int
    requires IsNumberText(s)
  {
    if s[0] == '-' then -(ParseDigits(s[1..]) as int) else ParseDigits(s)
  }

  /** The digits start with '0' only for zero, and read back as the number. */
  lemma {:induction false} NatToStringShape(n: nat)
    ensures NatToString(n)[0] == '0' <==> n == 0
    ensures ParseDigits(NatToString(n)) == n
    decreases n
  {
    if n >= 10 {
      NatToStringShape(n / 10);
      var s := NatToString(n);
      assert s[..|s| - 1] == NatToString(n / 10);
      DigitRoundTrip(n % 10);
    } else {
      DigitRoundTrip(n);
    }
  }

  /** Reading the text back gives the number, so distinct numbers get distinct texts. */
  lemma ParseSigned(digits: string)
    requires |digits| > 0 && forall i :: 0 <= i < |digits| ==> IsDigit(digits[i])
    ensures IsNumberText("-" + digits) && ParseInt("-" + digits) == -(ParseDigits(digits) as int)
  {
    assert ("-" + digits)[1..] == digits;
  }

  lemma IntToStringRoundTrip(n: int)
    ensures ParseInt(IntToString(n)) == n
  {
    if n < 0 {
      NatToStringShape(-n);
      ParseSigned(NatToString(-n));
    } else {
      NatToStringShape(n);
    }
  }

  lemma IntToStringInjective(m: int, n: int)
    ensures IntToString(m) == IntToString(n) <==> m == n
  {
    IntToStringRoundTrip(m);
    IntToStringRoundTrip(n);
  }

  /** The text starts with a minus sign exactly for negative numbers, and is
      never the bare placeholder "-". */
  lemma IntToStringSign(n: int)
    ensures |IntToString(n)| > 0
    ensures IntToString(n)[0] == '-' <==> n < 0
    ensures IntToString(n) != "-"
  {
    if n < 0 {
      NatToStringShape(-n);
    } else {
      NatToStringShape(n);
    }
  }

  lemma IntToStringExamples()
    ensures IntToString(0) == "0"
    ensures IntToString(-7) == "-7"
    ensures IntToString(42) == "42"
  {
    assert NatToString(42) == NatToString(4) + [DigitChar(2)];
  }
}
