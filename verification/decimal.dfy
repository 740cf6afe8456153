/** PHP's conversions between integers and decimal strings: string interpolation of an `int`
    (`'--tries='.$n`, `now()->timestamp` stored in Redis) and the `(int)` cast applied to
    option strings. Integers are unbounded here; PHP's 64-bit saturation is not modelled. */
module Decimal {

  predicate IsDigit(c: char) {
    '0' <= c <= '9'
  }

  function DigitChar(d: nat): (c: char)
    requires d < 10
    ensures IsDigit(c)
  {
    ('0' as int + d) as char
  }

  function DigitValue(c: char): nat
    requires IsDigit(c)
  {
    (c as int - '0' as int) as nat
  }

  /** Decimal rendering of a natural number, most significant digit first, no leading zeros. */
  function NatToString(n: nat): (s: string)
    ensures |s| >= 1
    ensures forall i :: 0 <= i < |s| ==> IsDigit(s[i])
    ensures n >= 10 ==> s[0] != '0'
    decreases n
  {
    if n < 10 then [DigitChar(n)] else NatToString(n / 10) + [DigitChar(n % 10)]
  }

  /** PHP `(string)$i` for an integer. */
  function IntToString(i: int): (s: string)
    ensures |s| >= 1
    ensures s[0] == '-' <==> i < 0
  {
    if i < 0 then "-" + NatToString(-i) else NatToString(i)
  }

  /** Accumulates the maximal run of leading digits of `s` onto `acc`. */
  function ParseDigits(s: string, acc: nat): nat
    decreases |s|
  {
    if |s| == 0 || !IsDigit(s[0]) then acc
    else ParseDigits(s[1..], acc * 10 + DigitValue(s[0]))
  }

  /** The characters PHP skips before a numeric string: space, tab, newline, carriage
      return, vertical tab and form feed. */
  predicate IsSpace(c: char) {
    c == ' ' || c == '\t' || c == '\n' || c == '\r' || c == '\U{000B}' || c == '\U{000C}'
  }

  /** `s` without its leading whitespace. */
  function SkipSpace(s: string): (r: string)
    ensures |r| <= |s| && r == s[|s| - |r|..]
    ensures |r| == 0 || !IsSpace(r[0])
    decreases |s|
  {
    if |s| > 0 && IsSpace(s[0]) then SkipSpace(s[1..]) else s
  }

  /** PHP `(int)$s`: leading whitespace, then an optional sign and the leading digits; no
      digits gives 0. Exponent forms are not modelled. */
  function ParseInt(s: string): int {
    var t := SkipSpace(s);
    if |t| > 0 && t[0] == '-' then -(ParseDigits(t[1..], 0) as int)
    else if |t| > 0 && t[0] == '+' then ParseDigits(t[1..], 0)
    else ParseDigits(t, 0)
  }

  /** Leading whitespace does not change what `(int)` reads. */
  lemma ParseIntSkipsSpace(c: char, s: string)
    requires IsSpace(c)
    ensures ParseInt([c] + s) == ParseInt(s)
  {
    assert ([c] + s)[1..] == s;
  }

  lemma {:induction false} ParseDigitsAppend(a: string, b: string, acc: nat)
    requires forall i :: 0 <= i < |a| ==> IsDigit(a[i])
    ensures ParseDigits(a + b, acc) == ParseDigits(b, ParseDigits(a, acc))
    decreases |a|
  {
    if |a| > 0 {
      assert (a + b)[0] == a[0];
      assert (a + b)[1..] == a[1..] + b;
      ParseDigitsAppend(a[1..], b, acc * 10 + DigitValue(a[0]));
    } else {
      assert a + b == b;
    }
  }

  /** Reading back the decimal rendering of a natural number gives that number. */
  lemma {:induction false} NatRoundTrip(n: nat)
    ensures ParseDigits(NatToString(n), 0) == n
    decreases n
  {
    if n < 10 {
      assert NatToString(n)[1..] == [];
    } else {
      var prefix := NatToString(n / 10);
      NatRoundTrip(n / 10);
      ParseDigitsAppend(prefix, [DigitChar(n % 10)], 0);
      assert [DigitChar(n % 10)][1..] == [];
    }
  }

  /** The `(int)` cast inverts integer interpolation: a number written into an argument
      vector or a Redis value is read back unchanged. */
  lemma IntRoundTrip(i: int)
    ensures ParseInt(IntToString(i)) == i
  {
    if i < 0 {
      var s := IntToString(i);
      assert s[1..] == NatToString(-i);
      NatRoundTrip(-i);
    } else {
      NatRoundTrip(i);
      var s := NatToString(i);
      assert IsDigit(s[0]);
    }
  }
}
