/** Decimal rendering of counters, as `format!("{}", n)` writes an
    unsigned integer, and its inverse. */
module Format {

  predicate IsDigit(c: char) {
    '0' <= c <= '9'
  }

  predicate AllDigits(s: string) {
    forall i :: 0 <= i < |s| ==> IsDigit(s[i])
  }

  function DigitChar(d: nat): (c: char)
    requires d < 10
    ensures IsDigit(c)
  {
    ('0' as int + d) as char
  }

  function DigitValue(c: char): (d: nat)
    requires IsDigit(c)
    ensures d < 10
  {
    c as int - '0' as int
  }

  /** The shortest decimal representation of `n`: digits only, never
      empty, and without a leading zero unless `n` is zero. */
  function NatToString(n: nat): (s: string)
    ensures |s| >= 1
    ensures AllDigits(s)
    ensures s[0] == '0' <==> n == 0
    decreases n
  {
    if n < 10 then [DigitChar(n)]
    else NatToString(n / 10) + [DigitChar(n % 10)]
  }

  /** Reads a string of decimal digits back as a number. */
  function ParseNat(s: string): nat
    requires AllDigits(s)
    decreases |s|
  {
    if s == [] then 0
    else ParseNat(s[..|s| - 1]) * 10 + DigitValue(s[|s| - 1])
  }

  /** Rendering a counter and reading it back gives the counter. */
  lemma {:induction false} ParseNatToString(n: nat)
    ensures ParseNat(NatToString(n)) == n
    decreases n
  {
    var s := NatToString(n);
    if n >= 10 {
      ParseNatToString(n / 10);
      assert s[..|s| - 1] == NatToString(n / 10);
    }
  }

  /** Length of the longest run of digits at the start of `t`. */
  function DigitRun(t: string): (n: nat)
    ensures n <= |t|
  {
    if t == [] || !IsDigit(t[0]) then 0 else 1 + DigitRun(t[1..])
  }

  lemma {:induction false} DigitRunOfDigits(s: string, x: string)
    requires AllDigits(s)
    requires x == [] || !IsDigit(x[0])
    ensures DigitRun(s + x) == |s|
  {
    if s != [] {
      assert (s + x)[1..] == s[1..] + x;
      DigitRunOfDigits(s[1..], x);
    } else {
      assert s + x == x;
    }
  }

  /** A rendered counter followed by text that does not start with a digit
      can be split back unambiguously: the counter and the text are both
      determined. */
  lemma NatToStringPrefix(a: nat, b: nat, x: string, y: string)
    requires NatToString(a) + x == NatToString(b) + y
    requires x == [] || !IsDigit(x[0])
    requires y == [] || !IsDigit(y[0])
    ensures a == b && x == y
  {
    var sa, sb := NatToString(a), NatToString(b);
    DigitRunOfDigits(sa, x);
    DigitRunOfDigits(sb, y);
    assert sa == (sa + x)[..|sa|] == (sb + y)[..|sb|] == sb;
    assert x == (sa + x)[|sa|..] == (sb + y)[|sb|..] == y;
    ParseNatToString(a);
    ParseNatToString(b);
  }
}
