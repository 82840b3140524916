/**
  Decimal rendering of natural numbers, zero-padded to a minimum width, as
  Python's `format(n, "03d")` does for a non-negative `n`, together with the
  reading back that shows the rendering loses nothing.
 */
module Decimal {

  predicate IsDigit(c: char) {
    '0' <= c <= '9'
  }

  predicate AllDigits(s: string) {
    forall i :: 0 <= i < |s| ==> IsDigit(s[i])
  }

  function DigitChar(d: nat): (c: char)
    requires d < 10
    ensures IsDigit(c) && (c as int) - ('0' as int) == d
  {
    (('0' as int) + d) as char
  }

  /** The number a digit string denotes, leading zeros included. */
  function Value(s: string): nat
    requires AllDigits(s)
    decreases |s|
  {
    if s == [] then 0
    else Value(s[..|s| - 1]) * 10 + ((s[|s| - 1] as int) - ('0' as int))
  }

  /** Shortest decimal rendering of `n`: no leading zero except for `n == 0`,
      and reading it back gives `n`. */
  function Digits(n: nat): (s: string)
    ensures |s| >= 1 && AllDigits(s)
    ensures Value(s) == n
    ensures |s| > 1 ==> s[0] != '0'
    ensures n < 10 <==> |s| == 1
    decreases n
  {
    if n < 10 then [DigitChar(n)]
    else
      var s := Digits(n / 10) + [DigitChar(n % 10)];
      assert s[..|s| - 1] == Digits(n / 10);
      s
  }

  function Zeros(k: nat): (s: string)
    ensures |s| == k && AllDigits(s)
    ensures forall i :: 0 <= i < k ==> s[i] == '0'
  {
    seq(k, _ => '0')
  }

  /** Leading zeros do not change the value of a digit string. */
  lemma {:induction false} ValueLeadingZeros(k: nat, s: string)
    requires AllDigits(s)
    ensures AllDigits(Zeros(k) + s)
    ensures Value(Zeros(k) + s) == Value(s)
    decreases |s|
  {
    var z := Zeros(k) + s;
    if s == [] {
      assert z == Zeros(k);
      ValueOfZeros(k);
    } else {
      assert z[..|z| - 1] == Zeros(k) + s[..|s| - 1];
      ValueLeadingZeros(k, s[..|s| - 1]);
    }
  }

  lemma {:induction false} ValueOfZeros(k: nat)
    ensures Value(Zeros(k)) == 0
    decreases k
  {
    if k > 0 {
      assert Zeros(k)[..k - 1] == Zeros(k - 1);
      ValueOfZeros(k - 1);
    }
  }

  /** A number ending in digit `d` after the prefix value `a` splits back
      into `a` and `d`. */
  lemma LastDigit(a: nat, d: int, b: nat, e: int)
    requires 0 <= d < 10 && 0 <= e < 10
    requires a * 10 + d == b * 10 + e
    ensures a == b && d == e
  {
    var n := a * 10 + d;
    assert n / 10 == a && n % 10 == d;
    assert n / 10 == b && n % 10 == e;
  }

  /** Digit strings of one length denote one number each: equal values
      mean equal strings. */
  lemma {:induction false} ValueInjective(s: string, t: string)
    requires AllDigits(s) && AllDigits(t) && |s| == |t|
    requires Value(s) == Value(t)
    ensures s == t
    decreases |s|
  {
    if s != [] {
      var n := |s| - 1;
      var s', t' := s[..n], t[..n];
      assert AllDigits(s') && AllDigits(t');
      var d, e := (s[n] as int) - ('0' as int), (t[n] as int) - ('0' as int);
      assert Value(s) == Value(s') * 10 + d;
      assert Value(t) == Value(t') * 10 + e;
      LastDigit(Value(s'), d, Value(t'), e);
      ValueInjective(s', t');
      assert s == s' + [s[n]] && t == t' + [t[n]];
    }
  }

  /** `n` in decimal, left-padded with zeros to at least `width` characters;
      reading it back gives `n`, and a number already that wide is not
      padded. */
  function PadDecimal(n: nat, width: nat): (s: string)
    ensures AllDigits(s) && Value(s) == n
    ensures |s| == if |Digits(n)| >= width then |Digits(n)| else width
    ensures |Digits(n)| >= width ==> s == Digits(n)
  {
    var d := Digits(n);
    if |d| >= width then d
    else ValueLeadingZeros(width - |d|, d); Zeros(width - |d|) + d
  }
}
