/** Numbers as decimal text, as Rust's `Display` prints them inside keys. */
module Decimal {
  predicate IsDigit(c: char) {
    '0' <= c <= '9'
  }

  predicate AllDigits(s: string) {
    forall i :: 0 <= i < |s| ==> IsDigit(s[i])
  }

  function DigitChar(d: nat): (c: char)
    requires d < 10
    ensures IsDigit(c) && DigitValue(c) == d
  {
    '0' + d as char
  }

  function DigitValue(c: char): nat
    requires IsDigit(c)
  {
    (c - '0') as nat
  }

  function Digits(n: nat): (s: string)
    ensures s != "" && AllDigits(s)
  {
    if n < 10 then [DigitChar(n)] else Digits(n / 10) + [DigitChar(n % 10)]
  }

  /** The number a run of digits denotes. */
  function Value(s: string): nat
    requires AllDigits(s)
  {
    if s == "" then 0 else 10 * Value(s[..|s| - 1]) + DigitValue(s[|s| - 1])
  }

  lemma ValueSnoc(s: string, c: char)
    requires AllDigits(s) && IsDigit(c)
    ensures AllDigits(s + [c]) && Value(s + [c]) == 10 * Value(s) + DigitValue(c)
  {
    assert (s + [c])[..|s|] == s;
  }

  lemma {:induction false} ValueOfDigits(n: nat)
    ensures Value(Digits(n)) == n
  {
    if n >= 10 {
      ValueOfDigits(n / 10);
      ValueSnoc(Digits(n / 10), DigitChar(n % 10));
    } else {
      assert Digits(n)[..0] == "";
    }
  }

  /** Distinct numbers print differently. */
  lemma DigitsInjective(m: nat, n: nat)
    requires Digits(m) == Digits(n)
    ensures m == n
  {
    ValueOfDigits(m);
    ValueOfDigits(n);
  }

  function IntText(n: int): string {
    if n < 0 then "-" + Digits(-n) else Digits(n)
  }

  lemma IntTextInjective(m: int, n: int)
    requires IntText(m) == IntText(n)
    ensures m == n
  {
    assert m < 0 ==> IntText(m)[0] == '-' && IntText(m)[1..] == Digits(-m);
    assert n < 0 ==> IntText(n)[0] == '-' && IntText(n)[1..] == Digits(-n);
    if m < 0 && n < 0 { DigitsInjective(-m, -n); }
    if m >= 0 && n >= 0 { DigitsInjective(m, n); }
  }

  /** Numbers followed by text that does not start with a digit can be told apart. */
  lemma DigitsThenText(m: nat, n: nat, s: string, t: string)
    requires s != "" && !IsDigit(s[0]) && t != "" && !IsDigit(t[0])
    requires Digits(m) + s == Digits(n) + t
    ensures m == n && s == t
  {
    var x, a, b := Digits(m) + s, Digits(m), Digits(n);
    assert x[|a|] == s[0] && x[|b|] == t[0];
    assert forall i :: 0 <= i < |a| ==> x[i] == a[i];
    assert forall i :: 0 <= i < |b| ==> x[i] == b[i];
    assert |a| == |b|;
    assert x[..|a|] == a && x[..|b|] == b && x[|a|..] == s && x[|b|..] == t;
    DigitsInjective(m, n);
  }
}
