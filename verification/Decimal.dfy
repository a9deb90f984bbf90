/** Decimal digits: the rendering of natural numbers and the value of a digit string. */
module Decimal {

  predicate IsDigit(c: char) {
    '0' <= c <= '9'
  }

  predicate AllDigits(s: string) {
    forall i :: 0 <= i < |s| ==> IsDigit(s[i])
  }

  function Digit(k: nat): (c: char)
    requires k < 10
    ensures IsDigit(c) && DigitValue(c) == k
  {
    ('0' as int + k) as char
  }

  function DigitValue(c: char): nat
    requires IsDigit(c)
  {
    c as int - '0' as int
  }

  function Value(s: string): nat
    requires AllDigits(s)
  {
    if s == "" then 0 else 10 * Value(s[..|s| - 1]) + DigitValue(s[|s| - 1])
  }

  function Render(n: nat): (s: string)
    ensures |s| > 0 && AllDigits(s) && Value(s) == n
  {
    if n < 10 then [Digit(n)]
    else
      var s := Render(n / 10) + [Digit(n % 10)];
      assert s[..|s| - 1] == Render(n / 10);
      s
  }

  /** Spelled out: the digits of the number, most significant first, without leading zeros. */
  lemma {:induction false} RenderSpelledOut(n: nat)
    ensures n < 10 ==> Render(n) == ["0123456789"[n]]
    ensures n >= 10 ==> Render(n) == Render(n / 10) + ["0123456789"[n % 10]] && Render(n)[0] != '0'
    ensures n > 0 ==> Render(n)[0] != '0'
  {
    DigitSpelledOut(n % 10);
    if n >= 10 {
      RenderSpelledOut(n / 10);
    }
  }

  lemma DigitSpelledOut(k: nat)
    requires k < 10
    ensures Digit(k) == "0123456789"[k]
  {
  }

  predicate NoLeadingDigit(s: string) {
    s == "" || !IsDigit(s[0])
  }

  /** A rendered number followed by a non-digit can be read in one way only. */
  lemma {:induction false} RenderDecodes(n: nat, m: nat, r: string, t: string)
    requires Render(n) + r == Render(m) + t
    requires NoLeadingDigit(r) && NoLeadingDigit(t)
    ensures n == m && r == t
  {
    var a, b := Render(n), Render(m);
    assert forall i :: 0 <= i < |a| ==> IsDigit((a + r)[i]);
    assert forall i :: 0 <= i < |b| ==> IsDigit((b + t)[i]);
    assert r != "" ==> (a + r)[|a|] == r[0];
    assert t != "" ==> (b + t)[|b|] == t[0];
    assert |a| == |b|;
    assert a == (a + r)[..|a|] == b;
    assert r == (a + r)[|a|..] == t;
  }
}
