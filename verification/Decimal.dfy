/** Decimal numerals without sign, leading zeros or spaces: `%d` of a number that is not negative. */
module Decimal {

  predicate Digit(c: char) {
    '0' <= c <= '9'
  }

  predicate AllDigits(s: string) {
    forall i :: 0 <= i < |s| ==> Digit(s[i])
  }

  function Dec(n: nat): (s: string)
    ensures s != "" && AllDigits(s)
  {
    (if n < 10 then "" else Dec(n / 10)) + [('0' as int + n % 10) as char]
  }

  /** What the digits of `s` come to. */
  function Number(s: string): nat
    requires AllDigits(s)
  {
    if s == "" then 0 else 10 * Number(s[..|s| - 1]) + (s[|s| - 1] as int - '0' as int)
  }

  /** The form that `Dec` produces. */
  predicate Canonical(s: string) {
    s != "" && AllDigits(s) && (s[0] == '0' ==> s == "0")
  }

  lemma {:induction false} DecCanonical(n: nat)
    ensures Canonical(Dec(n)) && (Dec(n)[0] == '0' <==> n == 0)
  {
    if n >= 10 {
      DecCanonical(n / 10);
      assert Dec(n)[0] == Dec(n / 10)[0];
    }
  }

  lemma {:induction false} NumberOfDec(n: nat)
    ensures Number(Dec(n)) == n
  {
    assert Dec(n)[..|Dec(n)| - 1] == if n < 10 then "" else Dec(n / 10);
    if n >= 10 {
      NumberOfDec(n / 10);
    }
  }

  lemma {:induction false} DecOfNumber(s: string)
    requires Canonical(s)
    ensures Dec(Number(s)) == s
  {
    var init := s[..|s| - 1];
    if init == "" {
      assert s == [s[0]];
    } else {
      assert init[0] == s[0];
      assert s[0] != '0';
      DecOfNumber(init);
      PositiveNumber(init);
      assert s == init + [s[|s| - 1]];
    }
  }

  lemma {:induction false} PositiveNumber(s: string)
    requires s != "" && AllDigits(s) && s[0] != '0'
    ensures Number(s) > 0
  {
    if |s| > 1 {
      assert s[..|s| - 1][0] == s[0];
      PositiveNumber(s[..|s| - 1]);
    }
  }

  function Pow10(k: nat): (r: nat)
    ensures r > 0
  {
    if k == 0 then 1 else 10 * Pow10(k - 1)
  }

  lemma {:induction false} NumberBelow(s: string)
    requires AllDigits(s)
    ensures Number(s) < Pow10(|s|)
  {
    if s != "" {
      NumberBelow(s[..|s| - 1]);
    }
  }

  lemma {:induction false} DecLength(n: nat, k: nat)
    requires n < Pow10(k) && k > 0
    ensures |Dec(n)| <= k
  {
    if n >= 10 {
      assert Pow10(1) == 10 * Pow10(0);
      DecLength(n / 10, k - 1);
    }
  }
}
