/** Numbers in decimal. */
module Numerals {

  function Digit(d: nat): char
    requires d < 10
  {
    '0' + d as char
  }

  lemma TenDigits(d: nat)
    requires d < 10
    ensures Digit(d) == "0123456789"[d]
  {
  }

  function Decimal(n: nat): (s: string)
    ensures s != "" && AllDigits(s)
  {
    if n < 10 then [Digit(n)] else Decimal(n / 10) + [Digit(n % 10)]
  }

  predicate AllDigits(s: string) {
    forall i | 0 <= i < |s| :: '0' <= s[i] <= '9'
  }

  /** The number some digits spell. */
  function Value(s: string): nat
    requires AllDigits(s)
  {
    if s == "" then 0 else 10 * Value(s[..|s| - 1]) + (s[|s| - 1] - '0') as nat
  }

  function Power10(k: nat): (p: nat)
    ensures p >= 1
  {
    if k == 0 then 1 else 10 * Power10(k - 1)
  }

  /** A number is read back as it was written, with no needless zero in front. */
  lemma {:induction false} DecimalBack(n: nat)
    ensures var s := Decimal(n); Value(s) == n && (s[0] == '0' ==> n == 0)
  {
    var s := Decimal(n);
    if n < 10 {
      assert s[..0] == "";
    } else {
      DecimalBack(n / 10);
      assert s[..|s| - 1] == Decimal(n / 10) && s[|s| - 1] == Digit(n % 10);
    }
  }

  /** `k` digits are enough exactly for the numbers below that power of ten. */
  lemma {:induction false} HowManyDigits(n: nat, k: nat)
    requires k >= 1
    ensures |Decimal(n)| <= k <==> n < Power10(k)
    decreases k
  {
    var p := Power10(k - 1);
    if n >= 10 {
      if k == 1 {
        assert |Decimal(n / 10)| >= 1;
      } else {
        HowManyDigits(n / 10, k - 1);
        assert n / 10 < p <==> n < 10 * p;
      }
    } else {
      assert Power10(k) >= 10;
    }
  }

  /** The last `k` digits of a number. */
  function LastOf(n: nat, k: nat): (s: string)
    requires k <= |Decimal(n)|
    ensures AllDigits(s) && |s| == k
  {
    Decimal(n)[|Decimal(n)| - k..]
  }

  lemma OneMoreOf(n: nat, k: nat)
    requires n >= 10 && 0 < k <= |Decimal(n)|
    ensures k - 1 <= |Decimal(n / 10)| && LastOf(n, k) == LastOf(n / 10, k - 1) + [Digit(n % 10)]
  {
    hide AllDigits, Decimal;
    DecimalIs(n);
    TailOf(Decimal(n / 10), Digit(n % 10), k);
  }

  lemma DecimalIs(n: nat)
    requires n >= 10
    ensures Decimal(n) == Decimal(n / 10) + [Digit(n % 10)]
  {
  }

  lemma TailOf(s: string, d: char, k: nat)
    requires 0 < k <= |s| + 1
    ensures (s + [d])[|s| + 1 - k..] == s[|s| - (k - 1)..] + [d]
  {
  }

  /** The last digits of a number spell the remainder by that power of ten. */
  lemma {:induction false} LastDigits(n: nat, k: nat)
    requires k <= |Decimal(n)|
    ensures Value(LastOf(n, k)) == n % Power10(k)
    decreases k
  {
    hide Decimal, Value, Power10, AllDigits, LastOf;
    if k == 0 {
      NoDigits(n);
    } else if n < 10 {
      OneDigit(n);
    } else {
      OneMoreOf(n, k);
      LastDigits(n / 10, k - 1);
      ValueIs(LastOf(n / 10, k - 1), n % 10);
      PowerIs(k);
      OneDigitMore(n, Power10(k - 1));
    }
  }

  lemma NoDigits(n: nat)
    ensures Value(LastOf(n, 0)) == 0 == n % Power10(0)
  {
    assert Power10(0) == 1 && n % 1 == 0;
  }

  lemma OneDigit(n: nat)
    requires n < 10
    ensures |Decimal(n)| == 1 && Value(LastOf(n, 1)) == n == n % Power10(1)
  {
    hide Power10;
    TenIs();
    assert Decimal(n) == [Digit(n)] == LastOf(n, 1);
    DigitIs(n);
  }

  lemma TenIs()
    ensures Power10(1) == 10
  {
  }

  lemma DigitIs(d: nat)
    requires d < 10
    ensures AllDigits([Digit(d)]) && Value([Digit(d)]) == d
  {
    assert [Digit(d)][..0] == "" && Value("") == 0;
  }

  lemma ValueIs(s: string, d: nat)
    requires AllDigits(s) && d < 10
    ensures AllDigits(s + [Digit(d)]) && Value(s + [Digit(d)]) == 10 * Value(s) + d
  {
    assert (s + [Digit(d)])[..|s|] == s;
  }

  lemma PowerIs(k: nat)
    requires k > 0
    ensures Power10(k) == 10 * Power10(k - 1)
  {
  }

  lemma OneDigitMore(n: nat, p: nat)
    requires p >= 1
    ensures n % (10 * p) == 10 * (n / 10 % p) + n % 10
  {
    var m := n / 10;
    var q, r := m / p, 10 * (m % p) + n % 10;
    assert n == 10 * (q * p + m % p) + n % 10 == q * (10 * p) + r;
    assert r < 10 * p;
    Remainder(n, q, 10 * p, r);
  }

  lemma Remainder(a: nat, q: nat, m: nat, r: nat)
    requires r < m && a == q * m + r
    ensures a % m == r
  {
    var d, e := a / m - q, a % m;
    assert a == (a / m) * m + e;
    assert d * m == r - e;
    Multiple(d, m);
  }

  lemma Multiple(d: int, m: nat)
    ensures d >= 1 ==> d * m >= m
    ensures d <= -1 ==> d * m + m <= 0
  {
    assert d * m == (d - 1) * m + m;
    assert d * m + m == (d + 1) * m;
  }
}
