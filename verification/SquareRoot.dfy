/** The integer square root, by shifts and subtractions, in 32-bit words. */
module SquareRoot {

  newtype Word = x: int | 0 <= x < 0x1_0000_0000

  function Power(k: nat): (p: nat)
    ensures p >= 1
  {
    if k == 0 then 1 else 2 * Power(k - 1)
  }

  /**
   With root bits down to 2 to the `k` still to come: `p` is the root so far,
   `v` is what is left of the number, and `r` is `p` scaled to save a product.
   */
  ghost predicate Partway(n: int, v: int, r: int, b: int, p: int, k: nat) {
    var h := Power(k);
    && 0 <= p && p + 2 * h <= 0x1_0000
    && b == h * h && r == 2 * p * h && v == n - p * p
    && 0 <= v && n < (p + 2 * h) * (p + 2 * h)
  }

  ghost predicate IsRoot(n: int, r: int) {
    0 <= r && r * r <= n < (r + 1) * (r + 1)
  }

  /** Whether the next bit belongs to the root is exactly the comparison the loop makes. */
  lemma NextBit(n: int, v: int, r: int, b: int, p: int, k: nat)
    requires Partway(n, v, r, b, p, k)
    ensures var h := Power(k);
      && r % 2 == 0 && r + b < 0x1_0000_0000
      && (v >= r + b <==> (p + h) * (p + h) <= n)
      && v - (r + b) == n - (p + h) * (p + h)
      && r / 2 == p * h && r / 2 + b == (p + h) * h
  {
    var h := Power(k);
    hide Power;
    Expand(p, h);
    Fits(p, h);
  }

  lemma Expand(p: int, h: int)
    ensures (p + h) * (p + h) == p * p + 2 * (p * h) + h * h
    ensures (p + h) * h == p * h + h * h
    ensures 2 * p * h == 2 * (p * h)
  {
  }

  /** No sum in the loop needs a 33rd bit. */
  lemma Fits(p: int, h: int)
    requires 0 <= p && 1 <= h && p + 2 * h <= 0x1_0000
    ensures 2 * p * h + h * h < 0x1_0000_0000
  {
    var q := p + h;
    Squares(q, 0xFFFF);
    assert q * q == p * p + 2 * p * h + h * h;
  }

  lemma Squares(a: nat, b: nat)
    requires a <= b
    ensures 0 <= a * a <= b * b
  {
    var d := b - a;
    assert b * b == a * a + 2 * a * d + d * d;
  }

  lemma Halve(n: int, v: int, b: int, p: int, k: nat)
    requires k > 0 && b == Power(k) * Power(k)
    requires 0 <= p && p + 2 * Power(k - 1) <= 0x1_0000 && v == n - p * p && 0 <= v
    requires n < (p + Power(k)) * (p + Power(k))
    ensures Partway(n, v, p * Power(k), b / 4, p, k - 1)
  {
    var h := Power(k - 1);
    assert (2 * h) * (2 * h) == 4 * (h * h);
    assert p * (2 * h) == 2 * p * h;
  }

  /** The words after a bit is decided: what is left, the scaled root and the root. */
  function Decided(v: int, r: int, b: int, p: int, h: int): (int, int, int) {
    if v >= r + b then (v - (r + b), r / 2 + b, p + h) else (v, r / 2, p)
  }

  lemma BitDecided(n: int, v: int, r: int, b: int, p: int, k: nat)
    requires Partway(n, v, r, b, p, k)
    ensures 0 < b && 0 <= r && r + b < 0x1_0000_0000 && r / 2 + b < 0x1_0000_0000
    ensures var (v2, r2, p2) := Decided(v, r, b, p, Power(k));
      && (k > 0 ==> b / 4 > 0 && Partway(n, v2, r2, b / 4, p2, k - 1))
      && (k == 0 ==> b / 4 == 0 && IsRoot(n, r2))
  {
    hide IsRoot, Power, Partway, Decided;
    NextBit(n, v, r, b, p, k);
    PartwayIs(n, v, r, b, p, k);
    Squares(1, Power(k));
    if k > 0 { LowerBits(n, v, r, b, p, k); } else { LastBit(n, v, r, b, p); }
  }

  lemma PartwayIs(n: int, v: int, r: int, b: int, p: int, k: nat)
    requires Partway(n, v, r, b, p, k)
    ensures var h := Power(k);
      b == h * h && r == 2 * p * h && v == n - p * p && 0 <= p && p + 2 * h <= 0x1_0000 && r >= 0
  {
    hide Power;
    assert p * Power(k) >= 0;
  }

  lemma LowerBits(n: int, v: int, r: int, b: int, p: int, k: nat)
    requires Partway(n, v, r, b, p, k) && k > 0
    ensures var (v2, r2, p2) := Decided(v, r, b, p, Power(k)); b / 4 > 0 && Partway(n, v2, r2, b / 4, p2, k - 1)
  {
    NextBit(n, v, r, b, p, k);
    Doubles(k);
    hide IsRoot, Power;
    var (v2, r2, p2) := Decided(v, r, b, p, Power(k));
    Halve(n, v2, b, p2, k);
    Quarter(b, k);
  }

  lemma LastBit(n: int, v: int, r: int, b: int, p: int)
    requires Partway(n, v, r, b, p, 0)
    ensures b / 4 == 0 && IsRoot(n, Decided(v, r, b, p, Power(0)).1)
  {
    NextBit(n, v, r, b, p, 0);
  }

  lemma Doubles(k: nat)
    requires k > 0
    ensures Power(k) == 2 * Power(k - 1)
  {
  }

  method ISqrt(n: Word) returns (r: Word)
    ensures IsRoot(n as int, r as int)
  {
    var v, b: Word := n, 0x4000_0000;
    ghost var k: nat := 15;
    assert Power(15) == 0x8000 by { PowersUp(); }
    r := 0;
    while b > v
      invariant b == 0 ==> v == 0
      invariant b > 0 ==> k <= 15 && b as int == Power(k) * Power(k) && n as int < 4 * b as int
      invariant v == n
      decreases b
    {
      assert Power(0) == 1;
      if k > 0 {
        Quarter(b as int, k);
        k := k - 1;
      }
      b := b / 4;
    }
    ghost var p := 0;
    if b > 0 {
      PowersBelow(k);
      assert (0 + 2 * Power(k)) * (0 + 2 * Power(k)) == 4 * (Power(k) * Power(k));
    }
    hide Power, Partway, IsRoot;
    while b != 0
      invariant b > 0 ==> Partway(n as int, v as int, r as int, b as int, p, k)
      invariant b == 0 ==> IsRoot(n as int, r as int)
      decreases b
    {
      BitDecided(n as int, v as int, r as int, b as int, p, k);
      if v >= r + b {
        v := v - (r + b);
        r := r / 2 + b;
        p := p + Power(k);
      } else {
        r := r / 2;
      }
      b := b / 4;
      if k > 0 { k := k - 1; }
    }
  }

  lemma Quarter(b: int, k: nat)
    requires k > 0 && b == Power(k) * Power(k)
    ensures b / 4 == Power(k - 1) * Power(k - 1) && b / 4 > 0 && b % 4 == 0
  {
    var h := Power(k - 1);
    assert (2 * h) * (2 * h) == 4 * (h * h);
    assert h * h >= 1;
  }

  lemma PowersUp()
    ensures Power(15) == 0x8000
  {
    assert Power(4) == 16;
    assert Power(8) == 256;
    assert Power(12) == 4096;
  }

  lemma {:induction false} PowersBelow(k: nat)
    requires k <= 15
    ensures Power(k) <= 0x8000
    decreases 15 - k
  {
    if k == 15 { PowersUp(); } else { PowersBelow(k + 1); }
  }
}
