/**
 What a stack looks like: the space before its first widget, between any two
 and after its last, whatever the justify; what the weights give; where it is
 across its axis; and how large a widget is when nobody says.
 */
module LayoutLaws {
  import opened Layout

  /** Along the axis: where a widget begins and how long it is. */
  function Begin(t: Stack, i: nat): int
    requires i < |t.kids|
  {
    if t.axis.Col? then Placed(t, i).y else Placed(t, i).x
  }

  function Length(t: Stack, i: nat): int
    requires i < |t.kids|
  {
    if t.axis.Col? then Placed(t, i).h else Placed(t, i).w
  }

  /** The padded area begins and ends here. */
  function AreaBegin(t: Stack): int {
    (if t.axis.Col? then t.ay else t.ax) + t.pad
  }

  function AreaEnd(t: Stack): int {
    (if t.axis.Col? then t.ay + t.ah else t.ax + t.aw) - t.pad
  }

  function Before(t: Stack): int
    requires t.kids != []
  {
    Begin(t, 0) - AreaBegin(t)
  }

  function After(t: Stack): int
    requires t.kids != []
  {
    AreaEnd(t) - (Begin(t, |t.kids| - 1) + Length(t, |t.kids| - 1))
  }

  function Between(t: Stack, i: nat): int
    requires i + 1 < |t.kids|
  {
    Begin(t, i + 1) - (Begin(t, i) + Length(t, i))
  }

  /** What is left of the padded area when the widgets and the gaps are taken out of it. */
  function Free(t: Stack): int {
    AreaEnd(t) - AreaBegin(t) - Taken(t, |t.kids|)
  }

  lemma FreeIs(t: Stack)
    requires Fits(t) && t.kids != []
    ensures Free(t) == Extra(t) >= 0
  {
  }

  /** The spaces, as the justify pushes the widgets. */
  lemma BetweenIs(t: Stack, i: nat)
    requires Fits(t) && Total(t) == 0 && i + 1 < |t.kids|
    ensures Between(t, i) == t.gap + Lead(t, i + 1, Extra(t)) - Lead(t, i, Extra(t))
  {
    NoShares(t, i);
    NoShares(t, i + 1);
    WeightedSome(t, |t.kids|);
    hide Lead, Natural, Extra;
  }

  lemma EndsAre(t: Stack)
    requires Fits(t) && Total(t) == 0 && t.kids != []
    ensures Before(t) == Lead(t, 0, Extra(t)) && After(t) == Extra(t) - Lead(t, |t.kids| - 1, Extra(t))
  {
    var n := |t.kids|;
    FreeIs(t);
    NoShares(t, n - 1);
    NoShares(t, 0);
    TakenParts(t, n);
    hide Lead, Natural, Extra;
  }

  /** Packed to the start, to the end or in the middle: only the gap between two widgets. */
  lemma Packed(t: Stack)
    requires Fits(t) && Total(t) == 0 && t.kids != [] && !t.justify.Between? && !t.justify.Around?
    ensures forall i | 0 <= i < |t.kids| - 1 :: Between(t, i) == t.gap
    ensures t.justify.Start? ==> Before(t) == 0 && After(t) == Free(t)
    ensures t.justify.End? ==> Before(t) == Free(t) && After(t) == 0
    ensures t.justify.Center? ==> 0 <= After(t) - Before(t) <= 1 && Before(t) + After(t) == Free(t)
  {
    FreeIs(t);
    EndsAre(t);
    hide Before, After, Between;
    forall i | 0 <= i < |t.kids| - 1 ensures Between(t, i) == t.gap { BetweenIs(t, i); }
  }

  lemma StepBounds(free: nat, k: nat, d: nat)
    requires d > 0
    ensures var q := Step(free, k, d); d * q <= free * k < d * q + d
  {
    var p := free * k;
    assert p == d * (p / d) + p % d;
  }

  /** Two roundings down, `m` steps apart, are that far apart to within a pixel. */
  lemma StepsApart(free: nat, k: nat, m: nat, d: nat)
    requires d > 0
    ensures var x := Step(free, k + m, d) - Step(free, k, d); d * (x - 1) < free * m < d * (x + 1)
  {
    StepBounds(free, k, d);
    StepBounds(free, k + m, d);
    var a: int, b: int := Step(free, k, d), Step(free, k + m, d);
    hide Step;
    Distribute(free, k, m);
    Distribute(d, b, -a);
    Distribute(d, b - a, 1);
    Distribute(d, b - a, -1);
  }

  lemma Distribute(d: nat, x: int, y: int)
    ensures d * (x + y) == d * x + d * y && d * (-x) == -(d * x)
  {
  }

  /** From edge to edge: nothing before or after, and the same between any two to within a pixel. */
  lemma Spread(t: Stack, i: nat)
    requires Fits(t) && Total(t) == 0 && t.justify.Between? && i + 1 < |t.kids|
    ensures Before(t) == 0 && After(t) == 0
    ensures var d, x := |t.kids| - 1, Between(t, i) - t.gap; x >= 0 && d * (x - 1) < Free(t) < d * (x + 1)
  {
    hide Before, After, Between, Free, Extra, Step;
    var free, d := Extra(t), |t.kids| - 1;
    FreeIs(t);
    EndsAre(t);
    BetweenIs(t, i);
    LeadGrows(t, i, i + 1, free);
    if free > 0 {
      StepNone(free, d);
      StepAll(free, d);
      StepsApart(free, i, 1, d);
    }
  }

  lemma LastStep(free: nat, d: nat, a: int, b: int)
    requires d > 0 && d * a <= free * 1 < d * a + d && d * b <= free * (d - 1) < d * b + d
    ensures d * a <= free < d * (a + 1) && d * (free - b - 1) < free <= d * (free - b)
  {
    Distribute(free, d, -1);
    Distribute(d, free, -b);
    Distribute(d, free - b, -1);
    Distribute(d, a, 1);
    assert free * d == d * free;
  }

  /** All round: half as much before the first and after the last as between two, each to within a pixel. */
  lemma Surrounded(t: Stack)
    requires Fits(t) && Total(t) == 0 && t.justify.Around? && t.kids != []
    ensures var d := 2 * |t.kids|;
      d * Before(t) <= Free(t) < d * (Before(t) + 1) && d * (After(t) - 1) < Free(t) <= d * After(t)
  {
    hide Before, After, Free, Extra, Step;
    var n, free := |t.kids|, Extra(t);
    FreeIs(t);
    EndsAre(t);
    var d := 2 * n;
    if free == 0 {
      assert d * 0 == 0;
    } else {
      StepBounds(free, 1, d);
      StepBounds(free, 2 * n - 1, d);
      var a: int, b: int := Step(free, 1, d), Step(free, 2 * n - 1, d);
      LastStep(free, d, a, b);
    }
  }

  lemma SurroundedBetween(t: Stack, i: nat)
    requires Fits(t) && Total(t) == 0 && t.justify.Around? && i + 1 < |t.kids|
    ensures var n, x := |t.kids|, Between(t, i) - t.gap; x >= 0 && n * (x - 1) < Free(t) < n * (x + 1)
  {
    hide Between, Free, Extra, Step;
    var free, n := Extra(t), |t.kids|;
    FreeIs(t);
    BetweenIs(t, i);
    LeadGrows(t, i, i + 1, free);
    if free > 0 { StepsApart(free, 2 * i + 1, 2, 2 * n); }
    var x := Between(t, i) - t.gap;
    assert 2 * (i + 1) + 1 == 2 * i + 1 + 2;
    Halve(n, x - 1);
    Halve(n, x + 1);
  }

  lemma Halve(n: nat, x: int)
    ensures 2 * n * x == 2 * (n * x)
  {
  }

  /** So between any two the space is the same to within a pixel. */
  lemma Even(t: Stack, i: nat, j: nat)
    requires Fits(t) && Total(t) == 0 && (t.justify.Between? || t.justify.Around?)
    requires i + 1 < |t.kids| && j + 1 < |t.kids|
    ensures Between(t, i) <= Between(t, j) + 1
  {
    var d := if t.justify.Between? then |t.kids| - 1 else |t.kids|;
    if t.justify.Between? {
      Spread(t, i);
      Spread(t, j);
    } else {
      SurroundedBetween(t, i);
      SurroundedBetween(t, j);
    }
    hide Between, Free;
    Cancel(d, Between(t, i) - t.gap - 1, Between(t, j) - t.gap + 1);
  }

  /** With weights nothing is left over, and each weighted widget has its part of what there was, to within a pixel. */
  lemma WeightedLengths(t: Stack, i: nat)
    requires Fits(t) && Total(t) > 0 && i < |t.kids|
    ensures var grown, w := Length(t, i) - Natural(t, i), t.kids[i].weight;
      && (w == 0 ==> grown == 0)
      && (w > 0 && (exists j :: i < j < |t.kids| && t.kids[j].weight > 0) ==>
            Total(t) * grown <= Free(t) * w < Total(t) * (grown + 1))
    ensures Before(t) == 0
  {
    FreeIs(t);
    WeightedSome(t, |t.kids|);
    if t.kids[i].weight > 0 && LastWeighted(t, |t.kids|) != i {
      PortionBounds(Extra(t), t.kids[i].weight, Total(t));
      var q := Share(t, i);
      assert Total(t) * (q + 1) == Total(t) * q + Total(t);
    }
    hide Portion, Natural, Extra;
  }

  /** Across the axis a stack is as wide as its area less the padding, or as it may be, and in the middle. */
  lemma CentredAcross(t: Stack, i: nat)
    requires i < |t.kids|
    ensures var r := Placed(t, i);
      var (from, size, area, low) := if t.axis.Col? then (r.x, r.w, t.aw, t.ax) else (r.y, r.h, t.ah, t.ay);
      && size <= area - 2 * t.pad && (t.crossMax > 0 && size >= 0 ==> size <= t.crossMax)
      && (size == area - 2 * t.pad || size == t.crossMax)
      && (size <= area ==> 0 <= (low + area - (from + size)) - (from - low) <= 1)
  {
    hide Offset, Extent;
  }

  /** A widget nobody sized: wide enough for its text, a whole number of bands for a line of it, or a button's rows. */
  lemma NaturalFits(t: Stack, i: nat)
    requires i < |t.kids|
    ensures var w, size := t.kids[i], Natural(t, i);
      && (w.size > 0 ==> size == w.size)
      && (w.size <= 0 && t.axis.Row? ==> size - 2 * t.pad == |w.text| * (t.font * 10 / 20))
      && (w.size <= 0 && t.axis.Col? && w.kind.Button? ==> size == 64)
      && (w.size <= 0 && t.axis.Col? && !w.kind.Button? ==>
            size % 8 == 0 && t.font + t.gap <= size < t.font + t.gap + 8)
  {
  }
}
