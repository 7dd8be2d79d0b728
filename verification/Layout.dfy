/**
 Laying out a stack of widgets along one axis: natural extents first, then
 what is left over, shared between the weighted widgets or placed between
 the widgets by the justify.
 */
module Layout {

  const BAND := 8
  const BTN_ROWS := 64
  const GLYPH_W := 10
  const GLYPH_H := 20

  datatype Kind = Label | Button | Field
  datatype Axis = Col | Row
  datatype Justify = Start | End | Center | Between | Around

  /** `look` stands for everything about a widget that is colour and ornament. */
  datatype Widget = Widget(kind: Kind, id: string, text: string, size: int, weight: nat, look: int)

  datatype Stack = Stack(kids: seq<Widget>, axis: Axis, justify: Justify, width: nat, height: nat,
                         ax: int, ay: int, aw: int, ah: int, crossMax: int, pad: nat, gap: nat, font: nat, ink: int)

  datatype Rect = Rect(x: int, y: int, w: int, h: int) {
    predicate Has(px: int, py: int) {
      x <= px < x + w && y <= py < y + h
    }
  }

  /* ---- the pieces of the arithmetic ---- */

  function RoundBand(v: nat): (r: nat)
    ensures r % 8 == 0 && v <= r < v + 8
  {
    (v + BAND - 1) / BAND * BAND
  }

  function Advance(font: nat): nat {
    font * GLYPH_W / GLYPH_H
  }

  /** A widget's extent along the axis before anything is shared out. */
  function Natural(t: Stack, i: nat): nat
    requires i < |t.kids|
  {
    var w := t.kids[i];
    if w.size > 0 then w.size
    else if t.axis.Row? then Natural0(|w.text|, Advance(t.font)) + 2 * t.pad
    else if w.kind.Button? then BTN_ROWS
    else RoundBand(t.font + t.gap)
  }

  function Natural0(chars: nat, advance: nat): nat {
    chars * advance
  }

  function Span(t: Stack): int {
    (if t.axis.Col? then t.ah else t.aw) - 2 * t.pad
  }

  function Origin(t: Stack): int {
    (if t.axis.Col? then t.ay else t.ax) + t.pad
  }

  function Naturals(t: Stack, n: nat): nat
    requires n <= |t.kids|
    decreases n
  {
    if n == 0 then 0 else Naturals(t, n - 1) + Natural(t, n - 1)
  }

  function Weights(t: Stack, n: nat): nat
    requires n <= |t.kids|
    decreases n
  {
    if n == 0 then 0 else Weights(t, n - 1) + t.kids[n - 1].weight
  }

  /** How many of the first `n` widgets are weighted. */
  function Weighted(t: Stack, n: nat): nat
    requires n <= |t.kids|
    decreases n
  {
    if n == 0 then 0 else Weighted(t, n - 1) + if t.kids[n - 1].weight > 0 then 1 else 0
  }

  /** The first `n` widgets and the gaps between them. */
  function Taken(t: Stack, n: nat): nat
    requires n <= |t.kids|
    decreases n
  {
    if n == 0 then 0 else Taken(t, n - 1) + (if n > 1 then t.gap else 0) + Natural(t, n - 1)
  }

  function Total(t: Stack): nat {
    Weights(t, |t.kids|)
  }

  /** What is left over once every widget has its natural extent. */
  function Extra(t: Stack): nat {
    var free := Span(t) - Taken(t, |t.kids|);
    if free < 0 then 0 else free
  }

  function Portion(extra: nat, weight: nat, total: nat): nat
    requires total > 0
  {
    extra * weight / total
  }

  function Share(t: Stack, i: nat): nat
    requires i < |t.kids|
  {
    if Total(t) > 0 && t.kids[i].weight > 0 then Portion(Extra(t), t.kids[i].weight, Total(t)) else 0
  }

  function Shares(t: Stack, n: nat): nat
    requires n <= |t.kids|
    decreases n
  {
    if n == 0 then 0 else Shares(t, n - 1) + Share(t, n - 1)
  }

  /** The last weighted widget among the first `n`, or -1. */
  function LastWeighted(t: Stack, n: nat): (r: int)
    requires n <= |t.kids|
    ensures -1 <= r < n
    ensures r >= 0 ==> t.kids[r].weight > 0
    ensures forall j | r < j < n :: t.kids[j].weight == 0
    decreases n
  {
    if n == 0 then -1 else if t.kids[n - 1].weight > 0 then n - 1 else LastWeighted(t, n - 1)
  }

  /** The part of `free` that `k` of `d` equal steps take. */
  function Step(free: nat, k: nat, d: nat): nat
    requires d > 0
  {
    free * k / d
  }

  /** How far the justify pushes widget `i`. */
  function Lead(t: Stack, i: nat, free: int): int
    requires i < |t.kids|
  {
    if free <= 0 then 0
    else match t.justify
      case Start => 0
      case End => free
      case Center => free / 2
      case Between => if |t.kids| > 1 then Step(free, i, |t.kids| - 1) else 0
      case Around => Step(free, 2 * i + 1, 2 * |t.kids|)
  }

  /** Where widget `i` begins, from the beginning of the padded area. */
  function Offset(t: Stack, i: nat): int
    requires i < |t.kids|
  {
    Lead(t, i, if Total(t) > 0 then 0 else Extra(t)) + Naturals(t, i) + Shares(t, i) + Gaps(t, i)
  }

  function Gaps(t: Stack, n: nat): nat
    decreases n
  {
    if n == 0 then 0 else Gaps(t, n - 1) + t.gap
  }

  /** How long widget `i` is along the axis: the last weighted one takes what the division left. */
  function Extent(t: Stack, i: nat): int
    requires i < |t.kids|
  {
    Natural(t, i)
    + if Total(t) > 0 && t.kids[i].weight > 0
      then if i == LastWeighted(t, |t.kids|) then Extra(t) - Shares(t, i) else Share(t, i)
      else 0
  }

  /** The extent across the axis, and where it starts. */
  function Across(area: int, pad: nat, most: int): int {
    if most > 0 && area - 2 * pad > most then most else area - 2 * pad
  }

  function Halved(v: int): int {
    if v >= 0 then v / 2 else -(-v / 2)
  }

  function Placed(t: Stack, i: nat): Rect
    requires i < |t.kids|
  {
    if t.axis.Col? then
      var cw := Across(t.aw, t.pad, t.crossMax);
      Rect(t.ax + Halved(t.aw - cw), Origin(t) + Offset(t, i), cw, Extent(t, i))
    else
      var ch := Across(t.ah, t.pad, t.crossMax);
      Rect(Origin(t) + Offset(t, i), t.ay + Halved(t.ah - ch), Extent(t, i), ch)
  }

  /* ---- what sharing gives away ---- */

  lemma PortionBounds(extra: nat, weight: nat, total: nat)
    requires total > 0
    ensures var q := Portion(extra, weight, total); total * q <= extra * weight < total * q + total
  {
    var p := extra * weight;
    assert p == total * (p / total) + p % total;
  }

  lemma OneMoreShare(w: nat, e: nat, s: nat, a: nat, k: nat, m: nat, q: nat)
    requires w >= 1 && w * s <= e * a <= w * s + (w - 1) * k
    requires w * q <= e * m < w * q + w
    ensures w * (s + q) <= e * (a + m) <= w * (s + q) + (w - 1) * (k + 1)
  {
    assert e * (a + m) == e * a + e * m;
    assert w * (s + q) == w * s + w * q;
    assert (w - 1) * (k + 1) == (w - 1) * k + (w - 1);
  }

  /** Each share is its proportion, less a fraction of a pixel. */
  lemma {:induction false} SharesBounds(t: Stack, n: nat)
    requires n <= |t.kids| && Total(t) > 0
    ensures Total(t) * Shares(t, n) <= Extra(t) * Weights(t, n)
      <= Total(t) * Shares(t, n) + (Total(t) - 1) * Weighted(t, n)
    decreases n
  {
    hide Total, Extra, Portion;
    if n == 0 {
      assert Total(t) * 0 == 0 == Extra(t) * 0 == (Total(t) - 1) * 0;
    } else {
      SharesBounds(t, n - 1);
      var m := t.kids[n - 1].weight;
      if m > 0 {
        PortionBounds(Extra(t), m, Total(t));
        OneMoreShare(Total(t), Extra(t), Shares(t, n - 1), Weights(t, n - 1), Weighted(t, n - 1), m, Share(t, n - 1));
      }
    }
  }

  lemma Leftover(w: nat, e: nat, s: nat, k: nat)
    requires w >= 1 && k >= 1 && w * s <= w * e <= w * s + (w - 1) * k
    ensures 0 <= e - s < k
  {
    assert w * (e - s) == w * e - w * s;
    assert w * k == (w - 1) * k + k;
    Cancel(w, -1, e - s);
    Cancel(w, e - s, k);
  }

  lemma Grow(w: nat, a: nat, b: nat)
    requires a <= b
    ensures w * a <= w * b
  {
  }

  lemma Cancel(w: nat, x: int, y: int)
    requires w >= 1 && w * x < w * y
    ensures x < y
  {
  }

  /** What the shares leave over: less than a pixel for each weighted widget. */
  lemma Remainder(t: Stack)
    requires Total(t) > 0
    ensures 0 <= Extra(t) - Shares(t, |t.kids|) < Weighted(t, |t.kids|)
  {
    SharesBounds(t, |t.kids|);
    WeightedSome(t, |t.kids|);
    assert Weights(t, |t.kids|) == Total(t);
    hide Total, Extra, Shares, Weighted, Weights;
    assert Extra(t) * Total(t) == Total(t) * Extra(t);
    Leftover(Total(t), Extra(t), Shares(t, |t.kids|), Weighted(t, |t.kids|));
  }

  lemma {:induction false} WeightedSome(t: Stack, n: nat)
    requires n <= |t.kids|
    ensures Weighted(t, n) == 0 <==> Weights(t, n) == 0
    ensures Weighted(t, n) == 0 <==> LastWeighted(t, n) == -1
    decreases n
  {
    if n > 0 { WeightedSome(t, n - 1); }
  }

  /** The first `n` shares are no more than there is to share. */
  lemma {:induction false} SharesWithin(t: Stack, n: nat)
    requires n <= |t.kids|
    ensures Shares(t, n) <= Shares(t, |t.kids|) <= Extra(t)
    decreases |t.kids| - n
  {
    if n < |t.kids| {
      SharesWithin(t, n + 1);
    } else if Total(t) > 0 {
      Remainder(t);
    } else {
      NoShares(t, n);
    }
  }

  lemma {:induction false} NoShares(t: Stack, n: nat)
    requires n <= |t.kids| && Total(t) == 0
    ensures Shares(t, n) == 0
    decreases n
  {
    if n > 0 { NoShares(t, n - 1); }
  }

  /** Widgets after the last weighted one get no share. */
  lemma {:induction false} SharesAfterLast(t: Stack, n: nat)
    requires LastWeighted(t, |t.kids|) < n <= |t.kids|
    ensures Shares(t, n) == Shares(t, |t.kids|)
    decreases |t.kids| - n
  {
    if n < |t.kids| { SharesAfterLast(t, n + 1); }
  }

  lemma {:induction false} TakenParts(t: Stack, n: nat)
    requires n <= |t.kids|
    ensures n > 0 ==> Taken(t, n) == Naturals(t, n) + Gaps(t, n - 1)
    decreases n
  {
    if n > 0 { TakenParts(t, n - 1); }
  }

  lemma {:induction false} TakenGrows(t: Stack, n: nat)
    requires n <= |t.kids|
    ensures Taken(t, n) <= Taken(t, |t.kids|)
    decreases |t.kids| - n
  {
    if n < |t.kids| { TakenGrows(t, n + 1); }
  }

  /* ---- the justify ---- */

  /** `a / d` as the greatest multiple. */
  lemma Quotient(a: nat, d: nat, q: nat)
    requires d > 0 && d * q <= a < d * q + d
    ensures a / d == q
  {
    var r := a / d;
    assert a == d * r + a % d;
    assert d * (q + 1) == d * q + d && d * (r + 1) == d * r + d;
    Cancel(d, q, r + 1);
    Cancel(d, r, q + 1);
  }

  lemma QuotientGrows(a: nat, b: nat, d: nat)
    requires a <= b && d > 0
    ensures a / d <= b / d
  {
    assert a == d * (a / d) + a % d && b == d * (b / d) + b % d;
    assert d * (b / d + 1) == d * (b / d) + d;
    Cancel(d, a / d, b / d + 1);
  }

  lemma StepGrows(free: nat, j: nat, k: nat, d: nat)
    requires d > 0 && j <= k <= d
    ensures Step(free, j, d) <= Step(free, k, d) <= free
  {
    Grow(free, j, k);
    Grow(free, k, d);
    QuotientGrows(free * j, free * k, d);
    QuotientGrows(free * k, free * d, d);
    StepAll(free, d);
  }

  lemma StepAll(free: nat, d: nat)
    requires d > 0
    ensures Step(free, d, d) == free
  {
    assert free * d == d * free;
    Quotient(free * d, d, free);
  }

  /** The justify pushes each widget at least as far as the one before, and never further than there is room. */
  lemma LeadGrows(t: Stack, i: nat, j: nat, free: int)
    requires i <= j < |t.kids|
    ensures 0 <= Lead(t, i, free) <= Lead(t, j, free) && (free >= 0 ==> Lead(t, j, free) <= free)
  {
    if free > 0 && t.justify.Between? && |t.kids| > 1 {
      StepGrows(free, i, j, |t.kids| - 1);
    } else if free > 0 && t.justify.Around? {
      StepGrows(free, 2 * i + 1, 2 * j + 1, 2 * |t.kids|);
    }
    hide Step;
  }

  /* ---- the stack ---- */

  /** The widgets and the gaps between them fit the padded area. */
  predicate Fits(t: Stack) {
    |t.kids| == 0 || Taken(t, |t.kids|) <= Span(t)
  }

  /** What the last weighted widget gets that the widgets after it were not moved along for. */
  function Slack(t: Stack): int {
    if Total(t) > 0 then Extra(t) - Shares(t, |t.kids|) else 0
  }

  /** Where the next widget starts, against where this one ends. */
  lemma Neighbours(t: Stack, i: nat)
    requires i + 1 < |t.kids|
    ensures var between := Offset(t, i + 1) - (Offset(t, i) + Extent(t, i));
      if Total(t) > 0 then between == if i == LastWeighted(t, |t.kids|) then t.gap - Slack(t) else t.gap
      else between >= t.gap
  {
    var last := LastWeighted(t, |t.kids|);
    if Total(t) > 0 {
      if i == last { SharesAfterLast(t, i + 1); }
    } else {
      LeadGrows(t, i, i + 1, Extra(t));
      WeightedSome(t, |t.kids|);
    }
  }

  /** Every widget is in the padded area, whatever the justify and the weights. */
  lemma Contained(t: Stack, i: nat)
    requires i < |t.kids| && Fits(t)
    ensures 0 <= Offset(t, i) && 0 <= Extent(t, i) && Offset(t, i) + Extent(t, i) <= Span(t)
  {
    hide Portion, Natural, Gaps;
    TakenParts(t, i + 1);
    TakenGrows(t, i + 1);
    SharesWithin(t, i);
    SharesWithin(t, i + 1);
    LeadGrows(t, i, i, Extra(t));
    if Total(t) == 0 { NoShares(t, i); WeightedSome(t, |t.kids|); }
  }

  /** Each widget ends before the next one begins. */
  ghost predicate InOrder(t: Stack) {
    forall i {:trigger Extent(t, i)} | 0 <= i < |t.kids| - 1 :: Offset(t, i) + Extent(t, i) <= Offset(t, i + 1)
  }

  /**
   Widgets overlap only after the last weighted one, when it is not the last
   widget and the pixels the division left are more than a gap.
   */
  lemma InOrderIff(t: Stack)
    requires Fits(t)
    ensures InOrder(t) <==>
      Total(t) == 0 || LastWeighted(t, |t.kids|) == |t.kids| - 1 || Slack(t) <= t.gap
  {
    var last := LastWeighted(t, |t.kids|);
    WeightedSome(t, |t.kids|);
    forall i | 0 <= i < |t.kids| - 1
      ensures Offset(t, i) + Extent(t, i) <= Offset(t, i + 1) <==> (Total(t) == 0 || i != last || Slack(t) <= t.gap)
    {
      Neighbours(t, i);
    }
    hide Offset, Extent, Slack, Total;
    if Total(t) > 0 && last < |t.kids| - 1 && InOrder(t) {
      assert Offset(t, last) + Extent(t, last) <= Offset(t, last + 1);
    }
  }

  /** Fewer weighted widgets than pixels of gap, and one more, are always enough. */
  lemma EnoughGap(t: Stack)
    requires Fits(t) && Weighted(t, |t.kids|) <= t.gap + 1
    ensures InOrder(t)
  {
    InOrderIff(t);
    WeightedSome(t, |t.kids|);
    if Total(t) > 0 { Remainder(t); }
  }

  /** Three weighted widgets with two pixels to share and no gap: the widget after them starts inside the last. */
  lemma OverlapExample()
    ensures var w := Widget(Label, "", "", 8, 1, 0);
      var t := Stack([w, w, w, w.(weight := 0)], Col, Start, 10, 34, 0, 0, 10, 34, 0, 0, 0, 8, 0);
      Fits(t) && Offset(t, 2) + Extent(t, 2) == Offset(t, 3) + 2 && !InOrder(t)
  {
    var w := Widget(Label, "", "", 8, 1, 0);
    var t := Stack([w, w, w, w.(weight := 0)], Col, Start, 10, 34, 0, 0, 10, 34, 0, 0, 0, 8, 0);
    assert Weights(t, 4) == Weights(t, 3) == Weights(t, 2) + 1 && Weights(t, 2) == Weights(t, 1) + 1;
    assert Taken(t, 4) == Taken(t, 3) + 8 && Taken(t, 3) == Taken(t, 2) + 8 && Taken(t, 2) == Taken(t, 1) + 8;
    assert Total(t) == 3 && Extra(t) == 2;
    assert Portion(2, 1, 3) == 0;
    assert Shares(t, 4) == Shares(t, 3) == Shares(t, 2) == Shares(t, 1) == 0;
    assert LastWeighted(t, 4) == LastWeighted(t, 3) == 2;
    Neighbours(t, 2);
  }

  /** In order means any two widgets, however far apart. */
  lemma {:induction false} FarApart(t: Stack, i: nat, j: nat)
    requires i < j < |t.kids| && Fits(t) && InOrder(t)
    ensures Offset(t, i) + Extent(t, i) <= Offset(t, j)
    decreases j
  {
    hide Offset, Extent;
    assert Offset(t, j - 1) + Extent(t, j - 1) <= Offset(t, j);
    if i < j - 1 {
      FarApart(t, i, j - 1);
      Contained(t, j - 1);
    }
  }

  /** Where the stack ends. */
  lemma StackEnds(t: Stack)
    requires Fits(t) && |t.kids| > 0
    ensures var n := |t.kids|;
      var end := Offset(t, n - 1) + Extent(t, n - 1);
      && (Total(t) > 0 ==> end == Span(t) - if LastWeighted(t, n) == n - 1 then 0 else Slack(t))
      && (Total(t) == 0 && (t.justify.End? || (t.justify.Between? && n > 1)) ==> end == Span(t))
      && (Total(t) == 0 && t.justify.Start? ==> Offset(t, 0) == 0)
      && (t.justify.Between? && n > 1 ==> Offset(t, 0) == 0)
  {
    var n := |t.kids|;
    TakenParts(t, n);
    WeightedSome(t, n);
    if Total(t) > 0 {
      if LastWeighted(t, n) < n - 1 { SharesAfterLast(t, n - 1); }
    } else {
      NoShares(t, n - 1);
      if t.justify.Between? && n > 1 {
        StepAll(Extra(t), n - 1);
        assert Step(Extra(t), 0, n - 1) == 0 by { StepNone(Extra(t), n - 1); }
      }
    }
    hide Step;
  }

  lemma StepNone(free: nat, d: nat)
    requires d > 0
    ensures Step(free, 0, d) == 0
  {
    Quotient(0, d, 0);
  }
}
