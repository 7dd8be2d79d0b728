/**
 What the loops of the layer compute, which widget is under a point, which
 rows a repaint needs, and why repainting only those rows is enough.
 */
module Whisker {

  import opened Layout

  datatype Error = Ok | BadText | Budget | NotFound | Empty | Device | TooBig

  /* ---- where a widget is ---- */

  lemma {:induction false} GapsAre(t: Stack, n: nat)
    ensures Gaps(t, n) == n * t.gap
    decreases n
  {
    if n > 0 {
      GapsAre(t, n - 1);
      assert (n - 1) * t.gap + t.gap == n * t.gap;
    }
  }

  /** What is left over, the total weight and where the padded area begins. */
  method Surplus(t: Stack) returns (extra: nat, weights: nat)
    ensures extra == Extra(t) && weights == Total(t)
  {
    var used := 0;
    weights := 0;
    for i := 0 to |t.kids|
      invariant used == Naturals(t, i) && weights == Weights(t, i)
    {
      used := used + Natural(t, i);
      weights := weights + t.kids[i].weight;
    }
    if |t.kids| > 1 { used := used + (|t.kids| - 1) * t.gap; }
    TakenParts(t, |t.kids|);
    if |t.kids| >= 1 { GapsAre(t, |t.kids| - 1); }
    var left := Span(t) - used;
    extra := if left < 0 then 0 else left;
  }

  /** A widget's rectangle. */
  method RectOf(t: Stack, idx: nat) returns (r: Rect)
    requires idx < |t.kids|
    ensures r == Placed(t, idx)
  {
    hide Lead, Natural, Halved, Extra, Total, Portion;
    var extra, weights := Surplus(t);
    var at := Origin(t) + Lead(t, idx, if weights > 0 then 0 else extra);
    var given := 0;
    for i := 0 to idx
      invariant given == Shares(t, i)
      invariant at == Origin(t) + Lead(t, idx, if weights > 0 then 0 else extra) + Naturals(t, i) + given + Gaps(t, i)
    {
      var e := Natural(t, i);
      if weights > 0 && t.kids[i].weight > 0 {
        var share := Portion(extra, t.kids[i].weight, weights);
        e := e + share;
        given := given + share;
      }
      at := at + e + t.gap;
    }
    var e: int := Natural(t, idx);
    if weights > 0 && t.kids[idx].weight > 0 {
      var last := -1;
      for i := 0 to |t.kids|
        invariant last == LastWeighted(t, i)
      {
        if t.kids[i].weight > 0 { last := i; }
      }
      e := e + if idx == last then extra - given else Portion(extra, t.kids[idx].weight, weights);
    }
    if t.axis.Col? {
      var cw := t.aw - 2 * t.pad;
      if t.crossMax > 0 && cw > t.crossMax { cw := t.crossMax; }
      r := Rect(t.ax + Halved(t.aw - cw), at, cw, e);
    } else {
      var ch := t.ah - 2 * t.pad;
      if t.crossMax > 0 && ch > t.crossMax { ch := t.crossMax; }
      r := Rect(at, t.ay + Halved(t.ah - ch), e, ch);
    }
  }

  predicate Within(from: int, size: int, lo: int, hi: int) {
    lo <= from && 0 <= size && from + size <= hi
  }

  /**
   Every rectangle is inside the area less its padding along the axis, and
   across it exactly when the area is as wide as the padding on both sides:
   nobody checks that, and in a narrower one a rectangle is less than nothing
   wide.
   */
  lemma InsideTheArea(t: Stack, i: nat)
    requires i < |t.kids| && Fits(t)
    ensures var r := Placed(t, i);
      var x := Within(r.x, r.w, t.ax + t.pad, t.ax + t.aw - t.pad);
      var y := Within(r.y, r.h, t.ay + t.pad, t.ay + t.ah - t.pad);
      if t.axis.Col? then y && (x <==> 2 * t.pad <= t.aw) && (r.w < 0 <==> t.aw < 2 * t.pad)
      else x && (y <==> 2 * t.pad <= t.ah) && (r.h < 0 <==> t.ah < 2 * t.pad)
  {
    Contained(t, i);
    hide Offset, Extent;
  }

  /** A stack that is accepted, and whose one widget is four pixels less than nothing wide. */
  lemma NarrowExample() returns (t: Stack)
    ensures Verdict(t) == Ok && |t.kids| == 1 && Placed(t, 0).w == -4
  {
    var w := Widget(Label, "a", "", 8, 0, 0);
    t := Stack([w], Col, Start, 4, 40, 0, 0, 4, 40, 0, 4, 0, 8, 0);
    assert Taken(t, 1) == 8 && Span(t) == 32;
  }

  /** No two rectangles share a point when the widgets are in order. */
  lemma Disjoint(t: Stack, i: nat, j: nat, x: int, y: int)
    requires i < |t.kids| && j < |t.kids| && Fits(t) && InOrder(t)
    requires Placed(t, i).Has(x, y) && Placed(t, j).Has(x, y)
    ensures i == j
  {
    if i < j { FarApart(t, i, j); }
    if j < i { FarApart(t, j, i); }
    hide Offset, Extent;
  }

  /** The widget under a point, or -1: the first there is, and the only one when the widgets are in order. */
  method Hit(t: Stack, x: int, y: int) returns (h: int)
    ensures -1 <= h < |t.kids|
    ensures h < 0 <==> forall j | 0 <= j < |t.kids| :: !Placed(t, j).Has(x, y)
    ensures h >= 0 ==> var r := Placed(t, h); r.x <= x < r.x + r.w && r.y <= y < r.y + r.h
    ensures h < 0 ==>
      forall j | 0 <= j < |t.kids| :: var r := Placed(t, j); !(r.x <= x < r.x + r.w && r.y <= y < r.y + r.h)
    ensures h >= 0 ==> Placed(t, h).Has(x, y) && forall j | 0 <= j < h :: !Placed(t, j).Has(x, y)
    ensures Fits(t) && InOrder(t) ==> forall j | 0 <= j < |t.kids| :: Placed(t, j).Has(x, y) <==> j == h
  {
    h := -1;
    for i := 0 to |t.kids|
      invariant h == -1 && forall j | 0 <= j < i :: !Placed(t, j).Has(x, y)
    {
      var r := RectOf(t, i);
      if r.Has(x, y) {
        if Fits(t) && InOrder(t) {
          forall j | 0 <= j < |t.kids| && Placed(t, j).Has(x, y) ensures j == i { Disjoint(t, j, i, x, y); }
        }
        return i;
      }
    }
  }

  /* ---- whether a stack may be drawn at all ---- */

  predicate Clean(text: string) {
    forall i | 0 <= i < |text| :: ' ' <= text[i] <= '~' && text[i] != '<' && text[i] != '&' && text[i] != '>'
  }

  method TextOk(text: string) returns (ok: bool)
    ensures ok == Clean(text)
    ensures ok <==>
      forall c | c in text :: ' ' <= c <= '~' && c != '<' && c != '&' && c != '>'
  {
    for i := 0 to |text|
      invariant forall j | 0 <= j < i :: ' ' <= text[j] <= '~' && text[j] != '<' && text[j] != '&' && text[j] != '>'
    {
      var c := text[i];
      assert c in text;
      if c < ' ' || c > '~' { return false; }
      if c == '<' || c == '&' || c == '>' { return false; }
    }
    return true;
  }

  /** What becomes of a stack: its labels are looked at before its size. */
  function Verdict(t: Stack): (v: Error)
    ensures v == Ok || v == BadText || v == TooBig
  {
    if exists i :: 0 <= i < |t.kids| && !Clean(t.kids[i].text) then BadText
    else if Fits(t) then Ok
    else TooBig
  }

  /** The first label that cannot be drawn or, if all can, the first widget that crosses the end of the area. */
  method Check(t: Stack) returns (err: Error, which: int)
    ensures err == Ok <==> (forall i | 0 <= i < |t.kids| :: Clean(t.kids[i].text)) && Fits(t)
    ensures err == Verdict(t)
    ensures err != Ok ==> 0 <= which < |t.kids|
    ensures err == BadText ==> !Clean(t.kids[which].text) && forall i | 0 <= i < which :: Clean(t.kids[i].text)
    ensures err == TooBig ==> forall i | 0 <= i < |t.kids| :: Clean(t.kids[i].text)
    ensures err == TooBig ==> Taken(t, which + 1) > Span(t) && (which > 0 ==> Taken(t, which) <= Span(t))
  {
    for i := 0 to |t.kids|
      invariant forall j | 0 <= j < i :: Clean(t.kids[j].text)
    {
      var ok := TextOk(t.kids[i].text);
      if !ok { return BadText, i; }
    }
    var span, used := Span(t), 0;
    for i := 0 to |t.kids|
      invariant used == Taken(t, i) && (i > 0 ==> used <= span)
    {
      if i > 0 { used := used + t.gap; }
      used := used + Natural(t, i);
      if used > span {
        TakenGrows(t, i + 1);
        return TooBig, i;
      }
    }
    return Ok, -1;
  }

  /* ---- which rows a repaint needs ---- */

  /** The first widget with this name, or -1. */
  function Named(t: Stack, id: string, from: nat): (r: int)
    requires from <= |t.kids|
    ensures r == -1 || from <= r < |t.kids|
    ensures r >= 0 ==> t.kids[r].id == id && forall j | from <= j < r :: t.kids[j].id != id
    ensures r < 0 ==> forall j | from <= j < |t.kids| :: t.kids[j].id != id
    decreases |t.kids| - from
  {
    if from == |t.kids| then -1
    else if t.kids[from].id == id then from
    else Named(t, id, from + 1)
  }

  method Find(t: Stack, id: string) returns (r: int)
    ensures r == Named(t, id, 0)
  {
    for i := 0 to |t.kids|
      invariant Named(t, id, 0) == Named(t, id, i)
    {
      if t.kids[i].id == id { return i; }
    }
    return -1;
  }

  /** Rows `a` to `b` hold every row of the device this rectangle is on. */
  predicate Covers(r: Rect, height: nat, a: int, b: int) {
    a <= (if r.y < 0 then 0 else r.y) && (if r.y + r.h > height then height else r.y + r.h) <= b
  }

  predicate Aligned(height: nat, a: int, b: int) {
    0 <= a && a % 8 == 0 && 0 <= b <= height && (b % 8 == 0 || b == height)
  }

  /** Division toward zero, so a range that starts above the device is clamped to it afterwards. */
  function BandBelow(v: int): int {
    if v >= 0 then v / BAND * BAND else -(-v / BAND * BAND)
  }

  ghost predicate AllNamed(t: Stack, ids: seq<string>, k: nat)
    requires k <= |ids|
  {
    forall j | 0 <= j < k :: Named(t, ids[j], 0) >= 0
  }

  ghost predicate CoversAll(t: Stack, ids: seq<string>, k: nat, a: int, b: int)
    requires k <= |ids| && AllNamed(t, ids, k)
  {
    forall j | 0 <= j < k :: Covers(Placed(t, Named(t, ids[j], 0)), t.height, a, b)
  }

  /** The first row of the first `k` named widgets, and the row after their last. */
  ghost function First(t: Stack, ids: seq<string>, k: nat): int
    requires k <= |ids| && AllNamed(t, ids, k)
    decreases k
  {
    if k == 0 then t.height
    else
      var r := Placed(t, Named(t, ids[k - 1], 0));
      if r.y < First(t, ids, k - 1) then r.y else First(t, ids, k - 1)
  }

  ghost function Last(t: Stack, ids: seq<string>, k: nat): (h: nat)
    requires k <= |ids| && AllNamed(t, ids, k)
    decreases k
  {
    if k == 0 then 0
    else
      var r := Placed(t, Named(t, ids[k - 1], 0));
      if r.y + r.h > Last(t, ids, k - 1) then r.y + r.h else Last(t, ids, k - 1)
  }

  /** A range covers the widgets exactly when it covers from the first row to the last. */
  lemma {:induction false} CoversFromFirstToLast(t: Stack, ids: seq<string>, k: nat, a: int, b: int)
    requires k <= |ids| && AllNamed(t, ids, k) && 0 <= a <= t.height && 0 <= b
    ensures CoversAll(t, ids, k, a, b) <==>
      a <= (if First(t, ids, k) < 0 then 0 else First(t, ids, k))
      && (if Last(t, ids, k) > t.height then t.height else Last(t, ids, k)) <= b
    decreases k
  {
    hide Placed, Named;
    if k > 0 { CoversFromFirstToLast(t, ids, k - 1, a, b); }
  }

  function Snapped(lo: int, hi: nat, height: nat): (int, int) {
    var y0, y1 := BandBelow(lo), RoundBand(hi);
    (if y0 < 0 then 0 else y0, if y1 > height then height else y1)
  }

  /** Snapping outward and clamping gives the least range of whole bands. */
  lemma SnappedIsLeast(lo: int, hi: nat, height: nat, a: int, b: int)
    requires lo < hi && lo <= height
    ensures var (y0, y1) := Snapped(lo, hi, height);
      && Aligned(height, y0, y1) && y0 <= (if lo < 0 then 0 else lo) && (if hi > height then height else hi) <= y1
      && (Aligned(height, a, b) && a <= (if lo < 0 then 0 else lo) && (if hi > height then height else hi) <= b
          ==> a <= y0 && y1 <= b)
  {
  }

  /** The least range of whole bands, or of what there is of the last one, that covers these widgets. */
  method Rows(t: Stack, ids: seq<string>) returns (err: Error, y0: int, y1: int)
    ensures err == Ok || err == NotFound || err == Empty
    ensures err == NotFound <==> !AllNamed(t, ids, |ids|)
    ensures err == Empty <==> AllNamed(t, ids, |ids|) && Last(t, ids, |ids|) <= First(t, ids, |ids|)
    ensures err == Ok ==> Aligned(t.height, y0, y1) && CoversAll(t, ids, |ids|, y0, y1)
    ensures err == Ok ==>
      forall a, b | Aligned(t.height, a, b) && a <= t.height && CoversAll(t, ids, |ids|, a, b) :: a <= y0 && y1 <= b
  {
    hide Placed, Covers, BandBelow, RoundBand;
    var lo, hi := t.height, 0;
    for k := 0 to |ids|
      invariant AllNamed(t, ids, k) && lo == First(t, ids, k) <= t.height && hi == Last(t, ids, k)
    {
      var i := Find(t, ids[k]);
      if i < 0 { return NotFound, 0, 0; }
      var r := RectOf(t, i);
      if r.y < lo { lo := r.y; }
      if r.y + r.h > hi { hi := r.y + r.h; }
    }
    if hi <= lo { return Empty, 0, 0; }
    y0 := BandBelow(lo);
    y1 := RoundBand(hi);
    if y0 < 0 { y0 := 0; }
    if y1 > t.height { y1 := t.height; }
    err := Ok;
    LeastRange(t, ids, lo, hi, y0, y1);
  }

  lemma LeastRange(t: Stack, ids: seq<string>, lo: int, hi: nat, y0: int, y1: int)
    requires AllNamed(t, ids, |ids|) && lo == First(t, ids, |ids|) <= t.height && hi == Last(t, ids, |ids|)
    requires lo < hi && (y0, y1) == Snapped(lo, hi, t.height)
    ensures Aligned(t.height, y0, y1) && CoversAll(t, ids, |ids|, y0, y1)
    ensures forall a, b | Aligned(t.height, a, b) && a <= t.height && CoversAll(t, ids, |ids|, a, b) ::
      a <= y0 && y1 <= b
  {
    hide CoversAll, First, Last, Snapped, AllNamed;
    SnappedIsLeast(lo, hi, t.height, 0, 0);
    CoversFromFirstToLast(t, ids, |ids|, y0, y1);
    forall a, b | Aligned(t.height, a, b) && a <= t.height && CoversAll(t, ids, |ids|, a, b)
      ensures a <= y0 && y1 <= b
    {
      CoversFromFirstToLast(t, ids, |ids|, a, b);
      SnappedIsLeast(lo, hi, t.height, a, b);
    }
  }

  /* ---- painting, all of it or only some rows ---- */

  /**
   What a widget inks at a point, if anything. How a widget looks is any
   function of it, of its rectangle and of the point; it is taken not to ink
   outside its rectangle.
   */
  type Look = (Widget, Rect, int, int) -> Ink

  datatype Ink = Nothing | Colour(rgb: int)

  function InkAt(look: Look, w: Widget, r: Rect, x: int, y: int): Ink {
    if r.Has(x, y) then look(w, r, x, y) else Nothing
  }

  /** The widgets a document of rows `y0` to `y1` draws, of the first `n`, in order. */
  function Drawn(t: Stack, y0: int, y1: int, n: nat): (d: seq<nat>)
    requires n <= |t.kids|
    ensures forall k | 0 <= k < |d| :: d[k] < n
    decreases n
  {
    if n == 0 then []
    else
      var r, d := Placed(t, n - 1), Drawn(t, y0, y1, n - 1);
      if r.y >= y1 || r.y + r.h <= y0 then d else d + [n - 1]
  }

  /** Exactly the widgets with a row in the range are drawn, in the order they were declared. */
  lemma {:induction false} DrawnIs(t: Stack, y0: int, y1: int, n: nat)
    requires n <= |t.kids|
    ensures var d := Drawn(t, y0, y1, n);
      && (forall j, k | 0 <= j < k < |d| :: d[j] < d[k])
      && forall i: nat | i < n :: i in d <==> Placed(t, i).y < y1 && Placed(t, i).y + Placed(t, i).h > y0
    decreases n
  {
    hide Placed;
    if n > 0 {
      DrawnIs(t, y0, y1, n - 1);
      var d := Drawn(t, y0, y1, n - 1);
      assert (d + [n - 1])[|d|] == n - 1;
      assert forall i: nat | i < n - 1 :: i in d + [n - 1] <==> i in d;
    }
  }

  /** What is on top at a point once these widgets have been drawn over a background. */
  function OnTop(look: Look, t: Stack, drawn: seq<nat>, bg: int, x: int, y: int): int
    requires forall k | 0 <= k < |drawn| :: drawn[k] < |t.kids|
    decreases |drawn|
  {
    if drawn == [] then bg
    else
      var i := drawn[|drawn| - 1];
      var ink := InkAt(look, t.kids[i], Placed(t, i), x, y);
      if ink.Colour? then ink.rgb else OnTop(look, t, drawn[..|drawn| - 1], bg, x, y)
  }

  /** What a document of these rows shows at a point, when only the first `n` widgets are in it. */
  function View(look: Look, t: Stack, y0: int, y1: int, n: nat, bg: int, x: int, y: int): int
    requires n <= |t.kids|
  {
    OnTop(look, t, Drawn(t, y0, y1, n), bg, x, y)
  }

  /** A point of a document, which paints its rows and no others. */
  function DocumentAt(look: Look, t: Stack, y0: int, y1: int, bg: int, glass: int, x: int, y: int): int {
    if y0 <= y < y1 then View(look, t, y0, y1, |t.kids|, bg, x, y) else glass
  }

  lemma NothingDrawn(look: Look, t: Stack, y0: int, y1: int, bg: int, x: int, y: int)
    ensures View(look, t, y0, y1, 0, bg, x, y) == bg
  {
  }

  /** Leaving out the widgets that are not on a document's rows changes nothing on those rows. */
  lemma {:induction false} LeavingOutIsInvisible(look: Look, t: Stack, y0: int, y1: int, n: nat, bg: int,
                                                 x: int, y: int)
    requires n <= |t.kids| && y0 <= y < y1 && 0 <= y < t.height
    ensures View(look, t, y0, y1, n, bg, x, y) == View(look, t, 0, t.height, n, bg, x, y)
    decreases n
  {
    hide Placed, View, InkAt;
    if n == 0 {
      NothingDrawn(look, t, y0, y1, bg, x, y);
      NothingDrawn(look, t, 0, t.height, bg, x, y);
    } else {
      LeavingOutIsInvisible(look, t, y0, y1, n - 1, bg, x, y);
      OneMoreDrawn(look, t, y0, y1, n, bg, x, y);
      OneMoreDrawn(look, t, 0, t.height, n, bg, x, y);
    }
  }

  lemma OneMoreDrawn(look: Look, t: Stack, y0: int, y1: int, n: nat, bg: int, x: int, y: int)
    requires 0 < n <= |t.kids| && y0 <= y < y1
    ensures var ink := InkAt(look, t.kids[n - 1], Placed(t, n - 1), x, y);
      View(look, t, y0, y1, n, bg, x, y) == if ink.Colour? then ink.rgb else View(look, t, y0, y1, n - 1, bg, x, y)
  {
    var r, d := Placed(t, n - 1), Drawn(t, y0, y1, n - 1);
    hide Placed;
    if !(r.y >= y1 || r.y + r.h <= y0) {
      assert (d + [n - 1])[..|d + [n - 1]| - 1] == d;
    }
  }

  /** Two versions of a stack: nothing moved, and only the widgets named changed. */
  ghost predicate OnlyThese(t: Stack, u: Stack, ids: seq<string>)
    requires AllNamed(u, ids, |ids|)
  {
    && |t.kids| == |u.kids| && t.height == u.height
    && forall i {:trigger u.kids[i]} | 0 <= i < |u.kids| ::
        && Placed(t, i) == Placed(u, i)
        && (t.kids[i] == u.kids[i] || exists k :: 0 <= k < |ids| && Named(u, ids[k], 0) == i)
  }

  /** Outside a range that covers the widgets that changed, each widget inks what it did. */
  lemma SameInk(look: Look, t: Stack, u: Stack, ids: seq<string>, y0: int, y1: int, i: nat, x: int, y: int)
    requires AllNamed(u, ids, |ids|) && OnlyThese(t, u, ids) && CoversAll(u, ids, |ids|, y0, y1)
    requires i < |u.kids| && 0 <= y < u.height && !(y0 <= y < y1)
    ensures InkAt(look, t.kids[i], Placed(t, i), x, y) == InkAt(look, u.kids[i], Placed(u, i), x, y)
  {
    hide Placed, Named;
    assert u.kids[i] == u.kids[i];
  }

  /** Two stacks whose widgets ink the same at a point look the same there. */
  lemma {:induction false} SameView(look: Look, t: Stack, u: Stack, n: nat, bg: int, x: int, y: int)
    requires n <= |u.kids| == |t.kids| && t.height == u.height && 0 <= y < u.height
    requires forall i | 0 <= i < n ::
               InkAt(look, t.kids[i], Placed(t, i), x, y) == InkAt(look, u.kids[i], Placed(u, i), x, y)
    ensures View(look, t, 0, t.height, n, bg, x, y) == View(look, u, 0, u.height, n, bg, x, y)
    decreases n
  {
    hide Placed, View, InkAt;
    if n == 0 {
      NothingDrawn(look, t, 0, t.height, bg, x, y);
      NothingDrawn(look, u, 0, u.height, bg, x, y);
    } else {
      SameView(look, t, u, n - 1, bg, x, y);
      OneMoreDrawn(look, t, 0, t.height, n, bg, x, y);
      OneMoreDrawn(look, u, 0, u.height, n, bg, x, y);
    }
  }

  /**
   Repainting the rows `Rows` gives, over a full painting of the stack as it
   was, leaves at every point of the device what painting all of it would.
   */
  lemma RepaintIsEnough(look: Look, t: Stack, u: Stack, ids: seq<string>, y0: int, y1: int, bg: int, glass: int,
                        x: int, y: int)
    requires AllNamed(u, ids, |ids|) && OnlyThese(t, u, ids) && CoversAll(u, ids, |ids|, y0, y1)
    requires 0 <= y < u.height
    requires glass == DocumentAt(look, t, 0, t.height, bg, 0, x, y)
    ensures DocumentAt(look, u, y0, y1, bg, glass, x, y) == DocumentAt(look, u, 0, u.height, bg, 0, x, y)
  {
    assert |u.kids| == |t.kids| && t.height == u.height;
    hide View, InkAt, Placed, OnlyThese, CoversAll, AllNamed;
    if y0 <= y < y1 {
      LeavingOutIsInvisible(look, u, y0, y1, |u.kids|, bg, x, y);
    } else {
      forall i | 0 <= i < |u.kids|
        ensures InkAt(look, t.kids[i], Placed(t, i), x, y) == InkAt(look, u.kids[i], Placed(u, i), x, y)
      {
        SameInk(look, t, u, ids, y0, y1, i, x, y);
      }
      SameView(look, t, u, |u.kids|, bg, x, y);
    }
  }

  /** In a column, what a widget says and how it looks never move anything. */
  lemma {:induction false} LooksDoNotMove(t: Stack, u: Stack, i: nat)
    requires t.axis.Col? && u == t.(kids := u.kids) && |u.kids| == |t.kids| && i < |t.kids|
    requires forall j | 0 <= j < |t.kids| ::
      t.kids[j].kind == u.kids[j].kind && t.kids[j].size == u.kids[j].size && t.kids[j].weight == u.kids[j].weight
    ensures Placed(t, i) == Placed(u, i)
  {
    hide Naturals, Weights, Shares, LastWeighted, Gaps, Portion, Halved;
    var n := |t.kids|;
    SameSums(t, u, n);
    SameSums(t, u, i);
    SameShares(t, u, i);
    LastSame(t, u, n);
    GapsSame(t, u, i);
  }

  lemma {:induction false} SameSums(t: Stack, u: Stack, n: nat)
    requires t.axis.Col? && u == t.(kids := u.kids) && |u.kids| == |t.kids| && n <= |t.kids|
    requires forall j | 0 <= j < |t.kids| ::
      t.kids[j].kind == u.kids[j].kind && t.kids[j].size == u.kids[j].size && t.kids[j].weight == u.kids[j].weight
    ensures Naturals(t, n) == Naturals(u, n) && Weights(t, n) == Weights(u, n) && Taken(t, n) == Taken(u, n)
    decreases n
  {
    if n > 0 { SameSums(t, u, n - 1); }
  }

  lemma {:induction false} SameShares(t: Stack, u: Stack, n: nat)
    requires t.axis.Col? && u == t.(kids := u.kids) && |u.kids| == |t.kids| && n <= |t.kids|
    requires forall j | 0 <= j < |t.kids| ::
      t.kids[j].kind == u.kids[j].kind && t.kids[j].size == u.kids[j].size && t.kids[j].weight == u.kids[j].weight
    ensures Shares(t, n) == Shares(u, n)
    decreases n
  {
    if n > 0 {
      SameShares(t, u, n - 1);
      SameSums(t, u, |t.kids|);
    }
  }

  lemma {:induction false} LastSame(t: Stack, u: Stack, n: nat)
    requires |u.kids| == |t.kids| && n <= |t.kids|
    requires forall j | 0 <= j < |t.kids| :: t.kids[j].weight == u.kids[j].weight
    ensures LastWeighted(t, n) == LastWeighted(u, n)
    decreases n
  {
    if n > 0 { LastSame(t, u, n - 1); }
  }

  lemma {:induction false} GapsSame(t: Stack, u: Stack, n: nat)
    requires t.gap == u.gap
    ensures Gaps(t, n) == Gaps(u, n)
    decreases n
  {
    if n > 0 { GapsSame(t, u, n - 1); }
  }
}
