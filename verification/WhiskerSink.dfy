/**
 Writing a document out: everything is run twice, once against a sink that
 only counts and once for real, so that what does not fit is refused before a
 byte of it is written.
 */
module WhiskerSink {
  import opened Layout
  import opened Whisker
  import opened Numerals

  /** Where a document goes. One that is not live has nowhere to put anything and only counts. */
  class Sink {
    const live: bool
    var bytes: string
    var len: nat

    constructor (live: bool)
      ensures this.live == live && bytes == "" && len == 0
    {
      this.live, bytes, len := live, "", 0;
    }

    /** Since it had `bytes0` and had counted `len0`, this text has been put in it. */
    ghost predicate Took(bytes0: string, len0: nat, text: string)
      reads this
    {
      bytes == bytes0 + (if live then text else "") && len == len0 + |text|
    }

    method Put(text: string)
      modifies this
      ensures Took(old(bytes), old(len), text)
    {
      if live { bytes := bytes + text; }
      len := len + |text|;
    }

    /** After one text, another. */
    lemma TookBoth(bytes0: string, len0: nat, a: string, bytes1: string, len1: nat, b: string)
      requires bytes1 == bytes0 + (if live then a else "") && len1 == len0 + |a| && Took(bytes1, len1, b)
      ensures Took(bytes0, len0, a + b)
    {
    }

    /* ---- numbers and colours ---- */

    /** A number in decimal: the digits come out backwards and are put forwards, the last eight of them at most. */
    method PutNumber(v: int)
      modifies this
      ensures Took(old(bytes), old(len), Signed(v))
    {
      hide Decimal, Backwards, LastEight;
      ghost var sign := if v < 0 then "-" else "";
      if v < 0 { Put("-"); }
      var b, i := Digits(if v < 0 then -v else v);
      ghost var digits, bytes1, len1 := Backwards(b[..i]), bytes, len;
      PutForwards(b, i);
      TookBoth(old(bytes), old(len), sign, bytes1, len1, digits);
    }

    /** So many characters, the last first. */
    method PutForwards(b: array<char>, n: nat)
      requires n <= b.Length
      modifies this
      ensures Took(old(bytes), old(len), Backwards(b[..n]))
    {
      hide Backwards;
      ghost var text, all := "", Backwards(b[..n]);
      assert all == text + Backwards(b[..n]);
      var i := n;
      while i > 0
        invariant i <= n && text + Backwards(b[..i]) == all
        invariant Took(old(bytes), old(len), text)
      {
        i := i - 1;
        LastFirst(b[..i], b[i]);
        assert b[..i + 1] == b[..i] + [b[i]];
        ghost var bytes1, len1 := bytes, len;
        Put([b[i]]);
        TookBoth(old(bytes), old(len), text, bytes1, len1, [b[i]]);
        text := text + [b[i]];
      }
      assert b[..0] == "";
      LastFirst("", ' ');
    }

    method PutColour(rgb: nat)
      modifies this
      ensures Took(old(bytes), old(len), ColourText(rgb))
    {
      var r, g, b := rgb / 65536 % 256, rgb / 256 % 256, rgb % 256;
      Put("#");
      if r / 16 == r % 16 && g / 16 == g % 16 && b / 16 == b % 16 {
        Put([HexDigit(r % 16), HexDigit(g % 16), HexDigit(b % 16)]);
      } else {
        Put([HexDigit(r / 16), HexDigit(r % 16), HexDigit(g / 16), HexDigit(g % 16),
             HexDigit(b / 16), HexDigit(b % 16)]);
      }
    }
  }

  /** The last eight digits of a number, or all it has, least first. */
  method Digits(all: nat) returns (b: array<char>, i: nat)
    ensures fresh(b) && b.Length == 8 && i <= 8 && Backwards(b[..i]) == LastEight(Decimal(all))
  {
    hide Backwards, Decimal;
    b := new char[8];
    var n: nat := all / 10;
    b[0], i := Digit(all % 10), 1;
    assert b[..1] == "" + [Digit(all % 10)];
    FirstDigit(all);
    while n != 0 && i < 8
      invariant 1 <= i <= 8
      invariant Rest(n) + Backwards(b[..i]) == Decimal(all)
    {
      ghost var was := b[..i];
      var c := Digit(n % 10);
      NextDigit(n, was);
      b[i] := c;
      assert b[..i + 1] == was + [c];
      n, i := n / 10, i + 1;
    }
    assert |Backwards(b[..i])| == i;
  }

  function LastEight(s: string): string {
    if |s| <= 8 then s else s[|s| - 8..]
  }

  /** The digits still to come. */
  function Rest(n: nat): (s: string)
    ensures s == "" <==> n == 0
  {
    if n == 0 then "" else Decimal(n)
  }

  lemma FirstDigit(n: nat)
    ensures Rest(n / 10) + Backwards("" + [Digit(n % 10)]) == Decimal(n)
  {
    LastFirst("", Digit(n % 10));
  }

  lemma NextDigit(n: nat, was: string)
    requires n > 0
    ensures Rest(n / 10) + Backwards(was + [Digit(n % 10)]) == Rest(n) + Backwards(was)
  {
    hide AllDigits, Backwards;
    var d := Digit(n % 10);
    LastFirst(was, d);
    assert Rest(n) == Rest(n / 10) + [d];
    assert Rest(n / 10) + ([d] + Backwards(was)) == Rest(n / 10) + [d] + Backwards(was);
  }

  /** A number is read back as it was written, or what its last eight digits come to if it has more. */
  lemma NumberBack(n: nat)
    ensures var s := LastEight(Decimal(n));
      AllDigits(s) && Value(s) == n % 100_000_000 && (s == Decimal(n) <==> n < 100_000_000)
  {
    hide Value, Decimal, Power10, AllDigits;
    HowManyDigits(n, 8);
    HundredMillion();
    if |Decimal(n)| <= 8 {
      DecimalBack(n);
    } else {
      LastDigits(n, 8);
      assert LastEight(Decimal(n)) == LastOf(n, 8);
    }
  }

  lemma HundredMillion()
    ensures Power10(8) == 100_000_000
  {
    assert Power10(3) == 1000 && Power10(5) == 100_000;
  }

  lemma LastFirst(s: string, c: char)
    ensures Backwards(s + [c]) == [c] + Backwards(s) && Backwards("") == ""
  {
    assert (s + [c])[..|s|] == s;
  }

  function Signed(v: int): string {
    if v < 0 then "-" + LastEight(Decimal(-v)) else LastEight(Decimal(v))
  }

  /* ---- colours ---- */

  function HexDigit(v: nat): char
    requires v < 16
  {
    if v < 10 then '0' + v as char else 'a' + (v - 10) as char
  }

  lemma HexDigits(v: nat)
    requires v < 16
    ensures HexDigit(v) == "0123456789abcdef"[v]
  {
  }

  function Channel(rgb: nat, which: nat): nat
    requires which < 3
  {
    (if which == 0 then rgb / 65536 else if which == 1 then rgb / 256 else rgb) % 256
  }

  /** A channel whose two hexadecimal digits are the same. */
  predicate Doubled(c: nat) {
    c / 16 == c % 16
  }

  predicate Short(rgb: nat) {
    Doubled(Channel(rgb, 0)) && Doubled(Channel(rgb, 1)) && Doubled(Channel(rgb, 2))
  }

  /** A colour as it is written: one digit for a channel when every channel is doubled, otherwise two. */
  function ColourText(rgb: nat): string {
    var r, g, b := Channel(rgb, 0), Channel(rgb, 1), Channel(rgb, 2);
    "#" + if Short(rgb) then [HexDigit(r % 16), HexDigit(g % 16), HexDigit(b % 16)]
          else [HexDigit(r / 16), HexDigit(r % 16), HexDigit(g / 16), HexDigit(g % 16),
                HexDigit(b / 16), HexDigit(b % 16)]
  }

  function HexValue(c: char): nat {
    if '0' <= c <= '9' then (c - '0') as nat else if 'a' <= c <= 'f' then (c - 'a') as nat + 10 else 0
  }

  /** What the window reads: a single digit stands for a channel of two that are the same. */
  function ColourRead(s: string): nat
    requires |s| == 4 || |s| == 7
  {
    if |s| == 4 then (HexValue(s[1]) * 65536 + HexValue(s[2]) * 256 + HexValue(s[3])) * 17
    else (HexValue(s[1]) * 16 + HexValue(s[2])) * 65536 + (HexValue(s[3]) * 16 + HexValue(s[4])) * 256
         + (HexValue(s[5]) * 16 + HexValue(s[6]))
  }

  lemma HexBack(v: nat)
    requires v < 16
    ensures HexValue(HexDigit(v)) == v
  {
  }

  lemma Channels(rgb: nat)
    ensures Channel(rgb, 0) * 65536 + Channel(rgb, 1) * 256 + Channel(rgb, 2) == rgb % 0x100_0000
  {
    var q := rgb / 256;
    var p := q / 256;
    var low := (p % 256) * 65536 + (q % 256) * 256 + rgb % 256;
    Whole(rgb, p, 65536, (q % 256) * 256 + rgb % 256);
    Whole(rgb, p / 256, 0x100_0000, low);
  }

  lemma Whole(a: nat, q: nat, m: nat, r: nat)
    requires r < m && a == q * m + r
    ensures a / m == q && a % m == r
  {
    Quotient(a, m, q);
  }

  /** A colour's low 24 bits are read back as they were, and it is written short if a short one would do. */
  lemma ColourBack(rgb: nat, other: string)
    ensures ColourRead(ColourText(rgb)) == rgb % 0x100_0000
    ensures |other| == 4 && ColourRead(other) == rgb % 0x100_0000 ==> |ColourText(rgb)| == 4
  {
    var r, g, b := Channel(rgb, 0), Channel(rgb, 1), Channel(rgb, 2);
    Channels(rgb);
    HexBack(r / 16);
    HexBack(g / 16);
    HexBack(b / 16);
    HexBack(r % 16);
    HexBack(g % 16);
    HexBack(b % 16);
    if |other| == 4 && ColourRead(other) == rgb % 0x100_0000 {
      TwoDigits(r, g, b, HexValue(other[1]), HexValue(other[2]), HexValue(other[3]));
    }
  }

  /** Three channels of one doubled digit each. */
  lemma TwoDigits(r: nat, g: nat, b: nat, x: nat, y: nat, z: nat)
    requires r < 256 && g < 256 && b < 256 && x < 16 && y < 16 && z < 16
    requires (x * 65536 + y * 256 + z) * 17 == r * 65536 + g * 256 + b
    ensures Doubled(r) && Doubled(g) && Doubled(b)
  {
    hide Doubled;
    var over := (r - 17 * x) * 256 + (g - 17 * y);
    assert 17 * z - b == over * 256;
    assert 17 * y - g == (r - 17 * x) * 256;
    Repeated(x);
    Repeated(y);
    Repeated(z);
  }

  lemma Repeated(v: nat)
    requires v < 16
    ensures Doubled(17 * v)
  {
    Whole(17 * v, v, 16, v);
  }

  function Backwards(s: string): (r: string)
    ensures |r| == |s|
  {
    if s == "" then "" else [s[|s| - 1]] + Backwards(s[..|s| - 1])
  }

  /* ---- one stack ---- */

  /** What a document is drawn into: a device, the rows of it that are painted, and what its stacks inherit. */
  datatype Doc = Doc(width: nat, height: nat, y0: int, y1: int, font: nat, ink: int)

  /** How the pieces of a document are spelled: any functions at all of what is drawn. */
  datatype Spelling = Spelling(open: Doc -> string, nest: Stack -> string, unnest: string,
                               widget: (Stack, Widget, Rect) -> string, shut: string)

  function DocOf(t: Stack, y0: int, y1: int): Doc {
    Doc(t.width, t.height, y0, y1, t.font, t.ink)
  }

  function Code(e: Error): int {
    match e
    case Ok => 0
    case BadText => -1
    case Budget => -2
    case NotFound => -3
    case Empty => -4
    case Device => -5
    case TooBig => -7
  }

  /** The widgets, spelled one after another. */
  function Spelled(sp: Spelling, t: Stack, drawn: seq<nat>): string
    requires forall k | 0 <= k < |drawn| :: drawn[k] < |t.kids|
    decreases |drawn|
  {
    if drawn == [] then ""
    else
      var i := drawn[|drawn| - 1];
      Spelled(sp, t, drawn[..|drawn| - 1]) + sp.widget(t, t.kids[i], Placed(t, i))
  }

  predicate Nested(d: Doc, t: Stack) {
    t.font != d.font || t.ink != d.ink
  }

  /** What a stack adds to a document: its widgets on the document's rows, in order. */
  function PartText(sp: Spelling, d: Doc, t: Stack): string {
    var all := Spelled(sp, t, Drawn(t, d.y0, d.y1, |t.kids|));
    if Nested(d, t) then sp.nest(t) + all + sp.unnest else all
  }

  /** A stack for another device is refused, and so is one that cannot be drawn. */
  function PartError(d: Doc, t: Stack): Error {
    if t.width != d.width || t.height != d.height then Device else Verdict(t)
  }

  /** One stack's part of a document, which is nothing when it is refused. */
  method PutPart(sp: Spelling, d: Doc, t: Stack, s: Sink) returns (err: Error)
    modifies s
    ensures err == PartError(d, t) && (err == Device <==> t.width != d.width || t.height != d.height)
    ensures s.Took(old(s.bytes), old(s.len), if err == Ok then PartText(sp, d, t) else "")
  {
    hide Drawn, Spelled;
    if t.width != d.width || t.height != d.height { return Device; }
    var which;
    err, which := Check(t);
    if err != Ok { return; }
    if !Nested(d, t) {
      PutWidgets(sp, d, t, s);
      return;
    }
    ghost var all := Spelled(sp, t, Drawn(t, d.y0, d.y1, |t.kids|));
    s.Put(sp.nest(t));
    ghost var bytes1, len1 := s.bytes, s.len;
    PutWidgets(sp, d, t, s);
    s.TookBoth(old(s.bytes), old(s.len), sp.nest(t), bytes1, len1, all);
    bytes1, len1 := s.bytes, s.len;
    s.Put(sp.unnest);
    s.TookBoth(old(s.bytes), old(s.len), sp.nest(t) + all, bytes1, len1, sp.unnest);
  }

  /** Of all the widgets, those on the document's rows. */
  method PutWidgets(sp: Spelling, d: Doc, t: Stack, s: Sink)
    modifies s
    ensures s.Took(old(s.bytes), old(s.len), Spelled(sp, t, Drawn(t, d.y0, d.y1, |t.kids|)))
  {
    hide Placed, Drawn, Spelled;
    NoneDrawn(sp, d, t);
    for i := 0 to |t.kids|
      invariant s.Took(old(s.bytes), old(s.len), Spelled(sp, t, Drawn(t, d.y0, d.y1, i)))
    {
      var r := RectOf(t, i);
      OneMoreSpelled(sp, d, t, i);
      if r.y >= d.y1 || r.y + r.h <= d.y0 { continue; }
      ghost var drawn := Drawn(t, d.y0, d.y1, i);
      ghost var bytes1, len1 := s.bytes, s.len;
      s.Put(sp.widget(t, t.kids[i], r));
      s.TookBoth(old(s.bytes), old(s.len), Spelled(sp, t, drawn), bytes1, len1, sp.widget(t, t.kids[i], r));
    }
  }

  lemma NoneDrawn(sp: Spelling, d: Doc, t: Stack)
    ensures Spelled(sp, t, Drawn(t, d.y0, d.y1, 0)) == ""
  {
  }

  lemma OneMoreSpelled(sp: Spelling, d: Doc, t: Stack, i: nat)
    requires i < |t.kids|
    ensures var r, before := Placed(t, i), Spelled(sp, t, Drawn(t, d.y0, d.y1, i));
      Spelled(sp, t, Drawn(t, d.y0, d.y1, i + 1)) ==
      if r.y >= d.y1 || r.y + r.h <= d.y0 then before else before + sp.widget(t, t.kids[i], r)
  {
    hide Placed;
    var drawn := Drawn(t, d.y0, d.y1, i);
    assert (drawn + [i])[..|drawn|] == drawn;
  }

  /** One stack's document of these rows. */
  function DocText(sp: Spelling, t: Stack, y0: int, y1: int): string {
    var d := DocOf(t, y0, y1);
    sp.open(d) + (if Verdict(t) == Ok then PartText(sp, d, t) else "") + sp.shut
  }

  /** Widgets are spelled in the order they are drawn in, each by itself. */
  lemma {:induction false} SpelledInOrder(sp: Spelling, t: Stack, a: seq<nat>, i: nat, b: seq<nat>)
    requires (forall k | 0 <= k < |a| :: a[k] < |t.kids|) && i < |t.kids| && forall k | 0 <= k < |b| :: b[k] < |t.kids|
    ensures Spelled(sp, t, a + [i] + b) == Spelled(sp, t, a) + sp.widget(t, t.kids[i], Placed(t, i)) + Spelled(sp, t, b)
    decreases |b|
  {
    hide Placed;
    var all := a + [i] + b;
    if b == [] {
      assert all == a + [i] && (a + [i])[..|a|] == a;
    } else {
      var n := |b| - 1;
      assert all[..|all| - 1] == a + [i] + b[..n] && all[|all| - 1] == b[n];
      SpelledInOrder(sp, t, a, i, b[..n]);
    }
  }

  /** A document is opened for its own stack, whose font and ink it has, so that nothing is nested in it. */
  lemma DocumentIs(sp: Spelling, t: Stack, y0: int, y1: int)
    requires Verdict(t) == Ok
    ensures DocText(sp, t, y0, y1) ==
      sp.open(Doc(t.width, t.height, y0, y1, t.font, t.ink)) + Spelled(sp, t, Drawn(t, y0, y1, |t.kids|)) + sp.shut
  {
  }

  /** In another's document a stack is nested exactly when its font or its ink is not the document's. */
  lemma PartIs(sp: Spelling, d: Doc, t: Stack)
    ensures var all := Spelled(sp, t, Drawn(t, d.y0, d.y1, |t.kids|));
      PartText(sp, d, t) == if t.font == d.font && t.ink == d.ink then all else sp.nest(t) + all + sp.unnest
  {
  }

  method PutDoc(sp: Spelling, t: Stack, y0: int, y1: int, s: Sink)
    modifies s
    ensures s.Took(old(s.bytes), old(s.len), DocText(sp, t, y0, y1))
  {
    hide PartText;
    var d := DocOf(t, y0, y1);
    s.Put(sp.open(d));
    var err := PutPart(sp, d, t, s);
    s.Put(sp.shut);
  }

  /**
   A document measured and then written: either it is refused, for what it
   says or for its length, before a byte of it is written, or exactly as many
   bytes are written as are said to be.
   */
  method Emit(sp: Spelling, t: Stack, y0: int, y1: int, sink: Sink, budget: int) returns (r: int)
    modifies sink
    ensures r == var n := |DocText(sp, t, y0, y1)|;
      if Verdict(t) == BadText then -1 else if Verdict(t) == TooBig then -7 else if 0 < budget < n then -2 else n
    ensures sink.Took(old(sink.bytes), old(sink.len), if r < 0 then "" else DocText(sp, t, y0, y1))
  {
    hide DocText;
    var err, _ := Check(t);
    if err != Ok { return Code(err); }
    var dry := new Sink(false);
    PutDoc(sp, t, y0, y1, dry);
    if budget > 0 && dry.len > budget { return Code(Budget); }
    PutDoc(sp, t, y0, y1, sink);
    return dry.len;
  }

  /** The whole screen. */
  method Render(sp: Spelling, t: Stack, sink: Sink, budget: int) returns (r: int)
    modifies sink
    ensures sink.Took(old(sink.bytes), old(sink.len), if r < 0 then "" else DocText(sp, t, 0, t.height))
    ensures r >= 0 ==> sink.len == old(sink.len) + r && (budget > 0 ==> r <= budget)
    ensures r >= 0 <==> Verdict(t) == Ok && !(0 < budget < |DocText(sp, t, 0, t.height)|)
  {
    hide DocText;
    r := Emit(sp, t, 0, t.height, sink, budget);
  }

  /** Only the rows the named widgets need. */
  method RenderClipped(sp: Spelling, t: Stack, ids: seq<string>, sink: Sink, budget: int)
      returns (r: int, ghost y0: int, ghost y1: int)
    modifies sink
    ensures sink.Took(old(sink.bytes), old(sink.len), if r < 0 then "" else DocText(sp, t, y0, y1))
    ensures r >= 0 ==> sink.len == old(sink.len) + r && (budget > 0 ==> r <= budget)
    ensures r >= 0 ==> AllNamed(t, ids, |ids|) && Aligned(t.height, y0, y1) && CoversAll(t, ids, |ids|, y0, y1)
    ensures r == -3 <==> !AllNamed(t, ids, |ids|)
    ensures AllNamed(t, ids, |ids|) && Last(t, ids, |ids|) <= First(t, ids, |ids|) ==> r == -4
  {
    hide DocText, Verdict, AllNamed, CoversAll, Aligned;
    var err, lo, hi := Rows(t, ids);
    y0, y1 := lo, hi;
    if err != Ok { return Code(err), y0, y1; }
    r := Emit(sp, t, lo, hi, sink, budget);
  }

  /* ---- several stacks ---- */

  /** What one run of a body writes, what it returns, and what it leaves behind for the next. */
  datatype Run<W> = Run(text: string, result: int, after: W)

  /** A body may look at its sink, and at anything else it can reach. */
  type Body<!W> = (bool, nat, W) -> Run<W>

  /** Nothing is written and an error is returned, or the bytes that were counted are, and so many are said to be. */
  ghost predicate AsCounted(counted: string, written: string, r: int, budget: int) {
    if r < 0 then written == ""
    else written == counted && r == |counted| && (budget > 0 ==> r <= budget)
  }

  /** What comes of running a body twice: what it is said to have written, and what it has. */
  function Twice<W>(first: Run<W>, second: Run<W>, budget: int): (int, string) {
    if first.result < 0 then (first.result, "")
    else if 0 < budget < |first.text| then (Code(Budget), "")
    else if second.result < 0 then (second.result, second.text)
    else (|first.text|, second.text)
  }

  method Compose<W>(body: Body<W>, w: W, sink: Sink, budget: int) returns (r: int, after: W)
    modifies sink
    ensures var first := body(true, 0, w);
      var second := body(!sink.live, old(sink.len), first.after);
      && r == Twice(first, second, budget).0
      && sink.Took(old(sink.bytes), old(sink.len), Twice(first, second, budget).1)
      && (Repeats(first, second) ==>
            && sink.Took(old(sink.bytes), old(sink.len), if r < 0 then "" else first.text)
            && (r >= 0 ==> r == |first.text| && (budget > 0 ==> r <= budget)))
  {
    var dry := new Sink(false);
    var first := body(!dry.live, dry.len, w);
    dry.Put(first.text);
    if first.result < 0 { return first.result, first.after; }
    if budget > 0 && dry.len > budget { return Code(Budget), first.after; }
    var second := body(!sink.live, sink.len, first.after);
    sink.Put(second.text);
    if second.result < 0 { return second.result, second.after; }
    return dry.len, second.after;
  }

  /** The second run ends as the first did: the same bytes, or an error before the first of them. */
  predicate Repeats<W>(first: Run<W>, second: Run<W>) {
    if second.result < 0 then second.text == "" else second.text == first.text
  }

  /** What was counted, or nothing, is written exactly when the first run is refused or the second repeats it. */
  lemma ComposeExactIff<W>(first: Run<W>, second: Run<W>, budget: int)
    ensures CountedAt(first, second, budget) <==>
            first.result < 0 || 0 < budget < |first.text| || Repeats(first, second)
  {
  }

  ghost predicate CountedAt<W>(first: Run<W>, second: Run<W>, budget: int) {
    AsCounted(first.text, Twice(first, second, budget).1, Twice(first, second, budget).0, budget)
  }

  /** A body that writes how often it has been run: of one byte counted against a budget of one, two are written. */
  lemma ComposeMiscounts()
    ensures var body: Body<nat> := (dry, len, w) => Run(if w == 0 then "a" else "ab", 0, w + 1);
      var first := body(true, 0, 0);
      Twice(first, body(false, 0, first.after), 1) == (1, "ab")
  {
  }

  /* ---- the body that several stacks are for ---- */

  /** Every stack's part, up to the first that is refused. */
  function PartsText(sp: Spelling, d: Doc, ts: seq<Stack>): string {
    if ts == [] || PartError(d, ts[0]) != Ok then "" else PartText(sp, d, ts[0]) + PartsText(sp, d, ts[1..])
  }

  function PartsError(d: Doc, ts: seq<Stack>): Error {
    if ts == [] then Ok else if PartError(d, ts[0]) != Ok then PartError(d, ts[0]) else PartsError(d, ts[1..])
  }

  function StacksRun(sp: Spelling, d: Doc, ts: seq<Stack>): Run<()> {
    var err := PartsError(d, ts);
    Run(sp.open(d) + PartsText(sp, d, ts) + (if err == Ok then sp.shut else ""), Code(err), ())
  }

  method PutStacks(sp: Spelling, d: Doc, ts: seq<Stack>, s: Sink) returns (r: int)
    modifies s
    ensures r == StacksRun(sp, d, ts).result && s.Took(old(s.bytes), old(s.len), StacksRun(sp, d, ts).text)
  {
    hide PartsText, PartsError;
    ghost var parts := PartsText(sp, d, ts);
    s.Put(sp.open(d));
    ghost var bytes1, len1 := s.bytes, s.len;
    var err := PutParts(sp, d, ts, s);
    s.TookBoth(old(s.bytes), old(s.len), sp.open(d), bytes1, len1, parts);
    if err != Ok {
      assert sp.open(d) + parts + "" == sp.open(d) + parts;
      return Code(err);
    }
    bytes1, len1 := s.bytes, s.len;
    s.Put(sp.shut);
    s.TookBoth(old(s.bytes), old(s.len), sp.open(d) + parts, bytes1, len1, sp.shut);
    r := Code(Ok);
  }

  method PutParts(sp: Spelling, d: Doc, ts: seq<Stack>, s: Sink) returns (err: Error)
    modifies s
    ensures err == PartsError(d, ts) && s.Took(old(s.bytes), old(s.len), PartsText(sp, d, ts))
  {
    hide PartText, PartError, PartsText, PartsError;
    ghost var text := "";
    assert ts[0..] == ts && ts[|ts|..] == [];
    for i := 0 to |ts|
      invariant s.Took(old(s.bytes), old(s.len), text)
      invariant text + PartsText(sp, d, ts[i..]) == PartsText(sp, d, ts)
      invariant PartsError(d, ts[i..]) == PartsError(d, ts)
    {
      ghost var bytes1, len1 := s.bytes, s.len;
      NextPart(sp, d, ts, i);
      err := PutPart(sp, d, ts[i], s);
      if err != Ok { return; }
      s.TookBoth(old(s.bytes), old(s.len), text, bytes1, len1, PartText(sp, d, ts[i]));
      text := text + PartText(sp, d, ts[i]);
    }
    NoParts(sp, d);
    err := Ok;
  }

  lemma NextPart(sp: Spelling, d: Doc, ts: seq<Stack>, i: nat)
    requires i < |ts|
    ensures var err := PartError(d, ts[i]);
      && PartsText(sp, d, ts[i..]) == (if err == Ok then PartText(sp, d, ts[i]) + PartsText(sp, d, ts[i + 1..]) else "")
      && PartsError(d, ts[i..]) == (if err == Ok then PartsError(d, ts[i + 1..]) else err)
  {
    assert ts[i..][1..] == ts[i + 1..];
  }

  lemma NoParts(sp: Spelling, d: Doc)
    ensures PartsText(sp, d, []) == "" && PartsError(d, []) == Ok
  {
  }

  /** The first stack that is refused says why, a device that is not its own before anything else. */
  lemma {:induction false} FirstRefused(sp: Spelling, d: Doc, ts: seq<Stack>, i: nat)
    requires i < |ts| && PartError(d, ts[i]) != Ok && forall j | 0 <= j < i :: PartError(d, ts[j]) == Ok
    ensures StacksRun(sp, d, ts).result ==
      if ts[i].width != d.width || ts[i].height != d.height then -5 else if Verdict(ts[i]) == BadText then -1 else -7
    decreases i
  {
    if i > 0 {
      FirstRefused(sp, d, ts[1..], i - 1);
      assert PartsError(d, ts) == PartsError(d, ts[1..]);
    }
  }

  /** Several stacks in one document: refused whole, or written whole within the budget. */
  lemma StacksExact(sp: Spelling, d: Doc, ts: seq<Stack>, budget: int)
    ensures var run := StacksRun(sp, d, ts);
      && CountedAt(run, run, budget)
      && (Twice(run, run, budget).0 >= 0 <==>
            (forall i | 0 <= i < |ts| :: PartError(d, ts[i]) == Ok) && !(0 < budget < |run.text|))
  {
    hide PartError;
    NoneRefused(d, ts);
  }

  lemma {:induction false} NoneRefused(d: Doc, ts: seq<Stack>)
    ensures PartsError(d, ts) == Ok <==> forall i | 0 <= i < |ts| :: PartError(d, ts[i]) == Ok
  {
    hide PartError;
    if ts != [] {
      NoneRefused(d, ts[1..]);
      assert forall i | 0 < i < |ts| :: ts[i] == ts[1..][i - 1];
    }
  }
}
