/**
 A text as one run of bytes and as lines, and how a place in the one is a place
 in the other. The editor keeps the bytes; a person sees the lines.
 */
module EditorText {

  type Byte = b: int | 0 <= b < 256

  type Line = seq<Byte>

  const NEWLINE: Byte := 10

  /** The lines of a text; a text that ends in a newline ends in an empty line. */
  function Lines(t: seq<Byte>): (r: seq<Line>)
    ensures |r| >= 1
    decreases |t|
  {
    if t == [] then [[]] else OneMore(Lines(t[..|t| - 1]), t[|t| - 1])
  }

  /** One more byte at the end. */
  function OneMore(l: seq<Line>, b: Byte): (r: seq<Line>)
    requires |l| >= 1
    ensures |r| >= 1
  {
    if b == NEWLINE then l + [[]] else l[..|l| - 1] + [l[|l| - 1] + [b]]
  }

  /** Where line `r` begins. */
  function Start(lines: seq<Line>, r: nat): nat
    requires r <= |lines|
    decreases r
  {
    if r == 0 then 0 else Start(lines, r - 1) + |lines[r - 1]| + 1
  }

  /** How many bytes these lines take. */
  function Size(lines: seq<Line>): nat
    requires |lines| >= 1
  {
    Start(lines, |lines| - 1) + |lines[|lines| - 1]|
  }

  /** The line and column of a place in the text. */
  function RowOf(t: seq<Byte>, p: nat): nat
    requires p <= |t|
  {
    |Lines(t[..p])| - 1
  }

  function ColOf(t: seq<Byte>, p: nat): nat
    requires p <= |t|
  {
    |Lines(t[..p])[RowOf(t, p)]|
  }

  /** `a` followed by `b`, the last line of one running on into the first of the other. */
  function Glue(a: seq<Line>, b: seq<Line>): (r: seq<Line>)
    requires |a| >= 1 && |b| >= 1
    ensures |r| == |a| + |b| - 1
  {
    a[..|a| - 1] + [a[|a| - 1] + b[0]] + b[1..]
  }

  predicate Unbroken(s: seq<Byte>) {
    forall i | 0 <= i < |s| :: s[i] != NEWLINE
  }

  /* ---- lines of a joined text ---- */

  lemma {:induction false} LinesGlue(a: seq<Byte>, b: seq<Byte>)
    ensures Lines(a + b) == Glue(Lines(a), Lines(b))
    decreases |b|
  {
    if b == [] {
      assert a + b == a;
      GlueEmpty(Lines(a));
    } else {
      var n := |b| - 1;
      LinesGlue(a, b[..n]);
      assert (a + b)[..|a + b| - 1] == a + b[..n];
      GlueOneMore(Lines(a), Lines(b[..n]), b[n]);
      hide Glue, OneMore;
    }
  }

  lemma GlueEmpty(x: seq<Line>)
    requires |x| >= 1
    ensures Glue(x, [[]]) == x
  {
    assert x[|x| - 1] + [] == x[|x| - 1];
  }

  lemma GlueOneMore(x: seq<Line>, y: seq<Line>, b: Byte)
    requires |x| >= 1 && |y| >= 1
    ensures Glue(x, OneMore(y, b)) == OneMore(Glue(x, y), b)
  {
    if b == NEWLINE {
      assert (y + [[]])[1..] == y[1..] + [[]];
    } else if |y| == 1 {
      assert x[|x| - 1] + (y[0] + [b]) == x[|x| - 1] + y[0] + [b];
    }
  }

  /** The lines around a place: those before it, its own in two parts, and those after. */
  lemma Around(t: seq<Byte>, p: nat)
    requires p <= |t|
    ensures var l, a, b := Lines(t), Lines(t[..p]), Lines(t[p..]);
      var r := RowOf(t, p);
      && l == Glue(a, b) && |a| == r + 1 && r < |l| && ColOf(t, p) <= |l[r]|
      && l[..r] == a[..r] && l[r] == a[r] + b[0] && l[r + 1..] == b[1..]
      && l[r][..ColOf(t, p)] == a[r] && l[r][ColOf(t, p)..] == b[0]
  {
    assert t == t[..p] + t[p..];
    LinesGlue(t[..p], t[p..]);
  }

  /* ---- places ---- */

  lemma {:induction false} StartPrefix(l: seq<Line>, m: seq<Line>, r: nat)
    requires r <= |l| && r <= |m| && l[..r] == m[..r]
    ensures Start(l, r) == Start(m, r)
    decreases r
  {
    if r > 0 {
      assert l[..r - 1] == l[..r][..r - 1] == m[..r - 1];
      assert l[r - 1] == l[..r][r - 1] == m[r - 1];
      StartPrefix(l, m, r - 1);
    }
  }

  lemma SizeOneMore(l: seq<Line>, b: Byte)
    requires |l| >= 1
    ensures Size(OneMore(l, b)) == Size(l) + 1
  {
    StartPrefix(OneMore(l, b), l, |l| - 1);
  }

  /** The lines account for every byte. */
  lemma {:induction false} LinesSize(t: seq<Byte>)
    ensures Size(Lines(t)) == |t|
    decreases |t|
  {
    hide Size, OneMore;
    if t == [] {
      assert Size([[]]) == 0 by { SizeEmpty(); }
    } else {
      LinesSize(t[..|t| - 1]);
      SizeOneMore(Lines(t[..|t| - 1]), t[|t| - 1]);
    }
  }

  lemma SizeEmpty()
    ensures Size([[]]) == 0
  {
  }

  /** A place is where its line begins and its column. */
  lemma PlaceIs(t: seq<Byte>, p: nat)
    requires p <= |t|
    ensures RowOf(t, p) < |Lines(t)| && ColOf(t, p) <= |Lines(t)[RowOf(t, p)]|
    ensures Start(Lines(t), RowOf(t, p)) + ColOf(t, p) == p
  {
    Around(t, p);
    LinesSize(t[..p]);
    StartPrefix(Lines(t), Lines(t[..p]), RowOf(t, p));
  }

  lemma {:induction false} StartGrows(l: seq<Line>, r: nat, s: nat)
    requires r < s <= |l|
    ensures Start(l, s) >= Start(l, r) + |l[r]| + 1
    decreases s
  {
    if r < s - 1 { StartGrows(l, r, s - 1); }
  }

  /** A line and a column name one place. */
  lemma PlaceUnique(t: seq<Byte>, p: nat, r: nat, c: nat)
    requires r < |Lines(t)| && c <= |Lines(t)[r]| && Start(Lines(t), r) + c == p
    ensures p <= |t| && RowOf(t, p) == r && ColOf(t, p) == c
  {
    hide Lines, RowOf, ColOf;
    LinesSize(t);
    if r < |Lines(t)| - 1 { StartGrows(Lines(t), r, |Lines(t)| - 1); }
    PlaceIs(t, p);
    var s := RowOf(t, p);
    if r < s { StartGrows(Lines(t), r, s); }
    if s < r { StartGrows(Lines(t), s, r); }
  }

  lemma {:induction false} LinesUnbroken(t: seq<Byte>)
    ensures forall r | 0 <= r < |Lines(t)| :: Unbroken(Lines(t)[r])
    decreases |t|
  {
    if t != [] {
      LinesUnbroken(t[..|t| - 1]);
    }
  }

  /** The byte before a place. */
  lemma ByteBefore(t: seq<Byte>, p: nat)
    requires 0 < p <= |t|
    ensures ColOf(t, p) == 0 <==> t[p - 1] == NEWLINE
    ensures ColOf(t, p) == 0 ==> RowOf(t, p) > 0
    ensures t[p - 1] == NEWLINE ==> RowOf(t, p) == RowOf(t, p - 1) + 1
    ensures t[p - 1] != NEWLINE ==> RowOf(t, p) == RowOf(t, p - 1) && ColOf(t, p) == ColOf(t, p - 1) + 1
  {
    assert t[..p][..p - 1] == t[..p - 1];
  }

  /** The byte at a place, and the end of the text. */
  lemma ByteAt(t: seq<Byte>, p: nat)
    requires p <= |t|
    ensures var l, r := Lines(t), RowOf(t, p);
      && r < |l|
      && (p == |t| <==> r == |l| - 1 && ColOf(t, p) == |l[r]|)
      && (p < |t| ==> (t[p] == NEWLINE <==> ColOf(t, p) == |l[r]|))
  {
    hide Lines, RowOf, ColOf;
    PlaceIs(t, p);
    LinesSize(t);
    var l := Lines(t);
    if p < |t| {
      ByteBefore(t, p + 1);
      PlaceIs(t, p + 1);
    } else {
      PlaceUnique(t, p, |l| - 1, |l[|l| - 1]|);
    }
  }

  lemma {:induction false} FirstLine(t: seq<Byte>)
    ensures var n := |Lines(t)[0]|; n <= |t| && Lines(t)[0] == t[..n] && (|Lines(t)| == 1 ==> n == |t|)
    decreases |t|
  {
    if t != [] {
      var s, b := t[..|t| - 1], t[|t| - 1];
      var l := Lines(s);
      assert Lines(t) == OneMore(l, b);
      hide Lines;
      FirstLine(s);
      assert t == s + [b];
      assert OneMore(l, b)[0] == if b != NEWLINE && |l| == 1 then l[0] + [b] else l[0];
      assert t[..|l[0]|] == s[..|l[0]|];
    }
  }

  /** A line is the run of bytes from where it begins. */
  lemma LineBytes(t: seq<Byte>, r: nat)
    requires r < |Lines(t)|
    ensures var s := Start(Lines(t), r); s + |Lines(t)[r]| <= |t| && Lines(t)[r] == t[s..s + |Lines(t)[r]|]
  {
    hide Lines, Start, Glue;
    var s := Start(Lines(t), r);
    PlaceUnique(t, s, r, 0);
    assert |Lines(t[..s])| == r + 1 && Lines(t[..s])[r] == [];
    hide RowOf, ColOf;
    LinesGlue(t[..s], t[s..]);
    assert t[..s] + t[s..] == t;
    GlueAt(Lines(t[..s]), Lines(t[s..]));
    FirstLine(t[s..]);
    var n := |Lines(t)[r]|;
    assert t[s..][..n] == t[s..s + n];
  }

  lemma GlueAt(a: seq<Line>, b: seq<Line>)
    requires |a| >= 1 && |b| >= 1 && a[|a| - 1] == []
    ensures Glue(a, b)[|a| - 1] == b[0]
  {
  }

  /* ---- edits, on bytes and on lines ---- */

  function Inserted(t: seq<Byte>, p: nat, s: seq<Byte>): (u: seq<Byte>)
    requires p <= |t|
    ensures |u| == |t| + |s|
  {
    t[..p] + s + t[p..]
  }

  function Taken(t: seq<Byte>, p: nat, n: nat): (u: seq<Byte>)
    requires p + n <= |t|
    ensures |u| == |t| - n
  {
    t[..p] + t[p + n..]
  }

  function Typed(l: seq<Line>, r: nat, c: nat, s: seq<Byte>): seq<Line>
    requires r < |l| && c <= |l[r]|
  {
    l[r := l[r][..c] + s + l[r][c..]]
  }

  function Broken(l: seq<Line>, r: nat, c: nat): seq<Line>
    requires r < |l| && c <= |l[r]|
  {
    l[..r] + [l[r][..c], l[r][c..]] + l[r + 1..]
  }

  function Removed(l: seq<Line>, r: nat, c: nat, n: nat): seq<Line>
    requires r < |l| && c + n <= |l[r]|
  {
    l[r := l[r][..c] + l[r][c + n..]]
  }

  function Joined(l: seq<Line>, r: nat): seq<Line>
    requires r + 1 < |l|
  {
    l[..r] + [l[r] + l[r + 1]] + l[r + 2..]
  }

  lemma {:induction false} LinesOfUnbroken(s: seq<Byte>)
    requires Unbroken(s)
    ensures Lines(s) == [s]
    decreases |s|
  {
    if s != [] {
      LinesOfUnbroken(s[..|s| - 1]);
      assert s == s[..|s| - 1] + [s[|s| - 1]];
    }
  }

  lemma GlueTyped(a: seq<Line>, s: seq<Byte>, b: seq<Line>)
    requires |a| >= 1 && |b| >= 1
    ensures Glue(a, [s]) == a[..|a| - 1] + [a[|a| - 1] + s]
    ensures Glue(Glue(a, [s]), b) == Typed(Glue(a, b), |a| - 1, |a[|a| - 1]|, s)
  {
    var last := a[|a| - 1];
    assert (last + b[0])[..|last|] == last && (last + b[0])[|last|..] == b[0];
  }

  lemma GlueBroken(a: seq<Line>, b: seq<Line>)
    requires |a| >= 1 && |b| >= 1
    ensures Glue(a, [[], []]) == a + [[]]
    ensures Glue(a + [[]], b) == Broken(Glue(a, b), |a| - 1, |a[|a| - 1]|)
  {
    var last := a[|a| - 1];
    assert last + [] == last && [] + b[0] == b[0];
    assert (last + b[0])[..|last|] == last && (last + b[0])[|last|..] == b[0];
  }

  /** Text without a newline goes into its line, and the place after it is further along that line. */
  lemma InsertInLine(t: seq<Byte>, p: nat, s: seq<Byte>)
    requires p <= |t| && Unbroken(s)
    ensures RowOf(t, p) < |Lines(t)| && ColOf(t, p) <= |Lines(t)[RowOf(t, p)]|
    ensures var u, r, c := Inserted(t, p, s), RowOf(t, p), ColOf(t, p);
      Lines(u) == Typed(Lines(t), r, c, s) && RowOf(u, p) == r && ColOf(u, p) == c
      && RowOf(u, p + |s|) == r && ColOf(u, p + |s|) == c + |s|
  {
    hide Lines, Glue, Typed, OneMore, Inserted, Start, Unbroken;
    PlaceIs(t, p);
    LinesOfUnbroken(s);
    Spliced(t, p, s);
    GlueTyped(Lines(t[..p]), s, Lines(t[p..]));
  }

  /** The lines of a text with something put into it. */
  lemma Spliced(t: seq<Byte>, p: nat, s: seq<Byte>)
    requires p <= |t|
    ensures Lines(t) == Glue(Lines(t[..p]), Lines(t[p..]))
    ensures var u, a := Inserted(t, p, s), Lines(t[..p]);
      && |u| == |t| + |s| && u[..p] == t[..p]
      && Lines(u[..p + |s|]) == Glue(a, Lines(s))
      && Lines(u) == Glue(Glue(a, Lines(s)), Lines(t[p..]))
  {
    hide Lines, Glue;
    var u := Inserted(t, p, s);
    assert t[..p] + t[p..] == t;
    assert u[..p] == t[..p] && u[..p + |s|] == t[..p] + s;
    LinesGlue(t[..p], t[p..]);
    LinesGlue(t[..p], s);
    LinesGlue(t[..p] + s, t[p..]);
  }

  lemma LinesOfNewline()
    ensures Lines([NEWLINE]) == [[], []]
  {
    assert [NEWLINE][..0] == [];
  }

  /** A newline breaks its line in two. */
  lemma InsertBreak(t: seq<Byte>, p: nat)
    requires p <= |t|
    ensures RowOf(t, p) < |Lines(t)| && ColOf(t, p) <= |Lines(t)[RowOf(t, p)]|
    ensures var u, r, c := Inserted(t, p, [NEWLINE]), RowOf(t, p), ColOf(t, p);
      Lines(u) == Broken(Lines(t), r, c) && RowOf(u, p) == r && ColOf(u, p) == c
      && RowOf(u, p + 1) == r + 1 && ColOf(u, p + 1) == 0
  {
    hide Lines, Glue, Broken, OneMore, Inserted;
    PlaceIs(t, p);
    LinesOfNewline();
    Spliced(t, p, [NEWLINE]);
    GlueBroken(Lines(t[..p]), Lines(t[p..]));
  }

  lemma Restored(t: seq<Byte>, p: nat, n: nat)
    requires p + n <= |t|
    ensures Inserted(Taken(t, p, n), p, t[p..p + n]) == t
    ensures RowOf(Taken(t, p, n), p) == RowOf(t, p) && ColOf(Taken(t, p, n), p) == ColOf(t, p)
  {
    assert Taken(t, p, n)[..p] == t[..p];
  }

  /** Taking bytes of one line leaves the others alone. */
  lemma DeleteInLine(t: seq<Byte>, p: nat, n: nat)
    requires p <= |t| && RowOf(t, p) < |Lines(t)| && ColOf(t, p) + n <= |Lines(t)[RowOf(t, p)]|
    ensures p + n <= |t|
    ensures var u, r, c := Taken(t, p, n), RowOf(t, p), ColOf(t, p);
      Lines(u) == Removed(Lines(t), r, c, n) && RowOf(u, p) == r && ColOf(u, p) == c
  {
    hide Lines, RowOf, ColOf, Inserted, Taken, Typed, Removed;
    SpanUnbroken(t, p, n);
    Restored(t, p, n);
    var w, u := t[p..p + n], Taken(t, p, n);
    InsertInLine(u, p, w);
    RemovedTyped(Lines(u), RowOf(t, p), ColOf(t, p), w);
  }

  lemma SpanUnbroken(t: seq<Byte>, p: nat, n: nat)
    requires p <= |t| && RowOf(t, p) < |Lines(t)| && ColOf(t, p) + n <= |Lines(t)[RowOf(t, p)]|
    ensures p + n <= |t| && Unbroken(t[p..p + n])
  {
    hide Lines, RowOf, ColOf;
    var r, c := RowOf(t, p), ColOf(t, p);
    PlaceIs(t, p);
    PlaceUnique(t, p + n, r, c + n);
    forall i | p <= i < p + n ensures t[i] != NEWLINE {
      PlaceUnique(t, i, r, c + (i - p));
      ByteAt(t, i);
    }
  }

  lemma RemovedTyped(m: seq<Line>, r: nat, c: nat, w: seq<Byte>)
    requires r < |m| && c <= |m[r]|
    ensures var l := Typed(m, r, c, w); c + |w| <= |l[r]| && Removed(l, r, c, |w|) == m
  {
    var x := m[r][..c] + w + m[r][c..];
    assert x[..c] == m[r][..c] && x[c + |w|..] == m[r][c..];
    assert m[r][..c] + m[r][c..] == m[r];
  }

  lemma JoinedBroken(m: seq<Line>, r: nat, c: nat)
    requires r < |m| && c <= |m[r]|
    ensures var l := Broken(m, r, c); r + 1 < |l| && Joined(l, r) == m
  {
    var l := Broken(m, r, c);
    assert l[r] + l[r + 1] == m[r];
    assert l[r + 2..] == m[r + 1..];
  }

  /** Taking a newline joins its line to the next. */
  lemma DeleteBreak(t: seq<Byte>, p: nat)
    requires p < |t| && t[p] == NEWLINE
    ensures RowOf(t, p) + 1 < |Lines(t)|
    ensures var u, r, c := Taken(t, p, 1), RowOf(t, p), ColOf(t, p);
      Lines(u) == Joined(Lines(t), r) && RowOf(u, p) == r && ColOf(u, p) == c
  {
    hide Lines, RowOf, ColOf, Inserted, Taken, Broken, Joined;
    Restored(t, p, 1);
    assert t[p..p + 1] == [NEWLINE];
    var u := Taken(t, p, 1);
    InsertBreak(u, p);
    JoinedBroken(Lines(u), RowOf(t, p), ColOf(t, p));
  }
}
