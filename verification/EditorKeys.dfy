/**
 What every key does, said of the bytes and the offset alone: no lines, no
 columns but as distances between newlines. And what the window shows of them,
 byte by byte.
 */
module EditorKeys {
  import opened EditorText
  import opened LineEditor

  /* ---- lines, as stretches between newlines ---- */

  predicate NoBreak(t: seq<Byte>, a: nat, b: nat)
    requires b <= |t|
  {
    forall i | a <= i < b :: t[i] != 10
  }

  /** `s` is where the line of `p` begins. */
  predicate Begins(t: seq<Byte>, p: nat, s: nat) {
    s <= p <= |t| && NoBreak(t, s, p) && (s == 0 || t[s - 1] == 10)
  }

  /** `e` is where the line of `p` ends. */
  predicate Ends(t: seq<Byte>, p: nat, e: nat) {
    p <= e <= |t| && NoBreak(t, p, e) && (e == |t| || t[e] == 10)
  }

  /** How many newlines there are. */
  function Breaks(t: seq<Byte>): nat {
    if t == [] then 0 else Breaks(t[..|t| - 1]) + if t[|t| - 1] == 10 then 1 else 0
  }

  /** The number of the line a place is on. */
  function LineNo(t: seq<Byte>, p: nat): nat
    requires p <= |t|
  {
    Breaks(t[..p])
  }

  lemma {:induction false} RowIsLineNo(t: seq<Byte>, p: nat)
    requires p <= |t|
    ensures RowOf(t, p) == LineNo(t, p)
    decreases p
  {
    if p > 0 {
      RowIsLineNo(t, p - 1);
      assert t[..p][..p - 1] == t[..p - 1];
    }
  }

  /** A newline begins a line; any other byte is one place further along its own. */
  lemma ColNext(t: seq<Byte>, p: nat)
    requires 0 < p <= |t|
    ensures ColOf(t, p) == if t[p - 1] == 10 then 0 else ColOf(t, p - 1) + 1
  {
    assert t[..p][..p - 1] == t[..p - 1] && t[..p][p - 1] == t[p - 1];
  }

  lemma {:induction false} ColIsDistance(t: seq<Byte>, p: nat)
    requires p <= |t|
    ensures ColOf(t, p) <= p && Begins(t, p, p - ColOf(t, p))
    decreases p
  {
    if p == 0 {
      assert t[..0] == [];
    } else {
      ColIsDistance(t, p - 1);
      ColNext(t, p);
      hide ColOf;
    }
  }

  lemma OneBeginning(t: seq<Byte>, p: nat, s: nat, r: nat)
    requires Begins(t, p, s) && Begins(t, p, r)
    ensures s == r
  {
  }

  /* ---- keys ---- */

  /** On another line, at the place nearest the column aimed for. */
  ghost predicate NearestOn(t: seq<Byte>, q: nat, line: nat, goal: nat) {
    && q <= |t| && LineNo(t, q) == line
    && exists s: nat :: (
         Begins(t, q, s)
         && forall r: nat {:trigger Begins(t, r, s)} | Begins(t, r, s) :: Gap(q - s, goal) <= Gap(r - s, goal))
  }

  ghost predicate Typing(t: seq<Byte>, p: nat, s: seq<Byte>, u: seq<Byte>, q: nat)
    requires p <= |t|
  {
    if |t| + |s| <= 8192 then u == t[..p] + s + t[p..] && q == p + |s| else u == t && q == p
  }

  /** Key `k`, at place `p` of text `t`, aiming for column `goal`, gives text `u` and place `q`. */
  ghost predicate Does(t: seq<Byte>, p: nat, goal: nat, k: nat, page: nat, u: seq<Byte>, q: nat)
    requires p <= |t|
  {
    var line, lines := LineNo(t, p), Breaks(t) + 1;
    if k == 259 then u == t && q == (if p > 0 then p - 1 else 0)
    else if k == 258 then u == t && q == (if p < |t| then p + 1 else p)
    else if k == 260 then u == t && Begins(t, p, q)
    else if k == 261 then u == t && Ends(t, p, q)
    else if k == 256 then u == t && if line == 0 then q == p else NearestOn(t, q, line - 1, goal)
    else if k == 257 then u == t && if line + 1 == lines then q == p else NearestOn(t, q, line + 1, goal)
    else if k == 262 then u == t && NearestOn(t, q, if line > page then line - page else 0, goal)
    else if k == 263 then u == t && NearestOn(t, q, if line + page < lines then line + page else lines - 1, goal)
    else if k == 264 then q == p && u == if p < |t| then t[..p] + t[p + 1..] else t
    else if k == 8 || k == 127 then
      if p > 0 then u == t[..p - 1] + t[p..] && q == p - 1 else u == t && q == p
    else if k == 13 || k == 10 then Typing(t, p, [10], u, q)
    else if k == 9 then Typing(t, p, [32, 32, 32, 32], u, q)
    else if k == 11 then
      q == p && exists e: nat :: (
        Ends(t, p, e) && u == if e > p then t[..p] + t[e..] else if p < |t| then t[..p] + t[p + 1..] else t)
    else if 32 <= k < 127 then Typing(t, p, [k], u, q)
    else u == t && q == p
  }

  /** The text has changes not on disk exactly if it had, or this key made some, and no save has worked. */
  predicate Dirties(modified: bool, k: nat, saved: bool, t: seq<Byte>, u: seq<Byte>, after: bool) {
    after == (if k == 19 && saved then false else modified || |u| != |t|)
  }

  /** The column aimed for afterwards: kept by the keys that go up and down and by those that take what is ahead. */
  ghost predicate Aims(p: nat, u: seq<Byte>, q: nat, goal: nat, k: nat, after: nat) {
    if k in {259, 258, 260, 261, 9} || 32 <= k < 127 || ((k == 8 || k == 127) && p > 0) then
      after <= q <= |u| && Begins(u, q, q - after)
    else if k == 13 || k == 10 then after == 0
    else after == goal
  }

  /** All of that together. */
  ghost predicate Means(t: seq<Byte>, p: nat, goal: nat, modified: bool, k: nat, page: nat, saved: bool,
                        u: seq<Byte>, q: nat, aim: nat, after: bool)
    requires p <= |t|
  {
    Does(t, p, goal, k, page, u, q) && Dirties(modified, k, saved, t, u, after) && Aims(p, u, q, goal, k, aim)
  }

  /** A desk, and the text and the place it is of. */
  ghost predicate Is(d: Desk, u: seq<Byte>, q: nat) {
    q <= |u| && d == DeskOf(u, q, d.goal, d.modified)
  }

  lemma LeftKey(t: seq<Byte>, p: nat, goal: nat, modified: bool, page: nat, saved: bool)
    requires p <= |t|
    ensures var e, q := Press(DeskOf(t, p, goal, modified), 259, page, saved), if p > 0 then p - 1 else 0;
      Is(e, t, q) && Means(t, p, goal, modified, 259, page, saved, t, q, e.goal, e.modified)
  {
    var q := if p > 0 then p - 1 else p;
    LeftIs(t, p, goal, modified);
    ColIsDistance(t, q);
    hide DeskOf, Lines, RowOf, ColOf, Left;
  }

  lemma RightKey(t: seq<Byte>, p: nat, goal: nat, modified: bool, page: nat, saved: bool)
    requires p <= |t|
    ensures var e, q := Press(DeskOf(t, p, goal, modified), 258, page, saved), if p < |t| then p + 1 else p;
      Is(e, t, q) && Means(t, p, goal, modified, 258, page, saved, t, q, e.goal, e.modified)
  {
    var q := if p < |t| then p + 1 else p;
    RightIs(t, p, goal, modified);
    ColIsDistance(t, q);
    hide DeskOf, Lines, RowOf, ColOf, Right;
  }

  lemma HomeKey(t: seq<Byte>, p: nat, goal: nat, modified: bool, page: nat, saved: bool) returns (q: nat)
    requires p <= |t|
    ensures var e := Press(DeskOf(t, p, goal, modified), 260, page, saved);
      Is(e, t, q) && Means(t, p, goal, modified, 260, page, saved, t, q, e.goal, e.modified)
  {
    HomeIs(t, p, goal, modified);
    ColIsDistance(t, p);
    q := p - ColOf(t, p);
    hide DeskOf, Lines, RowOf, ColOf, Home;
  }

  /** Where the line of a place ends, as its length says. */
  lemma EndOfLine(t: seq<Byte>, p: nat) returns (e: nat)
    requires p <= |t|
    ensures RowOf(t, p) < |Lines(t)| && p <= e && ColOf(t, p) + (e - p) == |Lines(t)[RowOf(t, p)]| && Ends(t, p, e)
    decreases |t| - p
  {
    hide Lines, RowOf, ColOf;
    ByteAt(t, p);
    if p < |t| && t[p] != 10 {
      ByteBefore(t, p + 1);
      e := EndOfLine(t, p + 1);
    } else {
      e := p;
    }
  }

  lemma EndKey(t: seq<Byte>, p: nat, goal: nat, modified: bool, page: nat, saved: bool) returns (q: nat)
    requires p <= |t|
    ensures var e := Press(DeskOf(t, p, goal, modified), 261, page, saved);
      Is(e, t, q) && Means(t, p, goal, modified, 261, page, saved, t, q, e.goal, e.modified)
  {
    q := EndOfLine(t, p);
    EndIs(t, p, goal, modified, q);
    ColIsDistance(t, q);
    hide DeskOf, Lines, RowOf, ColOf, End;
  }

  /** No column of the line is nearer the one aimed for. */
  lemma NoneNearer(goal: nat, line: Line)
    ensures Nearest(goal, line) <= |line|
    ensures forall c | 0 <= c <= |line| :: Gap(Nearest(goal, line), goal) <= Gap(c, goal)
  {
  }

  lemma OnLine(t: seq<Byte>, p: nat, goal: nat, modified: bool, line: nat) returns (q: nat)
    requires p <= |t| && line < |Lines(t)|
    ensures q <= |t| && OnRow(DeskOf(t, p, goal, modified), line) == DeskOf(t, q, goal, modified)
    ensures NearestOn(t, q, line, goal)
  {
    hide Lines, RowOf, ColOf, Start, NearestOn;
    OnRowIs(t, p, goal, modified, line);
    q := Start(Lines(t), line) + Nearest(goal, Lines(t)[line]);
    NearestThere(t, line, goal);
  }

  lemma NearestThere(t: seq<Byte>, line: nat, goal: nat)
    requires line < |Lines(t)|
    ensures NearestOn(t, Start(Lines(t), line) + Nearest(goal, Lines(t)[line]), line, goal)
  {
    hide Lines, RowOf, ColOf, Start;
    var start, c := Start(Lines(t), line), Nearest(goal, Lines(t)[line]);
    var q := start + c;
    NoneNearer(goal, Lines(t)[line]);
    PlaceUnique(t, q, line, c);
    RowIsLineNo(t, q);
    ColIsDistance(t, q);
    forall r: nat | Begins(t, r, start) ensures Gap(q - start, goal) <= Gap(r - start, goal) {
      ColIsDistance(t, r);
      OneBeginning(t, r, start, r - ColOf(t, r));
      SameLine(t, r, start, line);
    }
  }

  /** A place whose line begins where line `line` does is on it. */
  lemma SameLine(t: seq<Byte>, r: nat, start: nat, line: nat)
    requires Begins(t, r, start) && line < |Lines(t)| && start == Start(Lines(t), line) && ColOf(t, r) == r - start
    ensures r - start <= |Lines(t)[line]|
  {
    hide Lines, RowOf, ColOf, Start;
    PlaceUnique(t, start, line, 0);
    RowAlong(t, start, r);
    PlaceIs(t, r);
  }

  lemma {:induction false} RowAlong(t: seq<Byte>, a: nat, b: nat)
    requires a <= b <= |t| && NoBreak(t, a, b)
    ensures RowOf(t, a) == RowOf(t, b)
    decreases b
  {
    if a < b {
      RowAlong(t, a, b - 1);
      ByteBefore(t, b);
    }
  }

  lemma LinesAreBreaks(t: seq<Byte>)
    ensures |Lines(t)| == Breaks(t) + 1
  {
    RowIsLineNo(t, |t|);
    assert t[..|t|] == t;
  }

  lemma UpOrDownKey(t: seq<Byte>, p: nat, goal: nat, modified: bool, k: nat, page: nat, saved: bool) returns (q: nat)
    requires p <= |t| && k in {256, 257, 262, 263}
    ensures var e := Press(DeskOf(t, p, goal, modified), k, page, saved);
      Is(e, t, q) && Means(t, p, goal, modified, k, page, saved, t, q, e.goal, e.modified)
  {
    var d := DeskOf(t, p, goal, modified);
    var line, lines := LineNo(t, p), Breaks(t) + 1;
    RowIsLineNo(t, p);
    LinesAreBreaks(t);
    LineNoIn(t, p);
    VerticalPress(d, k, page, saved);
    assert d.row == line && |d.lines| == lines && Is(d, t, p);
    hide Press, DeskOf, Lines, RowOf, ColOf, OnRow, NearestOn, Breaks, LineNo, Means, VerticalLine;
    if (k == 256 && line == 0) || (k == 257 && line + 1 == lines) {
      q := p;
    } else {
      q := OnLine(t, p, goal, modified, VerticalLine(line, lines, k, page));
      SameDesk(t, q, goal, modified);
    }
    VerticalMeans(t, p, goal, modified, k, page, saved, q);
  }

  lemma LineNoIn(t: seq<Byte>, p: nat)
    requires p <= |t|
    ensures LineNo(t, p) < Breaks(t) + 1
  {
    RowIsLineNo(t, p);
    LinesAreBreaks(t);
    PlaceIs(t, p);
  }

  lemma VerticalMeans(t: seq<Byte>, p: nat, goal: nat, modified: bool, k: nat, page: nat, saved: bool, q: nat)
    requires p <= |t| && k in {256, 257, 262, 263} && LineNo(t, p) < Breaks(t) + 1
    requires var line, lines := LineNo(t, p), Breaks(t) + 1;
      if (k == 256 && line == 0) || (k == 257 && line + 1 == lines) then q == p
      else NearestOn(t, q, VerticalLine(line, lines, k, page), goal)
    ensures Means(t, p, goal, modified, k, page, saved, t, q, goal, modified)
  {
    hide NearestOn, LineNo, Breaks;
  }

  /** The line a vertical key goes to. */
  function VerticalLine(line: nat, lines: nat, k: nat, page: nat): nat
    requires line < lines
  {
    if k == 256 then (if line == 0 then 0 else line - 1)
    else if k == 257 then (if line + 1 == lines then line else line + 1)
    else if k == 262 then (if line > page then line - page else 0)
    else if line + page < lines then line + page else lines - 1
  }

  lemma VerticalPress(d: Desk, k: nat, page: nat, saved: bool)
    requires Fits(d) && k in {256, 257, 262, 263}
    ensures var e := Press(d, k, page, saved);
      && VerticalLine(d.row, |d.lines|, k, page) < |d.lines|
      && e == if (k == 256 && d.row == 0) || (k == 257 && d.row + 1 == |d.lines|) then d
              else OnRow(d, VerticalLine(d.row, |d.lines|, k, page))
    ensures Press(d, k, page, saved).goal == d.goal && Press(d, k, page, saved).modified == d.modified
  {
  }

  lemma DeleteKey(t: seq<Byte>, p: nat, goal: nat, modified: bool, page: nat, saved: bool)
    requires p <= |t|
    ensures var e, u := Press(DeskOf(t, p, goal, modified), 264, page, saved),
              if p < |t| then t[..p] + t[p + 1..] else t;
      Is(e, u, p) && Means(t, p, goal, modified, 264, page, saved, u, p, e.goal, e.modified)
  {
    DeleteIs(t, p, goal, modified);
    hide DeskOf, Lines, RowOf, ColOf, Delete, AllRows;
  }

  lemma RubKey(t: seq<Byte>, p: nat, goal: nat, modified: bool, k: nat, page: nat, saved: bool)
    requires p <= |t| && (k == 8 || k == 127)
    ensures var e, u := Press(DeskOf(t, p, goal, modified), k, page, saved),
              if p > 0 then t[..p - 1] + t[p..] else t;
      var q := if p > 0 then p - 1 else 0;
      Is(e, u, q) && Means(t, p, goal, modified, k, page, saved, u, q, e.goal, e.modified)
  {
    hide Press, DeskOf, Lines, RowOf, ColOf, Rub, AllRows, Begins;
    RubPress(DeskOf(t, p, goal, modified), k, page, saved);
    RubIs(t, p, goal, modified);
    SameDesk(t, p, goal, modified);
    if p > 0 {
      var u := t[..p - 1] + t[p..];
      assert Taken(t, p - 1, 1) == u;
      ColIsDistance(u, p - 1);
      SameDesk(u, p - 1, ColOf(u, p - 1), true);
    }
  }

  lemma RubPress(d: Desk, k: nat, page: nat, saved: bool)
    requires Fits(d) && (k == 8 || k == 127)
    ensures Press(d, k, page, saved) == Rub(d)
  {
  }

  lemma SameDesk(t: seq<Byte>, p: nat, goal: nat, modified: bool)
    requires p <= |t|
    ensures Is(DeskOf(t, p, goal, modified), t, p)
  {
  }

  lemma EnterKey(t: seq<Byte>, p: nat, goal: nat, modified: bool, k: nat, page: nat, saved: bool)
      returns (u: seq<Byte>, q: nat)
    requires p <= |t| && (k == 13 || k == 10)
    ensures var e := Press(DeskOf(t, p, goal, modified), k, page, saved);
      Is(e, u, q) && Means(t, p, goal, modified, k, page, saved, u, q, e.goal, e.modified)
  {
    hide Press, DeskOf, Lines, RowOf, ColOf, Enter;
    EnterIs(t, p, goal, modified);
    EnterPress(DeskOf(t, p, goal, modified), k, page, saved);
    if |t| + 1 <= 8192 { u, q := t[..p] + [10] + t[p..], p + 1; } else { u, q := t, p; }
    SameDesk(u, q, 0, if |t| + 1 <= 8192 then true else modified);
  }

  lemma EnterPress(d: Desk, k: nat, page: nat, saved: bool)
    requires Fits(d) && (k == 13 || k == 10)
    ensures Press(d, k, page, saved) == Enter(d)
  {
  }

  lemma TypeKey(t: seq<Byte>, p: nat, goal: nat, modified: bool, k: nat, page: nat, saved: bool, s: seq<Byte>)
      returns (u: seq<Byte>, q: nat)
    requires p <= |t| && s == if k == 9 then [32, 32, 32, 32] else if 32 <= k < 127 then [k] else []
    requires k == 9 || 32 <= k < 127
    ensures var e := Press(DeskOf(t, p, goal, modified), k, page, saved);
      Is(e, u, q) && Means(t, p, goal, modified, k, page, saved, u, q, e.goal, e.modified)
  {
    hide Press, DeskOf, Lines, RowOf, ColOf, Type, Begins;
    TypePress(DeskOf(t, p, goal, modified), k, page, saved, s);
    TypeIs(t, p, goal, modified, s);
    if |t| + |s| <= 8192 { u, q := t[..p] + s + t[p..], p + |s|; } else { u, q := t, p; }
    ColIsDistance(u, q);
    SameDesk(u, q, ColOf(u, q), if |t| + |s| <= 8192 then true else modified);
  }

  lemma TypePress(d: Desk, k: nat, page: nat, saved: bool, s: seq<Byte>)
    requires Fits(d) && s == if k == 9 then [32, 32, 32, 32] else if 32 <= k < 127 then [k] else []
    requires k == 9 || 32 <= k < 127
    ensures Press(d, k, page, saved) == Type(d, s)
  {
  }

  lemma CutKey(t: seq<Byte>, p: nat, goal: nat, modified: bool, page: nat, saved: bool) returns (u: seq<Byte>)
    requires p <= |t|
    ensures var e := Press(DeskOf(t, p, goal, modified), 11, page, saved);
      Is(e, u, p) && Means(t, p, goal, modified, 11, page, saved, u, p, e.goal, e.modified)
  {
    hide Press, DeskOf, RowOf, ColOf, Cut, AllRows;
    var end := EndOfLine(t, p);
    CutIs(t, p, goal, modified, end);
    CutPress(DeskOf(t, p, goal, modified), page, saved);
    u := if end > p then t[..p] + t[end..] else if p < |t| then t[..p] + t[p + 1..] else t;
    SameDesk(t, p, goal, modified);
    SameDesk(u, p, goal, true);
  }

  lemma CutPress(d: Desk, page: nat, saved: bool)
    requires Fits(d)
    ensures Press(d, 11, page, saved) == Cut(d)
  {
  }

  /** Every key does to the bytes and the offset what it is to do. */
  lemma KeyOnBytes(t: seq<Byte>, p: nat, goal: nat, modified: bool, k: nat, page: nat, saved: bool)
      returns (u: seq<Byte>, q: nat)
    requires p <= |t|
    ensures var e := Press(DeskOf(t, p, goal, modified), k, page, saved);
      Is(e, u, q) && Means(t, p, goal, modified, k, page, saved, u, q, e.goal, e.modified)
  {
    u, q := t, p;
    if k == 259 {
      LeftKey(t, p, goal, modified, page, saved);
      q := if p > 0 then p - 1 else 0;
    } else if k == 258 {
      RightKey(t, p, goal, modified, page, saved);
      q := if p < |t| then p + 1 else p;
    } else if k == 260 {
      q := HomeKey(t, p, goal, modified, page, saved);
    } else if k == 261 {
      q := EndKey(t, p, goal, modified, page, saved);
    } else if k in {256, 257, 262, 263} {
      q := UpOrDownKey(t, p, goal, modified, k, page, saved);
    } else if k == 264 {
      DeleteKey(t, p, goal, modified, page, saved);
      u := if p < |t| then t[..p] + t[p + 1..] else t;
    } else if k == 8 || k == 127 {
      RubKey(t, p, goal, modified, k, page, saved);
      u := if p > 0 then t[..p - 1] + t[p..] else t;
      q := if p > 0 then p - 1 else 0;
    } else if k == 13 || k == 10 {
      u, q := EnterKey(t, p, goal, modified, k, page, saved);
    } else if k == 9 || 32 <= k < 127 {
      u, q := TypeKey(t, p, goal, modified, k, page, saved, if k == 9 then [32, 32, 32, 32] else [k]);
    } else if k == 11 {
      u := CutKey(t, p, goal, modified, page, saved);
    } else {
      OtherKey(t, p, goal, modified, k, page, saved);
    }
  }

  lemma OtherKey(t: seq<Byte>, p: nat, goal: nat, modified: bool, k: nat, page: nat, saved: bool)
    requires p <= |t| && k !in {256, 257, 258, 259, 260, 261, 262, 263, 264, 8, 127, 13, 10, 9, 11} && !(32 <= k < 127)
    ensures var e := Press(DeskOf(t, p, goal, modified), k, page, saved);
      Is(e, t, p) && Means(t, p, goal, modified, k, page, saved, t, p, e.goal, e.modified)
  {
    hide Lines, RowOf, ColOf;
  }

  /* ---- lines and a cursor are of one text and one place only ---- */

  lemma {:induction false} LinesUnique(t: seq<Byte>, u: seq<Byte>)
    requires Lines(t) == Lines(u)
    ensures t == u
    decreases |t|
  {
    if t != [] && u != [] {
      var l, m := Lines(t[..|t| - 1]), Lines(u[..|u| - 1]);
      var b, c := t[|t| - 1], u[|u| - 1];
      LastApart(l, b, m, c);
      LinesUnique(t[..|t| - 1], u[..|u| - 1]);
      assert t == t[..|t| - 1] + [b] && u == u[..|u| - 1] + [c];
    } else if t != [] {
      NotBare(Lines(t[..|t| - 1]), t[|t| - 1]);
    } else if u != [] {
      NotBare(Lines(u[..|u| - 1]), u[|u| - 1]);
    }
  }

  lemma NotBare(l: seq<Line>, b: Byte)
    requires |l| >= 1
    ensures OneMore(l, b) != [[]]
  {
    var m := OneMore(l, b);
    if b != 10 { assert m[|m| - 1] != []; }
  }

  lemma LastApart(l: seq<Line>, b: Byte, m: seq<Line>, c: Byte)
    requires |l| >= 1 && |m| >= 1 && OneMore(l, b) == OneMore(m, c)
    ensures l == m && b == c
  {
    var x, y := OneMore(l, b), OneMore(m, c);
    assert x[|x| - 1] == y[|y| - 1];
    if b == 10 {
      assert x[..|x| - 1] == l && y[..|y| - 1] == m;
    } else {
      var p, q := l[|l| - 1], m[|m| - 1];
      assert (p + [b])[..|p|] == p && (q + [c])[..|q|] == q && (p + [b])[|p|] == b && (q + [c])[|q|] == c;
      assert x[..|x| - 1] == l[..|l| - 1] && y[..|y| - 1] == m[..|m| - 1];
      assert l == l[..|l| - 1] + [p] && m == m[..|m| - 1] + [q];
    }
  }

  /** What is on the desk says which text and which place it is. */
  lemma OneText(d: Desk, t: seq<Byte>, p: nat, u: seq<Byte>, q: nat)
    requires Is(d, t, p) && Is(d, u, q)
    ensures t == u && p == q
  {
    LinesUnique(t, u);
    PlaceIs(t, p);
    PlaceIs(u, q);
    hide Lines, RowOf, ColOf, Start;
  }

  /** A text and place that come of a key are those the key means. */
  lemma Pressed(t: seq<Byte>, p: nat, goal: nat, modified: bool, k: nat, page: nat, saved: bool,
                u: seq<Byte>, q: nat, aim: nat, after: bool)
    requires p <= |t| && q <= |u|
    requires DeskOf(u, q, aim, after) == Press(DeskOf(t, p, goal, modified), k, page, saved)
    ensures Means(t, p, goal, modified, k, page, saved, u, q, aim, after)
  {
    hide Press, Means, Lines, RowOf, ColOf;
    var v, r := KeyOnBytes(t, p, goal, modified, k, page, saved);
    OneText(DeskOf(u, q, aim, after), u, q, v, r);
  }

  /* ---- the window, byte by byte ---- */

  /** Each row of the window shows the bytes of its line from the leftmost column on, and nothing else. */
  ghost predicate ShowsText(glass: seq<Line>, t: seq<Byte>, height: nat, top: nat, left: nat, cols: nat) {
    && |glass| == height
    && (forall p | 0 <= p < |t| && t[p] != 10 && VisibleAt(t, p, height, top, left, cols) ::
          var r, c := LineNo(t, p) - top, p - BeginOf(t, p) - left;
          c < |glass[r]| && glass[r][c] == t[p])
    && forall r | 0 <= r < height :: RowOfText(glass[r], t, top + r, left, cols)
  }

  /** Nothing in this row but bytes of this line, each at its own column. */
  ghost predicate RowOfText(row: Line, t: seq<Byte>, line: nat, left: nat, cols: nat) {
    |row| <= cols && forall c | 0 <= c < |row| :: ByteOf(t, line, left + c, row[c])
  }

  ghost predicate ByteOf(t: seq<Byte>, line: nat, col: nat, b: Byte) {
    exists p: nat :: p < |t| && t[p] == b && LineNo(t, p) == line && p - BeginOf(t, p) == col
  }

  ghost function BeginOf(t: seq<Byte>, p: nat): (s: nat)
    requires p <= |t|
    ensures Begins(t, p, s)
  {
    ColIsDistance(t, p);
    p - ColOf(t, p)
  }

  ghost predicate VisibleAt(t: seq<Byte>, p: nat, height: nat, top: nat, left: nat, cols: nat)
    requires p <= |t|
  {
    top <= LineNo(t, p) < top + height && left <= p - BeginOf(t, p) < left + cols
  }

  lemma WindowShows(glass: seq<Line>, t: seq<Byte>, height: nat, top: nat, left: nat, cols: nat)
    requires AllShown(glass, Lines(t), height, top, left, cols)
    ensures ShowsText(glass, t, height, top, left, cols)
  {
    forall p | 0 <= p < |t| && t[p] != 10 && VisibleAt(t, p, height, top, left, cols)
      ensures var r, c := LineNo(t, p) - top, p - BeginOf(t, p) - left; c < |glass[r]| && glass[r][c] == t[p]
    {
      ByteShown(glass, t, height, top, left, cols, p);
    }
    forall r | 0 <= r < height ensures RowOfText(glass[r], t, top + r, left, cols) {
      assert glass[r] == Shown(Lines(t), top, left, cols, r);
      forall c | 0 <= c < |glass[r]| ensures ByteOf(t, top + r, left + c, glass[r][c]) {
        var p := ByteBehind(glass, t, height, top, left, cols, r, c);
      }
    }
  }

  lemma ByteShown(glass: seq<Line>, t: seq<Byte>, height: nat, top: nat, left: nat, cols: nat, p: nat)
    requires AllShown(glass, Lines(t), height, top, left, cols)
    requires p < |t| && t[p] != 10 && VisibleAt(t, p, height, top, left, cols)
    ensures var r, c := LineNo(t, p) - top, p - BeginOf(t, p) - left; c < |glass[r]| && glass[r][c] == t[p]
  {
    var row, col := RowOf(t, p), ColOf(t, p);
    ColIsBegin(t, p);
    PlaceIs(t, p);
    ByteAt(t, p);
    LineBytes(t, row);
    assert glass[row - top] == Shown(Lines(t), top, left, cols, row - top);
    hide Lines, RowOf, ColOf, Start, LineNo, BeginOf, Begins, VisibleAt;
    assert Lines(t)[row][col] == t[p];
  }

  lemma ColIsBegin(t: seq<Byte>, p: nat)
    requires p <= |t|
    ensures RowOf(t, p) == LineNo(t, p) && ColOf(t, p) == p - BeginOf(t, p)
  {
    RowIsLineNo(t, p);
    ColIsDistance(t, p);
    OneBeginning(t, p, BeginOf(t, p), p - ColOf(t, p));
  }

  lemma ByteBehind(glass: seq<Line>, t: seq<Byte>, height: nat, top: nat, left: nat, cols: nat, r: nat, c: nat)
      returns (p: nat)
    requires AllShown(glass, Lines(t), height, top, left, cols) && r < height && c < |glass[r]|
    ensures p < |t| && t[p] == glass[r][c] && LineNo(t, p) == top + r && p - BeginOf(t, p) == left + c
  {
    assert glass[r] == Shown(Lines(t), top, left, cols, r);
    var row := top + r;
    LineBytes(t, row);
    p := Start(Lines(t), row) + (left + c);
    PlaceUnique(t, p, row, left + c);
    ColIsBegin(t, p);
    hide Lines, RowOf, ColOf, Start, LineNo, BeginOf, Begins;
  }
}
