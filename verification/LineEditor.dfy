/**
 The editor as a person sees it: lines, and a cursor at a line and a column.
 Every key is given its meaning here, with no mention of byte offsets.
 */
module LineEditor {

  import opened EditorText

  const TEXT_MAX := 8192

  const K_UP := 256
  const K_DOWN := 257
  const K_RIGHT := 258
  const K_LEFT := 259
  const K_HOME := 260
  const K_END := 261
  const K_PGUP := 262
  const K_PGDN := 263
  const K_DEL := 264
  const K_ESC := 265
  const K_NONE := 266
  const BACKSPACE := 8
  const TAB := 9
  const LINEFEED := 10
  const CTRL_K := 11
  const RETURN := 13
  const CTRL_Q := 17
  const CTRL_S := 19
  const CTRL_X := 24
  const RUBOUT := 127
  const SPACE: Byte := 32

  datatype Desk = Desk(lines: seq<Line>, row: nat, col: nat, goal: nat, modified: bool)

  ghost predicate Fits(d: Desk) {
    |d.lines| >= 1 && d.row < |d.lines| && d.col <= |d.lines[d.row]|
  }

  predicate Room(d: Desk, n: nat)
    requires |d.lines| >= 1
  {
    Size(d.lines) + n <= TEXT_MAX
  }

  function Here(d: Desk): Line
    requires Fits(d)
  {
    d.lines[d.row]
  }

  function Nearest(goal: nat, line: Line): nat {
    if goal > |line| then |line| else goal
  }

  /** Onto another line, as near the column aimed for as that line allows. */
  function OnRow(d: Desk, row: nat): (e: Desk)
    requires Fits(d) && row < |d.lines|
    ensures Fits(e)
  {
    d.(row := row, col := Nearest(d.goal, d.lines[row]))
  }

  function Left(d: Desk): (e: Desk)
    requires Fits(d)
    ensures Fits(e)
  {
    if d.col > 0 then d.(col := d.col - 1, goal := d.col - 1)
    else if d.row > 0 then d.(row := d.row - 1, col := |d.lines[d.row - 1]|, goal := |d.lines[d.row - 1]|)
    else d.(goal := 0)
  }

  function Right(d: Desk): (e: Desk)
    requires Fits(d)
    ensures Fits(e)
  {
    if d.col < |Here(d)| then d.(col := d.col + 1, goal := d.col + 1)
    else if d.row + 1 < |d.lines| then d.(row := d.row + 1, col := 0, goal := 0)
    else d.(goal := d.col)
  }

  function Up(d: Desk, n: nat): (e: Desk)
    requires Fits(d)
    ensures Fits(e)
  {
    OnRow(d, if d.row > n then d.row - n else 0)
  }

  function Down(d: Desk, n: nat): (e: Desk)
    requires Fits(d)
    ensures Fits(e)
  {
    OnRow(d, if d.row + n < |d.lines| then d.row + n else |d.lines| - 1)
  }

  function Home(d: Desk): (e: Desk)
    requires Fits(d)
    ensures Fits(e)
  {
    d.(col := 0, goal := 0)
  }

  function End(d: Desk): (e: Desk)
    requires Fits(d)
    ensures Fits(e)
  {
    d.(col := |Here(d)|, goal := |Here(d)|)
  }

  /** Takes the byte after the cursor, or joins the next line on. */
  function Delete(d: Desk): (e: Desk)
    requires Fits(d)
    ensures Fits(e)
  {
    if d.col < |Here(d)| then d.(lines := Removed(d.lines, d.row, d.col, 1), modified := true)
    else if d.row + 1 < |d.lines| then d.(lines := Joined(d.lines, d.row), modified := true)
    else d
  }

  /** Takes the byte before the cursor, or joins this line onto the one above. */
  function Rub(d: Desk): (e: Desk)
    requires Fits(d)
    ensures Fits(e)
  {
    if d.col > 0 then
      Desk(Removed(d.lines, d.row, d.col - 1, 1), d.row, d.col - 1, d.col - 1, true)
    else if d.row > 0 then
      var c := |d.lines[d.row - 1]|;
      Desk(Joined(d.lines, d.row - 1), d.row - 1, c, c, true)
    else d
  }

  function Enter(d: Desk): (e: Desk)
    requires Fits(d)
    ensures Fits(e)
  {
    if Room(d, 1) then Desk(Broken(d.lines, d.row, d.col), d.row + 1, 0, 0, true) else d.(goal := 0)
  }

  function Type(d: Desk, s: seq<Byte>): (e: Desk)
    requires Fits(d)
    ensures Fits(e)
  {
    if Room(d, |s|) then Desk(Typed(d.lines, d.row, d.col, s), d.row, d.col + |s|, d.col + |s|, true)
    else d.(goal := d.col)
  }

  /** Takes the rest of the line, or joins the next line on if there is no rest. */
  function Cut(d: Desk): (e: Desk)
    requires Fits(d)
    ensures Fits(e)
  {
    if d.col < |Here(d)| then
      d.(lines := Removed(d.lines, d.row, d.col, |Here(d)| - d.col), modified := true)
    else if d.row + 1 < |d.lines| then d.(lines := Joined(d.lines, d.row), modified := true)
    else d
  }

  /** What a key does. `saved` says whether a save it asks for works. */
  function Press(d: Desk, k: nat, page: nat, saved: bool): (e: Desk)
    requires Fits(d)
    ensures Fits(e)
  {
    if k == K_LEFT then Left(d)
    else if k == K_RIGHT then Right(d)
    else if k == K_UP then if d.row == 0 then d else Up(d, 1)
    else if k == K_DOWN then if d.row + 1 == |d.lines| then d else Down(d, 1)
    else if k == K_HOME then Home(d)
    else if k == K_END then End(d)
    else if k == K_PGUP then Up(d, page)
    else if k == K_PGDN then Down(d, page)
    else if k == K_DEL then Delete(d)
    else if k == BACKSPACE || k == RUBOUT then Rub(d)
    else if k == RETURN || k == LINEFEED then Enter(d)
    else if k == TAB then Type(d, [SPACE, SPACE, SPACE, SPACE])
    else if k == CTRL_S then (if saved then d.(modified := false) else d)
    else if k == CTRL_K then Cut(d)
    else if 32 <= k < 127 then Type(d, [k])
    else d
  }

  /** The keys after which the editor repaints everything. */
  predicate AllRows(d: Desk, k: nat)
    requires Fits(d)
  {
    || k == K_PGUP || k == K_PGDN || k == RETURN || k == LINEFEED
    || (k == K_DEL && d.col == |Here(d)| && d.row + 1 < |d.lines|)
    || ((k == BACKSPACE || k == RUBOUT) && d.col == 0 && d.row > 0)
    || (k == CTRL_K && (d.col < |Here(d)| || d.row + 1 < |d.lines|))
  }

  /** After any other key, only the cursor's own line can differ. */
  lemma OtherLinesStay(d: Desk, k: nat, page: nat, saved: bool)
    requires Fits(d) && !AllRows(d, k)
    ensures var e := Press(d, k, page, saved);
      |e.lines| == |d.lines| && forall i | 0 <= i < |d.lines| && i != e.row :: e.lines[i] == d.lines[i]
  {
  }

  /* ---- the window ---- */

  function Clip(line: Line, left: nat, cols: nat): Line {
    if |line| <= left then []
    else line[left..if |line| - left > cols then left + cols else |line|]
  }

  lemma ClipSlice(t: seq<Byte>, s: nat, e: nat, left: nat, cols: nat)
    requires s <= e <= |t|
    ensures Clip(t[s..e], left, cols) ==
      if e - s <= left then [] else t[s + left..s + left + if e - s - left > cols then cols else e - s - left]
  {
    if e - s > left {
      var to := if e - s - left > cols then left + cols else e - s;
      SliceOf(t, s, e, left, to);
      assert Clip(t[s..e], left, cols) == t[s..e][left..to];
    }
  }

  lemma SliceOf(t: seq<Byte>, s: nat, e: nat, from: nat, to: nat)
    requires s <= e <= |t| && from <= to <= e - s
    ensures t[s..e][from..to] == t[s + from..s + to]
  {
    var line, part, want := t[s..e], t[s..e][from..to], t[s + from..s + to];
    forall k | 0 <= k < to - from ensures part[k] == want[k] {
      assert part[k] == line[from + k] == t[s + (from + k)];
    }
  }

  /** What text row `r` of the window should show. */
  function Shown(lines: seq<Line>, top: nat, left: nat, cols: nat, r: nat): Line {
    if top + r < |lines| then Clip(lines[top + r], left, cols) else []
  }

  /** The bytes a row shows; `e` is where its line ends. */
  lemma RowIs(t: seq<Byte>, top: nat, left: nat, cols: nat, r: nat, e: nat)
    requires top + r < |Lines(t)| && e == Start(Lines(t), top + r) + |Lines(t)[top + r]|
    ensures var s := Start(Lines(t), top + r);
      e <= |t| && Shown(Lines(t), top, left, cols, r) ==
        if e - s <= left then [] else t[s + left..s + left + if e - s - left > cols then cols else e - s - left]
  {
    hide Lines, Start, Clip;
    LineBytes(t, top + r);
    ClipSlice(t, Start(Lines(t), top + r), e, left, cols);
  }

  /** Two texts look alike in the window, but for the row that shows line `row`. */
  ghost predicate AlikeBut(row: nat, a: seq<Line>, b: seq<Line>, top: nat, left: nat, cols: nat) {
    forall r: nat | top + r != row :: Shown(a, top, left, cols, r) == Shown(b, top, left, cols, r)
  }

  /** Every text row of a window so tall shows its line. */
  ghost predicate AllShown(glass: seq<Line>, lines: seq<Line>, height: nat, top: nat, left: nat, cols: nat) {
    |glass| == height && forall r | 0 <= r < height :: glass[r] == Shown(lines, top, left, cols, r)
  }

  /** Two rows redrawn, one of them the row that differs, and the window is right again. */
  lemma Redrawn(glass: seq<Line>, was: seq<Line>, now: seq<Line>, height: nat, top: nat, left: nat, cols: nat,
                row: nat, leftRow: nat)
    requires AllShown(glass, was, height, top, left, cols) && row < height && leftRow < height
    requires AlikeBut(top + row, now, was, top, left, cols)
    ensures var g := glass[row := Shown(now, top, left, cols, row)];
      AllShown(g, now, height, top, left, cols)
      && AllShown(g[leftRow := Shown(now, top, left, cols, leftRow)], now, height, top, left, cols)
  {
    forall r: nat | r < height && r != row ensures glass[r] == Shown(now, top, left, cols, r) {
      assert top + r != top + row;
    }
    hide Shown;
  }

  /** Redrawing the row the cursor ends up on is enough. */
  lemma OneRowIsEnough(d: Desk, k: nat, page: nat, saved: bool, top: nat, left: nat, cols: nat)
    requires Fits(d) && !AllRows(d, k)
    ensures var e := Press(d, k, page, saved); AlikeBut(e.row, e.lines, d.lines, top, left, cols)
  {
    OtherLinesStay(d, k, page, saved);
    hide Press;
  }

  /* ---- the same things done on bytes and an offset ---- */

  /** A text and an offset into it, as lines and a cursor. */
  ghost function DeskOf(t: seq<Byte>, p: nat, goal: nat, modified: bool): (d: Desk)
    requires p <= |t|
    ensures Fits(d) && d.goal == goal && d.modified == modified
  {
    PlaceIs(t, p);
    Desk(Lines(t), RowOf(t, p), ColOf(t, p), goal, modified)
  }

  lemma Moved(t: seq<Byte>, p: nat, q: nat, goal: nat, modified: bool, row: nat, col: nat)
    requires p <= |t|
    requires var d := DeskOf(t, p, goal, modified);
      row < |d.lines| && col <= |d.lines[row]| && Start(d.lines, row) + col == q
    ensures q <= |t| && ColOf(t, q) == col
    ensures DeskOf(t, q, goal, modified) == DeskOf(t, p, goal, modified).(row := row, col := col)
  {
    PlaceUnique(t, q, row, col);
  }

  lemma LeftIs(t: seq<Byte>, p: nat, goal: nat, modified: bool)
    requires p <= |t|
    ensures var q := if p > 0 then p - 1 else p;
      Left(DeskOf(t, p, goal, modified)) == DeskOf(t, q, ColOf(t, q), modified)
  {
    var d := DeskOf(t, p, goal, modified);
    hide Lines, RowOf, ColOf;
    PlaceIs(t, p);
    if d.col > 0 {
      Moved(t, p, p - 1, d.col - 1, modified, d.row, d.col - 1);
    } else if d.row > 0 {
      Moved(t, p, p - 1, |d.lines[d.row - 1]|, modified, d.row - 1, |d.lines[d.row - 1]|);
    }
  }

  lemma RightIs(t: seq<Byte>, p: nat, goal: nat, modified: bool)
    requires p <= |t|
    ensures var q := if p < |t| then p + 1 else p;
      Right(DeskOf(t, p, goal, modified)) == DeskOf(t, q, ColOf(t, q), modified)
  {
    var d := DeskOf(t, p, goal, modified);
    ByteAt(t, p);
    PlaceIs(t, p);
    hide Lines, RowOf, ColOf;
    if d.col < |d.lines[d.row]| {
      Moved(t, p, p + 1, d.col + 1, modified, d.row, d.col + 1);
    } else if d.row + 1 < |d.lines| {
      Moved(t, p, p + 1, 0, modified, d.row + 1, 0);
    }
  }

  /** Where a line begins is column nought of that line. */
  lemma StartIs(t: seq<Byte>, line: nat)
    requires line < |Lines(t)|
    ensures var s := Start(Lines(t), line); s <= |t| && RowOf(t, s) == line && ColOf(t, s) == 0
  {
    PlaceUnique(t, Start(Lines(t), line), line, 0);
  }

  lemma OnRowIs(t: seq<Byte>, p: nat, goal: nat, modified: bool, line: nat)
    requires p <= |t| && line < |Lines(t)|
    ensures var q := Start(Lines(t), line) + Nearest(goal, Lines(t)[line]);
      q <= |t| && OnRow(DeskOf(t, p, goal, modified), line) == DeskOf(t, q, goal, modified)
  {
    hide Lines, RowOf, ColOf, Start;
    var c := Nearest(goal, Lines(t)[line]);
    Moved(t, p, Start(Lines(t), line) + c, goal, modified, line, c);
  }

  lemma HomeIs(t: seq<Byte>, p: nat, goal: nat, modified: bool)
    requires p <= |t|
    ensures ColOf(t, p) <= p && Home(DeskOf(t, p, goal, modified)) == DeskOf(t, p - ColOf(t, p), 0, modified)
  {
    var d := DeskOf(t, p, goal, modified);
    PlaceIs(t, p);
    Moved(t, p, p - d.col, 0, modified, d.row, 0);
    hide Lines, RowOf, ColOf;
  }

  /** `e` is the end of the line at `p`. */
  lemma EndIs(t: seq<Byte>, p: nat, goal: nat, modified: bool, e: nat)
    requires p <= |t| && RowOf(t, p) < |Lines(t)| && ColOf(t, p) + (e - p) == |Lines(t)[RowOf(t, p)]|
    requires p <= e <= |t|
    ensures End(DeskOf(t, p, goal, modified)) == DeskOf(t, e, ColOf(t, e), modified)
  {
    var d := DeskOf(t, p, goal, modified);
    PlaceIs(t, p);
    hide Lines, RowOf, ColOf;
    Moved(t, p, e, |d.lines[d.row]|, modified, d.row, |d.lines[d.row]|);
  }

  lemma DeleteIs(t: seq<Byte>, p: nat, goal: nat, modified: bool)
    requires p <= |t|
    ensures var d := DeskOf(t, p, goal, modified);
      && Delete(d) == (if p < |t| then DeskOf(Taken(t, p, 1), p, goal, true) else d)
      && AllRows(d, K_DEL) == (p < |t| && t[p] == NEWLINE)
  {
    ByteAt(t, p);
    PlaceIs(t, p);
    if p < |t| {
      if t[p] == NEWLINE { DeleteBreak(t, p); } else { DeleteInLine(t, p, 1); }
    }
  }

  lemma RubIs(t: seq<Byte>, p: nat, goal: nat, modified: bool)
    requires p <= |t|
    ensures var d := DeskOf(t, p, goal, modified);
      && (p == 0 ==> Rub(d) == d && !AllRows(d, BACKSPACE))
      && (p > 0 ==>
            var u := Taken(t, p - 1, 1);
            Rub(d) == DeskOf(u, p - 1, ColOf(u, p - 1), true) && AllRows(d, BACKSPACE) == (t[p - 1] == NEWLINE))
  {
    if p > 0 {
      var d := DeskOf(t, p, goal, modified);
      LeftIs(t, p, goal, modified);
      DeleteIs(t, p - 1, ColOf(t, p - 1), modified);
      ByteBefore(t, p);
      assert Taken(t, p - 1, 1)[..p - 1] == t[..p - 1];
      assert ColOf(Taken(t, p - 1, 1), p - 1) == ColOf(t, p - 1);
      hide Lines, Taken, ColOf, RowOf;
      RubIsLeftDelete(d);
    }
  }

  lemma RubIsLeftDelete(d: Desk)
    requires Fits(d) && (d.col > 0 || d.row > 0)
    ensures Rub(d) == Delete(Left(d))
  {
  }

  lemma EnterIs(t: seq<Byte>, p: nat, goal: nat, modified: bool)
    requires p <= |t|
    ensures Enter(DeskOf(t, p, goal, modified)) ==
      if |t| + 1 <= TEXT_MAX then DeskOf(Inserted(t, p, [NEWLINE]), p + 1, 0, true) else DeskOf(t, p, 0, modified)
  {
    LinesSize(t);
    InsertBreak(t, p);
    hide Lines, RowOf, ColOf, Inserted, Broken, Size;
  }

  lemma TypeIs(t: seq<Byte>, p: nat, goal: nat, modified: bool, s: seq<Byte>)
    requires p <= |t| && Unbroken(s)
    ensures Type(DeskOf(t, p, goal, modified), s) ==
      if |t| + |s| <= TEXT_MAX then
        DeskOf(Inserted(t, p, s), p + |s|, ColOf(Inserted(t, p, s), p + |s|), true)
      else DeskOf(t, p, ColOf(t, p), modified)
  {
    hide Lines, RowOf, ColOf, Inserted, Typed, Size, Start, Unbroken;
    LinesSize(t);
    InsertInLine(t, p, s);
    var d := DeskOf(t, p, goal, modified);
    var u := Inserted(t, p, s);
    assert Room(d, |s|) <==> |t| + |s| <= TEXT_MAX;
    assert DeskOf(u, p + |s|, d.col + |s|, true) ==
      Desk(Typed(d.lines, d.row, d.col, s), d.row, d.col + |s|, d.col + |s|, true);
  }

  /** `e` is the end of the line at `p`. */
  lemma CutIs(t: seq<Byte>, p: nat, goal: nat, modified: bool, e: nat)
    requires p <= |t| && RowOf(t, p) < |Lines(t)| && ColOf(t, p) + (e - p) == |Lines(t)[RowOf(t, p)]|
    requires p <= e <= |t|
    ensures var d := DeskOf(t, p, goal, modified);
      && (e > p ==> Cut(d) == DeskOf(Taken(t, p, e - p), p, goal, true) && AllRows(d, CTRL_K))
      && (e == p < |t| ==> Cut(d) == DeskOf(Taken(t, p, 1), p, goal, true) && AllRows(d, CTRL_K))
      && (e == p == |t| ==> Cut(d) == d && !AllRows(d, CTRL_K))
  {
    hide Lines, RowOf, ColOf, Taken, Removed, Joined;
    ByteAt(t, p);
    if e > p {
      DeleteInLine(t, p, e - p);
    } else if p < |t| {
      DeleteBreak(t, p);
    }
  }

  /* ---- what a run of keys does ---- */

  /** A key, whether a save it asks for works, and the size the window turns out to have. */
  datatype Event = Event(key: nat, saved: bool, rows: nat, cols: nat)

  function Rows(reported: nat): (r: nat)
    ensures r >= 2
  {
    if reported < 2 then 2 else reported
  }

  function Played(d: Desk, rows: nat, events: seq<Event>): (e: Desk)
    requires Fits(d) && rows >= 2
    ensures Fits(e)
    decreases |events|
  {
    if events == [] then d
    else Played(Press(d, events[0].key, rows - 2, events[0].saved), Rows(events[0].rows), events[1..])
  }

  /** The height of the window after these events. */
  function RowsAfter(rows: nat, events: seq<Event>): nat {
    if events == [] then rows else Rows(events[|events| - 1].rows)
  }

  lemma {:induction false} PlayedOneMore(d: Desk, rows: nat, events: seq<Event>, e: Event)
    requires Fits(d) && rows >= 2
    ensures RowsAfter(rows, events) >= 2 && RowsAfter(rows, events + [e]) == Rows(e.rows)
    ensures Played(d, rows, events + [e]) == Press(Played(d, rows, events), e.key, RowsAfter(rows, events) - 2, e.saved)
    decreases |events|
  {
    if events == [] {
      assert events + [e] == [e] && [e][1..] == [];
      hide Press;
    } else {
      hide Press, Fits, Rows;
      var first, rest := events[0], events[1..];
      var next := Press(d, first.key, rows - 2, first.saved);
      PlayedOneMore(next, Rows(first.rows), rest, e);
      assert (events + [e])[0] == first && (events + [e])[1..] == rest + [e];
      assert RowsAfter(Rows(first.rows), rest) == RowsAfter(rows, events);
    }
  }

  lemma NothingPlayed(d: Desk, rows: nat)
    requires Fits(d) && rows >= 2
    ensures Played(d, rows, []) == d && RowsAfter(rows, []) == rows
  {
  }

  predicate Sees(start: nat, span: nat, at: nat) {
    start <= at < start + span
  }

  function Gap(a: nat, b: nat): nat {
    if a < b then b - a else a - b
  }

  /** The view moved no further than it had to for `at` to be in it. */
  ghost predicate ScrolledLeast(was: nat, now: nat, span: nat, at: nat) {
    Sees(now, span, at) && forall v | Sees(v, span, at) :: Gap(was, now) <= Gap(was, v)
  }

  /** Where a view ends up, and that it is the nearest place that will do. */
  lemma Least(was: nat, span: nat, at: nat)
    requires span >= 1
    ensures var now := if at < was then at else if at >= was + span then at - span + 1 else was;
      ScrolledLeast(was, now, span, at)
  {
  }
}
