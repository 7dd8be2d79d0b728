/**
 The LCD console as a screen of cells, and what a text row looks like.

 `Put` and `Set` are what writing a character and changing a setting mean on
 the whole screen; `Image` is a row as it should appear. The driver in the
 second module repaints only rows it marked dirty, and has to end up with the
 same glass as painting everything.
 */
module ConsoleScreen {

  const FONT_FIRST := ' '
  const FONT_LAST := '~'
  const TAB := 4
  const UINT16 := 0x1_0000
  const BACKSPACE := '\U{0008}'

  const CLEAR_EOL := 1
  const CLEAR_EOS := 2

  /** Colours and attribute flags; `reverse` is the one the cursor turns over. */
  datatype Pen = Pen(fg: nat, bg: nat, bold: bool, underline: bool, reverse: bool)

  datatype Cell = Cell(ch: char, pen: Pen)

  type Row = seq<Cell>

  datatype Screen = Screen(rows: seq<Row>, cx: nat, cy: nat, pen: Pen, cursorOn: bool)

  /** Every row is as wide as the screen; the cursor may stand just past the end of its row. */
  ghost predicate Fit(s: Screen, cols: nat) {
    && cols >= 1 && |s.rows| >= 1
    && (forall r | 0 <= r < |s.rows| :: |s.rows[r]| == cols)
    && s.cy < |s.rows| && s.cx <= cols
  }

  /* ---- what a row looks like ---- */

  function Glyph(c: char): char {
    if FONT_FIRST <= c <= FONT_LAST then c else ' '
  }

  /** A cell as painted: the cursor is a reversed cell. */
  function Painted(c: Cell, cursor: bool): Cell {
    Cell(Glyph(c.ch), if cursor then c.pen.(reverse := !c.pen.reverse) else c.pen)
  }

  /** A row as painted, with the cursor at column `at` if that is one of its columns. */
  function Paint(row: Row, at: int): (r: seq<Cell>)
    ensures |r| == |row| && forall i | 0 <= i < |row| :: r[i] == Painted(row[i], i == at)
  {
    seq(|row|, i requires 0 <= i < |row| => Painted(row[i], i == at))
  }

  /** The column the cursor shows in on this row, or -1. */
  function CursorIn(s: Screen, r: nat): int {
    if s.cursorOn && r == s.cy then s.cx else -1
  }

  function Image(s: Screen, r: nat): seq<Cell>
    requires r < |s.rows|
  {
    Paint(s.rows[r], CursorIn(s, r))
  }

  /** The glass shows the screen. */
  ghost predicate Shows(glass: seq<seq<Cell>>, s: Screen) {
    |glass| == |s.rows| && forall r | 0 <= r < |s.rows| :: glass[r] == Image(s, r)
  }

  /** A visible cursor changes its row's image, whatever is under it. */
  lemma CursorIsVisible(row: Row, at: nat)
    ensures Paint(row, at) == Paint(row, -1) <==> at >= |row|
  {
    if at < |row| {
      assert Paint(row, at)[at] != Paint(row, -1)[at];
    }
  }

  /* ---- writing ---- */

  function Blank(row: Row, from: nat, pen: Pen): (r: Row)
    requires from <= |row|
    ensures |r| == |row|
  {
    row[..from] + seq(|row| - from, _ => Cell(' ', pen))
  }

  function BlankRow(cols: nat, pen: Pen): (r: Row)
    ensures |r| == cols
  {
    seq(cols, _ => Cell(' ', pen))
  }

  function Newline(s: Screen, cols: nat): (t: Screen)
    requires Fit(s, cols)
    ensures Fit(t, cols) && |t.rows| == |s.rows| && t.cx == 0 && t.cursorOn == s.cursorOn && t.pen == s.pen
  {
    if s.cy + 1 < |s.rows| then s.(cx := 0, cy := s.cy + 1)
    else s.(rows := s.rows[1..] + [BlankRow(cols, s.pen)], cx := 0)
  }

  /** A printable character, wrapping first when the row is full. */
  function Type(s: Screen, cols: nat, c: char): (t: Screen)
    requires Fit(s, cols)
    ensures Fit(t, cols) && |t.rows| == |s.rows| && t.cursorOn == s.cursorOn && t.pen == s.pen
    ensures t.cx == (if s.cx >= cols then 0 else s.cx) + 1
  {
    var n := if s.cx >= cols then Newline(s, cols) else s;
    n.(rows := n.rows[n.cy := n.rows[n.cy][n.cx := Cell(c, n.pen)]], cx := n.cx + 1)
  }

  /** How many spaces a tab still has to write from column `cx`. */
  function TabLeft(cx: nat, cols: nat): nat
    requires cols >= TAB && cx <= cols
  {
    var k := TAB - cx % TAB;
    if cx + k <= cols then k else cols - cx + TAB
  }

  /** Each space that misses the tab stop leaves fewer to write. */
  lemma TabShortens(cx: nat, cols: nat)
    requires cols >= TAB && cx <= cols
    ensures var next := (if cx >= cols then 0 else cx) + 1;
      next % TAB != 0 ==> 0 <= TabLeft(next, cols) < TabLeft(cx, cols)
  {
  }

  /** Spaces until the column is a multiple of four. */
  function Tab(s: Screen, cols: nat): (t: Screen)
    requires Fit(s, cols) && cols >= TAB
    ensures Fit(t, cols) && |t.rows| == |s.rows| && t.cursorOn == s.cursorOn && t.pen == s.pen
    ensures t.cx % TAB == 0
    decreases TabLeft(s.cx, cols)
  {
    var t := Type(s, cols, ' ');
    if t.cx % TAB != 0 then Tab(t, cols) else t
  }

  /** The column after so many spaces. */
  function Column(cx: nat, cols: nat, spaces: nat): nat
    decreases spaces
  {
    if spaces == 0 then cx else Column((if cx >= cols then 0 else cx) + 1, cols, spaces - 1)
  }

  /** A tab ends exactly on screens at least four columns wide. */
  lemma TabEnds(cx: nat, cols: nat)
    requires 1 <= cols && cx <= cols
    ensures (exists n: nat :: n > 0 && Column(cx, cols, n) % TAB == 0) <==> cols >= TAB
  {
    if cols >= TAB {
      var n := Spaces(cx, cols);
    } else {
      forall n: nat | n > 0 ensures Column(cx, cols, n) % TAB != 0 { NarrowNeverEnds(cx, cols, n); }
    }
  }

  lemma Spaces(cx: nat, cols: nat) returns (n: nat)
    requires cols >= TAB && cx <= cols
    ensures n > 0 && Column(cx, cols, n) % TAB == 0
    decreases TabLeft(cx, cols)
  {
    var next := (if cx >= cols then 0 else cx) + 1;
    if next % TAB == 0 {
      n := 1;
      assert Column(cx, cols, 1) == Column(next, cols, 0);
    } else {
      n := Spaces(next, cols);
      n := n + 1;
    }
  }

  lemma {:induction false} NarrowNeverEnds(cx: nat, cols: nat, n: nat)
    requires 1 <= cols < TAB && cx <= cols && n > 0
    ensures 1 <= Column(cx, cols, n) <= cols
    decreases n
  {
    var next := (if cx >= cols then 0 else cx) + 1;
    if n == 1 {
      assert Column(cx, cols, 1) == Column(next, cols, 0);
    } else {
      NarrowNeverEnds(next, cols, n - 1);
    }
  }

  /** Tabs are the one thing a screen narrower than a tab stop cannot be given. */
  predicate Putable(c: char, cols: nat) {
    c == '\t' ==> cols >= TAB
  }

  /** One character. */
  function Put(s: Screen, cols: nat, c: char): (t: Screen)
    requires Fit(s, cols) && Putable(c, cols)
    ensures Fit(t, cols) && |t.rows| == |s.rows| && t.cursorOn == s.cursorOn && t.pen == s.pen
  {
    if c == '\n' then Newline(s, cols)
    else if c == '\r' then s.(cx := 0)
    else if c == '\t' then Tab(s, cols)
    else if c == BACKSPACE then
      if s.cx > 0 then s.(rows := s.rows[s.cy := s.rows[s.cy][s.cx - 1 := Cell(' ', s.pen)]], cx := s.cx - 1) else s
    else if FONT_FIRST <= c <= FONT_LAST then Type(s, cols, c)
    else s
  }

  function PutAll(s: Screen, cols: nat, text: string): (t: Screen)
    requires Fit(s, cols) && forall i | 0 <= i < |text| :: Putable(text[i], cols)
    ensures Fit(t, cols) && |t.rows| == |s.rows| && t.cursorOn == s.cursorOn && t.pen == s.pen
  {
    if text == [] then s else Put(PutAll(s, cols, text[..|text| - 1]), cols, text[|text| - 1])
  }

  /* ---- settings ---- */

  datatype Outcome = Done | Unsupported

  datatype Code = Cursor | Colour | Attr | CursorOn | Clear | LcdClear | Brightness | Other

  function ClearScreen(s: Screen, cols: nat, what: nat): (t: Screen)
    requires Fit(s, cols)
    ensures Fit(t, cols) && |t.rows| == |s.rows| && t.cursorOn == s.cursorOn && t.pen == s.pen
  {
    var first := if what == CLEAR_EOL || what == CLEAR_EOS then s.cy else 0;
    var end := if what == CLEAR_EOL then s.cy + 1 else |s.rows|;
    var from := if what == CLEAR_EOL || what == CLEAR_EOS then s.cx else 0;
    var rows := seq(|s.rows|, r requires 0 <= r < |s.rows| =>
      if r == first then Blank(s.rows[r], from, s.pen)
      else if first < r < end then Blank(s.rows[r], 0, s.pen)
      else s.rows[r]);
    if what == CLEAR_EOL || what == CLEAR_EOS then s.(rows := rows) else s.(rows := rows, cx := 0, cy := 0)
  }

  /** One setting; Brightness and unknown codes leave the screen alone. */
  function Set(s: Screen, cols: nat, code: Code, v: nat): (t: Screen)
    requires Fit(s, cols)
    ensures Fit(t, cols) && |t.rows| == |s.rows|
  {
    match code
    case Cursor =>
      var row, col := (v / UINT16) % UINT16, v % UINT16;
      s.(cy := if row >= |s.rows| then |s.rows| - 1 else row, cx := if col >= cols then cols - 1 else col)
    case Colour => s.(pen := s.pen.(fg := v % 256, bg := (v / 256) % 256))
    case Attr => s.(pen := s.pen.(bold := v % 2 == 1, underline := (v / 2) % 2 == 1, reverse := (v / 4) % 2 == 1))
    case CursorOn => s.(cursorOn := v != 0)
    case Clear => ClearScreen(s, cols, v)
    case LcdClear => ClearScreen(s, cols, 0)
    case Brightness => s
    case Other => s
  }

  /* ---- which rows have to be repainted ---- */

  /** Every row whose cells differ is marked. */
  ghost predicate Marks(before: Screen, after: Screen, dirty: seq<bool>) {
    |dirty| == |before.rows| == |after.rows|
    && forall r | 0 <= r < |dirty| && !dirty[r] :: after.rows[r] == before.rows[r]
  }

  /**
   With the rows a visible cursor left and reached marked as well, a row that
   is not marked looks as it did, unless the cursor was hidden on it.
   */
  lemma MarkedIsEnough(before: Screen, after: Screen, dirty: seq<bool>, r: nat)
    requires Marks(before, after, dirty) && r < |dirty| && !dirty[r]
    requires before.cy < |dirty| && after.cy < |dirty|
    requires after.cursorOn ==> dirty[before.cy] && dirty[after.cy]
    ensures Image(after, r) == Image(before, r) <==>
      !(before.cursorOn && !after.cursorOn && r == before.cy && before.cx < |before.rows[r]|)
  {
    CursorIsVisible(before.rows[r], before.cx);
  }
}
