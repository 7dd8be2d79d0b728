/** What a character or a setting does to the screen, told cell by cell. */
module ConsoleLaws {
  import opened ConsoleScreen

  function Space(s: Screen): Cell { Cell(' ', s.pen) }

  /** Row `r` of `t` is row `from` of `s`, but that columns `a` up to `b` hold `c`. */
  ghost predicate RowWith(s: Screen, from: nat, t: Screen, r: nat, a: nat, b: nat, c: Cell)
    requires from < |s.rows| && r < |t.rows|
  {
    && |t.rows[r]| == |s.rows[from]|
    && forall k | 0 <= k < |t.rows[r]| :: t.rows[r][k] == if a <= k < b then c else s.rows[from][k]
  }

  /** Only columns `a` up to `b` of row `r` change, to `c`. */
  ghost predicate Struck(s: Screen, t: Screen, r: nat, a: nat, b: nat, c: Cell) {
    && |t.rows| == |s.rows| && r < |s.rows|
    && RowWith(s, r, t, r, a, b, c)
    && forall j | 0 <= j < |s.rows| && j != r :: t.rows[j] == s.rows[j]
  }

  /**
   The cursor has gone to the next row, and that row holds `c` in its first
   `n` columns; in the row it left, the columns from `a` on are spaces. On the
   last row everything has moved up by one, and what is not `c` in the new
   last row is spaces.
   */
  ghost predicate OnNext(s: Screen, t: Screen, a: nat, n: nat, c: Cell) {
    var rows := |s.rows|;
    && |t.rows| == rows && s.cy < rows
    && if s.cy + 1 < rows then
         && t.cy == s.cy + 1
         && RowWith(s, s.cy, t, s.cy, a, |s.rows[s.cy]|, Space(s))
         && RowWith(s, t.cy, t, t.cy, 0, n, c)
         && forall j | 0 <= j < rows && j != s.cy && j != t.cy :: t.rows[j] == s.rows[j]
       else
         var last := t.rows[rows - 1];
         && t.cy == rows - 1 && |last| == |s.rows[s.cy]|
         && (forall k | 0 <= k < |last| :: last[k] == if k < n then c else Space(s))
         && (rows > 1 ==> RowWith(s, rows - 1, t, rows - 2, a, |s.rows[s.cy]|, Space(s)))
         && forall j | 0 <= j < rows - 2 :: t.rows[j] == s.rows[j + 1]
  }

  ghost predicate StaysPut(s: Screen, t: Screen) {
    t.rows == s.rows && t.cx == s.cx && t.cy == s.cy
  }

  /** A newline, a return, a tab, a backspace, a printable character; anything else changes nothing. */
  ghost predicate Written(s: Screen, t: Screen, cols: nat, c: char) {
    && t.pen == s.pen && t.cursorOn == s.cursorOn
    && if c == '\n' then t.cx == 0 && OnNext(s, t, cols, 0, Space(s))
       else if c == '\r' then t.rows == s.rows && t.cx == 0 && t.cy == s.cy
       else if c == '\t' then
         var stop := (s.cx / 4 + 1) * 4;
         if stop <= cols then t.cx == stop && t.cy == s.cy && Struck(s, t, s.cy, s.cx, stop, Space(s))
         else t.cx == 4 && OnNext(s, t, s.cx, 4, Space(s))
       else if c == '\U{0008}' then
         if s.cx == 0 then StaysPut(s, t)
         else t.cx == s.cx - 1 && t.cy == s.cy && Struck(s, t, s.cy, t.cx, s.cx, Space(s))
       else if ' ' <= c <= '~' then
         if s.cx < cols then t.cx == s.cx + 1 && t.cy == s.cy && Struck(s, t, s.cy, s.cx, t.cx, Cell(c, s.pen))
         else t.cx == 1 && OnNext(s, t, cols, 1, Cell(c, s.pen))
       else StaysPut(s, t)
  }

  lemma NewlineOnNext(s: Screen, cols: nat)
    requires Fit(s, cols)
    ensures OnNext(s, Newline(s, cols), cols, 0, Space(s))
  {
  }

  lemma TypeIsWritten(s: Screen, cols: nat, c: char)
    requires Fit(s, cols) && ' ' <= c <= '~'
    ensures Written(s, Type(s, cols, c), cols, c)
  {
  }

  /** Part way through a tab on the row it began on, and short of the stop. */
  ghost predicate SpacedHere(s: Screen, m: Screen) {
    m.cy == s.cy && s.cx <= m.cx < (s.cx / 4 + 1) * 4 && Struck(s, m, s.cy, s.cx, m.cx, Space(s))
  }

  /** The same when the row was too short for it. */
  ghost predicate SpacedOver(s: Screen, m: Screen, cols: nat) {
    (s.cx / 4 + 1) * 4 > cols && 1 <= m.cx < 4 && OnNext(s, m, s.cx, m.cx, Space(s))
  }

  ghost predicate Spaced(s: Screen, m: Screen, cols: nat) {
    Fit(m, cols) && m.pen == s.pen && m.cursorOn == s.cursorOn && (SpacedHere(s, m) || SpacedOver(s, m, cols))
  }

  /** One space more: on the same row, or the first of the next. */
  lemma OneSpace(s: Screen, m: Screen, cols: nat)
    requires Fit(s, cols) && cols >= TAB && Spaced(s, m, cols)
    ensures var t := Type(m, cols, ' ');
      if t.cx % 4 == 0 then Written(s, t, cols, '\t') else Spaced(s, t, cols)
  {
    hide Type;
    TypeIsWritten(m, cols, ' ');
    var t := Type(m, cols, ' ');
    if SpacedOver(s, m, cols) { OneSpaceOver(s, m, t, cols); }
    else if m.cx < cols { OneSpaceHere(s, m, t, cols); }
    else { FirstSpaceOver(s, m, t, cols); }
  }

  lemma OneSpaceHere(s: Screen, m: Screen, t: Screen, cols: nat)
    requires Fit(s, cols) && cols >= TAB && SpacedHere(s, m) && Fit(m, cols) && m.pen == s.pen
    requires m.cx < cols && Fit(t, cols) && Written(m, t, cols, ' ') && m.cursorOn == s.cursorOn
    ensures if t.cx % 4 == 0 then Written(s, t, cols, '\t') else Spaced(s, t, cols)
  {
  }

  lemma OneSpaceOver(s: Screen, m: Screen, t: Screen, cols: nat)
    requires Fit(s, cols) && cols >= TAB && SpacedOver(s, m, cols) && Fit(m, cols) && m.pen == s.pen
    requires Fit(t, cols) && Written(m, t, cols, ' ') && m.cursorOn == s.cursorOn
    ensures if t.cx % 4 == 0 then Written(s, t, cols, '\t') else Spaced(s, t, cols)
  {
  }

  lemma FirstSpaceOver(s: Screen, m: Screen, t: Screen, cols: nat)
    requires Fit(s, cols) && cols >= TAB && SpacedHere(s, m) && Fit(m, cols) && m.pen == s.pen
    requires m.cx == cols && Fit(t, cols) && Written(m, t, cols, ' ') && m.cursorOn == s.cursorOn
    ensures t.cx == 1 && Spaced(s, t, cols)
  {
  }

  lemma {:induction false} TabIsWritten(s: Screen, m: Screen, cols: nat)
    requires Fit(s, cols) && cols >= TAB && Spaced(s, m, cols)
    ensures Written(s, Tab(m, cols), cols, '\t')
    decreases TabLeft(m.cx, cols)
  {
    assert Fit(m, cols);
    hide Written, Spaced, Type, Fit;
    OneSpace(s, m, cols);
    var t := Type(m, cols, ' ');
    if t.cx % TAB != 0 {
      TabShortens(m.cx, cols);
      TabIsWritten(s, t, cols);
    }
  }

  lemma PutIsWritten(s: Screen, cols: nat, c: char)
    requires Fit(s, cols) && Putable(c, cols)
    ensures Written(s, Put(s, cols, c), cols, c)
  {
    if c == '\n' { NewlineOnNext(s, cols); }
    else if c == '\t' { TabIsWritten(s, s, cols); }
    else if ' ' <= c <= '~' { TypeIsWritten(s, cols, c); }
  }

  /** A text is its characters written one after another. */
  lemma {:induction false} TextIsWritten(s: Screen, cols: nat, text: string, i: nat)
    requires Fit(s, cols) && i < |text| && forall j | 0 <= j < |text| :: Putable(text[j], cols)
    ensures Written(PutAll(s, cols, text[..i]), PutAll(s, cols, text[..i + 1]), cols, text[i])
    ensures PutAll(s, cols, text[..0]) == s && PutAll(s, cols, text[..|text|]) == PutAll(s, cols, text)
  {
    hide Written, Put;
    assert text[..i + 1][..i] == text[..i] && text[..|text|] == text;
    PutIsWritten(PutAll(s, cols, text[..i]), cols, text[i]);
  }

  /** Every character that can be written has one outcome. */
  lemma WrittenIsAll(s: Screen, t: Screen, u: Screen, cols: nat, c: char)
    requires Fit(s, cols) && Written(s, t, cols, c) && Written(s, u, cols, c)
    ensures t == u
  {
    forall j | 0 <= j < |s.rows| ensures t.rows[j] == u.rows[j] {
      assert |t.rows[j]| == |u.rows[j]|;
      forall k | 0 <= k < |t.rows[j]| ensures t.rows[j][k] == u.rows[j][k] {}
    }
    assert t.rows == u.rows;
  }

  /* ---- settings ---- */

  /** Whether clearing takes the cell: to the end of the line, of the screen, or all of it. */
  predicate Taken(s: Screen, what: nat, r: nat, k: nat) {
    if what == 1 then r == s.cy && k >= s.cx
    else if what == 2 then r > s.cy || (r == s.cy && k >= s.cx)
    else true
  }

  ghost predicate Cleared(s: Screen, t: Screen, what: nat) {
    && |t.rows| == |s.rows|
    && (forall r | 0 <= r < |s.rows| :: |t.rows[r]| == |s.rows[r]|)
    && (forall r, k | 0 <= r < |s.rows| && 0 <= k < |s.rows[r]| ::
          t.rows[r][k] == if Taken(s, what, r, k) then Space(s) else s.rows[r][k])
    && (t.cx, t.cy) == (if what == 1 || what == 2 then (s.cx, s.cy) else (0, 0))
  }

  lemma ClearIsCleared(s: Screen, cols: nat, what: nat)
    requires Fit(s, cols)
    ensures Cleared(s, ClearScreen(s, cols, what), what)
  {
    var t := ClearScreen(s, cols, what);
    forall r, k | 0 <= r < |s.rows| && 0 <= k < |s.rows[r]|
      ensures t.rows[r][k] == if Taken(s, what, r, k) then Space(s) else s.rows[r][k]
    {
    }
  }

  /** What a setting may change; where a number is taken apart, the lemmas after this say how. */
  ghost predicate Changed(s: Screen, t: Screen, code: Code, v: nat) {
    match code
    case Cursor => t == s.(cx := t.cx, cy := t.cy)
    case Colour => t == s.(pen := s.pen.(fg := t.pen.fg, bg := t.pen.bg))
    case Attr => t == s.(pen := t.pen) && t.pen.fg == s.pen.fg && t.pen.bg == s.pen.bg
    case CursorOn => t == s.(cursorOn := v != 0)
    case Clear => t == s.(rows := t.rows, cx := t.cx, cy := t.cy) && Cleared(s, t, v)
    case LcdClear => t == s.(rows := t.rows, cx := t.cx, cy := t.cy) && Cleared(s, t, 0)
    case Brightness => t == s
    case Other => t == s
  }

  lemma SetIsChanged(s: Screen, cols: nat, code: Code, v: nat)
    requires Fit(s, cols)
    ensures Changed(s, Set(s, cols, code, v), code, v)
  {
    hide Cleared, ClearScreen, Fit;
    if code == Clear { ClearIsCleared(s, cols, v); ClearLeaves(s, cols, v); }
    if code == LcdClear { ClearIsCleared(s, cols, 0); ClearLeaves(s, cols, 0); }
  }

  lemma ClearLeaves(s: Screen, cols: nat, what: nat)
    requires Fit(s, cols)
    ensures var t := ClearScreen(s, cols, what); t == s.(rows := t.rows, cx := t.cx, cy := t.cy)
  {
  }

  /** The row in the upper sixteen bits and the column in the lower, each kept on the screen. */
  lemma CursorGoes(s: Screen, cols: nat, row: nat, col: nat)
    requires Fit(s, cols) && row < 0x1_0000 && col < 0x1_0000
    ensures var t := Set(s, cols, Cursor, row * 0x1_0000 + col);
      && t.cy == (if row < |s.rows| then row else |s.rows| - 1)
      && t.cx == (if col < cols then col else cols - 1)
  {
  }

  /** The colour of the ink in the lowest byte, of the paper in the next. */
  lemma PenTakes(s: Screen, cols: nat, fg: nat, bg: nat, rest: nat)
    requires Fit(s, cols) && fg < 256 && bg < 256
    ensures var t := Set(s, cols, Colour, rest * 0x1_0000 + bg * 256 + fg); t.pen.fg == fg && t.pen.bg == bg
  {
    var v := rest * 0x1_0000 + bg * 256 + fg;
    assert v == (rest * 256 + bg) * 256 + fg;
    Apart(rest * 256 + bg, fg);
    Apart(rest, bg);
  }

  lemma Apart(high: nat, low: nat)
    requires low < 256
    ensures (high * 256 + low) / 256 == high && (high * 256 + low) % 256 == low
  {
  }

  /** Bold, underline and reverse are the three lowest bits, all set at once. */
  lemma AttrTakes(s: Screen, cols: nat, bold: bool, underline: bool, reverse: bool, rest: nat)
    requires Fit(s, cols)
    ensures var v := (if bold then 1 else 0) + (if underline then 2 else 0) + (if reverse then 4 else 0) + 8 * rest;
      var p := Set(s, cols, Attr, v).pen;
      p.bold == bold && p.underline == underline && p.reverse == reverse
  {
  }

  /* ---- what is seen ---- */

  /** A cell on the glass: its character, or a space when there is no glyph; turned over under the cursor. */
  ghost predicate Seen(s: Screen, r: nat, k: nat, shown: Cell)
    requires r < |s.rows| && k < |s.rows[r]|
  {
    var c := s.rows[r][k];
    && shown.ch == (if ' ' <= c.ch <= '~' then c.ch else ' ')
    && shown.pen == c.pen.(reverse := c.pen.reverse != (s.cursorOn && s.cy == r && s.cx == k))
  }

  lemma ImageIsSeen(s: Screen, r: nat, k: nat)
    requires r < |s.rows| && k < |s.rows[r]|
    ensures |Image(s, r)| == |s.rows[r]| && Seen(s, r, k, Image(s, r)[k])
  {
  }
}
