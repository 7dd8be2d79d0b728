/**
 The console driver: a grid of cells, one dirty flag a row, and a panel it
 shares with whoever else draws on it.
 */
module Console {

  import opened ConsoleScreen

  class Driver {
    const cols: nat
    const grid: array<Row>
    const dirty: array<bool>
    var cx: nat
    var cy: nat
    var pen: Pen
    var cursorOn: bool
    /** What every text row on the panel shows. */
    var glass: seq<seq<Cell>>
    /** Someone else has drawn on the panel since the last flush. */
    var taken: bool

    ghost function Screen(): (s: Screen)
      reads this, grid
      ensures s.rows == grid[..] && s.cx == cx && s.cy == cy && s.pen == pen && s.cursorOn == cursorOn
    {
      ConsoleScreen.Screen(grid[..], cx, cy, pen, cursorOn)
    }

    /** Everything fits; says nothing about what the panel shows. */
    ghost predicate Sound()
      reads this, grid
    {
      && grid as object != dirty as object
      && dirty.Length == grid.Length == |glass|
      && Fit(Screen(), cols)
    }

    /** The rows whose picture on the panel is not the one they should have. */
    ghost function Stale(): set<nat>
      reads this, grid
      requires Sound()
    {
      set r: nat | r < |glass| && glass[r] != Image(Screen(), r)
    }

    /** Between calls: nothing is left dirty, and a visible cursor stands on a row that looks right. */
    ghost predicate Valid()
      reads this, grid, dirty
    {
      && Sound()
      && (forall r | 0 <= r < dirty.Length :: !dirty[r])
      && (!taken && cursorOn ==> cy !in Stale())
    }

    /** Every row of `before` that changed, or was dirty already, is dirty. */
    ghost predicate Marked(before: seq<Row>, flags: seq<bool>)
      reads this, grid, dirty
      requires grid.Length == dirty.Length
    {
      && |before| == |flags| == dirty.Length
      && forall r {:trigger dirty[r]} | 0 <= r < dirty.Length && !dirty[r] :: !flags[r] && grid[r] == before[r]
    }

    /** A blank screen with the cursor home and hidden, all of it painted. */
    constructor (cols: nat, rows: nat, pen: Pen)
      requires cols >= 1 && rows >= 1
      ensures Valid() && fresh(grid) && fresh(dirty) && this.cols == cols
      ensures Screen() == ConsoleScreen.Screen(seq(rows, _ => BlankRow(cols, pen)), 0, 0, pen, false)
      ensures Shows(glass, Screen()) && !taken
    {
      this.cols := cols;
      grid := new Row[rows](_ => BlankRow(cols, pen));
      dirty := new bool[rows](_ => false);
      cx, cy, this.pen, cursorOn, taken := 0, 0, pen, false, false;
      glass := seq(rows, _ => Paint(BlankRow(cols, pen), -1));
      new;
      assert grid[..] == seq(rows, _ => BlankRow(cols, pen));
    }

    /** Another device draws on the panel, anything at all. */
    method Intrude(picture: seq<seq<Cell>>)
      requires Valid() && |picture| == |glass|
      modifies this`glass, this`taken
      ensures Valid() && glass == picture && taken
    {
      glass, taken := picture, true;
    }

    /** Blanks part of a row in the current pen. */
    method BlankCells(row: nat, from: nat, to: nat)
      requires grid as object != dirty as object && grid.Length == dirty.Length
      requires row < grid.Length && |grid[row]| == cols && from <= to == cols
      modifies grid, dirty
      ensures grid[..] == old(grid[..])[row := Blank(old(grid[row]), from, pen)]
      ensures dirty[..] == old(dirty[..])[row := true]
    {
      var col := from;
      while col < to
        invariant from <= col <= to
        invariant |grid[row]| == cols
        invariant forall r | 0 <= r < grid.Length && r != row :: grid[r] == old(grid[r])
        invariant dirty[..] == old(dirty[..])
        invariant forall k | 0 <= k < cols ::
                    grid[row][k] == if from <= k < col then Cell(' ', pen) else old(grid[row][k])
      {
        grid[row] := grid[row][col := Cell(' ', pen)];
        col := col + 1;
      }
      dirty[row] := true;
      assert grid[row] == Blank(old(grid[row]), from, pen);
    }

    /** Moves every row up by one and blanks the last. */
    method Scroll()
      requires grid as object != dirty as object && grid.Length == dirty.Length >= 1
      requires forall r | 0 <= r < grid.Length :: |grid[r]| == cols
      modifies this`cy, grid, dirty
      ensures cy == grid.Length - 1
      ensures grid[..] == old(grid[..])[1..] + [BlankRow(cols, pen)]
      ensures forall r | 0 <= r < dirty.Length :: dirty[r]
    {
      var r := 0;
      while r < grid.Length - 1
        invariant 0 <= r <= grid.Length - 1
        invariant forall k {:trigger grid[k]} | 0 <= k < r :: grid[k] == old(grid[..])[k + 1]
        invariant forall k | r <= k < grid.Length :: grid[k] == old(grid[..])[k]
      {
        grid[r] := grid[r + 1];
        r := r + 1;
      }
      BlankCells(grid.Length - 1, 0, cols);
      label Blanked:
      assert grid[grid.Length - 1] == BlankRow(cols, pen);
      r := 0;
      while r < dirty.Length
        invariant 0 <= r <= dirty.Length
        invariant forall k | 0 <= k < r :: dirty[k]
        invariant unchanged@Blanked(grid)
      {
        dirty[r] := true;
        r := r + 1;
      }
      cy := grid.Length - 1;
    }

    method StartLine()
      requires Sound()
      modifies this`cx, this`cy, grid, dirty
      ensures Sound() && Screen() == Newline(old(Screen()), cols)
      ensures Marked(old(grid[..]), old(dirty[..]))
    {
      cx := 0;
      cy := cy + 1;
      if cy >= grid.Length { Scroll(); }
    }

    /** Writes one printable character at the cursor. */
    method Stamp(c: char)
      requires Sound()
      modifies this`cx, this`cy, grid, dirty
      ensures Sound() && Screen() == Type(old(Screen()), cols, c)
      ensures Marked(old(grid[..]), old(dirty[..]))
    {
      if cx >= cols { StartLine(); }
      grid[cy] := grid[cy][cx := Cell(c, pen)];
      cx := cx + 1;
      dirty[cy] := true;
    }

    /** Spaces up to the next tab stop. */
    method ExpandTab()
      requires Sound() && cols >= TAB
      modifies this`cx, this`cy, grid, dirty
      ensures Sound() && Screen() == Tab(old(Screen()), cols)
      ensures Marked(old(grid[..]), old(dirty[..]))
      decreases 1
    {
      PutChar(' ');
      while cx % TAB != 0
        invariant Sound() && Marked(old(grid[..]), old(dirty[..]))
        invariant Tab(old(Screen()), cols) == if cx % TAB != 0 then Tab(Screen(), cols) else Screen()
        decreases if cx % TAB != 0 then TabLeft(cx, cols) else 0
      {
        TabShortens(cx, cols);
        PutChar(' ');
      }
    }

    method RubOut()
      requires Sound()
      modifies this`cx, grid, dirty
      ensures Sound() && Screen() == Put(old(Screen()), cols, BACKSPACE)
      ensures Marked(old(grid[..]), old(dirty[..]))
    {
      if cx > 0 {
        cx := cx - 1;
        grid[cy] := grid[cy][cx := Cell(' ', pen)];
        dirty[cy] := true;
      }
    }

    /** One character of output. */
    method PutChar(c: char)
      requires Sound() && Putable(c, cols)
      modifies this`cx, this`cy, grid, dirty
      ensures Sound() && Screen() == Put(old(Screen()), cols, c)
      ensures Marked(old(grid[..]), old(dirty[..]))
      decreases if c == '\t' then 2 else 0
    {
      if c == '\n' {
        StartLine();
      } else if c == '\r' {
        cx := 0;
      } else if c == '\t' {
        ExpandTab();
      } else if c == BACKSPACE {
        RubOut();
      } else if FONT_FIRST <= c <= FONT_LAST {
        Stamp(c);
      }
    }

    /** Repaints the dirty rows, or every row if the panel has been drawn on by another. */
    method Flush()
      requires Sound()
      modifies this`glass, this`taken, dirty
      ensures Sound() && !taken
      ensures forall r | 0 <= r < dirty.Length :: !dirty[r]
      ensures Screen() == old(Screen()) && |glass| == old(|glass|)
      ensures forall r {:trigger glass[r]} | 0 <= r < |glass| ::
        glass[r] == if old(taken) || old(dirty[r]) then Image(Screen(), r) else old(glass[r])
      ensures forall r: nat | r < |glass| :: r in Stale() <==> !old(taken) && !old(dirty[r]) && r in old(Stale())
    {
      if taken {
        taken := false;
        var r := 0;
        while r < dirty.Length
          invariant 0 <= r <= dirty.Length
          invariant forall k | 0 <= k < r :: dirty[k]
          modifies dirty
        {
          dirty[r] := true;
          r := r + 1;
        }
      }
      ghost var flags := dirty[..];
      var r := 0;
      while r < dirty.Length
        invariant 0 <= r <= dirty.Length && |glass| == dirty.Length && !taken
        invariant forall k | 0 <= k < r :: !dirty[k]
        invariant forall k | r <= k < dirty.Length :: dirty[k] == flags[k]
        invariant forall k {:trigger glass[k]} | 0 <= k < dirty.Length ::
          glass[k] == if k < r && flags[k] then Image(Screen(), k) else old(glass[k])
      {
        if dirty[r] {
          glass := glass[r := Paint(grid[r], if cursorOn && r == cy then cx else -1)];
          dirty[r] := false;
        }
        r := r + 1;
      }
    }

    /** Rows that are still clean look as they did before, but for a cursor hidden on one of them. */
    lemma Unmarked(before: ConsoleScreen.Screen)
      requires Sound() && Fit(before, cols) && |before.rows| == dirty.Length
      requires Marks(before, Screen(), dirty[..])
      requires cursorOn ==> dirty[before.cy] && dirty[cy]
      ensures forall r | 0 <= r < dirty.Length && !dirty[r] :: Image(Screen(), r) == Image(before, r) <==>
        !(before.cursorOn && !cursorOn && r == before.cy && before.cx < cols)
    {
      forall r | 0 <= r < dirty.Length && !dirty[r]
        ensures Image(Screen(), r) == Image(before, r) <==>
          !(before.cursorOn && !cursorOn && r == before.cy && before.cx < cols)
      {
        MarkedIsEnough(before, Screen(), dirty[..], r);
      }
    }

    /** Output. Afterwards no row looks wrong that did not look wrong before and go untouched. */
    method Write(text: string)
      requires Valid() && forall i | 0 <= i < |text| :: Putable(text[i], cols)
      modifies this`cx, this`cy, this`glass, this`taken, grid, dirty
      ensures Valid() && !taken
      ensures Screen() == PutAll(old(Screen()), cols, text)
      ensures old(taken) ==> Stale() == {}
      ensures !old(taken) ==> forall r | r in Stale() :: r in old(Stale()) && grid[r] == old(grid[r])
    {
      var was := cy;
      var i := 0;
      while i < |text|
        invariant 0 <= i <= |text| && Sound()
        invariant Screen() == PutAll(old(Screen()), cols, text[..i])
        invariant Marked(old(grid[..]), old(dirty[..]))
        modifies this`cx, this`cy, grid, dirty
      {
        PutChar(text[i]);
        i := i + 1;
        assert text[..i][..i - 1] == text[..i - 1];
      }
      assert text[..i] == text;
      if cursorOn && cy != was { dirty[was] := true; }
      if cursorOn { dirty[cy] := true; }
      Unmarked(old(Screen()));
      Flush();
    }

    method ClearRows(from: nat)
      requires Sound() && from <= grid.Length
      modifies grid, dirty
      ensures Sound()
      ensures forall r {:trigger grid[r]} | 0 <= r < grid.Length ::
        grid[r] == if r < from then old(grid[r]) else Blank(old(grid[r]), 0, pen)
      ensures forall r {:trigger dirty[r]} | 0 <= r < dirty.Length :: dirty[r] == (old(dirty[r]) || r >= from)
    {
      var r := from;
      while r < grid.Length
        invariant from <= r <= grid.Length && Sound()
        invariant forall k {:trigger grid[k]} | 0 <= k < grid.Length ::
          grid[k] == if from <= k < r then Blank(old(grid[k]), 0, pen) else old(grid[k])
        invariant forall k {:trigger dirty[k]} | 0 <= k < dirty.Length :: dirty[k] == (old(dirty[k]) || from <= k < r)
      {
        BlankCells(r, 0, cols);
        r := r + 1;
      }
    }

    method Clear(what: nat)
      requires Sound()
      modifies this`cx, this`cy, grid, dirty
      ensures Sound() && Screen() == ClearScreen(old(Screen()), cols, what)
      ensures Marked(old(grid[..]), old(dirty[..]))
    {
      if what == CLEAR_EOL {
        BlankCells(cy, cx, cols);
      } else if what == CLEAR_EOS {
        BlankCells(cy, cx, cols);
        ClearRows(cy + 1);
      } else {
        ClearRows(0);
        cx, cy := 0, 0;
      }
      assert grid[..] == ClearScreen(old(Screen()), cols, what).rows;
    }

    /** Hiding a cursor that can be seen: the one change that marks no row. */
    ghost predicate Hides(code: Code, v: nat)
      reads this
    {
      code == CursorOn && v == 0 && cursorOn && cx < cols && !taken
    }

    /** The change itself, on the grid and the cursor. */
    method Apply(code: Code, v: nat) returns (err: Outcome)
      requires Sound() && code != Brightness
      modifies this`cx, this`cy, this`pen, this`cursorOn, grid, dirty
      ensures Sound() && Screen() == Set(old(Screen()), cols, code, v)
      ensures Marked(old(grid[..]), old(dirty[..]))
      ensures err == if code == Other then Unsupported else Done
      ensures code != CursorOn ==> cursorOn == old(cursorOn)
      ensures !code.Clear? && !code.LcdClear? ==> dirty[..] == old(dirty[..])
    {
      err := Done;
      match code {
        case Cursor =>
          var row, col := (v / UINT16) % UINT16, v % UINT16;
          if row >= grid.Length { row := grid.Length - 1; }
          if col >= cols { col := cols - 1; }
          cy, cx := row, col;
        case Colour => pen := pen.(fg := v % 256, bg := (v / 256) % 256);
        case Attr => pen := pen.(bold := v % 2 == 1, underline := (v / 2) % 2 == 1, reverse := (v / 4) % 2 == 1);
        case CursorOn => cursorOn := v != 0;
        case Clear => Clear(v);
        case LcdClear => Clear(0);
        case Other => err := Unsupported;
      }
    }

    /** A setting. No row newly looks wrong, except the cursor's own row when its cursor is hidden. */
    method SetStat(code: Code, v: nat) returns (err: Outcome)
      requires Valid()
      modifies this`cx, this`cy, this`pen, this`cursorOn, this`glass, this`taken, grid, dirty
      ensures Valid() && Screen() == Set(old(Screen()), cols, code, v)
      ensures err == if code == Other then Unsupported else Done
      ensures code == Brightness || code == Other ==> glass == old(glass) && taken == old(taken)
      ensures code != Brightness && code != Other ==>
        !taken
        && (old(taken) ==> Stale() == {})
        && (!old(taken) ==> forall r | r in Stale() ::
              (r in old(Stale()) && grid[r] == old(grid[r])) || (old(Hides(code, v)) && r == cy))
      ensures old(Hides(code, v)) ==> cy in Stale()
    {
      hide Image;
      if code == Brightness { return Done; }
      var was := cy;
      err := Apply(code, v);
      if err == Done && cursorOn {
        dirty[was] := true;
        dirty[cy] := true;
      }
      assert old(Hides(code, v)) ==> !dirty[cy];
      if err == Done {
        Unmarked(old(Screen()));
        Flush();
      }
    }
  }
}
