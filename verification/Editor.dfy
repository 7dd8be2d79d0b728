/** The editor as it is: one buffer of bytes, an offset into it, and a window. */
module Editor {

  import opened EditorText
  import opened LineEditor
  import opened EditorKeys

  class Session {
    const text: array<Byte>
    var len: nat
    var cur: nat
    var top: nat
    var left: nat
    var goal: nat
    var rows: nat
    var cols: nat
    var modified: bool
    var armed: bool
    var quit: bool
    /** What each text row of the window shows; the last row is the status line. */
    var glass: seq<Line>

    ghost predicate Sound()
      reads this
    {
      text.Length == TEXT_MAX && cur <= len <= TEXT_MAX
    }

    ghost function Contents(): (t: seq<Byte>)
      requires Sound()
      reads this, text
      ensures |t| == len
    {
      text[..len]
    }

    /** The session as lines and a cursor on one of them. */
    ghost function AsDesk(): (d: Desk)
      requires Sound()
      reads this, text
    {
      DeskOf(Contents(), cur, goal, modified)
    }

    /* ---- reading the text ---- */

    method LineStart(at: nat) returns (r: nat)
      requires Sound() && at <= len
      ensures r <= at && r == at - ColOf(Contents(), at)
      ensures RowOf(Contents(), at) < |Lines(Contents())| && r == Start(Lines(Contents()), RowOf(Contents(), at))
    {
      ghost var t := Contents();
      hide Lines, RowOf, ColOf;
      PlaceIs(t, at);
      r := at;
      while r > 0 && text[r - 1] != NEWLINE
        invariant r <= at && RowOf(t, r) == RowOf(t, at) && ColOf(t, at) == ColOf(t, r) + (at - r)
      {
        ByteBefore(t, r);
        r := r - 1;
      }
      if r > 0 { ByteBefore(t, r); } else { PlaceIs(t, r); }
    }

    method LineEnd(at: nat) returns (r: nat)
      requires Sound() && at <= len
      ensures var t := Contents();
        at <= r <= len && RowOf(t, r) == RowOf(t, at)
        && RowOf(t, at) < |Lines(t)| && ColOf(t, r) == |Lines(t)[RowOf(t, at)]| == ColOf(t, at) + (r - at)
    {
      ghost var t := Contents();
      hide Lines, RowOf, ColOf;
      r := at;
      while r < len && text[r] != NEWLINE
        invariant at <= r <= len && RowOf(t, r) == RowOf(t, at) && ColOf(t, r) == ColOf(t, at) + (r - at)
      {
        ByteBefore(t, r + 1);
        r := r + 1;
      }
      ByteAt(t, r);
    }

    method LineOf(at: nat) returns (n: nat)
      requires Sound() && at <= len
      ensures n == RowOf(Contents(), at)
    {
      n := 0;
      var i := 0;
      while i < at
        invariant i <= at && n == RowOf(Contents(), i)
      {
        ByteBefore(Contents(), i + 1);
        if text[i] == NEWLINE { n := n + 1; }
        i := i + 1;
      }
    }

    method TotalLines() returns (n: nat)
      requires Sound()
      ensures n == |Lines(Contents())|
    {
      n := LineOf(len);
      n := n + 1;
      ByteAt(Contents(), len);
    }

    /** The first offset of a line, or the end of the text if it has no such line. */
    method OffsetOfLine(line: nat) returns (i: nat)
      requires Sound()
      ensures i == if line < |Lines(Contents())| then Start(Lines(Contents()), line) else len
      ensures i <= len
    {
      ghost var t := Contents();
      hide Lines, RowOf, ColOf;
      i := 0;
      var n := 0;
      PlaceIs(t, 0);
      assert RowOf(t, 0) == 0 && ColOf(t, 0) == 0 by { PlaceZero(t); }
      while i < len && n < line
        invariant i <= len && n == RowOf(t, i) <= line
        invariant n == line ==> ColOf(t, i) == 0
      {
        ByteBefore(t, i + 1);
        if text[i] == NEWLINE { n := n + 1; }
        i := i + 1;
      }
      PlaceIs(t, i);
      if n < line { ByteAt(t, i); }
    }

    static lemma PlaceZero(t: seq<Byte>)
      ensures RowOf(t, 0) == 0 && ColOf(t, 0) == 0
    {
      assert t[..0] == [];
    }

    /* ---- changing the text ---- */

    /** Opens a gap of `n` bytes, copying backwards. */
    method MakeRoom(at: nat, n: nat)
      requires Sound() && at <= len && len + n <= TEXT_MAX
      modifies this`len, text
      ensures Sound() && len == old(len) + n
      ensures text[..at] == old(text[..at]) && text[at + n..len] == old(text[at..len])
    {
      var i := len;
      while i > at
        invariant at <= i <= len
        invariant forall k | 0 <= k < i :: text[k] == old(text[k])
        invariant forall k {:trigger text[k]} | i + n <= k < len + n :: text[k] == old(text[..])[k - n]
        modifies text
      {
        text[i - 1 + n] := text[i - 1];
        i := i - 1;
      }
      len := len + n;
      RoomMade(old(text[..]), text[..], at, n, old(len));
    }

    /** Closes over `n` bytes, copying forwards. */
    method CloseUp(at: nat, n: nat)
      requires Sound() && at + n <= len && cur <= at
      modifies this`len, text
      ensures Sound() && Contents() == Taken(old(Contents()), at, n)
    {
      ghost var was := text[..];
      var i := at;
      while i + n < len
        invariant at <= i <= len - n
        invariant forall k | 0 <= k < at :: text[k] == was[k]
        invariant forall k {:trigger text[k]} | at <= k < i :: text[k] == was[k + n]
        invariant forall k | i <= k < text.Length :: text[k] == was[k]
        modifies text
      {
        text[i] := text[i + n];
        i := i + 1;
      }
      Shifted(was, text[..], at, n, len);
      len := len - n;
    }

    static lemma Shifted(was: seq<Byte>, now: seq<Byte>, at: nat, n: nat, len: nat)
      requires at + n <= len <= |was| == |now|
      requires forall k | 0 <= k < at :: now[k] == was[k]
      requires forall k {:trigger now[k]} | at <= k < len - n :: now[k] == was[k + n]
      ensures now[..len - n] == Taken(was[..len], at, n)
    {
    }

    method Place(at: nat, s: seq<Byte>)
      requires at + |s| <= text.Length
      modifies text
      ensures text[..at] == old(text[..at]) && text[at..at + |s|] == s && text[at + |s|..] == old(text[at + |s|..])
    {
      var i := 0;
      while i < |s|
        invariant i <= |s|
        invariant forall k {:trigger text[k]} | at <= k < at + i :: text[k] == s[k - at]
        invariant forall k | 0 <= k < at || at + i <= k < text.Length :: text[k] == old(text[k])
      {
        text[at + i] := s[i];
        i := i + 1;
      }
    }

    /** Puts bytes in at the cursor and steps past them, if they fit. */
    method Insert(s: seq<Byte>)
      requires Sound()
      modifies this`len, this`cur, this`modified, text
      ensures Sound()
      ensures old(len) + |s| <= 8192 ==>
        Contents() == Inserted(old(Contents()), old(cur), s) && cur == old(cur) + |s| && modified
      ensures old(len) + |s| > 8192 ==>
        Contents() == old(Contents()) && cur == old(cur) && modified == old(modified)
    {
      if len + |s| > TEXT_MAX { return; }
      ghost var t, n, p := Contents(), len, cur;
      MakeRoom(cur, |s|);
      ghost var u := text[..];
      Place(cur, s);
      Patched(t, p, s, u, text[..], n);
      cur := cur + |s|;
      modified := true;
    }

    static lemma Patched(t: seq<Byte>, p: nat, s: seq<Byte>, u: seq<Byte>, v: seq<Byte>, n: nat)
      requires p <= |t| == n && n + |s| <= |u| == |v|
      requires u[..p] == t[..p] && u[p + |s|..n + |s|] == t[p..]
      requires v[..p] == u[..p] && v[p..p + |s|] == s && v[p + |s|..] == u[p + |s|..]
      ensures v[..n + |s|] == Inserted(t, p, s)
    {
      var w := v[..n + |s|];
      assert w == w[..p] + w[p..p + |s|] + w[p + |s|..];
      assert w[p + |s|..] == u[p + |s|..n + |s|];
    }

    static lemma RoomMade(was: seq<Byte>, now: seq<Byte>, at: nat, n: nat, len: nat)
      requires |was| == |now| && at <= len && len + n <= |now|
      requires forall k | 0 <= k < at :: now[k] == was[k]
      requires forall k {:trigger now[k]} | at + n <= k < len + n :: now[k] == was[k - n]
      ensures now[..at] == was[..at] && now[at + n..len + n] == was[at..len]
    {
      var a, b := now[at + n..len + n], was[at..len];
      forall k | 0 <= k < len - at ensures a[k] == b[k] {
        assert a[k] == now[at + n + k];
      }
    }

    /* ---- keys ---- */

    /** The column to aim for is the one the cursor is in. */
    method AimHere()
      requires Sound()
      modifies this`goal
      ensures goal == ColOf(Contents(), cur) && Contents() == old(Contents())
    {
      var s := LineStart(cur);
      goal := cur - s;
    }

    method MoveLeft()
      requires Sound()
      modifies this`cur, this`goal
      ensures Sound() && AsDesk() == Left(old(AsDesk()))
    {
      LeftIs(Contents(), cur, goal, modified);
      hide DeskOf, Left, ColOf;
      if cur > 0 { cur := cur - 1; }
      AimHere();
    }

    method MoveRight()
      requires Sound()
      modifies this`cur, this`goal
      ensures Sound() && AsDesk() == Right(old(AsDesk()))
    {
      RightIs(Contents(), cur, goal, modified);
      hide DeskOf, Right, ColOf;
      if cur < len { cur := cur + 1; }
      AimHere();
    }

    /** The place on a line nearest the goal column. */
    method Aim(line: nat) returns (q: nat)
      requires Sound() && line < |Lines(Contents())|
      ensures q == Start(Lines(Contents()), line) + Nearest(goal, Lines(Contents())[line])
    {
      hide Lines, RowOf, ColOf, Start;
      StartIs(Contents(), line);
      var s := OffsetOfLine(line);
      var t := LineEnd(s);
      var col := goal;
      if s + col > t { col := t - s; }
      q := s + col;
    }

    /** To another line, as near the goal column as it allows. */
    method MoveToLine(line: nat)
      requires Sound() && line < |Lines(Contents())|
      modifies this`cur
      ensures Sound() && AsDesk() == OnRow(old(AsDesk()), line) && Contents() == old(Contents())
      ensures NearestOn(Contents(), cur, line, goal)
    {
      hide DeskOf, OnRow, Start, Nearest, NearestOn, Lines, RowOf, ColOf;
      var q := Aim(line);
      OnRowIs(Contents(), cur, goal, modified, line);
      NearestThere(Contents(), line, goal);
      cur := q;
    }

    method MoveUp()
      requires Sound()
      modifies this`cur
      ensures Sound() && AsDesk() == (if old(AsDesk()).row == 0 then old(AsDesk()) else Up(old(AsDesk()), 1))
      ensures var line := LineNo(Contents(), old(cur));
        && Contents() == old(Contents())
        && if line == 0 then cur == old(cur) else NearestOn(Contents(), cur, line - 1, goal)
    {
      hide NearestOn, LineNo;
      var line := LineOf(cur);
      RowIsLineNo(Contents(), cur);
      if line == 0 { return; }
      PlaceIs(Contents(), cur);
      hide RowOf, ColOf;
      MoveToLine(line - 1);
    }

    method MoveDown()
      requires Sound()
      modifies this`cur
      ensures Sound()
      ensures AsDesk() ==
        if old(AsDesk()).row + 1 == |old(AsDesk()).lines| then old(AsDesk()) else Down(old(AsDesk()), 1)
      ensures var line := LineNo(Contents(), old(cur));
        && Contents() == old(Contents())
        && if line == Breaks(Contents()) then cur == old(cur) else NearestOn(Contents(), cur, line + 1, goal)
    {
      hide NearestOn, LineNo, Breaks;
      var line := LineOf(cur);
      var total := TotalLines();
      RowIsLineNo(Contents(), cur);
      LinesAreBreaks(Contents());
      if line + 1 >= total { return; }
      hide RowOf, ColOf;
      MoveToLine(line + 1);
    }

    method MoveHome()
      requires Sound()
      modifies this`cur, this`goal
      ensures Sound() && AsDesk() == Home(old(AsDesk()))
    {
      HomeIs(Contents(), cur, goal, modified);
      hide DeskOf, Home, ColOf, RowOf, Lines, Start;
      var s := LineStart(cur);
      cur := s;
      goal := 0;
    }

    method MoveEnd()
      requires Sound()
      modifies this`cur, this`goal
      ensures Sound() && AsDesk() == End(old(AsDesk()))
    {
      var t := LineEnd(cur);
      EndIs(Contents(), cur, goal, modified, t);
      hide DeskOf, End, ColOf, RowOf, Lines, Start;
      cur := t;
      AimHere();
    }

    method PageLine(up: bool) returns (line: nat)
      requires Sound() && rows >= 2
      ensures var row, n := RowOf(Contents(), cur), rows - 2;
        line == if up then (if row > n then row - n else 0)
                else (if row + n < |Lines(Contents())| then row + n else |Lines(Contents())| - 1)
      ensures line < |Lines(Contents())|
    {
      PlaceIs(Contents(), cur);
      hide RowOf, ColOf, Lines;
      var page := rows - 2;
      line := LineOf(cur);
      if up {
        line := if line > page then line - page else 0;
      } else {
        line := line + page;
        var total := TotalLines();
        if line >= total { line := total - 1; }
      }
    }

    method Page(up: bool)
      requires Sound() && rows >= 2
      modifies this`cur
      ensures Sound() && AsDesk() == if up then Up(old(AsDesk()), rows - 2) else Down(old(AsDesk()), rows - 2)
      ensures var line, last, page := LineNo(Contents(), old(cur)), Breaks(Contents()), rows - 2;
        && Contents() == old(Contents())
        && NearestOn(Contents(), cur, if up then (if line > page then line - page else 0)
                                      else if line + page < last then line + page else last, goal)
    {
      hide RowOf, ColOf, OnRow, Lines, NearestOn, LineNo, Breaks;
      RowIsLineNo(Contents(), cur);
      LinesAreBreaks(Contents());
      var line := PageLine(up);
      MoveToLine(line);
    }

    method Remove(n: nat)
      requires Sound() && cur + n <= len
      modifies this`len, this`modified, text
      ensures Sound() && Contents() == Taken(old(Contents()), cur, n)
      ensures AsDesk() == DeskOf(Taken(old(Contents()), cur, n), cur, goal, true)
    {
      hide DeskOf, Taken;
      CloseUp(cur, n);
      modified := true;
    }

    /** Removes the byte at the cursor; says whether it was a newline. */
    method DeleteForward() returns (full: bool)
      requires Sound()
      modifies this`len, this`modified, text
      ensures Sound() && AsDesk() == Delete(old(AsDesk())) && full == AllRows(old(AsDesk()), K_DEL)
    {
      DeleteIs(Contents(), cur, goal, modified);
      hide DeskOf, Delete, AllRows, Taken;
      if cur >= len { return false; }
      full := text[cur] == NEWLINE;
      Remove(1);
    }

    /** Steps back over the byte before the cursor and removes it; says whether it was a newline. */
    method DeleteBackward() returns (full: bool)
      requires Sound()
      modifies this`len, this`cur, this`goal, this`modified, text
      ensures Sound() && AsDesk() == Rub(old(AsDesk())) && full == AllRows(old(AsDesk()), BACKSPACE)
    {
      RubIs(Contents(), cur, goal, modified);
      hide DeskOf, Rub, AllRows, Taken, ColOf;
      if cur == 0 { return false; }
      full := text[cur - 1] == NEWLINE;
      cur := cur - 1;
      Remove(1);
      AimHere();
    }

    method BreakLine()
      requires Sound()
      modifies this`len, this`cur, this`goal, this`modified, text
      ensures Sound() && AsDesk() == Enter(old(AsDesk()))
    {
      EnterIs(Contents(), cur, goal, modified);
      hide DeskOf, Enter, Inserted;
      Insert([NEWLINE]);
      goal := 0;
    }

    method TypeText(s: seq<Byte>)
      requires Sound() && Unbroken(s)
      modifies this`len, this`cur, this`goal, this`modified, text
      ensures Sound() && AsDesk() == Type(old(AsDesk()), s)
    {
      TypeIs(Contents(), cur, goal, modified, s);
      hide DeskOf, Type, Inserted, ColOf;
      Insert(s);
      AimHere();
    }

    method CutLine() returns (full: bool)
      requires Sound()
      modifies this`len, this`modified, text
      ensures Sound() && AsDesk() == Cut(old(AsDesk())) && full == AllRows(old(AsDesk()), CTRL_K)
    {
      hide DeskOf, Cut, AllRows, Taken, RowOf, ColOf, Lines;
      var t := LineEnd(cur);
      CutIs(Contents(), cur, goal, modified, t);
      if t == cur && t == len { return false; }
      Remove(if t > cur then t - cur else 1);
      full := true;
    }

    static predicate Moves(k: nat) {
      k == K_LEFT || k == K_RIGHT || k == K_UP || k == K_DOWN || k == K_HOME || k == K_END || k == K_PGUP || k == K_PGDN
    }

    /** A key that only moves the cursor. */
    method Navigate(k: nat) returns (full: bool)
      requires Sound() && rows >= 2 && Moves(k)
      modifies this`cur, this`goal
      ensures Sound() && AsDesk() == Press(old(AsDesk()), k, rows - 2, false) && full == AllRows(old(AsDesk()), k)
    {
      hide DeskOf, Lines, RowOf, ColOf, Left, Right, Up, Down, Home, End, OnRow;
      full := k == K_PGUP || k == K_PGDN;
      if k == K_LEFT { MoveLeft(); }
      else if k == K_RIGHT { MoveRight(); }
      else if k == K_UP { MoveUp(); }
      else if k == K_DOWN { MoveDown(); }
      else if k == K_HOME { MoveHome(); }
      else if k == K_END { MoveEnd(); }
      else { Page(k == K_PGUP); }
    }

    /** A key that may change the text. */
    method Edit(k: nat, saved: bool) returns (full: bool)
      requires Sound() && rows >= 2 && !Moves(k)
      modifies this`len, this`cur, this`goal, this`modified, text
      ensures Sound()
      ensures AsDesk() == Press(old(AsDesk()), k, rows - 2, saved)
      ensures full == AllRows(old(AsDesk()), k)
    {
      hide DeskOf, Lines, RowOf, ColOf, Delete, Rub, Enter, Type, Cut;
      full := false;
      if k == K_DEL {
        full := DeleteForward();
      } else if k == BACKSPACE || k == RUBOUT {
        full := DeleteBackward();
      } else if k == RETURN || k == LINEFEED {
        BreakLine();
        full := true;
      } else if k == TAB {
        TypeText([SPACE, SPACE, SPACE, SPACE]);
      } else if k == CTRL_S {
        Save(saved);
      } else if k == CTRL_K {
        full := CutLine();
      } else if 32 <= k < 127 {
        TypeText([k]);
      }
    }

    /** The text is on disk if the save worked. */
    method Save(saved: bool)
      requires Sound()
      modifies this`modified
      ensures Sound() && AsDesk() == if saved then old(AsDesk()).(modified := false) else old(AsDesk())
    {
      if saved { modified := false; }
      assert Contents() == old(Contents());
    }

    static predicate Quits(k: nat) {
      k == CTRL_X || k == CTRL_Q
    }

    /** Whether a quit key has ended the session: with changes unsaved, only the second one in a row does. */
    static predicate Leaves(k: nat, quit: bool, armed: bool, modified: bool) {
      quit || (Quits(k) && (armed || !modified))
    }

    /** Whether the next quit key will leave with changes unsaved: any key but a quit key takes that back. */
    static predicate Asked(k: nat, armed: bool, modified: bool) {
      if Quits(k) then armed || modified else armed && k == K_NONE
    }

    /** Whatever a key does. Leaving with changes unsaved has to be asked for twice. */
    method Handle(k: nat, saved: bool) returns (full: bool)
      requires Sound() && rows >= 2
      modifies this`len, this`cur, this`goal, this`modified, this`armed, this`quit, text
      ensures Sound()
      ensures AsDesk() == Press(old(AsDesk()), k, rows - 2, saved)
      ensures full == AllRows(old(AsDesk()), k)
      ensures quit == (old(quit) || (Quits(k) && (old(armed) || !old(modified))))
      ensures armed == (old(armed) || (Quits(k) && old(modified)))
    {
      hide DeskOf, Lines, RowOf, ColOf, Delete, Rub, Enter, Type, Cut;
      if Quits(k) {
        full := false;
        if modified && !armed { armed := true; } else { quit := true; }
        assert Contents() == old(Contents());
      } else if Moves(k) {
        full := Navigate(k);
      } else {
        full := Edit(k, saved);
      }
    }

    /* ---- the window ---- */

    /** The cursor is in the window. */
    ghost predicate OnScreen()
      requires Sound()
      reads this, text
    {
      && rows >= 2 && Sees(top, rows - 1, RowOf(Contents(), cur))
      && (cols >= 1 ==> Sees(left, cols, ColOf(Contents(), cur)))
    }

    /** Every text row of the window shows its line. */
    ghost predicate Painted()
      requires Sound() && rows >= 1
      reads this, text
    {
      AllShown(glass, Lines(Contents()), rows - 1, top, left, cols)
    }

    ghost predicate Valid()
      reads this, text
    {
      Sound() && OnScreen() && Painted()
    }

    /** Moves the view as little as brings the cursor into it; says whether it moved. */
    method ScrollToFit() returns (moved: bool)
      requires Sound() && rows >= 2
      modifies this`top, this`left
      ensures Sound() && OnScreen() && Contents() == old(Contents())
      ensures ScrolledLeast(old(top), top, rows - 1, RowOf(Contents(), cur))
      ensures cols >= 1 ==> ScrolledLeast(old(left), left, cols, ColOf(Contents(), cur))
      ensures top != old(top) || left != old(left) || cols == 0 ==> moved
      ensures cols >= 1 && top == old(top) && left == old(left) ==> !moved
    {
      var line, col := Position();
      var textRows := rows - 1;
      Least(top, textRows, line);
      if cols >= 1 { Least(left, cols, col); }
      hide RowOf, ColOf, Lines, DeskOf, ScrolledLeast;
      moved := false;
      if line < top { top, moved := line, true; }
      if line >= top + textRows { top, moved := line - textRows + 1, true; }
      if col < left { left, moved := col, true; }
      if col >= left + cols { left, moved := col - cols + 1, true; }
      assert Contents() == old(Contents());
    }

    method Position() returns (line: nat, col: nat)
      requires Sound()
      ensures line == RowOf(Contents(), cur) && col == ColOf(Contents(), cur)
    {
      hide RowOf, ColOf;
      line := LineOf(cur);
      var start := LineStart(cur);
      col := cur - start;
    }

    /** Clears a text row and writes the part of its line the window shows. */
    method DrawRow(row: nat)
      requires Sound() && row < |glass|
      modifies this`glass
      ensures Sound() && Contents() == old(Contents())
      ensures glass == old(glass)[row := Shown(Lines(Contents()), top, left, cols, row)]
    {
      hide RowOf, ColOf, Lines, Start, DeskOf;
      var part := RowBytes(row);
      glass := glass[row := part];
    }

    method RowBytes(row: nat) returns (part: Line)
      requires Sound()
      ensures part == Shown(Lines(Contents()), top, left, cols, row)
    {
      hide RowOf, ColOf, Lines, Start;
      var line := top + row;
      var total := TotalLines();
      if line >= total { return []; }
      StartIs(Contents(), line);
      var s := OffsetOfLine(line);
      var t := LineEnd(s);
      RowIs(Contents(), top, left, cols, row, t);
      hide Shown;
      if t - s <= left { return []; }
      s := s + left;
      var n := t - s;
      if n > cols { n := cols; }
      part := text[s..s + n];
      assert part == Contents()[s..s + n];
    }

    method DrawAll()
      requires Sound() && rows >= 2 && |glass| == rows - 1
      modifies this`glass
      ensures Sound() && Painted() && Contents() == old(Contents())
    {
      hide Shown, RowOf, ColOf, Lines, DeskOf;
      var r := 0;
      while r + 1 < rows
        invariant Sound() && r <= rows - 1 == |glass| && Contents() == old(Contents())
        invariant forall k | 0 <= k < r :: glass[k] == Shown(Lines(Contents()), top, left, cols, k)
      {
        DrawRow(r);
        r := r + 1;
      }
    }

    /** Redraws everything, or the row the cursor is on and the row it was on. `was` is what the window shows. */
    method Redraw(full: bool, wasRow: nat, ghost was: seq<Line>)
      requires Sound() && OnScreen() && |glass| == rows - 1
      requires !full ==> wasRow < rows - 1 && AlikeBut(RowOf(Contents(), cur), Lines(Contents()), was, top, left, cols)
      requires !full ==> AllShown(glass, was, rows - 1, top, left, cols)
      modifies this`glass
      ensures Valid() && Contents() == old(Contents())
    {
      if full {
        DrawAll();
      } else {
        var line := LineOf(cur);
        hide RowOf, ColOf, Lines, Shown, AllShown, AlikeBut, DeskOf;
        var row := line - top;
        Redrawn(glass, was, Lines(Contents()), rows - 1, top, left, cols, row, wasRow);
        DrawRow(row);
        if row != wasRow { DrawRow(wasRow); }
      }
    }

    /** The size the window has now; whatever a window of another size shows. */
    method AskSize(reportedRows: nat, reportedCols: nat) returns (resized: bool)
      requires Sound() && rows >= 2 && |glass| == rows - 1
      modifies this`rows, this`cols, this`glass
      ensures Sound() && rows == Rows(reportedRows) && cols == reportedCols && |glass| == rows - 1
      ensures resized == (rows != old(rows) || cols != old(cols))
      ensures !resized ==> glass == old(glass)
      ensures Contents() == old(Contents())
    {
      var wasRows, wasCols := rows, cols;
      rows, cols := reportedRows, reportedCols;
      if rows < 2 { rows := 2; }
      resized := rows != wasRows || cols != wasCols;
      if resized { glass := Stray(rows - 1); }
      assert Contents() == old(Contents());
    }

    /** Rows showing anything at all. */
    static method Stray(n: nat) returns (g: seq<Line>)
      ensures |g| == n
    {
      g := [];
      while |g| < n
        invariant |g| <= n
      {
        var scrap: Line := *;
        g := g + [scrap];
      }
    }

    /** Handles a key; says whether it asks for everything to be redrawn. */
    method React(e: Event) returns (full: bool)
      requires Sound() && rows >= 2
      modifies this`len, this`cur, this`goal, this`modified, this`armed, this`quit, text
      ensures Sound() && AsDesk() == Press(old(AsDesk()), e.key, rows - 2, e.saved)
      ensures quit == Leaves(e.key, old(quit), old(armed), old(modified))
      ensures armed == Asked(e.key, old(armed), old(modified))
      ensures full == AllRows(old(AsDesk()), e.key)
    {
      hide Press, AllRows, DeskOf;
      Disarm(e.key);
      full := Handle(e.key, e.saved);
    }

    /** Any key but the quit keys takes back a first request to leave. */
    method Disarm(k: nat)
      requires Sound()
      modifies this`armed
      ensures Sound() && AsDesk() == old(AsDesk()) && armed == (old(armed) && (Quits(k) || k == K_NONE))
    {
      if !Quits(k) && k != K_NONE { armed := false; }
      assert Contents() == old(Contents());
    }

    /** One key: the text and the cursor do what the key means, and every row of the window is right again. */
    method Turn(e: Event)
      requires Valid()
      modifies this, text
      ensures Valid() && rows == Rows(e.rows) && cols == e.cols
      ensures AsDesk() == Press(old(AsDesk()), e.key, old(rows) - 2, e.saved)
      ensures cur <= |Contents()| && Means(old(Contents()), old(cur), old(goal), old(modified), e.key, old(rows) - 2,
                                           e.saved, Contents(), cur, goal, modified)
      ensures ShowsText(glass, Contents(), rows - 1, top, left, cols)
      ensures quit == Leaves(e.key, old(quit), old(armed), old(modified))
      ensures armed == Asked(e.key, old(armed), old(modified))
      // control-X and control-Q leave, but with changes not on disk only the second in a row does
      ensures quit == (old(quit) || ((e.key == 24 || e.key == 17) && (old(armed) || !old(modified))))
      ensures armed == if e.key == 24 || e.key == 17 then old(armed) || old(modified) else old(armed) && e.key == 266
    {
      ghost var t, p, aim, dirty, page := Contents(), cur, goal, modified, rows - 2;
      assert p <= |t| && AsDesk() == DeskOf(t, p, aim, dirty);
      hide Sound, OnScreen, Painted, DeskOf, AllShown, Press, AllRows, RowOf, ColOf, Lines, Rows;
      hide Fits, Contents, Means, ShowsText;
      Act(e);
      BytesToo(t, p, aim, dirty, e, page);
    }

    /** The key, and the window after it. */
    method Act(e: Event)
      requires Valid()
      modifies this, text
      ensures Valid() && rows == Rows(e.rows) && cols == e.cols
      ensures AsDesk() == Press(old(AsDesk()), e.key, old(rows) - 2, e.saved)
      ensures quit == Leaves(e.key, old(quit), old(armed), old(modified))
      ensures armed == Asked(e.key, old(armed), old(modified))
    {
      ghost var d, page := AsDesk(), rows - 2;
      assert Sound() && OnScreen() && rows >= 2 && AllShown(glass, d.lines, rows - 1, top, left, cols);
      hide Sound, Valid, OnScreen, Painted, DeskOf, AllShown, Press, AllRows, RowOf, ColOf, Lines, Rows;
      hide Fits, Contents, AsDesk;
      var wasRow := RowOnScreen();
      var full := React(e);
      assert AllShown(glass, d.lines, rows - 1, top, left, cols);
      assert full == AllRows(d, e.key);
      assert AsDesk() == Press(d, e.key, page, e.saved);
      Refresh(e, full, wasRow, d, page);
    }

    /** What has been done, and is shown, said of the bytes. */
    lemma BytesToo(t: seq<Byte>, p: nat, aim: nat, dirty: bool, e: Event, page: nat)
      requires Valid() && p <= |t| && AsDesk() == Press(DeskOf(t, p, aim, dirty), e.key, page, e.saved)
      ensures cur <= |Contents()|
      ensures Means(t, p, aim, dirty, e.key, page, e.saved, Contents(), cur, goal, modified)
      ensures ShowsText(glass, Contents(), rows - 1, top, left, cols)
    {
      hide DeskOf, Press, Means, ShowsText, AllShown, Lines;
      Pressed(t, p, aim, dirty, e.key, page, e.saved, Contents(), cur, goal, modified);
      WindowShows(glass, Contents(), rows - 1, top, left, cols);
    }

    method RowOnScreen() returns (row: nat)
      requires Sound() && OnScreen()
      ensures row < rows - 1
    {
      var line := LineOf(cur);
      row := line - top;
    }

    /** After a key: the window is as large as it now is, shows the cursor, and is right in every row. */
    method Refresh(e: Event, asked: bool, wasRow: nat, ghost d: Desk, ghost page: nat)
      requires Sound() && rows >= 2 && Fits(d) && AllShown(glass, d.lines, rows - 1, top, left, cols)
      requires AsDesk() == Press(d, e.key, page, e.saved) && asked == AllRows(d, e.key) && wasRow < rows - 1
      modifies this`top, this`left, this`rows, this`cols, this`glass
      ensures Valid() && rows == Rows(e.rows) && cols == e.cols && AsDesk() == old(AsDesk())
    {
      assert |glass| == rows - 1;
      assert AsDesk().row == RowOf(Contents(), cur) && AsDesk().lines == Lines(Contents());
      hide DeskOf, Shown, Lines, RowOf, ColOf, AlikeBut, AllShown, Press, AllRows;
      if !asked { OneRowIsEnough(d, e.key, page, e.saved, top, left, cols); }
      var full := Reframe(e, asked);
      Redraw(full, wasRow, d.lines);
    }

    /** Fits the window to its present size and to the cursor; says whether anything calls for a full redraw. */
    method Reframe(e: Event, asked: bool) returns (full: bool)
      requires Sound() && rows >= 2 && |glass| == rows - 1
      modifies this`top, this`left, this`rows, this`cols, this`glass
      ensures Sound() && OnScreen() && Contents() == old(Contents())
      ensures rows == Rows(e.rows) && cols == e.cols && |glass| == rows - 1
      ensures !full ==> !asked && glass == old(glass) && rows == old(rows) && cols == old(cols)
      ensures !full ==> top == old(top) && left == old(left)
    {
      hide RowOf, ColOf, Lines, ScrolledLeast;
      var wasTop, wasLeft := top, left;
      full := asked;
      var resized := AskSize(e.rows, e.cols);
      if resized { full := true; }
      var moved := ScrollToFit();
      if moved { full := true; }
      if top != wasTop || left != wasLeft { full := true; }
    }

    /** Opens a file, as much of it as there is room for, and shows it. */
    constructor (file: seq<Byte>, reportedRows: nat, reportedCols: nat)
      ensures Valid() && fresh(text) && !quit && !armed
      ensures rows == Rows(reportedRows) && cols == reportedCols
      ensures AsDesk() == DeskOf(if |file| > 8192 then file[..TEXT_MAX] else file, 0, 0, false)
    {
      text := new Byte[TEXT_MAX];
      cur, top, left, goal := 0, 0, 0, 0;
      rows, cols := if reportedRows < 2 then 2 else reportedRows, reportedCols;
      modified, armed, quit := false, false, false;
      len := if |file| > TEXT_MAX then TEXT_MAX else |file|;
      glass := [];
      new;
      hide DeskOf, Lines, RowOf, ColOf, AllShown, ScrolledLeast;
      Place(0, file[..len]);
      assert Contents() == text[0..0 + len] == file[..len];
      assert |file| <= TEXT_MAX ==> file[..len] == file;
      glass := Stray(rows - 1);
      var moved := ScrollToFit();
      DrawAll();
    }

    /** The next key of a session that began with desk `d` in a window so high. */
    method Step(e: Event, ghost past: seq<Event>, ghost d: Desk, ghost height: nat)
      requires Valid() && Fits(d) && height >= 2
      requires rows == RowsAfter(height, past) && AsDesk() == Played(d, height, past)
      modifies this, text
      ensures Valid() && rows == RowsAfter(height, past + [e]) && AsDesk() == Played(d, height, past + [e])
    {
      hide DeskOf, Lines, RowOf, ColOf, AllShown, Press, Played, Leaves, Asked, Fits, RowsAfter, Rows;
      PlayedOneMore(d, height, past, e);
      Turn(e);
    }

    /** A whole session: keys are taken until one of them leaves, or there are no more. */
    method Run(events: seq<Event>) returns (n: nat)
      requires Valid()
      modifies this, text
      ensures Valid() && n <= |events| && (n == |events| || quit)
      ensures AsDesk() == Played(old(AsDesk()), old(rows), events[..n])
    {
      ghost var d, height := AsDesk(), rows;
      hide DeskOf, Lines, RowOf, ColOf, AllShown, Press, Played, Fits, RowsAfter;
      NothingPlayed(d, height);
      assert events[..0] == [];
      n := 0;
      while n < |events| && !quit
        invariant n <= |events| && Valid() && rows == RowsAfter(height, events[..n])
        invariant AsDesk() == Played(d, height, events[..n])
      {
        assert events[..n + 1] == events[..n] + [events[n]];
        Step(events[n], events[..n], d, height);
        n := n + 1;
      }
    }
  }
}
