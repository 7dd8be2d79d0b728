/** The shell running a script: the line reader, the control stack and the main loop. */
module Shell {
  import opened Options
  import opened ShellControl
  import opened ShellText

  /** `offset` is where the frame's own line starts in the script. */
  datatype Ctl = Ctl(kind: Kind, state: State, offset: nat)

  /** The frames as the control machine sees them. */
  ghost function Frames(script: seq<char>, cs: seq<Ctl>): (fs: seq<Frame>)
    requires forall i | 0 <= i < |cs| :: cs[i].offset <= |script|
    ensures |fs| == |cs|
    ensures forall i | 0 <= i < |cs| :: fs[i] == Frame(cs[i].kind, cs[i].state, Parsed(script[cs[i].offset..]))
  {
    seq(|cs|, i requires 0 <= i < |cs| => Frame(cs[i].kind, cs[i].state, Parsed(script[cs[i].offset..])))
  }

  /** Changing or dropping the innermost frame leaves the others as they are. */
  lemma FramesLast(script: seq<char>, cs: seq<Ctl>, c: Ctl)
    requires cs != [] && c.offset <= |script| && forall i | 0 <= i < |cs| :: cs[i].offset <= |script|
    ensures Frames(script, cs[..|cs| - 1]) == Pop(Frames(script, cs))
    ensures Frames(script, cs[..|cs| - 1] + [c])
         == Pop(Frames(script, cs)) + [Frame(c.kind, c.state, Parsed(script[c.offset..]))]
  {
  }

  lemma FramesMore(script: seq<char>, cs: seq<Ctl>, c: Ctl)
    requires c.offset <= |script| && forall i | 0 <= i < |cs| :: cs[i].offset <= |script|
    ensures Frames(script, cs + [c]) == Frames(script, cs) + [Frame(c.kind, c.state, Parsed(script[c.offset..]))]
  {
    hide Parsed;
  }

  class Session {
    const script: seq<char>    // the file being run
    var fileAt: nat            // where the file itself is
    const buf: array<char>     // what has arrived and not been used
    var inLen: nat
    var srcPos: nat            // how much has been taken from the file, counted
    const ctl: array<Ctl>
    var depth: nat
    var leaving: int
    var past: History          // what has been issued so far

    constructor (script: seq<char>)
      ensures Valid() && this.script == script && Pos() == 0 && leaving < 0
      ensures Abstract() == At(Parsed(script), [], [])
      ensures fresh(buf) && fresh(ctl)
    {
      this.script := script;
      fileAt, inLen, srcPos, depth, leaving, past := 0, 0, 0, 0, -1, [];
      buf := new char[LINE_MAX](_ => '\0');
      ctl := new Ctl[CTL_MAX](_ => Ctl(IfFrame, Run, 0));
      new;
      assert script[0..] == script;
    }

    /** The buffer is the text just before `srcPos`, which is where the file is. */
    ghost predicate Buffered()
      reads this, buf
    {
      && buf.Length == LINE_MAX && inLen <= LINE_MAX - 1
      && inLen <= srcPos == fileAt <= |script|
      && buf[..inLen] == script[srcPos - inLen..srcPos]
    }

    /** Where the next line starts. */
    ghost function Pos(): (p: nat)
      requires Buffered()
      reads this, buf
      ensures p <= |script|
    {
      srcPos - inLen
    }

    ghost predicate Valid()
      reads this, buf, ctl
    {
      && Buffered()
      && ctl.Length == CTL_MAX && depth <= CTL_MAX
      && forall i | 0 <= i < depth :: ctl[i].offset <= |script|
    }

    /** The control machine this session is running. */
    ghost function Abstract(): Machine
      requires Valid()
      reads this, buf, ctl
    {
      Machine(Parsed(script[Pos()..]), Frames(script, ctl[..depth]), past, if leaving >= 0 then Some(leaving) else None)
    }

    /** A file hands back as much as it likes, up to what was asked for, and nothing at its end. */
    method ReadFile() returns (k: nat)
      requires Buffered() && inLen < LINE_MAX - 1
      modifies buf, this`fileAt
      ensures k <= LINE_MAX - 1 - inLen && fileAt == old(fileAt) + k <= |script|
      ensures k == 0 <==> srcPos == |script|
      ensures buf[..inLen + k] == script[srcPos - inLen..srcPos + k]
    {
      var most := if |script| - fileAt < LINE_MAX - 1 - inLen then |script| - fileAt else LINE_MAX - 1 - inLen;
      var some: int := *;
      k := if 0 < some <= most then some else most;
      ghost var had := buf[..inLen];
      forall j | inLen <= j < inLen + k { buf[j] := script[fileAt + (j - inLen)]; }
      fileAt := fileAt + k;
      Longer(script, srcPos - inLen, srcPos, k, had, buf[..inLen + k]);
    }

    /** Drop what has been used from the front of the buffer. */
    method Consume(drop: nat)
      requires Buffered() && drop <= inLen
      modifies buf, this`inLen
      ensures Buffered() && Pos() == old(Pos()) + drop
    {
      ghost var was, n := buf[..inLen], inLen;
      inLen := inLen - drop;
      for k := 0 to inLen
        invariant inLen == n - drop
        invariant forall j | 0 <= j < k :: buf[j] == was[drop + j]
        invariant forall j | k <= j < n :: buf[j] == was[j]
      {
        buf[k] := buf[drop + k];
      }
      assert buf[..inLen] == was[drop..];
    }

    /** The first ending in the buffer, or its length. */
    method FindEnding() returns (i: nat)
      requires Buffered()
      ensures i <= inLen && Unended(script[Pos()..], i)
      ensures i < inLen ==> buf[i] == script[Pos()..][i] && IsEnding(buf[i])
    {
      ghost var s := script[Pos()..];
      assert forall j | 0 <= j < inLen :: buf[j] == s[j] by {
        assert forall j | 0 <= j < inLen :: buf[..inLen][j] == script[Pos()..srcPos][j];
      }
      for j := 0 to inLen
        invariant Unended(s, j)
      {
        if IsEnding(buf[j]) { return j; }
      }
      return inLen;
    }

    /** The line ending at `i`, and past its ending. */
    method TakeLine(i: nat) returns (n: int, line: seq<char>)
      requires Buffered() && i < inLen && Unended(script[Pos()..], i) && IsEnding(script[Pos()..][i])
      modifies buf, this`inLen
      ensures Buffered() && Pos() > old(Pos())
      ensures var s := script[old(Pos())..];
        && n == |line| && line == s[..LineEnd(s)]
        && Parsed(script[Pos()..]) == Parsed(s[NextLine(s)..])
    {
      hide Parsed, LineEnd, NextLine, IsEnding;
      line := buf[..i];
      n := i;
      BufferIs(i);
      var drop := i + 1;
      if drop < inLen && buf[i] == '\r' && buf[drop] == '\n' {
        BufferIs(drop);
        drop := drop + 1;
      }
      ghost var p, s := Pos(), script[Pos()..];
      LineTaken(s, i, drop);
      Shift(script, p, drop);
      Consume(drop);
      assert Pos() == p + drop && script[Pos()..] == s[drop..];
    }

    /** What the buffer holds, seen from the script. */
    lemma BufferIs(i: nat)
      requires Buffered() && i < inLen
      ensures Pos() + i < |script| && buf[i] == script[Pos()..][i] && buf[..i] == script[Pos()..][..i]
    {
      assert buf[..inLen][i] == script[Pos()..srcPos][i];
      assert buf[..inLen][..i] == script[Pos()..srcPos][..i];
    }

    /**
     One line, however its bytes arrive; -1 at the end of the file. A CRLF may
     be taken whole or its newline may be left to be an empty line.
     */
    method ReadLine() returns (n: int, line: seq<char>)
      requires Buffered()
      modifies buf, this`inLen, this`srcPos, this`fileAt
      ensures Buffered()
      ensures script[old(Pos())..] == [] ==> n == -1 && Pos() == old(Pos())
      ensures var s := script[old(Pos())..];
        s != [] ==>
          && n == |line| && line == s[..LineEnd(s)]
          && Pos() > old(Pos())
          && Parsed(script[Pos()..]) == Parsed(s[NextLine(s)..])
    {
      ghost var p := Pos();
      ghost var s := script[p..];
      while true
        invariant Buffered() && Pos() == p
        decreases |script| - srcPos
      {
        var i := FindEnding();
        if i < inLen {
          n, line := TakeLine(i);
          return;
        }
        if inLen >= LINE_MAX - 1 {
          n, line := TakeAll();
          return;
        }
        var k := ReadFile();
        if k == 0 {
          if inLen == 0 { return -1, []; }
          n, line := TakeAll();
          return;
        }
        inLen := inLen + k;
        srcPos := srcPos + k;
      }
    }

    /** Every open frame is running. */
    method CtlRunning() returns (r: bool)
      requires Valid()
      ensures r == Running(Abstract().stack)
    {
      for i := 0 to depth
        invariant forall j | 0 <= j < i :: ctl[j].state == Run
      {
        if ctl[i].state != Run {
          assert Abstract().stack[i].state != Run;
          return false;
        }
      }
      return true;
    }

    /** `if` or `while`, on the line that started at `lineAt`. */
    method OpenFrame(b: Behaviour, kind: Kind, cond: string, lineAt: nat)
      requires Valid() && leaving < 0 && lineAt <= |script|
      requires Parsed(script[lineAt..]) != [] && Parsed(script[lineAt..])[1..] == Abstract().todo
      modifies ctl, this`depth, this`past
      ensures Valid() && leaving < 0
      ensures Abstract() == Opened(old(Abstract()).(todo := Parsed(script[lineAt..])), b, kind, cond)
    {
      hide Parsed;
      ghost var was := Abstract();
      ghost var cs := ctl[..depth];
      var wasRunning := CtlRunning();
      if depth >= CTL_MAX { return; }
      var state := Dead;
      if wasRunning {
        var a := b.ask(past, cond);
        state := if a == Yes then Run else Skip;
        if a != Refused { past := past + [Asked(cond)]; }
      }
      var c := Ctl(kind, state, lineAt);
      FramesMore(script, cs, c);
      ctl[depth] := c;
      depth := depth + 1;
      assert ctl[..depth] == cs + [c];
    }

    /** `else`, which only the innermost `if` listens to. */
    method Otherwise()
      requires Valid()
      modifies ctl
      ensures Valid()
      ensures Abstract() == old(Abstract()).(stack := Turned(old(Abstract()).stack))
    {
      hide Parsed;
      ghost var was := Abstract();
      ghost var cs := ctl[..depth];
      if depth == 0 || ctl[depth - 1].kind != IfFrame { return; }
      var c := ctl[depth - 1];
      var turned := c.(state := if c.state == Run then Done else if c.state == Skip then Run else c.state);
      ctl[depth - 1] := turned;
      assert ctl[..depth] == cs[..depth - 1] + [turned];
      FramesLast(script, cs, turned);
    }

    /** Go back: move the file, drop what was read ahead of it, and count from there. */
    method SeekTo(offset: nat)
      requires Buffered() && offset <= |script|
      modifies this`fileAt, this`srcPos, this`inLen
      ensures Buffered() && Pos() == offset
    {
      fileAt := offset;
      inLen := 0;
      srcPos := offset;
    }

    /** `end`: close the innermost frame, and go back to its line if it is a `while` that is running. */
    method CloseFrame()
      requires Valid()
      modifies this`depth, this`fileAt, this`srcPos, this`inLen
      ensures Valid()
      ensures var m := old(Abstract());
        Abstract() == if m.stack == [] then m
                      else if Top(m.stack).kind == WhileFrame && Top(m.stack).state == Run
                      then m.(todo := Top(m.stack).at, stack := Pop(m.stack))
                      else m.(stack := Pop(m.stack))
    {
      hide Parsed;
      ghost var was := Abstract();
      ghost var cs := ctl[..depth];
      if depth == 0 { return; }
      depth := depth - 1;
      var c := ctl[depth];
      if c.kind == WhileFrame && c.state == Run {
        SeekTo(c.offset);
      }
      assert ctl[..depth] == cs[..depth];
      FramesLast(script, cs, c);
    }

    /** A command line, if this branch is running. */
    method Obey(b: Behaviour, text: string)
      requires Valid() && leaving < 0
      modifies this`past, this`leaving
      ensures Valid()
      ensures var m := old(Abstract());
        Abstract() == if !Running(m.stack) then m
                      else match b.run(m.past, text)
                           case Carry => m.(past := m.past + [Ran(text)])
                           case Exit(code) => m.(past := m.past + [Ran(text)],
                                                 leaving := if code >= 0 then Some(code) else None)
    {
      var wasRunning := CtlRunning();
      if !wasRunning { return; }
      var o := b.run(past, text);
      past := past + [Ran(text)];
      if o.Exit? { leaving := o.code; }
    }

    /**
     One turn of the main loop. A line that means something is one step of the
     control machine; a line that does not is passed over.
     */
    method Turn(b: Behaviour) returns (more: bool, meant: bool)
      requires Valid() && leaving < 0
      modifies this, buf, ctl
      ensures Valid()
      ensures !more ==> old(Abstract()).todo == [] && Abstract() == old(Abstract()) && leaving < 0
      ensures more && meant ==> old(Abstract()).todo != [] && Abstract() == Step(old(Abstract()), b)
      ensures more && !meant ==> Abstract() == old(Abstract()) && leaving < 0 && Pos() > old(Pos())
    {
      var l, lineAt;
      more, l, lineAt := Fetch();
      if !more || l.None? { return more, false; }
      Dispatch(b, l.value, lineAt);
      return true, true;
    }

    /** The next line and what it means, with the offset it started at. */
    method Fetch() returns (more: bool, l: Option<Line>, lineAt: nat)
      requires Valid()
      modifies buf, this`inLen, this`srcPos, this`fileAt
      ensures Valid() && lineAt <= |script| && old(Abstract()).todo == Parsed(script[lineAt..])
      ensures Abstract() == old(Abstract()).(todo := Abstract().todo)
      ensures !more ==> Abstract().todo == old(Abstract()).todo == []
      ensures more ==> old(Abstract()).todo == if l.Some? then [l.value] + Abstract().todo else Abstract().todo
      ensures more ==> Pos() > old(Pos())
    {
      lineAt := srcPos - inLen;
      l := None;
      var n, line := ReadLine();
      if n < 0 { return false, l, lineAt; }
      ParsedFirst(script[lineAt..]);
      l := Meaning(line);
      more := true;
    }

    /** The line that started at `lineAt`, obeyed. */
    method Dispatch(b: Behaviour, l: Line, lineAt: nat)
      requires Valid() && leaving < 0 && lineAt <= |script|
      requires Parsed(script[lineAt..]) == [l] + Abstract().todo
      modifies this, ctl
      ensures Valid()
      ensures Abstract() == Step(old(Abstract()).(todo := Parsed(script[lineAt..])), b)
    {
      ghost var m := Abstract();
      StepOf(m.(todo := Parsed(script[lineAt..])), b, l, m.todo);
      match l
      case If(cond) => OpenFrame(b, IfFrame, cond, lineAt);
      case While(cond) => OpenFrame(b, WhileFrame, cond, lineAt);
      case Else => Otherwise();
      case End => CloseFrame();
      case Command(text) => Obey(b, text);
    }

    /** The shell has left, or has no line to obey any more. */
    ghost predicate Over()
      requires Valid()
      reads this, buf, ctl
    {
      Abstract().leaving.Some? || Abstract().todo == []
    }

    /**
     The main loop, for at most so many turns: the control machine run for some
     number of steps. Lines that mean nothing cannot hold it up: unless it is
     over, there is a step for every so many turns.
     */
    method RunTurns(b: Behaviour, turns: nat) returns (ghost steps: nat)
      requires Valid() && leaving < 0
      modifies this, buf, ctl
      ensures Valid() && steps <= turns
      ensures Abstract() == Steps(old(Abstract()), b, steps)
      ensures Over() || turns < (steps + 1) * (|script| + 1)
    {
      hide Steps, Most, Parsed, Frames;
      ghost var start := Abstract();
      var i := 0;
      var more := true;
      steps := 0;
      NoSteps(start, b);
      while i < turns && more && leaving < 0
        invariant Valid() && steps <= i <= turns
        invariant Abstract() == Steps(start, b, steps)
        invariant more ==> i <= Most(steps, |script|, Pos())
        invariant !more ==> Over()
      {
        var meant;
        more, meant, steps := CountedTurn(b, start, steps, i);
        i := i + 1;
      }
      MostIsLess(steps, |script|, Pos());
    }

    /** A turn, counted as a step when its line meant something. */
    method CountedTurn(b: Behaviour, ghost start: Machine, ghost steps: nat, ghost turns: nat)
        returns (more: bool, meant: bool, ghost after: nat)
      requires Valid() && leaving < 0 && Abstract() == Steps(start, b, steps)
      requires turns <= Most(steps, |script|, Pos())
      modifies this, buf, ctl
      ensures Valid() && Abstract() == Steps(start, b, after)
      ensures after == if more && meant then steps + 1 else steps
      ensures if more then turns + 1 <= Most(after, |script|, Pos()) else Over()
      ensures more && !meant ==> Pos() > old(Pos())
    {
      more, meant := Turn(b);
      OneMore(start, b, steps);
      after := if more && meant then steps + 1 else steps;
      MostGrows(steps, |script|, old(Pos()), Pos());
    }

    /** The main loop, stopped once `n` of its lines have meant something, however many turns that takes. */
    method RunSteps(b: Behaviour, n: nat) returns (turns: nat)
      requires Valid() && leaving < 0
      modifies this, buf, ctl
      ensures Valid() && Abstract() == Steps(old(Abstract()), b, n)
      ensures turns <= (n + 1) * (|script| + 1)
      ensures forall p: Block, fuel: nat | old(Abstract()) == Start(p) && Reaches(p, b, fuel, n) ::
                Matches(Abstract(), b, Exec(p, b, [], fuel))
    {
      hide Steps, Most, Parsed, Frames, Exec, Matches;
      ghost var start := Abstract();
      var more, steps := true, 0;
      turns := 0;
      NoSteps(start, b);
      while steps < n && more && leaving < 0
        invariant Valid() && steps <= n
        invariant Abstract() == Steps(start, b, steps)
        invariant if more then turns <= Most(steps, |script|, Pos()) else turns <= (steps + 1) * (|script| + 1)
        invariant !more ==> Over()
        decreases more, n - steps, |script| - Pos()
      {
        MostIsLess(steps, |script|, Pos());
        ghost var after;
        var meant;
        more, meant, after := CountedTurn(b, start, steps, turns);
        if more && meant { steps := steps + 1; }
        turns := turns + 1;
      }
      if steps < n {
        StepsAdd(start, b, steps, n - steps);
        Stopped(Abstract(), b, n - steps);
      }
      MostIsLess(steps, |script|, Pos());
      Grows(steps + 1, n + 1, |script| + 1);
    }

    /**
     On a script written from a structured one, what the shell has issued is
     what that script means, and with turns enough it gets as far as that
     meaning goes.
     */
    method RunScript(b: Behaviour, turns: nat)
      requires Valid() && leaving < 0
      modifies this, buf, ctl
      ensures Valid()
      ensures forall p: Block | old(Abstract()) == Start(p) && Depth(p) <= 4 ::
                past == Exec(p, b, [], |past|).past
      ensures forall p: Block, fuel: nat, n: nat |
                old(Abstract()) == Start(p) && Reaches(p, b, fuel, n) && turns >= (n + 1) * (|script| + 1) ::
                GotTo(Abstract(), b, Exec(p, b, [], fuel))
    {
      ghost var start := Abstract();
      ghost var steps := RunTurns(b, turns);
      ScriptsMeanWhatTheySay(start, b, steps);
      assert Abstract().past == past;
      ghost var e := Abstract();
      forall p: Block, fuel: nat, n: nat |
        start == Start(p) && Reaches(p, b, fuel, n) && turns >= (n + 1) * (|script| + 1)
        ensures GotTo(e, b, Exec(p, b, [], fuel))
      {
        if !Over() { Fewer(n, steps, |script| + 1); }
        GetsThere(p, b, fuel, n, steps);
      }
    }

    /** What there is, whole: it has no ending, and either nothing more fits or nothing more will come. */
    method TakeAll() returns (n: int, line: seq<char>)
      requires Buffered() && inLen > 0
      requires inLen == LINE_MAX - 1 || srcPos == |script|
      requires Unended(script[Pos()..], inLen)
      modifies this`inLen
      ensures Buffered() && Pos() == srcPos
      ensures var s := script[old(Pos())..];
        && n == |line| && line == s[..LineEnd(s)]
        && Pos() == old(Pos()) + NextLine(s) && script[Pos()..] == s[NextLine(s)..]
    {
      ghost var p := Pos();
      ghost var s := script[p..];
      line := buf[..inLen];
      n := inLen;
      EndsAt(s, inLen);
      assert line == s[..inLen];
      inLen := 0;
      assert script[srcPos..] == s[n..];
    }
  }

  /** More of the script, put after what was there. */
  lemma Longer(script: seq<char>, lo: nat, mid: nat, k: nat, had: seq<char>, now: seq<char>)
    requires lo <= mid && mid + k <= |script| && had == script[lo..mid] && |now| == |had| + k
    requires forall j | 0 <= j < |had| :: now[j] == had[j]
    requires forall j | |had| <= j < |now| :: now[j] == script[mid + (j - |had|)]
    ensures now == script[lo..mid + k]
  {
    var want := script[lo..mid + k];
    forall j | 0 <= j < |now| ensures now[j] == want[j] {
      if j < |had| {
        assert had[j] == script[lo + j];
      } else {
        assert mid + (j - |had|) == lo + j;
      }
    }
  }

  ghost predicate Unended(s: seq<char>, n: nat) {
    n <= |s| && forall j | 0 <= j < n :: !IsEnding(s[j])
  }

  /** Past an ending, or past both halves of a CRLF, the same lines are left. */
  lemma LineTaken(s: seq<char>, i: nat, drop: nat)
    requires Unended(s, i) && i < |s| && i < LINE_MAX - 1 && IsEnding(s[i])
    requires drop == i + 1 || (drop == i + 2 && i + 1 < |s| && s[i + 1] == '\n')
    ensures LineEnd(s) == i && NextLine(s) == i + 1
    ensures Parsed(s[drop..]) == Parsed(s[i + 1..])
  {
    EndsAt(s, i);
    if drop == i + 2 {
      var t := s[i + 1..];
      NewlineAloneMeansNothing(t);
      assert t[1..] == s[drop..];
    }
  }

  lemma Shift(script: seq<char>, p: nat, d: nat)
    requires p + d <= |script|
    ensures script[p..][d..] == script[p + d..]
  {
  }

  lemma OneMore(m: Machine, b: Behaviour, n: nat)
    ensures Steps(m, b, n + 1) == Step(Steps(m, b, n), b)
  {
    var e := Steps(m, b, n);
    assert Steps(e, b, 1) == Step(e, b);
    Chain(m, b, n, e, 1);
  }

  /** The most turns `steps` steps can have taken when the next line starts at `pos`. */
  ghost function Most(steps: nat, size: nat, pos: nat): nat {
    steps * (size + 1) + pos
  }

  lemma MostGrows(steps: nat, size: nat, was: nat, pos: nat)
    requires was <= size
    ensures Most(steps, size, was) + 1 <= Most(steps + 1, size, pos)
  {
    assert (steps + 1) * (size + 1) == steps * (size + 1) + (size + 1);
  }

  lemma MostIsLess(steps: nat, size: nat, pos: nat)
    requires pos <= size
    ensures Most(steps, size, pos) < (steps + 1) * (size + 1)
  {
    assert (steps + 1) * (size + 1) == steps * (size + 1) + (size + 1);
  }

  lemma NoSteps(m: Machine, b: Behaviour)
    ensures Steps(m, b, 0) == m
  {
  }

  lemma Grows(a: nat, n: nat, k: nat)
    requires a <= n
    ensures a * k <= n * k
  {
    assert n * k == a * k + (n - a) * k;
  }

  lemma Fewer(n: nat, steps: nat, k: nat)
    requires (n + 1) * k < (steps + 1) * k
    ensures n < steps
  {
    var d := n - steps;
    assert (n + 1) * k == (steps + 1) * k + d * k;
    assert d >= 0 ==> d * k >= 0;
  }

  /** At least as far as `r`, and no further when that is the end. */
  ghost predicate GotTo(m: Machine, b: Behaviour, r: Result) {
    r.past <= m.past && (!r.Due? ==> Matches(m, b, r))
  }

  /** Past the step that reaches `fuel` events, or over before it, the meaning of that many events has been reached. */
  lemma GetsThere(p: Block, b: Behaviour, fuel: nat, n: nat, steps: nat)
    requires Reaches(p, b, fuel, n)
    requires var e := Steps(Start(p), b, steps); n <= steps || e.leaving.Some? || e.todo == []
    ensures GotTo(Steps(Start(p), b, steps), b, Exec(p, b, [], fuel))
  {
    var m, e := Steps(Start(p), b, n), Steps(Start(p), b, steps);
    if n <= steps {
      StepsGrow(Start(p), b, n, steps);
      StepsAdd(Start(p), b, n, steps - n);
      if m.leaving.Some? || m.todo == [] { Stopped(m, b, steps - n); }
    } else {
      StepsAdd(Start(p), b, steps, n - steps);
      Stopped(e, b, n - steps);
    }
  }

  lemma ScriptsMeanWhatTheySay(start: Machine, b: Behaviour, n: nat)
    ensures var past := Steps(start, b, n).past;
      forall p: Block | start == Start(p) && Depth(p) <= CTL_MAX :: past == Exec(p, b, [], |past|).past
  {
    var past := Steps(start, b, n).past;
    forall p: Block | start == Start(p) && Depth(p) <= CTL_MAX
      ensures past == Exec(p, b, [], |past|).past
    {
      LoopStaysWithinMeaning(p, b, n);
    }
  }

  /** One step, by the kind of line it is. */
  lemma StepOf(m: Machine, b: Behaviour, l: Line, rest: seq<Line>)
    requires m.leaving.None? && m.todo == [l] + rest
    ensures m.todo[1..] == rest
    ensures l.If? ==> Step(m, b) == Opened(m, b, IfFrame, l.cond)
    ensures l.While? ==> Step(m, b) == Opened(m, b, WhileFrame, l.cond)
    ensures l.Else? ==> Step(m, b) == m.(todo := rest, stack := Turned(m.stack))
    ensures l.End? ==>
              Step(m, b) == if m.stack == [] then m.(todo := rest)
                            else if Top(m.stack).kind == WhileFrame && Top(m.stack).state == Run
                            then m.(todo := Top(m.stack).at, stack := Pop(m.stack))
                            else m.(todo := rest, stack := Pop(m.stack))
    ensures l.Command? ==>
              Step(m, b) == if !Running(m.stack) then m.(todo := rest)
                            else match b.run(m.past, l.text)
                                 case Carry => m.(todo := rest, past := m.past + [Ran(l.text)])
                                 case Exit(code) => Machine(rest, m.stack, m.past + [Ran(l.text)],
                                                            if code >= 0 then Some(code) else None)
  {
  }

  lemma ParsedFirst(s: seq<char>)
    requires s != []
    ensures Parsed(s) == (match Meaning(s[..LineEnd(s)])
                          case None => Parsed(s[NextLine(s)..])
                          case Some(l) => [l] + Parsed(s[NextLine(s)..]))
  {
  }

  lemma EndsAt(s: seq<char>, i: nat)
    requires Unended(s, i) && i <= LINE_MAX - 1
    requires i == |s| || i == LINE_MAX - 1 || IsEnding(s[i])
    ensures LineEnd(s) == i
  {
  }
}
