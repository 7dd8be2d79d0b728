/**
 Control flow in shell scripts.

 A script is obeyed by a flat loop over its lines with a stack of four
 frames; `end` of a running `while` goes back by seeking. Here that loop is
 the machine `Step`, and what a script means is `Exec`, a structured
 semantics over the nested syntax the lines were written from. The theorem at
 the end says the two issue the same commands and conditions in the same order.

 A command is opaque: how it behaves may depend, in any way at all, on
 everything issued before it.
 */
module ShellControl {
  import opened Options

  /** The lines of a script that mean something; blank lines and comments are gone. */
  datatype Line = If(cond: string) | While(cond: string) | Else | End | Command(text: string)

  /** What the shell does that anybody can see: evaluate a condition, run a command line. */
  datatype Event = Asked(cond: string) | Ran(text: string)

  type History = seq<Event>

  /** A condition may not be evaluated at all: too long once expanded, or no command in it. */
  datatype Answer = Refused | Yes | No

  datatype Outcome = Carry | Exit(code: int)

  datatype Behaviour = Behaviour(ask: (History, string) -> Answer, run: (History, string) -> Outcome)

  /* ---- the flat loop ---- */

  const CTL_MAX := 4

  datatype Kind = IfFrame | WhileFrame

  /** Running; skipping but `else` would turn it on; a branch already ran; inside something not running. */
  datatype State = Run | Skip | Done | Dead

  /** `at` is the script from the frame's own line on: where `end` seeks back to. */
  datatype Frame = Frame(kind: Kind, state: State, at: seq<Line>)

  datatype Machine = Machine(todo: seq<Line>, stack: seq<Frame>, past: History, leaving: Option<int>)

  predicate Running(stack: seq<Frame>) {
    forall i | 0 <= i < |stack| :: stack[i].state == Run
  }

  function Pop(stack: seq<Frame>): seq<Frame>
    requires stack != []
  {
    stack[..|stack| - 1]
  }

  function Top(stack: seq<Frame>): Frame
    requires stack != []
  {
    stack[|stack| - 1]
  }

  function Opened(m: Machine, b: Behaviour, kind: Kind, cond: string): Machine
    requires m.todo != []
  {
    var rest := m.todo[1..];
    if |m.stack| >= CTL_MAX then m.(todo := rest)
    else if !Running(m.stack) then m.(todo := rest, stack := m.stack + [Frame(kind, Dead, m.todo)])
    else
      match b.ask(m.past, cond)
      case Refused => m.(todo := rest, stack := m.stack + [Frame(kind, Skip, m.todo)])
      case Yes => Machine(rest, m.stack + [Frame(kind, Run, m.todo)], m.past + [Asked(cond)], m.leaving)
      case No => Machine(rest, m.stack + [Frame(kind, Skip, m.todo)], m.past + [Asked(cond)], m.leaving)
  }

  /** What `else` does to the frames: only the innermost one listens, and only if it is an `if`. */
  function Turned(stack: seq<Frame>): seq<Frame> {
    if stack == [] || Top(stack).kind != IfFrame then stack
    else Pop(stack) + [Top(stack).(state := Flipped(Top(stack).state))]
  }

  function Flipped(s: State): State {
    if s == Run then Done else if s == Skip then Run else s
  }

  /** One turn of the loop. */
  function Step(m: Machine, b: Behaviour): Machine {
    if m.leaving.Some? || m.todo == [] then m
    else
      var rest := m.todo[1..];
      match m.todo[0]
      case If(cond) => Opened(m, b, IfFrame, cond)
      case While(cond) => Opened(m, b, WhileFrame, cond)
      case Else =>
        m.(todo := rest, stack := Turned(m.stack))
      case End =>
        if m.stack == [] then m.(todo := rest)
        else
          var t := Top(m.stack);
          if t.kind == WhileFrame && t.state == Run then m.(todo := t.at, stack := Pop(m.stack))
          else m.(todo := rest, stack := Pop(m.stack))
      case Command(text) =>
        if !Running(m.stack) then m.(todo := rest)
        else
          match b.run(m.past, text)
          case Carry => m.(todo := rest, past := m.past + [Ran(text)])
          // the loop goes on while the status asked for is negative
          case Exit(code) => Machine(rest, m.stack, m.past + [Ran(text)], if code >= 0 then Some(code) else None)
  }

  function Steps(m: Machine, b: Behaviour, n: nat): Machine
    decreases n
  {
    if n == 0 then m else Steps(Step(m, b), b, n - 1)
  }

  lemma {:induction false} StepsAdd(m: Machine, b: Behaviour, j: nat, k: nat)
    ensures Steps(Steps(m, b, j), b, k) == Steps(m, b, j + k)
    decreases j
  {
    if j > 0 { StepsAdd(Step(m, b), b, j - 1, k); }
  }

  lemma Assoc(a: seq<Line>, c: seq<Line>, t: seq<Line>)
    ensures a + c + t == a + (c + t)
  {
  }

  lemma Uncons(x: Line, a: seq<Line>, c: seq<Line>, t: seq<Line>)
    ensures var s := [x] + a + c + t; s[0] == x && s[1..] == a + (c + t)
  {
    var s := [x] + a + c + t;
    assert s == [x] + (a + (c + t));
  }

  lemma UnconsLonger(x: Line, a: seq<Line>, c: seq<Line>, d: seq<Line>, t: seq<Line>)
    ensures var s := [x] + a + c + d + t; s[0] == x && s[1..] == a + (c + (d + t))
  {
    var s := [x] + a + c + d + t;
    assert s == [x] + (a + (c + (d + t)));
  }

  lemma Chain(m: Machine, b: Behaviour, j: nat, via: Machine, k: nat)
    requires Steps(m, b, j) == via
    ensures Steps(m, b, j + k) == Steps(via, b, k)
  {
    StepsAdd(m, b, j, k);
  }

  lemma First(m: Machine, b: Behaviour, via: Machine, k: nat)
    requires Step(m, b) == via
    ensures Steps(m, b, 1 + k) == Steps(via, b, k)
  {
  }

  /* ---- what the loop keeps, for any script, however badly nested ---- */

  /** Everything above a frame that is not running is dead. */
  predicate Shaped(stack: seq<Frame>) {
    && |stack| <= CTL_MAX
    && forall i, j | 0 <= i < j < |stack| && stack[i].state != Run :: stack[j].state == Dead
  }

  lemma {:induction false} StepsKeepShape(m: Machine, b: Behaviour, n: nat)
    requires Shaped(m.stack)
    ensures Shaped(Steps(m, b, n).stack)
    decreases n
  {
    if n > 0 { StepsKeepShape(Step(m, b), b, n - 1); }
  }

  /** Inside a branch that was not taken nothing is evaluated and nothing is run. */
  lemma UntakenIsSilent(m: Machine, b: Behaviour)
    requires !Running(m.stack)
    ensures Step(m, b).past == m.past && Step(m, b).leaving == m.leaving
  {
  }

  /** History only grows, by at most one event a turn. */
  lemma StepGrows(m: Machine, b: Behaviour)
    ensures m.past <= Step(m, b).past && |Step(m, b).past| <= |m.past| + 1
  {
  }

  lemma {:induction false} StepsGrow(m: Machine, b: Behaviour, j: nat, k: nat)
    requires j <= k
    ensures Steps(m, b, j).past <= Steps(m, b, k).past
    ensures |Steps(m, b, k).past| <= |Steps(m, b, j).past| + k - j
    decreases k
  {
    if j > 0 {
      StepsGrow(Step(m, b), b, j - 1, k - 1);
    } else if k > 0 {
      StepGrows(m, b);
      StepsGrow(Step(m, b), b, 0, k - 1);
    }
  }

  /** The event at `i` is a command that asked to leave with a status that is not negative. */
  predicate Leaves(b: Behaviour, past: History, i: nat)
    requires i < |past|
  {
    past[i].Ran? && var o := b.run(past[..i], past[i].text); o.Exit? && o.code >= 0
  }

  /** Nothing issued from `from` on has left. */
  predicate Stays(b: Behaviour, past: History, from: nat) {
    forall i | from <= i < |past| :: !Leaves(b, past, i)
  }

  /**
   After any number of turns the shell has left exactly when something it
   issued was an `exit` with a status that is not negative; then that was the
   last thing issued, and its status is the shell's. `exit -1` goes on.
   */
  lemma {:induction false} ExitLeaves(m: Machine, b: Behaviour, n: nat)
    requires m.leaving.None?
    ensures var e := Steps(m, b, n);
      && |m.past| <= |e.past|
      && (e.leaving.Some? <==> !Stays(b, e.past, |m.past|))
      && (e.leaving.Some? ==>
            var last := |e.past| - 1;
            |m.past| <= last && Leaves(b, e.past, last) && Stays(b, e.past[..last], |m.past|)
            && e.leaving == Some(b.run(e.past[..last], e.past[last].text).code))
    decreases n
  {
    if n > 0 {
      ExitLeaves(m, b, n - 1);
      var e := Steps(m, b, n - 1);
      Chain(m, b, n - 1, e, 1);
      assert Steps(e, b, 1) == Step(e, b);
      OneTurnStays(e, b, |m.past|);
    }
  }

  lemma OneTurnStays(m: Machine, b: Behaviour, from: nat)
    requires from <= |m.past| && (m.leaving.Some? <==> !Stays(b, m.past, from))
    ensures var e := Step(m, b);
      && |m.past| <= |e.past| && (e.leaving.Some? <==> !Stays(b, e.past, from))
      && (m.leaving.None? && e.leaving.Some? ==>
            var last := |e.past| - 1;
            from <= last && e.past[..last] == m.past && Leaves(b, e.past, last)
            && e.leaving == Some(b.run(m.past, e.past[last].text).code))
      && (m.leaving.Some? ==> e == m)
  {
    var e := Step(m, b);
    if e.past != m.past {
      var n := |m.past|;
      assert |e.past| == n + 1 && e.past[..n] == m.past;
      forall i | from <= i < n ensures Leaves(b, e.past, i) <==> Leaves(b, m.past, i) {
        assert e.past[..i] == m.past[..i];
      }
      assert e.leaving.Some? <==> Leaves(b, e.past, n);
      if e.leaving.None? {
        forall i | from <= i < |e.past| ensures !Leaves(b, e.past, i) {
          assert i == n || (i < n && !Leaves(b, m.past, i));
        }
      }
    }
  }

  /* ---- what a script means ---- */

  datatype Block = Nil | Then(first: Stmt, rest: Block)

  /** An `if` may carry any number of `else` branches; only the first can ever run. */
  datatype Stmt = Cmd(text: string) | Cond(cond: string, thn: Block, els: Branches) | Loop(cond: string, body: Block)

  datatype Branches = NoElse | Branch(b: Block, more: Branches)

  function Flat(p: Block): seq<Line> {
    match p
    case Nil => []
    case Then(s, rest) => FlatStmt(s) + Flat(rest)
  }

  function FlatStmt(s: Stmt): (r: seq<Line>)
    ensures r != []
  {
    match s
    case Cmd(text) => [Command(text)]
    case Cond(c, thn, els) => [If(c)] + Flat(thn) + FlatElse(els) + [End]
    case Loop(c, body) => [While(c)] + Flat(body) + [End]
  }

  function FlatElse(e: Branches): seq<Line> {
    match e
    case NoElse => []
    case Branch(b, more) => [Else] + Flat(b) + FlatElse(more)
  }

  function Max(a: nat, b: nat): nat { if a < b then b else a }

  function Depth(p: Block): nat {
    match p
    case Nil => 0
    case Then(s, rest) => Max(DepthStmt(s), Depth(rest))
  }

  function DepthStmt(s: Stmt): nat {
    match s
    case Cmd(_) => 0
    case Cond(_, thn, els) => 1 + Max(Depth(thn), DepthElse(els))
    case Loop(_, body) => 1 + Depth(body)
  }

  function DepthElse(e: Branches): nat {
    match e
    case NoElse => 0
    case Branch(b, more) => Max(Depth(b), DepthElse(more))
  }

  /** Finished with `fuel` events to spare; left by `exit`; or out of fuel with another event due. */
  datatype Result = Finished(past: History, fuel: nat) | Left(past: History, code: int) | Due(past: History)

  /** Every event costs one unit of fuel, and history only grows. */
  predicate Spent(past: History, fuel: nat, r: Result) {
    && past <= r.past
    && match r
       case Finished(h, left) => left <= fuel && |h| - |past| == fuel - left
       case Left(h, _) => |h| - |past| <= fuel
       case Due(h) => |h| - |past| == fuel
  }

  /** The script obeyed for at most `fuel` events. */
  function Exec(p: Block, b: Behaviour, past: History, fuel: nat): (r: Result)
    ensures Spent(past, fuel, r)
    decreases fuel, p
  {
    match p
    case Nil => Finished(past, fuel)
    case Then(s, rest) =>
      var r := ExecStmt(s, b, past, fuel);
      if r.Finished? then Exec(rest, b, r.past, r.fuel) else r
  }

  function ExecStmt(s: Stmt, b: Behaviour, past: History, fuel: nat): (r: Result)
    ensures Spent(past, fuel, r)
    decreases fuel, s
  {
    match s
    case Cmd(text) =>
      if fuel == 0 then Due(past)
      else
        var o := b.run(past, text);
        if o.Exit? && o.code >= 0 then Left(past + [Ran(text)], o.code)
        else Finished(past + [Ran(text)], fuel - 1)
    case Cond(c, thn, els) =>
      var a := b.ask(past, c);
      if a == Refused then ExecElse(els, b, past, fuel)
      else if fuel == 0 then Due(past)
      else if a == Yes then Exec(thn, b, past + [Asked(c)], fuel - 1)
      else ExecElse(els, b, past + [Asked(c)], fuel - 1)
    case Loop(c, body) =>
      var a := b.ask(past, c);
      if a == Refused then Finished(past, fuel)
      else if fuel == 0 then Due(past)
      else if a == No then Finished(past + [Asked(c)], fuel - 1)
      else
        var r := Exec(body, b, past + [Asked(c)], fuel - 1);
        if r.Finished? then ExecStmt(s, b, r.past, r.fuel) else r
  }

  function ExecElse(e: Branches, b: Behaviour, past: History, fuel: nat): (r: Result)
    ensures Spent(past, fuel, r)
    decreases fuel, e
  {
    match e
    case NoElse => Finished(past, fuel)
    case Branch(first, _) => Exec(first, b, past, fuel)
  }

  /* ---- what that comes to, event by event ---- */

  /** `if c; t; else; u; end` asks once and runs one of the two. */
  lemma IfRunsOne(c: string, t: string, u: string, b: Behaviour, past: History)
    requires b.ask(past, c) != Refused
    requires forall h, x :: b.run(h, x) == Carry
    ensures var s := Cond(c, Then(Cmd(t), Nil), Branch(Then(Cmd(u), Nil), NoElse));
      ExecStmt(s, b, past, 2) == Finished(past + [Asked(c)] + [Ran(if b.ask(past, c) == Yes then t else u)], 0)
  {
    var now := past + [Asked(c)];
    assert Exec(Nil, b, now + [Ran(t)], 0) == Finished(now + [Ran(t)], 0);
    assert Exec(Nil, b, now + [Ran(u)], 0) == Finished(now + [Ran(u)], 0);
    assert Exec(Then(Cmd(t), Nil), b, now, 1) == Finished(now + [Ran(t)], 0);
    assert Exec(Then(Cmd(u), Nil), b, now, 1) == Finished(now + [Ran(u)], 0);
  }

  /** The condition asked and the command run, so many times. */
  function Rounds(c: string, t: string, k: nat): History {
    if k == 0 then [] else Rounds(c, t, k - 1) + [Asked(c), Ran(t)]
  }

  /** The condition holds the first `k` times it is asked and then no more. */
  function Holds(k: nat): Behaviour {
    Behaviour((h, c) => if |h| < 2 * k then Yes else No, (h, t) => Carry)
  }

  /** `while c; t; end` runs its command exactly as often as the condition holds, and asks once more. */
  lemma {:induction false} WhileRunsOften(c: string, t: string, k: nat, j: nat)
    requires j <= k
    ensures |Rounds(c, t, j)| == 2 * j
    ensures ExecStmt(Loop(c, Then(Cmd(t), Nil)), Holds(k), Rounds(c, t, j), 2 * (k - j) + 1)
         == Finished(Rounds(c, t, k) + [Asked(c)], 0)
    decreases k - j
  {
    RoundsSize(c, t, j);
    if j < k {
      var b, past, fuel := Holds(k), Rounds(c, t, j), 2 * (k - j) + 1;
      var now := past + [Asked(c)] + [Ran(t)];
      assert now == Rounds(c, t, j + 1);
      assert Exec(Nil, b, now, fuel - 2) == Finished(now, fuel - 2);
      assert Exec(Then(Cmd(t), Nil), b, past + [Asked(c)], fuel - 1) == Finished(now, fuel - 2);
      WhileRunsOften(c, t, k, j + 1);
    }
  }

  lemma {:induction false} RoundsSize(c: string, t: string, k: nat)
    ensures |Rounds(c, t, k)| == 2 * k
  {
    if k > 0 { RoundsSize(c, t, k - 1); }
  }

  /** An `exit` that is obeyed ends the script there. */
  lemma ExitEnds(t: string, rest: Block, b: Behaviour, past: History, code: nat)
    requires b.run(past, t) == Exit(code)
    ensures Exec(Then(Cmd(t), rest), b, past, 1) == Left(past + [Ran(t)], code)
  {
  }

  /* ---- the loop obeys the meaning ---- */

  function At(todo: seq<Line>, stack: seq<Frame>, past: History): Machine {
    Machine(todo, stack, past, None)
  }

  lemma {:induction false} SkipBlock(p: Block, b: Behaviour, rest: seq<Line>, stack: seq<Frame>, past: History)
    requires !Running(stack) && |stack| + Depth(p) <= CTL_MAX
    ensures Steps(At(Flat(p) + rest, stack, past), b, |Flat(p)|) == At(rest, stack, past)
    decreases p
  {
    match p
    case Nil =>
      assert Flat(p) + rest == rest;
    case Then(s, more) =>
      Assoc(FlatStmt(s), Flat(more), rest);
      SkipStmt(s, b, Flat(more) + rest, stack, past);
      SkipBlock(more, b, rest, stack, past);
      Chain(At(Flat(p) + rest, stack, past), b, |FlatStmt(s)|, At(Flat(more) + rest, stack, past), |Flat(more)|);
  }

  lemma {:induction false} SkipStmt(s: Stmt, b: Behaviour, rest: seq<Line>, stack: seq<Frame>, past: History)
    requires !Running(stack) && |stack| + DepthStmt(s) <= CTL_MAX
    ensures Steps(At(FlatStmt(s) + rest, stack, past), b, |FlatStmt(s)|) == At(rest, stack, past)
    decreases s, 1
  {
    var m := At(FlatStmt(s) + rest, stack, past);
    match s
    case Cmd(_) =>
      assert m.todo[1..] == rest;
      assert Steps(m, b, 1) == Step(m, b);
    case Cond(c, thn, els) => SkipCond(c, thn, els, b, rest, stack, past);
    case Loop(c, body) =>
      var f := Looping(stack, Dead, m.todo);
      var m1 := At(Flat(body) + ([End] + rest), f, past);
      Uncons(While(c), Flat(body), [End], rest);
      DeadStep(m, b, WhileFrame);
      SkipBlock(body, b, [End] + rest, f, past);
      EndCloses(b, rest, f, past);
      Chain(m1, b, |Flat(body)|, At([End] + rest, f, past), 1);
      First(m, b, m1, |Flat(body)| + 1);
  }

  lemma {:induction false} SkipCond(c: string, thn: Block, els: Branches, b: Behaviour, rest: seq<Line>,
                                    stack: seq<Frame>, past: History)
    requires !Running(stack) && |stack| + DepthStmt(Cond(c, thn, els)) <= CTL_MAX
    ensures var s := Cond(c, thn, els);
      Steps(At(FlatStmt(s) + rest, stack, past), b, |FlatStmt(s)|) == At(rest, stack, past)
    decreases Cond(c, thn, els), 0
  {
    hide Steps, Step;
    var m := At(FlatStmt(Cond(c, thn, els)) + rest, stack, past);
    var f := Inside(stack, Dead, m.todo);
    var tail := [End] + rest;
    var m1 := At(Flat(thn) + (FlatElse(els) + tail), f, past);
    var m2 := At(FlatElse(els) + tail, f, past);
    UnconsLonger(If(c), Flat(thn), FlatElse(els), [End], rest);
    DeadStep(m, b, IfFrame);
    SkipBlock(thn, b, m2.todo, f, past);
    SkipElse(els, b, tail, f, past);
    EndCloses(b, rest, f, past);
    Chain(m2, b, |FlatElse(els)|, At(tail, f, past), 1);
    Chain(m1, b, |Flat(thn)|, m2, |FlatElse(els)| + 1);
    First(m, b, m1, |Flat(thn)| + (|FlatElse(els)| + 1));
  }

  /** Inside something that is not running, `if` and `while` open dead frames and ask nothing. */
  lemma DeadStep(m: Machine, b: Behaviour, kind: Kind)
    requires m.leaving.None? && m.todo != [] && !Running(m.stack) && |m.stack| < CTL_MAX
    requires if kind == IfFrame then m.todo[0].If? else m.todo[0].While?
    ensures Step(m, b) == At(m.todo[1..], m.stack + [Frame(kind, Dead, m.todo)], m.past)
  {
  }

  /** Branches after one that ran, or inside something dead, are passed over. */
  lemma {:induction false} SkipElse(e: Branches, b: Behaviour, rest: seq<Line>, stack: seq<Frame>, past: History)
    requires stack != [] && Top(stack).kind == IfFrame && (Top(stack).state == Done || Top(stack).state == Dead)
    requires |stack| + DepthElse(e) <= CTL_MAX
    ensures Steps(At(FlatElse(e) + rest, stack, past), b, |FlatElse(e)|) == At(rest, stack, past)
    decreases e
  {
    var m := At(FlatElse(e) + rest, stack, past);
    match e
    case NoElse =>
      assert m.todo == rest;
    case Branch(p, more) =>
      var m1 := At(Flat(p) + (FlatElse(more) + rest), stack, past);
      Uncons(Else, Flat(p), FlatElse(more), rest);
      assert Pop(stack) + [Top(stack)] == stack;
      assert Step(m, b) == m1;
      SkipBlock(p, b, FlatElse(more) + rest, stack, past);
      SkipElse(more, b, rest, stack, past);
      Chain(m1, b, |Flat(p)|, At(FlatElse(more) + rest, stack, past), |FlatElse(more)|);
      First(m, b, m1, |Flat(p)| + |FlatElse(more)|);
  }

  /** Where the machine is when the structured script has come as far as `r`. */
  ghost predicate Agrees(e: Machine, b: Behaviour, r: Result, rest: seq<Line>, stack: seq<Frame>) {
    match r
    case Finished(past, _) => e == At(rest, stack, past)
    case Left(past, code) => e.past == past && e.leaving == Some(code)
    case Due(past) => e.past == past && e.leaving.None? && |Step(e, b).past| == |past| + 1
  }

  lemma {:induction false} RunBlock(p: Block, b: Behaviour, rest: seq<Line>, stack: seq<Frame>, past: History,
                                    fuel: nat)
      returns (n: nat)
    requires Running(stack) && |stack| + Depth(p) <= CTL_MAX
    ensures Agrees(Steps(At(Flat(p) + rest, stack, past), b, n), b, Exec(p, b, past, fuel), rest, stack)
    decreases fuel, p, 0
  {
    match p
    case Nil =>
      assert Flat(p) + rest == rest;
      n := 0;
    case Then(s, more) =>
      var m := At(Flat(p) + rest, stack, past);
      Assoc(FlatStmt(s), Flat(more), rest);
      n := RunStmt(s, b, Flat(more) + rest, stack, past, fuel);
      var r := ExecStmt(s, b, past, fuel);
      if r.Finished? {
        var k := RunBlock(more, b, rest, stack, r.past, r.fuel);
        Chain(m, b, n, At(Flat(more) + rest, stack, r.past), k);
        n := n + k;
      }
  }

  lemma {:induction false} RunStmt(s: Stmt, b: Behaviour, rest: seq<Line>, stack: seq<Frame>, past: History, fuel: nat)
      returns (n: nat)
    requires Running(stack) && |stack| + DepthStmt(s) <= CTL_MAX
    ensures Agrees(Steps(At(FlatStmt(s) + rest, stack, past), b, n), b, ExecStmt(s, b, past, fuel), rest, stack)
    decreases fuel, s, 1
  {
    var m := At(FlatStmt(s) + rest, stack, past);
    match s
    case Cmd(_) =>
      assert m.todo[1..] == rest;
      assert Steps(m, b, 1) == Step(m, b);
      n := if fuel == 0 then 0 else 1;
    case Cond(c, thn, els) =>
      n := RunCond(c, thn, els, b, rest, stack, past, fuel);
    case Loop(c, body) =>
      n := RunLoop(c, body, b, rest, stack, past, fuel);
  }

  /** The stack inside an `if` whose line is the first of `at`. */
  function Inside(stack: seq<Frame>, state: State, at: seq<Line>): (f: seq<Frame>)
    ensures f != [] && Pop(f) == stack && |f| == |stack| + 1 && Top(f) == Frame(IfFrame, state, at)
    ensures Running(f) <==> Running(stack) && state == Run
  {
    var f := stack + [Frame(IfFrame, state, at)];
    assert f[|stack|].state == state && forall i | 0 <= i < |stack| :: f[i] == stack[i];
    f
  }

  /** The same for a `while`. */
  function Looping(stack: seq<Frame>, state: State, at: seq<Line>): (f: seq<Frame>)
    ensures f != [] && Pop(f) == stack && |f| == |stack| + 1 && Top(f) == Frame(WhileFrame, state, at)
    ensures Running(f) <==> Running(stack) && state == Run
  {
    var f := stack + [Frame(WhileFrame, state, at)];
    assert f[|stack|].state == state && forall i | 0 <= i < |stack| :: f[i] == stack[i];
    f
  }

  /** `end` closes an `if`, and a `while` that is not running. */
  lemma EndCloses(b: Behaviour, rest: seq<Line>, f: seq<Frame>, past: History)
    requires f != [] && !(Top(f).kind == WhileFrame && Top(f).state == Run)
    ensures Steps(At([End] + rest, f, past), b, 1) == At(rest, Pop(f), past)
  {
    var m := At([End] + rest, f, past);
    assert m.todo[1..] == rest;
    assert Steps(m, b, 1) == Step(m, b);
  }

  /** `else` turns a skipped branch on and a finished one off. */
  lemma ElseStep(todo: seq<Line>, b: Behaviour, stack: seq<Frame>, state: State, at: seq<Line>, past: History)
    requires todo != [] && todo[0] == Else && (state == Run || state == Skip)
    ensures Step(At(todo, Inside(stack, state, at), past), b)
         == At(todo[1..], Inside(stack, if state == Run then Done else Run, at), past)
  {
  }

  lemma ElseTurns(p: Block, more: Branches, b: Behaviour, tail: seq<Line>, stack: seq<Frame>, state: State,
                  at: seq<Line>, past: History)
    requires state == Run || state == Skip
    ensures Step(At(FlatElse(Branch(p, more)) + tail, Inside(stack, state, at), past), b)
         == At(Flat(p) + (FlatElse(more) + tail), Inside(stack, if state == Run then Done else Run, at), past)
  {
    var todo := FlatElse(Branch(p, more)) + tail;
    Uncons(Else, Flat(p), FlatElse(more), tail);
    ElseStep(todo, b, stack, state, at, past);
  }

  /** The branch that ran is over: every `else` is passed and `end` closes the `if`. */
  lemma LeaveBranch(els: Branches, b: Behaviour, rest: seq<Line>, stack: seq<Frame>, at: seq<Line>, past: History)
      returns (n: nat)
    requires |stack| + 1 + DepthElse(els) <= CTL_MAX
    ensures Steps(At(FlatElse(els) + ([End] + rest), Inside(stack, Run, at), past), b, n) == At(rest, stack, past)
  {
    var m := At(FlatElse(els) + ([End] + rest), Inside(stack, Run, at), past);
    match els
    case NoElse =>
      assert m.todo == [End] + rest;
      EndCloses(b, rest, Inside(stack, Run, at), past);
      n := 1;
    case Branch(p, more) =>
      ElseTurns(p, more, b, [End] + rest, stack, Run, at, past);
      Close(p, more, b, rest, Inside(stack, Done, at), past);
      First(m, b, At(Flat(p) + (FlatElse(more) + ([End] + rest)), Inside(stack, Done, at), past),
            |Flat(p)| + (|FlatElse(more)| + 1));
      n := 1 + (|Flat(p)| + (|FlatElse(more)| + 1));
  }

  /** From inside a branch that is passed over to the `end` of its `if`. */
  lemma Close(p: Block, more: Branches, b: Behaviour, rest: seq<Line>, done: seq<Frame>, past: History)
    requires done != [] && Top(done).kind == IfFrame && Top(done).state == Done && !Running(done)
    requires |done| + Max(Depth(p), DepthElse(more)) <= CTL_MAX
    ensures Steps(At(Flat(p) + (FlatElse(more) + ([End] + rest)), done, past), b, |Flat(p)| + (|FlatElse(more)| + 1))
         == At(rest, Pop(done), past)
  {
    hide Steps;
    hide Flat;
    hide FlatElse;
    var m1 := At(Flat(p) + (FlatElse(more) + ([End] + rest)), done, past);
    var m2 := At(FlatElse(more) + ([End] + rest), done, past);
    assert Steps(m2, b, |FlatElse(more)| + 1) == At(rest, Pop(done), past) by {
      SkipElse(more, b, [End] + rest, done, past);
      EndCloses(b, rest, done, past);
      Chain(m2, b, |FlatElse(more)|, At([End] + rest, done, past), 1);
    }
    SkipBlock(p, b, m2.todo, done, past);
    Chain(m1, b, |Flat(p)|, m2, |FlatElse(more)| + 1);
  }

  /** A running branch of an `if`, up to the `end` that closes it. */
  lemma {:induction false} RunBranch(p: Block, more: Branches, b: Behaviour, rest: seq<Line>, stack: seq<Frame>,
                                     at: seq<Line>, past: History, fuel: nat)
      returns (n: nat)
    requires Running(stack) && |stack| + 1 + Max(Depth(p), DepthElse(more)) <= CTL_MAX
    ensures Agrees(Steps(At(Flat(p) + (FlatElse(more) + ([End] + rest)), Inside(stack, Run, at), past), b, n), b,
                   Exec(p, b, past, fuel), rest, stack)
    decreases fuel, p, 1
  {
    var m := At(Flat(p) + (FlatElse(more) + ([End] + rest)), Inside(stack, Run, at), past);
    n := RunBlock(p, b, FlatElse(more) + ([End] + rest), Inside(stack, Run, at), past, fuel);
    var r := Exec(p, b, past, fuel);
    if r.Finished? {
      var j := LeaveBranch(more, b, rest, stack, at, r.past);
      StepsAdd(m, b, n, j);
      n := n + j;
    }
  }

  /** The condition did not hold: the first `else` runs, the others are passed. */
  lemma {:induction false} RunElse(els: Branches, b: Behaviour, rest: seq<Line>, stack: seq<Frame>, at: seq<Line>,
                                   past: History, fuel: nat)
      returns (n: nat)
    requires Running(stack) && |stack| + 1 + DepthElse(els) <= CTL_MAX
    ensures Agrees(Steps(At(FlatElse(els) + ([End] + rest), Inside(stack, Skip, at), past), b, n), b,
                   ExecElse(els, b, past, fuel), rest, stack)
    decreases fuel, els, 0
  {
    match els
    case NoElse =>
      assert FlatElse(els) + ([End] + rest) == [End] + rest;
      EndCloses(b, rest, Inside(stack, Skip, at), past);
      n := 1;
    case Branch(p, more) =>
      ElseTurns(p, more, b, [End] + rest, stack, Skip, at, past);
      n := RunBranch(p, more, b, rest, stack, at, past, fuel);
      n := 1 + n;
  }

  /** `if` opens a frame and, when its condition is asked, asks it. */
  lemma IfStep(c: string, todo: seq<Line>, b: Behaviour, stack: seq<Frame>, past: History)
    requires todo != [] && todo[0] == If(c) && Running(stack) && |stack| < CTL_MAX
    ensures Step(At(todo, stack, past), b)
         == At(todo[1..], Inside(stack, if b.ask(past, c) == Yes then Run else Skip, todo),
               if b.ask(past, c) == Refused then past else past + [Asked(c)])
  {
  }

  lemma {:induction false} RunCond(c: string, thn: Block, els: Branches, b: Behaviour, rest: seq<Line>,
                                   stack: seq<Frame>, past: History, fuel: nat)
      returns (n: nat)
    requires Running(stack) && |stack| + DepthStmt(Cond(c, thn, els)) <= CTL_MAX
    ensures Agrees(Steps(At(FlatStmt(Cond(c, thn, els)) + rest, stack, past), b, n), b,
                   ExecStmt(Cond(c, thn, els), b, past, fuel), rest, stack)
    decreases fuel, Cond(c, thn, els), 0
  {
    var todo := FlatStmt(Cond(c, thn, els)) + rest;
    var tail := FlatElse(els) + ([End] + rest);
    var a := b.ask(past, c);
    var now := if a == Refused then past else past + [Asked(c)];
    UnconsLonger(If(c), Flat(thn), FlatElse(els), [End], rest);
    IfStep(c, todo, b, stack, past);
    if fuel == 0 && a != Refused {
      n := 0;
    } else if a == Yes {
      n := RunBranch(thn, els, b, rest, stack, todo, now, fuel - 1);
      n := AfterIf(At(todo, stack, past), b, Exec(thn, b, now, fuel - 1), n, rest, stack);
    } else {
      var left := if a == Refused then fuel else fuel - 1;
      SkipBlock(thn, b, tail, Inside(stack, Skip, todo), now);
      n := RunElse(els, b, rest, stack, todo, now, left);
      Chain(Step(At(todo, stack, past), b), b, |Flat(thn)|, At(tail, Inside(stack, Skip, todo), now), n);
      n := AfterIf(At(todo, stack, past), b, ExecElse(els, b, now, left), |Flat(thn)| + n, rest, stack);
    }
  }

  lemma AfterIf(m: Machine, b: Behaviour, r: Result, k: nat, rest: seq<Line>, stack: seq<Frame>) returns (n: nat)
    requires Agrees(Steps(Step(m, b), b, k), b, r, rest, stack)
    ensures Agrees(Steps(m, b, n), b, r, rest, stack)
  {
    n := 1 + k;
  }

  lemma WhileStep(c: string, todo: seq<Line>, b: Behaviour, stack: seq<Frame>, past: History)
    requires todo != [] && todo[0] == While(c) && Running(stack) && |stack| < CTL_MAX
    ensures Step(At(todo, stack, past), b)
         == At(todo[1..], Looping(stack, if b.ask(past, c) == Yes then Run else Skip, todo),
               if b.ask(past, c) == Refused then past else past + [Asked(c)])
  {
  }

  /** `end` of a running `while` goes back to the line it came from. */
  lemma EndLoops(b: Behaviour, rest: seq<Line>, stack: seq<Frame>, at: seq<Line>, past: History)
    ensures Steps(At([End] + rest, Looping(stack, Run, at), past), b, 1) == At(at, stack, past)
  {
    var m := At([End] + rest, Looping(stack, Run, at), past);
    assert Steps(m, b, 1) == Step(m, b);
  }

  /** A `while` that holds: its body, and back to its own line. */
  lemma {:induction false} LoopTurn(c: string, body: Block, b: Behaviour, rest: seq<Line>,
                                    stack: seq<Frame>, past: History, fuel: nat)
      returns (n: nat)
    requires Running(stack) && |stack| + 1 + Depth(body) <= CTL_MAX && fuel > 0 && b.ask(past, c) == Yes
    ensures var todo := FlatStmt(Loop(c, body)) + rest;
      Agrees(Steps(At(todo, stack, past), b, n), b, Exec(body, b, past + [Asked(c)], fuel - 1), todo, stack)
    decreases fuel, body, 2
  {
    var todo := FlatStmt(Loop(c, body)) + rest;
    var f := Looping(stack, Run, todo);
    var m1 := At(Flat(body) + ([End] + rest), f, past + [Asked(c)]);
    Uncons(While(c), Flat(body), [End], rest);
    WhileStep(c, todo, b, stack, past);
    n := RunBlock(body, b, [End] + rest, f, past + [Asked(c)], fuel - 1);
    var r := Exec(body, b, past + [Asked(c)], fuel - 1);
    if r.Finished? {
      EndLoops(b, rest, stack, todo, r.past);
      Chain(m1, b, n, At([End] + rest, f, r.past), 1);
      n := n + 1;
    }
    First(At(todo, stack, past), b, m1, n);
    n := 1 + n;
  }

  /** A `while` that does not hold: its body is passed and `end` closes it. */
  lemma LoopEnds(c: string, body: Block, b: Behaviour, rest: seq<Line>, stack: seq<Frame>, past: History)
      returns (n: nat)
    requires Running(stack) && |stack| + 1 + Depth(body) <= CTL_MAX && b.ask(past, c) != Yes
    ensures Steps(At(FlatStmt(Loop(c, body)) + rest, stack, past), b, n)
         == At(rest, stack, if b.ask(past, c) == Refused then past else past + [Asked(c)])
  {
    var todo := FlatStmt(Loop(c, body)) + rest;
    var now := if b.ask(past, c) == Refused then past else past + [Asked(c)];
    var f := Looping(stack, Skip, todo);
    var m1 := At(Flat(body) + ([End] + rest), f, now);
    Uncons(While(c), Flat(body), [End], rest);
    WhileStep(c, todo, b, stack, past);
    SkipBlock(body, b, [End] + rest, f, now);
    EndCloses(b, rest, f, now);
    Chain(m1, b, |Flat(body)|, At([End] + rest, f, now), 1);
    First(At(todo, stack, past), b, m1, |Flat(body)| + 1);
    n := 1 + (|Flat(body)| + 1);
  }

  lemma {:induction false} RunLoop(c: string, body: Block, b: Behaviour, rest: seq<Line>,
                                   stack: seq<Frame>, past: History, fuel: nat)
      returns (n: nat)
    requires Running(stack) && |stack| + DepthStmt(Loop(c, body)) <= CTL_MAX
    ensures Agrees(Steps(At(FlatStmt(Loop(c, body)) + rest, stack, past), b, n), b,
                   ExecStmt(Loop(c, body), b, past, fuel), rest, stack)
    decreases fuel, Loop(c, body), 0
  {
    var m := At(FlatStmt(Loop(c, body)) + rest, stack, past);
    var a := b.ask(past, c);
    if fuel == 0 && a != Refused {
      assert m.todo[0] == While(c);
      n := 0;
    } else if a == Yes {
      n := LoopTurn(c, body, b, rest, stack, past, fuel);
      var r := Exec(body, b, past + [Asked(c)], fuel - 1);
      if r.Finished? {
        var j := RunLoop(c, body, b, rest, stack, r.past, r.fuel);
        StepsAdd(m, b, n, j);
        n := n + j;
      }
    } else {
      n := LoopEnds(c, body, b, rest, stack, past);
    }
  }

  /* ---- the theorem ---- */

  function Start(p: Block): Machine {
    At(Flat(p), [], [])
  }

  ghost predicate Matches(m: Machine, b: Behaviour, r: Result) {
    && m.past == r.past
    && (r.Finished? ==> m.todo == [] && m.stack == [] && m.leaving.None?)
    && (r.Left? ==> m.leaving == Some(r.code))
    && (r.Due? ==> m.leaving.None? && |Step(m, b).past| == |m.past| + 1)
  }

  /** However many events the script's meaning goes on for, the loop gets there. */
  lemma LoopReachesMeaning(p: Block, b: Behaviour, fuel: nat) returns (n: nat)
    requires Depth(p) <= 4
    ensures Matches(Steps(Start(p), b, n), b, Exec(p, b, [], fuel))
  {
    assert Flat(p) + [] == Flat(p);
    n := RunBlock(p, b, [], [], [], fuel);
  }

  lemma {:induction false} Stopped(m: Machine, b: Behaviour, n: nat)
    requires m.leaving.Some? || m.todo == []
    ensures Steps(m, b, n) == m
    decreases n
  {
    if n > 0 { Stopped(m, b, n - 1); }
  }

  /** However many turns the loop has taken, what it has done is what the script means. */
  lemma LoopStaysWithinMeaning(p: Block, b: Behaviour, n: nat)
    requires Depth(p) <= 4
    ensures Steps(Start(p), b, n).past == Exec(p, b, [], |Steps(Start(p), b, n).past|).past
  {
    var k := LoopReachesMeaning(p, b, |Steps(Start(p), b, n).past|);
    StaysIfReaches(p, b, n, k);
  }

  /** A loop that gets as far as the meaning of so many events has, up to there, not strayed from it. */
  lemma StaysIfReaches(p: Block, b: Behaviour, n: nat, k: nat)
    requires var past := Steps(Start(p), b, n).past;
      Matches(Steps(Start(p), b, k), b, Exec(p, b, [], |past|))
    ensures Steps(Start(p), b, n).past == Exec(p, b, [], |Steps(Start(p), b, n).past|).past
  {
    var m := Steps(Start(p), b, n);
    var r := Exec(p, b, [], |m.past|);
    var e := Steps(Start(p), b, k);
    if n <= k {
      StepsGrow(Start(p), b, n, k);
    } else if r.Due? {
      StepsGrow(Start(p), b, k, n);
    } else {
      StepsAdd(Start(p), b, k, n - k);
      Stopped(e, b, n - k);
    }
  }

  /* ---- one level too deep ---- */

  /** What stands round a command in a nest: an `if` or a `while`, with its condition. */
  datatype Guard = Guard(loops: bool, cond: string)

  function Nest(guards: seq<Guard>, text: string): Block {
    if guards == [] then Then(Cmd(text), Nil) else Then(Guarded(guards[0], Nest(guards[1..], text)), Nil)
  }

  function Guarded(g: Guard, inner: Block): Stmt {
    if g.loops then Loop(g.cond, inner) else Cond(g.cond, inner, NoElse)
  }

  function LineOf(g: Guard): Line {
    if g.loops then While(g.cond) else If(g.cond)
  }

  /** The first four conditions asked hold, no other does. */
  function FourHold(): Behaviour {
    Behaviour((h, c) => if |h| < CTL_MAX then Yes else No, (h, t) => Carry)
  }

  /** What more than four guards stand round is not run when only four conditions hold. */
  lemma {:induction false} NestGuards(guards: seq<Guard>, text: string, past: History, fuel: nat)
    requires guards != [] && |past| + |guards| > CTL_MAX && Ran(text) !in past
    ensures Ran(text) !in Exec(Nest(guards, text), FourHold(), past, fuel).past
    decreases fuel, |guards|, 1
  {
    var s := Guarded(guards[0], Nest(guards[1..], text));
    StmtGuards(guards, text, past, fuel);
    var r := ExecStmt(s, FourHold(), past, fuel);
    assert r.Finished? ==> Exec(Nil, FourHold(), r.past, r.fuel).past == r.past;
  }

  lemma {:induction false} StmtGuards(guards: seq<Guard>, text: string, past: History, fuel: nat)
    requires guards != [] && |past| + |guards| > CTL_MAX && Ran(text) !in past
    ensures Ran(text) !in ExecStmt(Guarded(guards[0], Nest(guards[1..], text)), FourHold(), past, fuel).past
    decreases fuel, |guards|, 0
  {
    var b, g, inner := FourHold(), guards[0], Nest(guards[1..], text);
    if fuel > 0 {
      var now := past + [Asked(g.cond)];
      if |past| < CTL_MAX {
        NestGuards(guards[1..], text, now, fuel - 1);
        var r := Exec(inner, b, now, fuel - 1);
        if g.loops && r.Finished? { StmtGuards(guards, text, r.past, r.fuel); }
      } else {
        assert b.ask(past, g.cond) == No;
        assert ExecElse(NoElse, b, now, fuel - 1).past == now;
      }
    }
  }

  lemma NestFlat(guards: seq<Guard>, text: string)
    requires guards != []
    ensures Flat(Nest(guards, text)) == [LineOf(guards[0])] + Flat(Nest(guards[1..], text)) + [End]
  {
    var g, inner := guards[0], Nest(guards[1..], text);
    assert FlatElse(NoElse) == [] && Flat(Nil) == [];
    if g.loops {
      assert FlatStmt(Guarded(g, inner)) == [While(g.cond)] + Flat(inner) + [End];
    } else {
      assert FlatStmt(Guarded(g, inner)) == [If(g.cond)] + Flat(inner) + [] + [End];
    }
  }

  /** A guard whose condition holds: one frame more, and its condition asked. */
  lemma GuardStep(g: Guard, todo: seq<Line>, b: Behaviour, stack: seq<Frame>, past: History) returns (f: seq<Frame>)
    requires todo != [] && todo[0] == LineOf(g) && Running(stack) && |stack| < CTL_MAX && b.ask(past, g.cond) == Yes
    ensures Step(At(todo, stack, past), b) == At(todo[1..], f, past + [Asked(g.cond)])
    ensures Running(f) && |f| == |stack| + 1
  {
    if g.loops {
      WhileStep(g.cond, todo, b, stack, past);
      f := Looping(stack, Run, todo);
    } else {
      IfStep(g.cond, todo, b, stack, past);
      f := Inside(stack, Run, todo);
    }
  }

  /** The loop dives through any number of guards: it asks the first four and ignores the others. */
  lemma {:induction false} Dive(guards: seq<Guard>, text: string, rest: seq<Line>, stack: seq<Frame>, past: History)
      returns (n: nat)
    requires Running(stack) && |past| <= |stack| <= CTL_MAX
    ensures Ran(text) in Steps(At(Flat(Nest(guards, text)) + rest, stack, past), FourHold(), n).past
    decreases guards
  {
    var b := FourHold();
    var p := Nest(guards, text);
    var m := At(Flat(p) + rest, stack, past);
    if guards == [] {
      assert FlatStmt(p.first) == [Command(text)];
      assert Steps(m, b, 1) == Step(m, b);
      assert Step(m, b).past == past + [Ran(text)];
      n := 1;
    } else {
      var inner := Nest(guards[1..], text);
      Uncons(LineOf(guards[0]), Flat(inner), [End], rest);
      NestFlat(guards, text);
      if |stack| < CTL_MAX {
        var f := GuardStep(guards[0], m.todo, b, stack, past);
        n := Dive(guards[1..], text, [End] + rest, f, past + [Asked(guards[0].cond)]);
      } else {
        n := Dive(guards[1..], text, [End] + rest, stack, past);
      }
      First(m, b, Step(m, b), n);
      n := 1 + n;
    }
  }

  /** Whatever the commands do, the loop never strays from the meaning and gets as far as the meaning goes. */
  ghost predicate Faithful(p: Block) {
    && (forall b: Behaviour, n: nat :: Within(p, b, n))
    && (forall b: Behaviour, fuel: nat :: Reached(p, b, fuel))
  }

  ghost predicate Within(p: Block, b: Behaviour, n: nat) {
    var past := Steps(Start(p), b, n).past;
    past == Exec(p, b, [], |past|).past
  }

  ghost predicate Reached(p: Block, b: Behaviour, fuel: nat) {
    exists n: nat :: Reaches(p, b, fuel, n)
  }

  /** After `n` turns the loop is where the meaning is after `fuel` events. */
  ghost predicate Reaches(p: Block, b: Behaviour, fuel: nat, n: nat) {
    Matches(Steps(Start(p), b, n), b, Exec(p, b, [], fuel))
  }

  lemma FourLevelsAreFaithful(p: Block)
    requires Depth(p) <= CTL_MAX
    ensures Faithful(p)
  {
    forall b: Behaviour, n: nat ensures Within(p, b, n) {
      LoopStaysWithinMeaning(p, b, n);
    }
    forall b: Behaviour, fuel: nat ensures Reached(p, b, fuel) {
      var n := LoopReachesMeaning(p, b, fuel);
      assert Reaches(p, b, fuel, n);
    }
  }

  lemma {:induction false} NestDepth(guards: seq<Guard>, text: string)
    ensures Depth(Nest(guards, text)) == |guards|
    decreases guards
  {
    assert Depth(Nil) == 0 && DepthElse(NoElse) == 0;
    if guards != [] { NestDepth(guards[1..], text); }
  }

  /**
   The limit of four is exact, for nests of `if` and `while` in any mixture.
   Beyond it a guard opens no frame and asks nothing, so the loop can run a
   command whose guards do not all hold.
   */
  lemma NestingLimit(guards: seq<Guard>, text: string)
    ensures Faithful(Nest(guards, text)) <==> |guards| <= CTL_MAX
  {
    var p := Nest(guards, text);
    NestDepth(guards, text);
    if |guards| <= CTL_MAX {
      FourLevelsAreFaithful(p);
    } else {
      var n := Dive(guards, text, [], [], []);
      assert Flat(p) + [] == Flat(p);
      var past := Steps(Start(p), FourHold(), n).past;
      NestGuards(guards, text, [], |past|);
      assert !Within(p, FourHold(), n);
    }
  }
}
