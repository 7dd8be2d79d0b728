/**
 How deep a script may be. Beyond four levels a guard opens no frame and asks
 nothing; when no two guards of a script share a condition that always shows,
 and when they do it need not.
 */
module ShellDepth {
  import opened Options
  import opened ShellControl

  /* ---- scripts in which no condition is repeated ---- */

  function Conds(p: Block): set<string> {
    match p
    case Nil => {}
    case Then(s, rest) => CondsOf(s) + Conds(rest)
  }

  function CondsOf(s: Stmt): set<string> {
    match s
    case Cmd(_) => {}
    case Cond(c, thn, els) => {c} + Conds(thn) + CondsElse(els)
    case Loop(c, body) => {c} + Conds(body)
  }

  function CondsElse(e: Branches): set<string> {
    match e
    case NoElse => {}
    case Branch(b, more) => Conds(b) + CondsElse(more)
  }

  /** No two guards have the same condition, and no `if` has a second `else`. */
  predicate Plain(p: Block) {
    match p
    case Nil => true
    case Then(s, rest) => PlainStmt(s) && Plain(rest) && CondsOf(s) !! Conds(rest)
  }

  predicate PlainStmt(s: Stmt) {
    match s
    case Cmd(_) => true
    case Cond(c, thn, els) =>
      && c !in Conds(thn) && c !in CondsElse(els) && Conds(thn) !! CondsElse(els)
      && Plain(thn) && (els.Branch? ==> Plain(els.b) && els.more.NoElse?)
    case Loop(c, body) => c !in Conds(body) && Plain(body)
  }

  lemma ElseDepth(e: Branches)
    requires e.Branch? ==> e.more.NoElse?
    ensures DepthElse(e) == if e.Branch? then Depth(e.b) else 0
    ensures CondsElse(e) == if e.Branch? then Conds(e.b) else {}
    ensures SizeElse(e) == if e.Branch? then Size(e.b) else 0
    ensures e.Branch? ==> FlatElse(e) == [Else] + Flat(e.b)
  {
    if e.Branch? {
      assert DepthElse(e.more) == 0 && CondsElse(e.more) == {} && SizeElse(e.more) == 0 && FlatElse(e.more) == [];
    }
  }

  /** The condition of the first guard for which `room` frames are too few. */
  function TooDeep(p: Block, room: nat): (c: string)
    requires Plain(p) && Depth(p) > room
    ensures c in Conds(p)
  {
    if DepthStmt(p.first) > room then TooDeepIn(p.first, room) else TooDeep(p.rest, room)
  }

  function TooDeepIn(s: Stmt, room: nat): (c: string)
    requires PlainStmt(s) && DepthStmt(s) > room
    ensures c in CondsOf(s)
  {
    if room == 0 then s.cond
    else if s.Loop? then TooDeep(s.body, room - 1)
    else if Depth(s.thn) > room - 1 then TooDeep(s.thn, room - 1)
    else
      ElseDepth(s.els);
      TooDeep(s.els.b, room - 1)
  }

  /** The conditions that have to hold on the way there. */
  function Way(p: Block, room: nat): (w: set<string>)
    requires Plain(p) && Depth(p) > room
    ensures w <= Conds(p) && TooDeep(p, room) !in w
  {
    if DepthStmt(p.first) > room then WayIn(p.first, room) else Way(p.rest, room)
  }

  function WayIn(s: Stmt, room: nat): (w: set<string>)
    requires PlainStmt(s) && DepthStmt(s) > room
    ensures w <= CondsOf(s) && TooDeepIn(s, room) !in w
  {
    if room == 0 then {}
    else if s.Loop? then {s.cond} + Way(s.body, room - 1)
    else if Depth(s.thn) > room - 1 then {s.cond} + Way(s.thn, room - 1)
    else
      ElseDepth(s.els);
      Way(s.els.b, room - 1)
  }

  /** Those conditions hold, no other does, and no command leaves. */
  function Only(way: set<string>): Behaviour {
    Behaviour((h, c) => if c in way then Yes else No, (h, t) => Carry)
  }

  /* ---- the way there ---- */

  /** How many events a statement can come to when none of its conditions holds. */
  function Size(p: Block): nat {
    match p
    case Nil => 0
    case Then(s, rest) => SizeOf(s) + Size(rest)
  }

  function SizeOf(s: Stmt): nat {
    match s
    case Cmd(_) => 1
    case Cond(_, thn, els) => 1 + Size(thn) + SizeElse(els)
    case Loop(_, body) => 1 + Size(body)
  }

  function SizeElse(e: Branches): nat {
    match e
    case NoElse => 0
    case Branch(b, more) => Size(b) + SizeElse(more)
  }

  lemma {:induction false} Passes(p: Block, way: set<string>, past: History, fuel: nat)
    requires Conds(p) !! way && fuel >= Size(p)
    ensures var r := Exec(p, Only(way), past, fuel); r.Finished? && fuel - r.fuel <= Size(p)
    decreases p
  {
    if p.Then? {
      PassesOver(p.first, way, past, fuel);
      var r := ExecStmt(p.first, Only(way), past, fuel);
      Passes(p.rest, way, r.past, r.fuel);
    }
  }

  lemma {:induction false} PassesOver(s: Stmt, way: set<string>, past: History, fuel: nat)
    requires CondsOf(s) !! way && fuel >= SizeOf(s)
    ensures var r := ExecStmt(s, Only(way), past, fuel); r.Finished? && fuel - r.fuel <= SizeOf(s)
    decreases s
  {
    if s.Cond? {
      assert s.cond in CondsOf(s);
      assert Only(way).ask(past, s.cond) == No;
      if s.els.Branch? { Passes(s.els.b, way, past + [Asked(s.cond)], fuel - 1); }
    } else if s.Loop? {
      assert s.cond in CondsOf(s);
      assert Only(way).ask(past, s.cond) == No;
    }
  }

  /** No line asks this. */
  predicate Quiet(lines: seq<Line>, c: string) {
    forall l | l in lines :: l != If(c) && l != While(c)
  }

  lemma QuietBoth(a: seq<Line>, d: seq<Line>, c: string)
    requires Quiet(a, c) && Quiet(d, c)
    ensures Quiet(a + d, c)
  {
  }

  lemma {:induction false} QuietBlock(p: Block, c: string)
    requires c !in Conds(p)
    ensures Quiet(Flat(p), c)
  {
    if p.Then? {
      QuietStmt(p.first, c);
      QuietBlock(p.rest, c);
    }
  }

  lemma {:induction false} QuietStmt(s: Stmt, c: string)
    requires c !in CondsOf(s)
    ensures Quiet(FlatStmt(s), c)
  {
    match s
    case Cmd(_) =>
    case Cond(d, thn, els) =>
      QuietBlock(thn, c);
      QuietElse(els, c);
    case Loop(d, body) => QuietBlock(body, c);
  }

  lemma {:induction false} QuietElse(e: Branches, c: string)
    requires c !in CondsElse(e)
    ensures Quiet(FlatElse(e), c)
  {
    match e
    case NoElse =>
    case Branch(b, more) =>
      QuietBlock(b, c);
      QuietElse(more, c);
  }

  /** Every frame was opened by a guard with another condition. */
  predicate Others(stack: seq<Frame>, c: string) {
    forall i | 0 <= i < |stack| ::
      stack[i].at != [] && stack[i].at[0] != While(c) && (stack[i].kind == WhileFrame ==> stack[i].at[0].While?)
  }

  /** The machine is about to pass over the guard that asks `c`, and nothing else it has open or before it asks that. */
  ghost predicate AtTheGuard(m: Machine, c: string, h: History) {
    && m.past == h && m.leaving.None? && |m.stack| == CTL_MAX && Running(m.stack) && Others(m.stack, c)
    && m.todo != [] && (m.todo[0] == If(c) || m.todo[0] == While(c)) && Quiet(m.todo[1..], c)
  }

  /** Both get as far as the guard, and there the meaning asks its condition next. */
  ghost predicate Both(m: Machine, b: Behaviour, n: nat, c: string, h: History, r: Result) {
    AtTheGuard(Steps(m, b, n), c, h) && h + [Asked(c)] <= r.past
  }

  lemma FlatThen(p: Block)
    requires p.Then?
    ensures Flat(p) == FlatStmt(p.first) + Flat(p.rest)
  {
  }

  /** Part of the way is that part's own. */
  lemma PartWay(part: set<string>, all: set<string>, way: set<string>, w: set<string>)
    requires part <= all && all * way == w && w <= part
    ensures part * way == w
  {
  }

  lemma {:induction false} Arrive(p: Block, way: set<string>, c: string, rest: seq<Line>, stack: seq<Frame>,
                                  past: History, fuel: nat)
      returns (n: nat, h: History)
    requires Plain(p) && |stack| <= CTL_MAX < |stack| + Depth(p)
    requires c == TooDeep(p, CTL_MAX - |stack|) && Conds(p) * way == Way(p, CTL_MAX - |stack|)
    requires Running(stack) && Others(stack, c) && Quiet(rest, c) && fuel > Size(p)
    ensures Both(At(Flat(p) + rest, stack, past), Only(way), n, c, h, Exec(p, Only(way), past, fuel))
    decreases p, 0
  {
    hide Quiet, AtTheGuard, Others, Flat, FlatStmt, Steps;
    var b, room := Only(way), CTL_MAX - |stack|;
    var s, more := p.first, p.rest;
    assert Flat(p) == FlatStmt(s) + Flat(more) by { FlatThen(p); }
    var m := At(Flat(p) + rest, stack, past);
    var r := ExecStmt(s, b, past, fuel);
    Assoc(FlatStmt(s), Flat(more), rest);
    if DepthStmt(s) > room {
      QuietBlock(more, c);
      QuietBoth(Flat(more), rest, c);
      PartWay(CondsOf(s), Conds(p), way, WayIn(s, room));
      n, h := ArriveIn(s, way, c, Flat(more) + rest, stack, past, fuel);
    } else {
      PassesOver(s, way, past, fuel);
      PartWay(Conds(more), Conds(p), way, Way(more, room));
      var j := RunStmt(s, b, Flat(more) + rest, stack, past, fuel);
      n, h := Arrive(more, way, c, rest, stack, r.past, r.fuel);
      Chain(m, b, j, At(Flat(more) + rest, stack, r.past), n);
      n := j + n;
    }
  }

  lemma {:induction false} ArriveIn(s: Stmt, way: set<string>, c: string, rest: seq<Line>, stack: seq<Frame>,
                                    past: History, fuel: nat)
      returns (n: nat, h: History)
    requires PlainStmt(s) && |stack| <= CTL_MAX < |stack| + DepthStmt(s)
    requires c == TooDeepIn(s, CTL_MAX - |stack|) && CondsOf(s) * way == WayIn(s, CTL_MAX - |stack|)
    requires Running(stack) && Others(stack, c) && Quiet(rest, c) && fuel > SizeOf(s)
    ensures Both(At(FlatStmt(s) + rest, stack, past), Only(way), n, c, h, ExecStmt(s, Only(way), past, fuel))
    decreases s, 1
  {
    if |stack| == CTL_MAX {
      n, h := 0, past;
      Arrived(s, way, rest, stack, past, fuel);
    } else if s.Loop? {
      n, h := ArriveLoop(s, way, c, rest, stack, past, fuel);
    } else if Depth(s.thn) > CTL_MAX - |stack| - 1 {
      n, h := ArriveThen(s, way, c, rest, stack, past, fuel);
    } else {
      n, h := ArriveElse(s, way, c, rest, stack, past, fuel);
    }
  }

  lemma Arrived(s: Stmt, way: set<string>, rest: seq<Line>, stack: seq<Frame>, past: History, fuel: nat)
    requires PlainStmt(s) && |stack| == CTL_MAX && DepthStmt(s) > 0
    requires CondsOf(s) * way == {} && Running(stack) && Others(stack, s.cond) && Quiet(rest, s.cond) && fuel > 0
    ensures Both(At(FlatStmt(s) + rest, stack, past), Only(way), 0, s.cond, past, ExecStmt(s, Only(way), past, fuel))
  {
    var c := s.cond;
    assert c in CondsOf(s);
    assert Only(way).ask(past, c) == No;
    if s.Loop? {
      Uncons(While(c), Flat(s.body), [End], rest);
      QuietBlock(s.body, c);
      QuietBoth([End], rest, c);
      QuietBoth(Flat(s.body), [End] + rest, c);
    } else {
      UnconsLonger(If(c), Flat(s.thn), FlatElse(s.els), [End], rest);
      QuietBlock(s.thn, c);
      QuietElse(s.els, c);
      QuietBoth([End], rest, c);
      QuietBoth(FlatElse(s.els), [End] + rest, c);
      QuietBoth(Flat(s.thn), FlatElse(s.els) + ([End] + rest), c);
    }
  }

  lemma {:induction false} ArriveLoop(s: Stmt, way: set<string>, c: string, rest: seq<Line>, stack: seq<Frame>,
                                      past: History, fuel: nat)
      returns (n: nat, h: History)
    requires PlainStmt(s) && s.Loop? && |stack| < CTL_MAX < |stack| + DepthStmt(s)
    requires c == TooDeepIn(s, CTL_MAX - |stack|) && CondsOf(s) * way == WayIn(s, CTL_MAX - |stack|)
    requires Running(stack) && Others(stack, c) && Quiet(rest, c) && fuel > SizeOf(s)
    ensures Both(At(FlatStmt(s) + rest, stack, past), Only(way), n, c, h, ExecStmt(s, Only(way), past, fuel))
    decreases s, 0
  {
    var b, m := Only(way), At(FlatStmt(s) + rest, stack, past);
    var f := Looping(stack, Run, m.todo);
    var now := past + [Asked(s.cond)];
    assert s.cond in WayIn(s, CTL_MAX - |stack|) && b.ask(past, s.cond) == Yes;
    Uncons(While(s.cond), Flat(s.body), [End], rest);
    WhileStep(s.cond, m.todo, b, stack, past);
    QuietBoth([End], rest, c);
    n, h := Arrive(s.body, way, c, [End] + rest, f, now, fuel - 1);
    First(m, b, At(Flat(s.body) + ([End] + rest), f, now), n);
    n := 1 + n;
  }

  lemma {:induction false} ArriveThen(s: Stmt, way: set<string>, c: string, rest: seq<Line>, stack: seq<Frame>,
                                      past: History, fuel: nat)
      returns (n: nat, h: History)
    requires PlainStmt(s) && s.Cond? && |stack| < CTL_MAX < |stack| + 1 + Depth(s.thn)
    requires DepthStmt(s) > CTL_MAX - |stack|
    requires c == TooDeepIn(s, CTL_MAX - |stack|) && CondsOf(s) * way == WayIn(s, CTL_MAX - |stack|)
    requires Running(stack) && Others(stack, c) && Quiet(rest, c) && fuel > SizeOf(s)
    ensures Both(At(FlatStmt(s) + rest, stack, past), Only(way), n, c, h, ExecStmt(s, Only(way), past, fuel))
    decreases s, 0
  {
    var b, m := Only(way), At(FlatStmt(s) + rest, stack, past);
    var f := Inside(stack, Run, m.todo);
    var tail := FlatElse(s.els) + ([End] + rest);
    var now := past + [Asked(s.cond)];
    assert s.cond in WayIn(s, CTL_MAX - |stack|) && b.ask(past, s.cond) == Yes;
    UnconsLonger(If(s.cond), Flat(s.thn), FlatElse(s.els), [End], rest);
    IfStep(s.cond, m.todo, b, stack, past);
    QuietElse(s.els, c);
    QuietBoth([End], rest, c);
    QuietBoth(FlatElse(s.els), [End] + rest, c);
    n, h := Arrive(s.thn, way, c, tail, f, now, fuel - 1);
    First(m, b, At(Flat(s.thn) + tail, f, now), n);
    n := 1 + n;
  }

  lemma {:induction false} ArriveElse(s: Stmt, way: set<string>, c: string, rest: seq<Line>, stack: seq<Frame>,
                                      past: History, fuel: nat)
      returns (n: nat, h: History)
    requires PlainStmt(s) && s.Cond? && |stack| < CTL_MAX && DepthStmt(s) > CTL_MAX - |stack|
    requires |stack| + 1 + Depth(s.thn) <= CTL_MAX
    requires c == TooDeepIn(s, CTL_MAX - |stack|) && CondsOf(s) * way == WayIn(s, CTL_MAX - |stack|)
    requires Running(stack) && Others(stack, c) && Quiet(rest, c) && fuel > SizeOf(s)
    ensures Both(At(FlatStmt(s) + rest, stack, past), Only(way), n, c, h, ExecStmt(s, Only(way), past, fuel))
    decreases s, 0
  {
    hide Steps, Step, Flat, FlatStmt, FlatElse, Quiet, AtTheGuard;
    ElseDepth(s.els);
    var b, e := Only(way), s.els.b;
    var now := past + [Asked(s.cond)];
    assert s.cond in CondsOf(s) && b.ask(past, s.cond) == No;
    QuietEnd(rest, c);
    var k, f := IntoElse(s, b, rest, stack, past);
    OthersInside(stack, f, c, s);
    n, h := Arrive(e, way, c, [End] + rest, f, now, fuel - 1);
    Chain(At(FlatStmt(s) + rest, stack, past), b, k, At(Flat(e) + ([End] + rest), f, now), n);
    n := k + n;
  }

  lemma QuietEnd(rest: seq<Line>, c: string)
    requires Quiet(rest, c)
    ensures Quiet([End] + rest, c)
  {
  }

  lemma OthersInside(stack: seq<Frame>, f: seq<Frame>, c: string, s: Stmt)
    requires Others(stack, c) && f != [] && Pop(f) == stack && Top(f).kind == IfFrame
    requires Top(f).at != [] && s.Cond? && Top(f).at[0] == If(s.cond)
    ensures Others(f, c)
  {
    assert f == stack + [Top(f)];
  }

  /** Past the branch that is not taken and into the `else`. */
  lemma IntoElse(s: Stmt, b: Behaviour, rest: seq<Line>, stack: seq<Frame>, past: History)
      returns (k: nat, f: seq<Frame>)
    requires s.Cond? && s.els.Branch? && s.els.more.NoElse? && Running(stack) && |stack| + 1 + Depth(s.thn) <= CTL_MAX
    requires b.ask(past, s.cond) == No
    ensures Steps(At(FlatStmt(s) + rest, stack, past), b, k) ==
            At(Flat(s.els.b) + ([End] + rest), f, past + [Asked(s.cond)])
    ensures f != [] && Pop(f) == stack && |f| == |stack| + 1 && Running(f) && Top(f).kind == IfFrame
    ensures Top(f).at != [] && Top(f).at[0] == If(s.cond)
  {
    var todo := FlatStmt(s) + rest;
    var tail := FlatElse(s.els) + ([End] + rest);
    var now := past + [Asked(s.cond)];
    var skip := Inside(stack, Skip, todo);
    f := Inside(stack, Run, todo);
    UnconsLonger(If(s.cond), Flat(s.thn), FlatElse(s.els), [End], rest);
    IfStep(s.cond, todo, b, stack, past);
    ElseTurns(s.els.b, NoElse, b, [End] + rest, stack, Skip, todo, now);
    assert FlatElse(NoElse) + ([End] + rest) == [End] + rest;
    k := Thrice(At(todo, stack, past), b, s.thn, tail, skip, now, At(Flat(s.els.b) + ([End] + rest), f, now));
  }

  lemma Thrice(m: Machine, b: Behaviour, p: Block, tail: seq<Line>, skip: seq<Frame>, now: History, end: Machine)
      returns (k: nat)
    requires Step(m, b) == At(Flat(p) + tail, skip, now) && Step(At(tail, skip, now), b) == end
    requires !Running(skip) && |skip| + Depth(p) <= CTL_MAX
    ensures Steps(m, b, k) == end
  {
    SkipBlock(p, b, tail, skip, now);
    hide Step, Flat;
    First(At(tail, skip, now), b, end, 0);
    Chain(At(Flat(p) + tail, skip, now), b, |Flat(p)|, At(tail, skip, now), 1);
    First(m, b, At(Flat(p) + tail, skip, now), |Flat(p)| + 1);
    k := 1 + (|Flat(p)| + 1);
  }

  /* ---- and past it ---- */

  /**
   From here the next event cannot be that `c` is asked: no line ahead asks
   it, and what a `while` goes back to is that `while`, which asks at once.
   */
  ghost predicate Blind(m: Machine, c: string) {
    && m.leaving.None? && Shaped(m.stack) && Others(m.stack, c)
    && (Quiet(m.todo, c)
        || (m.todo != [] && m.todo[0].While? && m.todo[0] != While(c) && Running(m.stack) && |m.stack| < CTL_MAX))
  }

  lemma BlindStep(m: Machine, way: set<string>, c: string)
    requires Blind(m, c)
    ensures var e := Step(m, Only(way));
      if e.past == m.past then Blind(e, c) else e.past[|m.past|] != Asked(c)
  {
    if m.todo != [] {
      var l, rest := m.todo[0], m.todo[1..];
      assert l in m.todo && forall x | x in rest :: x in m.todo;
      if l.If? || l.While? {
        BlindOpen(m, way, c);
      } else {
        BlindOther(m, way, c);
      }
    }
  }

  lemma BlindOpen(m: Machine, way: set<string>, c: string)
    requires Blind(m, c) && m.todo != [] && (m.todo[0].If? || m.todo[0].While?)
    requires Quiet(m.todo, c) ==> Quiet(m.todo[1..], c) && m.todo[0] != If(c) && m.todo[0] != While(c)
    ensures var e := Step(m, Only(way));
      if e.past == m.past then Blind(e, c) else e.past[|m.past|] != Asked(c)
  {
    hide Quiet;
    if |m.stack| < CTL_MAX && !Running(m.stack) {
      var f := m.stack + [Frame(if m.todo[0].If? then IfFrame else WhileFrame, Dead, m.todo)];
      assert Shaped(f) && Others(f, c);
    }
  }

  lemma BlindOther(m: Machine, way: set<string>, c: string)
    requires Blind(m, c) && m.todo != [] && !m.todo[0].If? && !m.todo[0].While?
    requires Quiet(m.todo[1..], c)
    ensures var e := Step(m, Only(way));
      if e.past == m.past then Blind(e, c) else e.past[|m.past|] != Asked(c)
  {
    hide Quiet;
    if m.todo[0].End? && m.stack != [] {
      var t, f := Top(m.stack), Pop(m.stack);
      assert Shaped(f) && Others(f, c) && (t.state == Run ==> Running(f));
    }
  }

  /** However far it goes, what comes after this history is not that `c` is asked. */
  lemma {:induction false} BlindSteps(m: Machine, way: set<string>, c: string, n: nat)
    requires Blind(m, c)
    ensures var e := Steps(m, Only(way), n); e.past == m.past || (m.past < e.past && e.past[|m.past|] != Asked(c))
    decreases n
  {
    if n > 0 {
      var next := Step(m, Only(way));
      BlindStep(m, way, c);
      StepGrows(m, Only(way));
      if next.past == m.past {
        BlindSteps(next, way, c, n - 1);
      } else {
        StepsGrow(next, Only(way), 0, n - 1);
      }
    }
  }

  /** A guard too deep for the stack is passed over without being asked. */
  lemma Passed(m: Machine, way: set<string>, c: string, h: History)
    requires AtTheGuard(m, c, h)
    ensures Blind(Step(m, Only(way)), c) && Step(m, Only(way)).past == h
  {
  }

  /** Where the loop stands at such a guard, it never does what the meaning does next. */
  lemma NeverThere(p: Block, way: set<string>, c: string, n: nat, h: History, fuel: nat, k: nat)
    requires Both(Start(p), Only(way), n, c, h, Exec(p, Only(way), [], fuel))
    ensures !Reaches(p, Only(way), fuel, k)
  {
    var b := Only(way);
    var m := Steps(Start(p), b, n);
    var r := Exec(p, b, [], fuel);
    assert r.past[|h|] == Asked(c) && |r.past| > |h|;
    if k <= n {
      StepsGrow(Start(p), b, k, n);
    } else {
      Passed(m, way, c, h);
      Chain(Start(p), b, n, m, k - n);
      BlindSteps(Step(m, b), way, c, k - n - 1);
      First(m, b, Step(m, b), k - n - 1);
    }
  }

  /**
   A script whose guards all have conditions of their own, and with no second
   `else` anywhere, is obeyed faithfully exactly when it is at most four deep.
   */
  lemma DepthLimit(p: Block)
    requires Plain(p)
    ensures Faithful(p) <==> Depth(p) <= 4
  {
    if Depth(p) <= CTL_MAX {
      FourLevelsAreFaithful(p);
    } else {
      var c, way, fuel := TooDeep(p, CTL_MAX), Way(p, CTL_MAX), Size(p) + 1;
      assert Flat(p) + [] == Flat(p);
      var n, h := Arrive(p, way, c, [], [], [], fuel);
      forall k: nat ensures !Reaches(p, Only(way), fuel, k) { NeverThere(p, way, c, n, h, fuel, k); }
      assert !Reached(p, Only(way), fuel);
    }
  }

  /* ---- where the depth does not show ---- */

  /**
   A script five deep that is obeyed faithfully all the same. Its two innermost
   guards ask what the `if` round them asks: too deep to be asked, the one in
   the first branch closes that `if` early, and the one after `else` is obeyed
   whichever branch was to be.
   */
  function Twin(a: string, c: string): Block {
    var inner := Cond(a, Then(Round(c), Nil), NoElse);
    Then(Cond(a, Then(inner, Nil), NoElse), Nil)
  }

  function Round(c: string): Stmt {
    Loop(c, Pair(c))
  }

  function Pair(c: string): Block {
    Then(Cond(c, Alone(c), Branch(Alone(c), NoElse)), Nil)
  }

  function Alone(c: string): Block {
    Then(Cond(c, Nil, NoElse), Nil)
  }

  /** The lines from the `while` on. */
  function Lines(c: string): (l: seq<Line>)
    ensures |l| == 11
  {
    [While(c), If(c), If(c), End, Else, If(c), End, End, End, End, End]
  }

  /** The machine at one of those lines. */
  function AtLine(c: string, i: nat, stack: seq<Frame>, past: History): Machine
    requires i <= 11
  {
    At(Lines(c)[i..], stack, past)
  }

  lemma LineIs(c: string, i: nat)
    requires i < 11
    ensures Lines(c)[i..] != [] && Lines(c)[i..][0] == Lines(c)[i] && Lines(c)[i..][1..] == Lines(c)[i + 1..]
  {
  }

  lemma TwinFlat(a: string, c: string)
    ensures Flat(Twin(a, c)) == [If(a), If(a)] + Lines(c)
  {
    assert FlatElse(NoElse) == [] && Flat(Nil) == [];
    assert Flat(Alone(c)) == [If(c), End];
    assert FlatElse(Branch(Alone(c), NoElse)) == [Else, If(c), End];
    assert Flat(Pair(c)) == [If(c), If(c), End, Else, If(c), End, End];
    assert FlatStmt(Round(c)) == [While(c), If(c), If(c), End, Else, If(c), End, End, End];
    var inner := Cond(a, Then(Round(c), Nil), NoElse);
    assert Flat(Then(Round(c), Nil)) == FlatStmt(Round(c));
    assert FlatStmt(inner) == [If(a)] + FlatStmt(Round(c)) + [End];
    assert Flat(Then(inner, Nil)) == FlatStmt(inner);
    assert Flat(Twin(a, c)) == [If(a)] + FlatStmt(inner) + [End];
  }

  /** One guard asked: what becomes of the history and of the fuel, or None with an event due. */
  function Once(b: Behaviour, c: string, past: History, fuel: nat): Option<(History, nat)> {
    if b.ask(past, c) == Refused then Some((past, fuel))
    else if fuel == 0 then None
    else Some((past + [Asked(c)], fuel - 1))
  }

  lemma ThenNil(s: Stmt, b: Behaviour, past: History, fuel: nat)
    ensures Exec(Then(s, Nil), b, past, fuel) == ExecStmt(s, b, past, fuel)
  {
    var r := ExecStmt(s, b, past, fuel);
    assert r.Finished? ==> Exec(Nil, b, r.past, r.fuel) == r;
  }

  lemma AloneAsks(b: Behaviour, c: string, past: History, fuel: nat)
    ensures Exec(Alone(c), b, past, fuel) ==
      match Once(b, c, past, fuel) case None => Due(past) case Some(e) => Finished(e.0, e.1)
  {
    ThenNil(Cond(c, Nil, NoElse), b, past, fuel);
  }

  /** Whatever the first answer, the pair comes to two guards asked. */
  lemma PairAsks(b: Behaviour, c: string, past: History, fuel: nat)
    ensures Exec(Pair(c), b, past, fuel) ==
      match Once(b, c, past, fuel) case None => Due(past) case Some(e) => Exec(Alone(c), b, e.0, e.1)
  {
    hide Alone;
    ThenNil(Cond(c, Alone(c), Branch(Alone(c), NoElse)), b, past, fuel);
  }

  /** Two frames of `if`s that are running. */
  predicate TwoIfs(stack: seq<Frame>) {
    |stack| == 2 && stack[0].kind == IfFrame && stack[1].kind == IfFrame
  }

  /** From the line after a `while` that is not running, everything is passed over to the end of the script. */
  lemma RunsOut(c: string, b: Behaviour, stack: seq<Frame>, state: State, at: seq<Line>, past: History)
    requires TwoIfs(stack) && state != Run
    ensures Steps(AtLine(c, 1, stack + [Frame(WhileFrame, state, at)], past), b, 10) == At([], [], past)
  {
    var three := stack + [Frame(WhileFrame, state, at)];
    assert !Running(three) by { assert three[2].state != Run; }
    Passed4(c, b, three, past);
    assert Pop(three) == stack && Top(three).state != Run;
    RunsOutLater(c, b, three, past);
    hide Step, Steps;
    Chain(AtLine(c, 1, three, past), b, 4, AtLine(c, 5, three, past), 6);
  }

  lemma RunsOutLater(c: string, b: Behaviour, three: seq<Frame>, past: History)
    requires |three| == 3 && TwoIfs(Pop(three)) && Top(three).kind == WhileFrame && Top(three).state != Run
    ensures Steps(AtLine(c, 5, three, past), b, 6) == At([], [], past)
  {
    hide Step, Steps, Lines;
    var stack, f := Pop(three), Frame(IfFrame, Dead, Lines(c)[5..]);
    var four := three + [f];
    LaterOpens(c, b, three, past);
    LaterCloses(c, b, three, f, past);
    RunsOutEnds(c, b, stack, past);
    First(AtLine(c, 7, three, past), b, AtLine(c, 8, stack, past), 3);
    First(AtLine(c, 6, four, past), b, AtLine(c, 7, three, past), 4);
    First(AtLine(c, 5, three, past), b, AtLine(c, 6, four, past), 5);
  }

  lemma LaterOpens(c: string, b: Behaviour, three: seq<Frame>, past: History)
    requires |three| == 3 && Top(three).state != Run
    ensures Step(AtLine(c, 5, three, past), b) ==
            AtLine(c, 6, three + [Frame(IfFrame, Dead, Lines(c)[5..])], past)
  {
    LineIs(c, 5);
    DeadStep(AtLine(c, 5, three, past), b, IfFrame);
  }

  lemma LaterCloses(c: string, b: Behaviour, three: seq<Frame>, f: Frame, past: History)
    requires |three| == 3 && Top(three).kind == WhileFrame && Top(three).state != Run && f.kind == IfFrame
    ensures Step(AtLine(c, 6, three + [f], past), b) == AtLine(c, 7, three, past)
    ensures Step(AtLine(c, 7, three, past), b) == AtLine(c, 8, Pop(three), past)
  {
    LineIs(c, 6);
    LineIs(c, 7);
    assert Pop(three + [f]) == three && Top(three + [f]) == f;
  }

  lemma RunsOutEnds(c: string, b: Behaviour, stack: seq<Frame>, past: History)
    requires TwoIfs(stack)
    ensures Steps(AtLine(c, 8, stack, past), b, 3) == At([], [], past)
  {
    LineIs(c, 8);
    LineIs(c, 9);
    LineIs(c, 10);
    assert Lines(c)[11..] == [] && Pop(Pop(stack)) == [];
    assert Step(AtLine(c, 8, stack, past), b) == AtLine(c, 9, Pop(stack), past);
    assert Step(AtLine(c, 9, Pop(stack), past), b) == AtLine(c, 10, [], past);
    assert Step(AtLine(c, 10, [], past), b) == At([], [], past);
    hide Step;
    First(AtLine(c, 10, [], past), b, At([], [], past), 0);
    First(AtLine(c, 9, Pop(stack), past), b, AtLine(c, 10, [], past), 1);
    First(AtLine(c, 8, stack, past), b, AtLine(c, 9, Pop(stack), past), 2);
  }

  /** With three frames of which not all run, the first branch is passed over, and closes its `if` too early. */
  lemma Passed4(c: string, b: Behaviour, three: seq<Frame>, past: History)
    requires |three| == 3 && Top(three).kind == WhileFrame && !Running(three)
    ensures Steps(AtLine(c, 1, three, past), b, 4) == AtLine(c, 5, three, past)
  {
    LineIs(c, 1);
    var four := three + [Frame(IfFrame, Dead, Lines(c)[1..])];
    assert Step(AtLine(c, 1, three, past), b) == AtLine(c, 2, four, past);
    Closed4(c, b, three, Frame(IfFrame, Dead, Lines(c)[1..]), past);
    First(AtLine(c, 1, three, past), b, AtLine(c, 2, four, past), 3);
  }

  /** The guard too deep is passed over, its `end` closes the `if` round it, and `else` is nothing to the `while`. */
  lemma Closed4(c: string, b: Behaviour, three: seq<Frame>, f: Frame, past: History)
    requires |three| == 3 && Top(three).kind == WhileFrame && f.kind == IfFrame
    ensures Steps(AtLine(c, 2, three + [f], past), b, 3) == AtLine(c, 5, three, past)
  {
    var four := three + [f];
    LineIs(c, 2);
    LineIs(c, 3);
    LineIs(c, 4);
    assert Pop(four) == three;
    assert Step(AtLine(c, 2, four, past), b) == AtLine(c, 3, four, past);
    assert Step(AtLine(c, 3, four, past), b) == AtLine(c, 4, three, past);
    assert Step(AtLine(c, 4, three, past), b) == AtLine(c, 5, three, past);
    hide Step;
    First(AtLine(c, 4, three, past), b, AtLine(c, 5, three, past), 0);
    First(AtLine(c, 3, four, past), b, AtLine(c, 4, three, past), 1);
    First(AtLine(c, 2, four, past), b, AtLine(c, 3, four, past), 2);
  }

  /** A guard of the pair asked, with the frames of a running `while`. */
  lemma Asks(c: string, b: Behaviour, i: nat, three: seq<Frame>, past: History, fuel: nat)
    requires (i == 1 || i == 5) && |three| == 3 && Running(three)
    ensures var m := AtLine(c, i, three, past);
      match Once(b, c, past, fuel)
      case None => |Step(m, b).past| == |past| + 1
      case Some(e) => exists f: Frame :: f.kind == IfFrame && Step(m, b) == AtLine(c, i + 1, three + [f], e.0)
  {
    LineIs(c, i);
    var state := if b.ask(past, c) == Yes then Run else Skip;
    var f := Frame(IfFrame, state, Lines(c)[i..]);
    if Once(b, c, past, fuel).Some? {
      assert Step(AtLine(c, i, three, past), b) == AtLine(c, i + 1, three + [f], Once(b, c, past, fuel).value.0);
    }
  }

  /** The end of the second guard, and of the `while` that is running: back to its line. */
  lemma GoesBack(c: string, b: Behaviour, stack: seq<Frame>, f: Frame, past: History)
    requires TwoIfs(stack) && f.kind == IfFrame
    ensures Steps(AtLine(c, 6, Looping(stack, Run, Lines(c)) + [f], past), b, 2) == AtLine(c, 0, stack, past)
  {
    var three := Looping(stack, Run, Lines(c));
    LineIs(c, 6);
    LineIs(c, 7);
    assert Lines(c)[0..] == Lines(c) && Pop(three + [f]) == three;
    assert Step(AtLine(c, 6, three + [f], past), b) == AtLine(c, 7, three, past);
    assert Step(AtLine(c, 7, three, past), b) == AtLine(c, 0, stack, past);
    hide Step;
    First(AtLine(c, 7, three, past), b, AtLine(c, 0, stack, past), 0);
    First(AtLine(c, 6, three + [f], past), b, AtLine(c, 7, three, past), 1);
  }

  /** From the second guard: an event due there, or back at the `while`. */
  lemma SecondAsked(c: string, b: Behaviour, stack: seq<Frame>, past: History, fuel: nat) returns (n: nat)
    requires TwoIfs(stack) && Running(stack)
    ensures var e := Steps(AtLine(c, 5, Looping(stack, Run, Lines(c)), past), b, n);
      match Once(b, c, past, fuel)
      case None => e.past == past && e.leaving.None? && |Step(e, b).past| == |past| + 1
      case Some(x) => e == AtLine(c, 0, stack, x.0)
  {
    var three := Looping(stack, Run, Lines(c));
    var m := AtLine(c, 5, three, past);
    Asks(c, b, 5, three, past, fuel);
    if Once(b, c, past, fuel).None? { return 0; }
    var now := Once(b, c, past, fuel).value.0;
    var f: Frame :| f.kind == IfFrame && Step(m, b) == AtLine(c, 6, three + [f], now);
    GoesBack(c, b, stack, f, now);
    First(m, b, AtLine(c, 6, three + [f], now), 2);
    n := 3;
  }

  /** From the first guard to the second. */
  lemma FirstAsked(c: string, b: Behaviour, stack: seq<Frame>, past: History, fuel: nat)
    requires TwoIfs(stack) && Running(stack) && Once(b, c, past, fuel).Some?
    ensures var three := Looping(stack, Run, Lines(c));
      Steps(AtLine(c, 1, three, past), b, 4) == AtLine(c, 5, three, Once(b, c, past, fuel).value.0)
  {
    var three := Looping(stack, Run, Lines(c));
    var m := AtLine(c, 1, three, past);
    Asks(c, b, 1, three, past, fuel);
    var now := Once(b, c, past, fuel).value.0;
    var f: Frame :| f.kind == IfFrame && Step(m, b) == AtLine(c, 2, three + [f], now);
    Closed4(c, b, three, f, now);
    First(m, b, AtLine(c, 2, three + [f], now), 3);
  }

  /** Once round, from the line after the `while`: where the meaning of the pair gets, the loop gets. */
  lemma PairObeyed(c: string, b: Behaviour, stack: seq<Frame>, past: History, fuel: nat) returns (n: nat)
    requires TwoIfs(stack) && Running(stack)
    ensures var e := Steps(AtLine(c, 1, Looping(stack, Run, Lines(c)), past), b, n);
      match Exec(Pair(c), b, past, fuel)
      case Finished(h, _) => e == AtLine(c, 0, stack, h)
      case Left(_, _) => false
      case Due(h) => e.past == h && e.leaving.None? && |Step(e, b).past| == |h| + 1
  {
    var three := Looping(stack, Run, Lines(c));
    var m := AtLine(c, 1, three, past);
    PairAsks(b, c, past, fuel);
    if Once(b, c, past, fuel).None? {
      Asks(c, b, 1, three, past, fuel);
      return 0;
    }
    var x := Once(b, c, past, fuel).value;
    AloneAsks(b, c, x.0, x.1);
    FirstAsked(c, b, stack, past, fuel);
    n := SecondAsked(c, b, stack, x.0, x.1);
    Chain(m, b, 4, AtLine(c, 5, three, x.0), n);
    n := 4 + n;
  }

  /** What the `while` does on its own line. */
  lemma RoundStep(c: string, b: Behaviour, stack: seq<Frame>, past: History)
    requires TwoIfs(stack)
    ensures var a := if Running(stack) then b.ask(past, c) else Refused;
      var state := if a == Yes then Run else if Running(stack) then Skip else Dead;
      Step(AtLine(c, 0, stack, past), b) ==
      AtLine(c, 1, stack + [Frame(WhileFrame, state, Lines(c))], if a == Refused then past else past + [Asked(c)])
  {
    LineIs(c, 0);
    assert Lines(c)[0..] == Lines(c);
  }

  /** A `while` that is not to be gone round. */
  lemma RoundEnds(c: string, b: Behaviour, stack: seq<Frame>, past: History)
    requires TwoIfs(stack) && (Running(stack) ==> b.ask(past, c) != Yes)
    ensures Steps(AtLine(c, 0, stack, past), b, 11) ==
            At([], [], if Running(stack) && b.ask(past, c) == No then past + [Asked(c)] else past)
  {
    var now := if Running(stack) && b.ask(past, c) == No then past + [Asked(c)] else past;
    RoundStep(c, b, stack, past);
    var state := if Running(stack) then Skip else Dead;
    RunsOut(c, b, stack, state, Lines(c), now);
    hide Step, Steps, Lines;
    First(AtLine(c, 0, stack, past), b, AtLine(c, 1, stack + [Frame(WhileFrame, state, Lines(c))], now), 10);
  }

  lemma {:induction false} RoundObeyed(c: string, b: Behaviour, stack: seq<Frame>, past: History, fuel: nat)
      returns (n: nat)
    requires TwoIfs(stack) && Running(stack)
    ensures Matches(Steps(AtLine(c, 0, stack, past), b, n), b, ExecStmt(Round(c), b, past, fuel))
    decreases fuel
  {
    hide Step, Lines, AtLine, Pair, Looping;
    var m, a := AtLine(c, 0, stack, past), b.ask(past, c);
    RoundStep(c, b, stack, past);
    if a != Yes {
      RoundEnds(c, b, stack, past);
      n := if fuel == 0 && a == No then 0 else 11;
      RoundStarts(c, stack, if a == No then Skip else Run, past);
    } else if fuel == 0 {
      n := 0;
      RoundStarts(c, stack, Run, past);
    } else {
      var now, f := past + [Asked(c)], Looping(stack, Run, Lines(c));
      LoopingIs(stack, Lines(c));
      var j := PairObeyed(c, b, stack, now, fuel - 1);
      var r := Exec(Pair(c), b, now, fuel - 1);
      First(m, b, AtLine(c, 1, f, now), j);
      n := 1 + j;
      if r.Finished? {
        var k := RoundObeyed(c, b, stack, r.past, r.fuel);
        Chain(m, b, n, AtLine(c, 0, stack, r.past), k);
        n := n + k;
      }
    }
  }

  lemma RoundStarts(c: string, stack: seq<Frame>, state: State, past: History)
    ensures var m := AtLine(c, 0, stack, past);
      m.past == past && m.leaving.None?
    ensures var m := AtLine(c, 1, stack + [Frame(WhileFrame, state, Lines(c))], past + [Asked(c)]);
      |m.past| == |past| + 1
  {
  }

  lemma LoopingIs(stack: seq<Frame>, at: seq<Line>)
    ensures Looping(stack, Run, at) == stack + [Frame(WhileFrame, Run, at)]
  {
  }

  /** Inside the first `if`. */
  lemma InnerObeyed(a: string, c: string, b: Behaviour, f: Frame, past: History, fuel: nat) returns (n: nat)
    requires f.kind == IfFrame && f.state == Run
    ensures Matches(Steps(At([If(a)] + Lines(c), [f], past), b, n), b,
                    ExecStmt(Cond(a, Then(Round(c), Nil), NoElse), b, past, fuel))
  {
    hide Step, Lines, Round;
    var todo, x := [If(a)] + Lines(c), b.ask(past, a);
    var m := At(todo, [f], past);
    IfStep(a, todo, b, [f], past);
    assert todo[1..] == Lines(c) == Lines(c)[0..];
    var stack := Inside([f], if x == Yes then Run else Skip, todo);
    var now := if x == Refused then past else past + [Asked(a)];
    assert stack == [f] + [Frame(IfFrame, if x == Yes then Run else Skip, todo)];
    if fuel == 0 && x != Refused {
      n := 0;
    } else if x == Yes {
      ThenNil(Round(c), b, now, fuel - 1);
      n := RoundObeyed(c, b, stack, now, fuel - 1);
      First(m, b, AtLine(c, 0, stack, now), n);
      n := 1 + n;
    } else {
      RoundEnds(c, b, stack, now);
      First(m, b, AtLine(c, 0, stack, now), 11);
      n := 12;
    }
  }

  /** Both `if`s, and what they stand round. */
  lemma OuterObeyed(a: string, c: string, inner: Stmt, b: Behaviour, fuel: nat) returns (n: nat)
    requires inner == Cond(a, Then(Round(c), Nil), NoElse)
    ensures Matches(Steps(At([If(a)] + ([If(a)] + Lines(c)), [], []), b, n), b,
                    ExecStmt(Cond(a, Then(inner, Nil), NoElse), b, [], fuel))
  {
    hide Step, Lines, Round, Steps;
    var later, x := [If(a)] + Lines(c), b.ask([], a);
    var todo := [If(a)] + later;
    var m := At(todo, [], []);
    IfStep(a, todo, b, [], []);
    assert todo[1..] == later;
    var f := Frame(IfFrame, if x == Yes then Run else Skip, todo);
    var now := if x == Refused then [] else [Asked(a)];
    assert Inside([], f.state, todo) == [f];
    if fuel == 0 && x != Refused {
      n := 0;
      NoSteps(m, b);
    } else if x == Yes {
      ThenNil(inner, b, now, fuel - 1);
      n := InnerObeyed(a, c, b, f, now, fuel - 1);
      First(m, b, At(later, [f], now), n);
      n := 1 + n;
    } else {
      n := TwinEnds(a, c, b, f, now);
      First(m, b, At(later, [f], now), n);
      n := 1 + n;
    }
  }

  lemma NoSteps(m: Machine, b: Behaviour)
    ensures Steps(m, b, 0) == m
  {
  }

  lemma TwinObeyed(a: string, c: string, b: Behaviour, fuel: nat) returns (n: nat)
    ensures Reaches(Twin(a, c), b, fuel, n)
  {
    hide Lines, Round, Steps, Step, Exec, ExecStmt, Flat, Matches;
    var inner := Cond(a, Then(Round(c), Nil), NoElse);
    TwinFlat(a, c);
    assert [If(a), If(a)] + Lines(c) == [If(a)] + ([If(a)] + Lines(c));
    ThenNil(Cond(a, Then(inner, Nil), NoElse), b, [], fuel);
    n := OuterObeyed(a, c, inner, b, fuel);
  }

  lemma TwinEnds(a: string, c: string, b: Behaviour, f: Frame, past: History) returns (n: nat)
    requires f.kind == IfFrame && f.state != Run
    ensures Steps(At([If(a)] + Lines(c), [f], past), b, n) == At([], [], past)
  {
    var todo := [If(a)] + Lines(c);
    var stack := [f] + [Frame(IfFrame, Dead, todo)];
    assert stack[0] == f && !Running([f]) && !Running(stack) by { assert [f][0] == f; }
    assert todo[1..] == Lines(c) == Lines(c)[0..];
    assert Step(At(todo, [f], past), b) == AtLine(c, 0, stack, past);
    RoundEnds(c, b, stack, past);
    First(At(todo, [f], past), b, AtLine(c, 0, stack, past), 11);
    n := 12;
  }

  /** Where conditions are repeated, a script can be deeper than four and be obeyed faithfully. */
  lemma DepthNeedNotShow(a: string, c: string)
    ensures Depth(Twin(a, c)) == 5 && Faithful(Twin(a, c)) && !Plain(Twin(a, c))
  {
    var p := Twin(a, c);
    TwinDepth(a, c);
    forall b: Behaviour, fuel: nat ensures Reached(p, b, fuel) {
      var n := TwinObeyed(a, c, b, fuel);
      assert Reaches(p, b, fuel, n);
    }
    forall b: Behaviour, n: nat ensures Within(p, b, n) {
      var k := TwinObeyed(a, c, b, |Steps(Start(p), b, n).past|);
      StaysIfReaches(p, b, n, k);
    }
  }

  lemma TwinDepth(a: string, c: string)
    ensures Depth(Twin(a, c)) == 5 && !Plain(Twin(a, c))
  {
    var inner := Cond(a, Then(Round(c), Nil), NoElse);
    assert Depth(Nil) == 0 && DepthElse(NoElse) == 0;
    assert Depth(Alone(c)) == 1 && DepthElse(Branch(Alone(c), NoElse)) == 1;
    assert Depth(Pair(c)) == 2;
    assert DepthStmt(Round(c)) == 3 && Depth(Then(Round(c), Nil)) == 3;
    assert DepthStmt(inner) == 4 && Depth(Then(inner, Nil)) == 4;
    assert CondsOf(inner) == {a} + Conds(Then(Round(c), Nil)) + CondsElse(NoElse);
    assert a in Conds(Then(inner, Nil));
  }
}
