/**
 Several commands on a line, each after the first run or not according to how
 the ones before it went.
 */
module ShellConditions {

  const COND_MAX := 6

  datatype Op = Always | And | Or

  datatype Segment = Segment(op: Op, text: string)

  predicate Bar(c: char) {
    c == '&' || c == '|'
  }

  predicate Blank(c: char) {
    c == ' ' || c == '\t'
  }

  /** An operator begins here: two of the same bar. */
  predicate Operator(s: string) {
    |s| >= 2 && Bar(s[0]) && s[1] == s[0]
  }

  function KindOf(c: char): Op {
    if c == '&' then And else Or
  }

  function TrimEnd(s: string): (t: string)
    ensures |t| <= |s| && t == s[..|t|]
    decreases |s|
  {
    if s != [] && Blank(s[|s| - 1]) then TrimEnd(s[..|s| - 1]) else s
  }

  function TrimStart(s: string): (t: string)
    ensures |t| <= |s| && t == s[|s| - |t|..]
    decreases |s|
  {
    if s != [] && Blank(s[0]) then TrimStart(s[1..]) else s
  }

  /** The segments of the rest of a line, when `n` have begun and `cur` is what there is of the last. */
  function Split(op: Op, cur: string, s: string, n: nat): (r: seq<Segment>)
    ensures |r| >= 1 && r[0].op == op
    decreases |s|
  {
    if s == [] then [Segment(op, cur)]
    else if Operator(s) && n < COND_MAX then
      [Segment(op, TrimEnd(cur))] + Split(KindOf(s[0]), [], TrimStart(s[2..]), n + 1)
    else Split(op, cur + [s[0]], s[1..], n)
  }

  /* ---- a line put together from segments comes apart into them ---- */

  function Sign(op: Op): string
    requires op != Always
  {
    if op.And? then " && " else " || "
  }

  function Joined(segs: seq<Segment>): string
    requires forall i | 0 <= i < |segs| :: segs[i].op != Always
    decreases |segs|
  {
    if segs == [] then [] else Sign(segs[0].op) + segs[0].text + Joined(segs[1..])
  }

  /** There is something in it, nothing in it reads as an operator, and it neither begins nor ends with a blank. */
  predicate Clean(s: string) {
    && s != [] && !Blank(s[0]) && !Blank(s[|s| - 1])
    && (forall i | 0 <= i < |s| - 1 :: !(Bar(s[i]) && s[i + 1] == s[i]))
  }

  predicate AllClean(segs: seq<Segment>) {
    forall i | 0 <= i < |segs| :: segs[i].op != Always && Clean(segs[i].text)
  }

  /** A stretch with no operator in it, and none across its end, is taken whole. */
  lemma {:induction false} SplitPlain(op: Op, cur: string, text: string, rest: string, n: nat)
    requires forall i | 0 <= i < |text| - 1 :: !(Bar(text[i]) && text[i + 1] == text[i])
    requires text != [] && rest != [] ==> !(Bar(rest[0]) && rest[0] == text[|text| - 1])
    ensures Split(op, cur, text + rest, n) == Split(op, cur + text, rest, n)
    decreases |text|
  {
    if text == [] {
      assert text + rest == rest && cur + text == cur;
    } else {
      var s := text + rest;
      assert s[1..] == text[1..] + rest;
      assert cur + [text[0]] + text[1..] == cur + text;
      assert !Operator(s);
      SplitPlain(op, cur + [text[0]], text[1..], rest, n);
    }
  }

  lemma TrimBlankAfter(s: string)
    requires s == [] || !Blank(s[|s| - 1])
    ensures TrimEnd(s + [' ']) == s
  {
    assert (s + [' '])[..|s|] == s;
  }

  lemma OneChar(op: Op, cur: string, s: string, n: nat)
    requires s != [] && !Operator(s)
    ensures Split(op, cur, s, n) == Split(op, cur + [s[0]], s[1..], n)
  {
  }

  lemma OneOperator(op: Op, cur: string, s: string, n: nat)
    requires Operator(s) && n < COND_MAX
    ensures Split(op, cur, s, n) == [Segment(op, TrimEnd(cur))] + Split(KindOf(s[0]), [], TrimStart(s[2..]), n + 1)
  {
  }

  /** One operator, with a blank on each side, between two clean stretches. */
  lemma SplitAtSign(op: Op, cur: string, next: Op, rest: string, n: nat)
    requires n < COND_MAX && next != Always && (cur == [] || !Blank(cur[|cur| - 1])) && (rest == [] || !Blank(rest[0]))
    ensures Split(op, cur, Sign(next) + rest, n) == [Segment(op, cur)] + Split(next, [], rest, n + 1)
  {
    var s := Sign(next) + rest;
    var bar := if next.And? then '&' else '|';
    var t := s[1..];
    assert s[0] == ' ' && s[1] == bar && s[2] == bar && s[3] == ' ';
    assert t[0] == bar && t[1] == bar && t[2] == ' ' && t[3..] == rest && t[2..] == [' '] + rest;
    hide Split;
    OneChar(op, cur, s, n);
    OneOperator(op, cur + [' '], t, n);
    TrimBlankAfter(cur);
    TrimBlankBefore(rest);
  }

  lemma TrimBlankBefore(s: string)
    requires s == [] || !Blank(s[0])
    ensures TrimStart([' '] + s) == s
  {
    assert ([' '] + s)[1..] == s;
  }

  /** Clean segments, no more than the line has room for, come back as they were put in. */
  lemma {:induction false} JoinedComesApart(first: string, segs: seq<Segment>, op: Op, n: nat)
    requires Clean(first) && AllClean(segs) && n + |segs| <= COND_MAX
    ensures Split(op, [], first + Joined(segs), n) == [Segment(op, first)] + segs
    decreases |segs|
  {
    hide Split, Joined, Sign;
    assert [] + first == first;
    JoinedFirst(segs);
    SplitPlain(op, [], first, Joined(segs), n);
    if segs == [] {
      NothingLeft(op, first, n);
    } else {
      var s, more := segs[0], segs[1..];
      SplitAtSign(op, first, s.op, s.text + Joined(more), n);
      JoinedComesApart(s.text, more, s.op, n + 1);
      assert segs == [Segment(s.op, s.text)] + more;
    }
  }

  lemma JoinedFirst(segs: seq<Segment>)
    requires forall i | 0 <= i < |segs| :: segs[i].op != Always
    ensures segs == [] ==> Joined(segs) == []
    ensures segs != [] ==>
              Joined(segs) == Sign(segs[0].op) + (segs[0].text + Joined(segs[1..])) && Joined(segs)[..1] == [' ']
  {
    if segs != [] {
      var a, b, c := Sign(segs[0].op), segs[0].text, Joined(segs[1..]);
      assert a + b + c == a + (b + c);
    }
  }

  lemma NothingLeft(op: Op, cur: string, n: nat)
    ensures Split(op, cur, [], n) == [Segment(op, cur)]
  {
  }

  /* ---- the operators by name ---- */

  lemma {:induction false} TrimmedBehind(s: string, pad: string)
    requires Blanks(pad) && (s == [] || (s[|s| - 1] != ' ' && s[|s| - 1] != '\t'))
    ensures TrimEnd(s + pad) == s
    decreases |pad|
  {
    hide TrimEnd;
    if pad == [] {
      assert s + pad == s;
      NothingTrimmed(s);
    } else {
      var n := |pad| - 1;
      assert s + pad == s + pad[..n] + [pad[n]];
      OneTrimmed(s + pad[..n], pad[n]);
      TrimmedBehind(s, pad[..n]);
    }
  }

  lemma NothingTrimmed(s: string)
    requires s == [] || (s[|s| - 1] != ' ' && s[|s| - 1] != '\t')
    ensures TrimEnd(s) == s
  {
  }

  lemma OneTrimmed(s: string, c: char)
    requires c == ' ' || c == '\t'
    ensures TrimEnd(s + [c]) == TrimEnd(s)
  {
    assert (s + [c])[..|s|] == s;
  }

  lemma {:induction false} TrimmedBefore(s: string, pad: string)
    requires Blanks(pad) && (s == [] || (s[0] != ' ' && s[0] != '\t'))
    ensures TrimStart(pad + s) == s
    decreases |pad|
  {
    if pad == [] {
      assert pad + s == s;
    } else {
      assert (pad + s)[1..] == pad[1..] + s;
      TrimmedBefore(s, pad[1..]);
    }
  }

  predicate Blanks(pad: string) {
    forall i | 0 <= i < |pad| :: pad[i] == ' ' || pad[i] == '\t'
  }

  /** A command with no operator in it, and neither beginning nor ending with a blank. */
  predicate Command(s: string) {
    && (s != [] ==> s[0] != ' ' && s[0] != '\t' && s[|s| - 1] != ' ' && s[|s| - 1] != '\t')
    && (forall i | 0 <= i < |s| - 1 :: !(s[i] == '&' && s[i + 1] == '&') && !(s[i] == '|' && s[i + 1] == '|'))
  }

  /** Two ampersands, with blanks around them or not, end a command, and the next is for when that succeeds. */
  lemma AndSplits(op: Op, a: string, left: string, right: string, rest: string, n: nat)
    requires Command(a) && Blanks(left) && Blanks(right) && n < 6
    requires (rest == [] || (rest[0] != ' ' && rest[0] != '\t')) && (left == [] && a != [] ==> a[|a| - 1] != '&')
    ensures Split(op, [], a + left + "&&" + right + rest, n) == [Segment(op, a)] + Split(And, [], rest, n + 1)
  {
    SignSplits(op, a, left, '&', right, rest, n);
    assert ['&', '&'] == "&&";
  }

  /** Two bars likewise, and the next is for when it does not. */
  lemma OrSplits(op: Op, a: string, left: string, right: string, rest: string, n: nat)
    requires Command(a) && Blanks(left) && Blanks(right) && n < 6
    requires (rest == [] || (rest[0] != ' ' && rest[0] != '\t')) && (left == [] && a != [] ==> a[|a| - 1] != '|')
    ensures Split(op, [], a + left + "||" + right + rest, n) == [Segment(op, a)] + Split(Or, [], rest, n + 1)
  {
    SignSplits(op, a, left, '|', right, rest, n);
    assert ['|', '|'] == "||";
  }

  lemma SignSplits(op: Op, a: string, left: string, bar: char, right: string, rest: string, n: nat)
    requires Command(a) && Blanks(left) && Blanks(right) && Bar(bar) && n < COND_MAX
    requires (rest == [] || (rest[0] != ' ' && rest[0] != '\t')) && (left == [] && a != [] ==> a[|a| - 1] != bar)
    ensures Split(op, [], a + left + [bar, bar] + right + rest, n)
         == [Segment(op, a)] + Split(KindOf(bar), [], rest, n + 1)
  {
    hide Split, Command, Blanks, TrimStart, TrimEnd, Bar;
    var cur, tail := a + left, right + rest;
    var s := [bar, bar] + tail;
    assert a + left + [bar, bar] + right + rest == cur + s && [] + cur == cur;
    NoOperator(a, left, bar);
    SplitPlain(op, [], cur, s, n);
    assert s[0] == s[1] == bar && s[2..] == tail;
    assert Operator(s);
    OneOperator(op, cur, s, n);
    CommandEnds(a);
    TrimmedBehind(a, left);
    TrimmedBefore(rest, right);
  }

  lemma CommandEnds(a: string)
    requires Command(a)
    ensures a == [] || (a[|a| - 1] != ' ' && a[|a| - 1] != '\t')
  {
  }

  /** A command and blanks have no operator in them, nor across their end. */
  lemma NoOperator(a: string, left: string, bar: char)
    requires Command(a) && Blanks(left) && Bar(bar) && (left == [] && a != [] ==> a[|a| - 1] != bar)
    ensures var cur := a + left;
      && (forall i | 0 <= i < |cur| - 1 :: !(Bar(cur[i]) && cur[i + 1] == cur[i]))
      && (cur != [] ==> cur[|cur| - 1] != bar)
  {
    var cur := a + left;
    forall i | 0 <= i < |cur| - 1 ensures !(Bar(cur[i]) && cur[i + 1] == cur[i]) {
      if i < |a| - 1 { assert cur[i] == a[i] && cur[i + 1] == a[i + 1]; }
      else if i >= |a| { assert cur[i] == left[i - |a|]; }
      else { assert cur[i + 1] == left[0]; }
    }
    assert left != [] ==> cur[|cur| - 1] == left[|left| - 1];
  }

  /** With six begun, whatever is left is all one command, operators or not; and a command alone is itself. */
  lemma NoMoreThanSix(op: Op, s: string)
    ensures Split(op, [], s, 6) == [Segment(op, s)]
  {
    RestIsOne(op, [], s);
    assert [] + s == s;
  }

  lemma LastCommand(op: Op, a: string, n: nat)
    requires Command(a)
    ensures Split(op, [], a, n) == [Segment(op, a)]
  {
    assert a + [] == a && [] + a == a;
    hide Split;
    SplitPlain(op, [], a, [], n);
    NothingLeft(op, a, n);
  }

  /* ---- cutting a line up in place ---- */

  /** A string of this text, with its zero byte, stands here. */
  predicate Stands(raw: seq<char>, at: nat, text: string) {
    at + |text| < |raw| && raw[at..at + |text|] == text && raw[at + |text|] == '\0' && '\0' !in text
  }

  /** Where a segment ends once the blanks before its operator are left out. */
  method TrimBack(raw: array<char>, start: nat, p: nat, ghost t: string) returns (e: nat)
    requires start <= p <= raw.Length && p <= |t| && forall k | start <= k < p :: raw[k] == t[k]
    ensures start <= e <= p && t[start..e] == TrimEnd(t[start..p])
  {
    hide TrimEnd;
    e := p;
    while e > start && Blank(raw[e - 1])
      invariant start <= e <= p && TrimEnd(t[start..p]) == TrimEnd(t[start..e])
    {
      TrimEndOne(t, start, e);
      e := e - 1;
    }
    TrimEndNone(t, start, e);
  }

  lemma TrimEndOne(t: string, start: nat, e: nat)
    requires start < e <= |t| && Blank(t[e - 1])
    ensures TrimEnd(t[start..e]) == TrimEnd(t[start..e - 1])
  {
    var s := t[start..e];
    assert s[..|s| - 1] == t[start..e - 1] && s[|s| - 1] == t[e - 1];
  }

  lemma TrimEndNone(t: string, start: nat, e: nat)
    requires start <= e <= |t| && (start < e ==> !Blank(t[e - 1]))
    ensures TrimEnd(t[start..e]) == t[start..e]
  {
    var s := t[start..e];
    assert start < e ==> s[|s| - 1] == t[e - 1];
  }

  lemma TrimOne(t: string, p: nat)
    requires p < |t| && Blank(t[p])
    ensures TrimStart(t[p..]) == TrimStart(t[p + 1..])
  {
    assert t[p..][1..] == t[p + 1..];
  }

  lemma TrimNone(t: string, p: nat)
    requires p <= |t| && (p < |t| ==> !Blank(t[p]))
    ensures TrimStart(t[p..]) == t[p..]
  {
  }

  method SkipBlanks(raw: array<char>, from: nat, ghost t: string) returns (p: nat)
    requires from <= |t| < raw.Length && raw[|t|] == '\0' && forall k | from <= k < |t| :: raw[k] == t[k]
    ensures from <= p <= |t| && t[p..] == TrimStart(t[from..])
  {
    hide TrimStart;
    p := from;
    while Blank(raw[p])
      invariant from <= p <= |t| && TrimStart(t[from..]) == TrimStart(t[p..])
      decreases |t| - p
    {
      TrimOne(t, p);
      p := p + 1;
    }
    TrimNone(t, p);
  }

  /** The same segments, when the last is all there is room for. */
  lemma {:induction false} RestIsOne(op: Op, cur: string, s: string)
    ensures Split(op, cur, s, COND_MAX) == [Segment(op, cur + s)]
    decreases |s|
  {
    if s == [] {
      assert cur + s == cur;
    } else {
      RestIsOne(op, cur + [s[0]], s[1..]);
      assert cur + [s[0]] + s[1..] == cur + s;
    }
  }

  /** The segments already closed stand where they are said to. */
  ghost predicate Finished(raw: seq<char>, starts: seq<nat>, ops: seq<Op>, done: seq<Segment>) {
    |done| <= |starts| && |done| <= |ops|
    && forall i | 0 <= i < |done| :: ops[i] == done[i].op && Stands(raw, starts[i], done[i].text)
  }

  lemma FinishedStays(raw: seq<char>, more: seq<char>, starts: seq<nat>, ops: seq<Op>, done: seq<Segment>)
    requires Finished(raw, starts, ops, done) && |raw| <= |more| && raw == more[..|raw|]
    ensures Finished(more, starts, ops, done)
  {
    forall i | 0 <= i < |done| ensures Stands(more, starts[i], done[i].text) {
      var a, n := starts[i], |done[i].text|;
      assert raw[a..a + n] == more[a..a + n];
    }
  }

  /** A zero byte put after a segment, at or before the place `bound`. */
  lemma ClosedStands(raw: seq<char>, t: string, start: nat, e: nat, bound: nat)
    requires start <= e < bound <= |raw| && e <= |t| && '\0' !in t && raw[start..e] == t[start..e] && raw[e] == '\0'
    ensures Stands(raw[..bound], start, t[start..e])
  {
    assert raw[..bound][start..e] == raw[start..e];
  }

  /** Ends a segment at an operator and begins the next: where it begins, and what the operator was. */
  method Close(raw: array<char>, len: nat, start: nat, p: nat, ghost t: string)
    returns (next: nat, op: Op, ghost text: string)
    requires len < raw.Length && raw[len] == '\0' && |t| == len && '\0' !in t
    requires start <= p < len && (forall k | start <= k < len :: raw[k] == t[k]) && Bar(raw[p]) && raw[p + 1] == raw[p]
    modifies raw
    ensures p < next <= len && raw[..start] == old(raw[..start]) && raw[next..] == old(raw[next..])
    ensures Stands(raw[..next], start, text)
    ensures forall was: Op, n: nat | n < COND_MAX ::
      Split(was, t[start..p], t[p..], n) == [Segment(was, text)] + Split(op, [], t[next..], n + 1)
  {
    hide Split, TrimEnd, TrimStart, Stands;
    op := KindOf(raw[p]);
    var e := TrimBack(raw, start, p, t);
    text := t[start..e];
    assert raw[start..e] == text;
    raw[e] := '\0';
    next := SkipBlanks(raw, p + 2, t);
    ClosedStands(raw[..], t, start, e, next);
    assert raw[..][..next] == raw[..next];
    SegmentEnds(t, start, p, e, next);
  }

  /** One segment more, from the operator at `p`. */
  lemma SegmentEnds(t: string, start: nat, p: nat, e: nat, next: nat)
    requires start <= e <= p && p + 2 <= next <= |t| && Bar(t[p]) && t[p + 1] == t[p]
    requires t[start..e] == TrimEnd(t[start..p]) && t[next..] == TrimStart(t[p + 2..])
    ensures forall was: Op, n: nat | n < COND_MAX ::
      Split(was, t[start..p], t[p..], n) == [Segment(was, t[start..e])] + Split(KindOf(t[p]), [], t[next..], n + 1)
  {
    var s := t[p..];
    assert s[0] == t[p] && s[1] == t[p + 1] && s[2..] == t[p + 2..];
    forall was: Op, n: nat | n < COND_MAX
      ensures Split(was, t[start..p], s, n) == [Segment(was, t[start..e])] + Split(KindOf(t[p]), [], t[next..], n + 1)
    {
      OneOperator(was, t[start..p], s, n);
    }
  }

  /** The last segment runs to the end of the line, whatever is in it. */
  lemma LastStands(raw: seq<char>, t: string, start: nat, p: nat, op: Op, n: nat)
    requires |t| < |raw| && raw[|t|] == '\0' && '\0' !in t && start <= p <= |t| && raw[start..|t|] == t[start..]
    requires p == |t| || n == COND_MAX
    ensures Split(op, t[start..p], t[p..], n) == [Segment(op, t[start..])] && Stands(raw, start, t[start..])
  {
    assert t[start..p] + t[p..] == t[start..];
    if n == COND_MAX {
      RestIsOne(op, t[start..p], t[p..]);
    } else {
      NothingLeft(op, t[start..p], n);
      assert t[p..] == [] && t[start..p] == t[start..];
    }
  }

  /**
   Puts a zero byte after each segment and says where each begins and what
   joins it to the one before. What is left over when there is no room for
   more is the last segment, operators and all.
   */
  method SplitInPlace(raw: array<char>, len: nat) returns (starts: seq<nat>, ops: seq<Op>)
    requires len < raw.Length && raw[len] == '\0' && '\0' !in raw[..len]
    modifies raw
    ensures |starts| == |ops| == |Split(Always, [], old(raw[..len]), 1)|
    ensures Finished(raw[..], starts, ops, Split(Always, [], old(raw[..len]), 1))
  {
    hide Split, Stands, Finished;
    ghost var t, done: seq<Segment> := raw[..len], [];
    ghost var all := Split(Always, [], t, 1);
    starts, ops := [0], [Always];
    var start, op, p := 0, Always, 0;
    assert t[0..0] == [] && t[0..] == t && [] + all == all;
    NoneFinished(raw[..0], starts, ops);
    while p < len
      invariant |starts| == |ops| == |done| + 1 <= COND_MAX && starts[|done|] == start && ops[|done|] == op
      invariant start <= p <= len && raw[start..] == old(raw[start..])
      invariant all == done + Split(op, t[start..p], t[p..], |starts|)
      invariant Finished(raw[..start], starts, ops, done)
      decreases len - p
    {
      Untouched(old(raw[..]), raw[..], start, len);
      if !Bar(raw[p]) || raw[p + 1] != raw[p] {
        NextChar(t, start, p, op, |starts|);
        p := p + 1;
        continue;
      }
      if |starts| >= COND_MAX { break; }
      ghost var was, text := raw[..start], [];
      var kind;
      ghost var n := |starts|;
      ghost var mid := raw[..];
      p, kind, text := Close(raw, len, start, p, t);
      LaterStill(old(raw[..]), mid, raw[..], start, p);
      ghost var before := done;
      done := done + [Segment(op, text)];
      OneMoreFinished(was, raw[..p], starts, ops, before, done[|before|], p, kind);
      assert before + ([Segment(op, text)] + Split(kind, [], t[p..], n + 1)) == done + Split(kind, [], t[p..], n + 1);
      assert t[p..p] == [];
      starts, ops := starts + [p], ops + [kind];
      start, op := p, kind;
    }
    Untouched(old(raw[..]), raw[..], start, len);
    LastStands(raw[..], t, start, p, op, |starts|);
    OneMoreFinished(raw[..start], raw[..], starts, ops, done, Segment(op, t[start..]), 0, Always);
    FinishedLess(raw[..], starts, ops, done + [Segment(op, t[start..])], 0, Always);
  }

  /** A character that begins no operator is taken into the segment. */
  lemma NextChar(t: string, start: nat, p: nat, op: Op, n: nat)
    requires start <= p < |t| && !(Bar(t[p]) && p + 1 < |t| && t[p + 1] == t[p])
    ensures Split(op, t[start..p], t[p..], n) == Split(op, t[start..p + 1], t[p + 1..], n)
  {
    hide Split;
    assert t[p..][1..] == t[p + 1..] && t[start..p] + [t[p]] == t[start..p + 1];
    OneChar(op, t[start..p], t[p..], n);
  }

  lemma NoneFinished(raw: seq<char>, starts: seq<nat>, ops: seq<Op>)
    ensures Finished(raw, starts, ops, [])
  {
  }

  /** What the line still holds from `start` on. */
  lemma Untouched(was: seq<char>, raw: seq<char>, start: nat, len: nat)
    requires start <= len < |was| == |raw| && raw[start..] == was[start..] && was[len] == '\0'
    ensures raw[len] == '\0' && raw[start..len] == was[..len][start..]
    ensures forall k | start <= k < len :: raw[k] == was[..len][k]
  {
    assert forall k {:trigger raw[k]} | start <= k < |raw| :: raw[k] == raw[start..][k - start] == was[k];
  }

  lemma LaterStill(was: seq<char>, mid: seq<char>, now: seq<char>, start: nat, p: nat)
    requires start <= p <= |was| == |mid| == |now| && mid[start..] == was[start..] && now[p..] == mid[p..]
    ensures now[p..] == was[p..]
  {
    assert mid[start..][p - start..] == mid[p..] && was[start..][p - start..] == was[p..];
  }

  lemma OneMoreFinished(was: seq<char>, raw: seq<char>, starts: seq<nat>, ops: seq<Op>, done: seq<Segment>, s: Segment,
                        next: nat, kind: Op)
    requires Finished(was, starts, ops, done) && |starts| == |ops| == |done| + 1
    requires |was| <= |raw| && raw[..|was|] == was
    requires ops[|done|] == s.op && Stands(raw, starts[|done|], s.text)
    ensures Finished(raw, starts + [next], ops + [kind], done + [s])
  {
    FinishedStays(was, raw, starts, ops, done);
    hide Stands;
  }

  lemma FinishedLess(raw: seq<char>, starts: seq<nat>, ops: seq<Op>, done: seq<Segment>, next: nat, kind: Op)
    requires Finished(raw, starts + [next], ops + [kind], done) && |done| == |starts| == |ops|
    ensures Finished(raw, starts, ops, done)
  {
    hide Stands;
    forall i | 0 <= i < |done| ensures ops[i] == done[i].op && Stands(raw, starts[i], done[i].text) {
      assert (starts + [next])[i] == starts[i] && (ops + [kind])[i] == ops[i];
    }
  }

  /* ---- running the commands ---- */

  /** How a command went; or that it says nothing about that; or that it leaves the shell. */
  datatype Did = Went(outcome: int) | Quiet | Exits(code: int)

  /** What is left behind: the world, the answer && and || are asked about, and whether the shell is left. */
  datatype Reply<W> = Reply(world: W, outcome: int, left: bool, code: int)

  /** A line as it is read: left to right, with no precedence. */
  datatype Tree = One(text: string) | Both(before: Tree, text: string) | Either(before: Tree, text: string)

  function TreeOf(segs: seq<Segment>): Tree
    requires segs != []
    decreases |segs|
  {
    var last := segs[|segs| - 1];
    if |segs| == 1 then One(last.text)
    else if last.op.And? then Both(TreeOf(segs[..|segs| - 1]), last.text)
    else Either(TreeOf(segs[..|segs| - 1]), last.text)
  }

  function After<W>(world: W, outcome: int, did: Did): Reply<W> {
    match did
    case Went(o) => Reply(world, o, false, 0)
    case Quiet => Reply(world, outcome, false, 0)
    case Exits(code) => Reply(world, outcome, true, code)
  }

  /** Both runs the second only if the first succeeded; either, only if it did not. */
  function Meaning<W>(t: Tree, world: W, run: (W, string) -> (W, Did)): Reply<W> {
    match t
    case One(text) =>
      var (w, did) := run(world, text);
      After(w, 0, did)
    case Both(before, text) =>
      var m := Meaning(before, world, run);
      if m.left || m.outcome != 0 then m
      else
        var (w, did) := run(m.world, text);
        After(w, m.outcome, did)
    case Either(before, text) =>
      var m := Meaning(before, world, run);
      if m.left || m.outcome == 0 then m
      else
        var (w, did) := run(m.world, text);
        After(w, m.outcome, did)
  }

  /** The first command is run whatever happens. */
  lemma FirstRuns<W>(first: Segment, start: W, run: (W, string) -> (W, Did))
    ensures var m, (w, did) := Meaning(TreeOf([first]), start, run), run(start, first.text);
      m == match did
           case Went(o) => Reply(w, o, false, 0)
           case Quiet => Reply(w, 0, false, 0)
           case Exits(code) => Reply(w, 0, true, code)
  {
  }

  /** One after it is run exactly when the shell has not been left and what went before succeeded, or did not. */
  lemma NextRunsIf<W>(segs: seq<Segment>, next: Segment, start: W, run: (W, string) -> (W, Did))
    requires segs != [] && next.op != Always
    ensures var m := Meaning(TreeOf(segs), start, run);
      var (w, did) := run(m.world, next.text);
      Meaning(TreeOf(segs + [next]), start, run) ==
        if m.left || (next.op == And && m.outcome != 0) || (next.op == Or && m.outcome == 0) then m
        else
          match did
          case Went(o) => Reply(w, o, false, 0)
          case Quiet => Reply(w, m.outcome, false, 0)
          case Exits(code) => Reply(w, m.outcome, true, code)
  {
    assert (segs + [next])[..|segs|] == segs;
  }

  /** The loop over the segments, skipping those whose turn it is not. */
  method RunLine<W>(segs: seq<Segment>, start: W, run: (W, string) -> (W, Did)) returns (r: Reply<W>)
    requires segs != [] && segs[0].op == Always && forall i | 0 < i < |segs| :: segs[i].op != Always
    ensures r == Meaning(TreeOf(segs), start, run)
  {
    var (w, did) := run(start, segs[0].text);
    r := After(w, 0, did);
    assert segs[..1] == [segs[0]];
    var s := 1;
    while s < |segs| && !r.left
      invariant 1 <= s <= |segs| && r == Meaning(TreeOf(segs[..s]), start, run)
    {
      assert segs[..s + 1][..s] == segs[..s];
      if !((segs[s].op == And && r.outcome != 0) || (segs[s].op == Or && r.outcome == 0)) {
        var (w, did) := run(r.world, segs[s].text);
        r := After(w, r.outcome, did);
      }
      s := s + 1;
    }
    LeftStays(segs, s, start, run);
    assert segs[..|segs|] == segs;
  }

  /** Once the shell is left, the rest of the line means nothing. */
  lemma {:induction false} LeftStays<W>(segs: seq<Segment>, s: nat, start: W, run: (W, string) -> (W, Did))
    requires 1 <= s <= |segs| && (s < |segs| ==> Meaning(TreeOf(segs[..s]), start, run).left)
    ensures Meaning(TreeOf(segs[..|segs|]), start, run) == Meaning(TreeOf(segs[..s]), start, run)
    decreases |segs| - s
  {
    if s < |segs| {
      assert segs[..s + 1][..s] == segs[..s];
      LeftStays(segs, s + 1, start, run);
    }
  }
}
