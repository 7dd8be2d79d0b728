/** Sorting: lines packed end to end in one arena, and offsets into it put in order. */
module Sort {

  import opened LineStream

  const LINE_CAP := 128
  const TEXT_CAP := 4096
  const LINES_MAX := 192

  /* ---- strings that end at a zero byte ---- */

  function UpToNul(s: string): (r: string)
    ensures |r| <= |s| && r == s[..|r|] && '\0' !in r
    ensures |r| < |s| ==> s[|r|] == '\0'
    decreases |s|
  {
    if s == [] || s[0] == '\0' then [] else [s[0]] + UpToNul(s[1..])
  }

  lemma {:induction false} UpToNulOf(s: string, more: string)
    requires s != [] && s[|s| - 1] == '\0'
    ensures UpToNul(s + more) == UpToNul(s)
    decreases |s|
  {
    if s[0] != '\0' {
      assert (s + more)[1..] == s[1..] + more;
      UpToNulOf(s[1..], more);
    }
  }

  lemma {:induction false} WholeIfNoNul(s: string)
    ensures UpToNul(s) == s <==> '\0' !in s
    ensures UpToNul(s + ['\0']) == UpToNul(s)
    decreases |s|
  {
    if s == [] {
      assert s + ['\0'] == ['\0'];
    } else {
      assert s == [s[0]] + s[1..] && (s + ['\0'])[1..] == s[1..] + ['\0'];
      WholeIfNoNul(s[1..]);
    }
  }

  /* ---- the order ---- */

  function Head(s: string): int {
    if s == [] then 0 else s[0] as int
  }

  /** The difference at the first place two strings differ. */
  function Compare(a: string, b: string): int
    decreases |a|
  {
    if a != [] && b != [] && a[0] == b[0] then Compare(a[1..], b[1..]) else Head(a) - Head(b)
  }

  predicate UpTo(a: string, b: string) {
    Compare(a, b) <= 0
  }

  lemma {:induction false} CompareBackwards(a: string, b: string)
    ensures Compare(b, a) == -Compare(a, b)
    decreases |a|
  {
    if a != [] && b != [] && a[0] == b[0] { CompareBackwards(a[1..], b[1..]); }
  }

  lemma {:induction false} UpToTransitive(a: string, b: string, c: string)
    requires UpTo(a, b) && UpTo(b, c) && '\0' !in a && '\0' !in b && '\0' !in c
    ensures UpTo(a, c)
    decreases |a|
  {
    if a != [] && c != [] && a[0] == c[0] && b != [] && b[0] == a[0] { UpToTransitive(a[1..], b[1..], c[1..]); }
  }

  predicate InOrder(s: seq<string>) {
    forall i, j | 0 <= i <= j < |s| :: UpTo(s[i], s[j])
  }

  predicate NoNuls(s: seq<string>) {
    forall i | 0 <= i < |s| :: '\0' !in s[i]
  }

  /* ---- what the insertion does ---- */

  /** After the last that is not beyond it. */
  function Insert(s: seq<string>, x: string): (r: seq<string>)
    ensures |r| == |s| + 1
    decreases |s|
  {
    if s != [] && Compare(s[|s| - 1], x) > 0 then Insert(s[..|s| - 1], x) + [s[|s| - 1]] else s + [x]
  }

  function Sorted(lines: seq<string>): (r: seq<string>)
    ensures |r| == |lines|
    decreases |lines|
  {
    if lines == [] then [] else Insert(Sorted(lines[..|lines| - 1]), lines[|lines| - 1])
  }

  lemma {:induction false} InsertKeeps(s: seq<string>, x: string)
    ensures multiset(Insert(s, x)) == multiset(s) + multiset{x}
    ensures NoNuls(s) && '\0' !in x ==> NoNuls(Insert(s, x))
    decreases |s|
  {
    if s != [] && Compare(s[|s| - 1], x) > 0 {
      InsertKeeps(s[..|s| - 1], x);
      assert s == s[..|s| - 1] + [s[|s| - 1]];
    }
  }

  lemma {:induction false} InsertInOrder(s: seq<string>, x: string)
    requires InOrder(s) && NoNuls(s) && '\0' !in x
    ensures InOrder(Insert(s, x)) && NoNuls(Insert(s, x))
    ensures forall y | '\0' !in y && UpTo(x, y) && (s != [] ==> UpTo(s[|s| - 1], y)) :: UpTo(Insert(s, x)[|s|], y)
    decreases |s|
  {
    CompareBackwards(x, x);
    if s != [] {
      var last := s[|s| - 1];
      CompareBackwards(last, x);
      if Compare(last, x) > 0 {
        InsertInOrder(s[..|s| - 1], x);
        var r := Insert(s[..|s| - 1], x);
        forall i | 0 <= i < |r| ensures UpTo(r[i], last) {
          assert UpTo(r[i], r[|r| - 1]);
          UpToTransitive(r[i], r[|r| - 1], last);
        }
      } else {
        forall i | 0 <= i < |s| ensures UpTo(s[i], x) { UpToTransitive(s[i], last, x); }
      }
    }
  }

  /** The lines in byte order, all of them and no others. */
  lemma {:induction false} SortedIsSorted(lines: seq<string>)
    requires NoNuls(lines)
    ensures InOrder(Sorted(lines)) && NoNuls(Sorted(lines)) && multiset(Sorted(lines)) == multiset(lines)
    decreases |lines|
  {
    if lines != [] {
      hide InOrder, Insert;
      var front, x := lines[..|lines| - 1], lines[|lines| - 1];
      assert lines == front + [x];
      SortedIsSorted(front);
      InsertInOrder(Sorted(front), x);
      InsertKeeps(Sorted(front), x);
    }
  }

  /* ---- what is accepted ---- */

  datatype Verdict = Fine | TooLong | TooMany | TooMuch

  /** The first of the lines that is too long, one too many, or too much with those before it. */
  function Judged(lines: seq<string>, n: nat, used: nat): Verdict
    decreases |lines|
  {
    if lines == [] then Fine
    else if |lines[0]| >= LINE_CAP - 1 then TooLong
    else if n == LINES_MAX then TooMany
    else if used + |lines[0]| + 1 > TEXT_CAP then TooMuch
    else Judged(lines[1..], n + 1, used + |lines[0]| + 1)
  }

  function Bytes(lines: seq<string>): nat
    decreases |lines|
  {
    if lines == [] then 0 else |lines[0]| + 1 + Bytes(lines[1..])
  }

  /** Accepted when no line is too long, there are not too many, and together they are not too much. */
  lemma {:induction false} FineIff(lines: seq<string>, n: nat, used: nat)
    requires n <= LINES_MAX && used <= TEXT_CAP
    ensures Judged(lines, n, used) == Fine <==>
      (forall i | 0 <= i < |lines| :: |lines[i]| < LINE_CAP - 1)
      && n + |lines| <= LINES_MAX && used + Bytes(lines) <= TEXT_CAP
    decreases |lines|
  {
    if lines != [] {
      var rest := lines[1..];
      assert lines == [lines[0]] + rest;
      if |lines[0]| < LINE_CAP - 1 && n < LINES_MAX && used + |lines[0]| + 1 <= TEXT_CAP {
        FineIff(rest, n + 1, used + |lines[0]| + 1);
      }
    }
  }

  /** Cutting lines to the buffer's length does not change what is accepted: a cut line is too long too. */
  lemma {:induction false} JudgedAlike(whole: seq<string>, cut: seq<string>, n: nat, used: nat)
    requires |whole| == |cut| && forall i | 0 <= i < |cut| :: cut[i] == Shorten(whole[i], LINE_CAP)
    ensures Judged(whole, n, used) == Judged(cut, n, used)
    ensures Judged(whole, n, used) == Fine ==> whole == cut
    decreases |whole|
  {
    if whole != [] {
      assert cut[0] == Shorten(whole[0], LINE_CAP);
      JudgedAlike(whole[1..], cut[1..], n + 1, used + |cut[0]| + 1);
      assert whole == [whole[0]] + whole[1..] && cut == [cut[0]] + cut[1..];
    }
  }

  /** A line that is not too long, nor one too many, nor too much with those before it. */
  predicate Fits(lines: seq<string>, i: nat)
    requires i < |lines|
  {
    |lines[i]| < 127 && i < 192 && Bytes(lines[..i + 1]) <= 4096
  }

  lemma {:induction false} BytesMore(lines: seq<string>, i: nat)
    requires i < |lines|
    ensures Bytes(lines[..i + 1]) == Bytes(lines[..i]) + |lines[i]| + 1
    decreases |lines|
  {
    if i == 0 {
      assert lines[..1][1..] == [] && lines[..0] == [];
    } else {
      BytesMore(lines[1..], i - 1);
      assert lines[..i + 1][1..] == lines[1..][..i] && lines[..i][1..] == lines[1..][..i - 1];
    }
  }

  lemma {:induction false} JudgedSoFar(lines: seq<string>, k: nat)
    requires k <= |lines| && forall j | 0 <= j < k :: Fits(lines, j)
    ensures Judged(lines, 0, 0) == Judged(lines[k..], k, Bytes(lines[..k]))
    decreases k
  {
    if k == 0 {
      assert lines[0..] == lines && lines[..0] == [];
    } else {
      JudgedSoFar(lines, k - 1);
      BytesMore(lines, k - 1);
      assert Fits(lines, k - 1) && lines[k - 1..][1..] == lines[k..];
    }
  }

  /** Of lines that do not all fit the first that does not says why, its own length before anything else. */
  lemma FirstFault(lines: seq<string>, i: nat)
    requires i < |lines| && !Fits(lines, i) && forall j | 0 <= j < i :: Fits(lines, j)
    ensures Judged(lines, 0, 0) == if |lines[i]| >= 127 then TooLong else if i == 192 then TooMany else TooMuch
  {
    JudgedSoFar(lines, i);
    BytesMore(lines, i);
    assert i > 0 ==> Fits(lines, i - 1);
  }

  lemma AllFit(lines: seq<string>)
    requires forall j | 0 <= j < |lines| :: Fits(lines, j)
    ensures Judged(lines, 0, 0) == Fine
  {
    JudgedSoFar(lines, |lines|);
  }

  /* ---- byte order ---- */

  /** One is the beginning of the other, or has the lower byte at the first place they differ. */
  ghost predicate Before(a: string, b: string) {
    exists k: nat :: k <= |a| && k <= |b| && a[..k] == b[..k] && (k == |a| || (k < |b| && a[k] < b[k]))
  }

  lemma {:induction false} CompareIsOrder(a: string, b: string)
    requires '\0' !in a && '\0' !in b
    ensures Compare(a, b) <= 0 <==> Before(a, b)
    decreases |a|
  {
    if a != [] && b != [] && a[0] == b[0] {
      CompareIsOrder(a[1..], b[1..]);
      OneByteMore(a, b);
    } else if Compare(a, b) <= 0 {
      assert a[..0] == b[..0];
    } else {
      forall k: nat | k <= |a| && k <= |b| && a[..k] == b[..k]
        ensures !(k == |a| || (k < |b| && a[k] < b[k]))
      {
        SameStart(a, b, k);
      }
    }
  }

  lemma SameStart(a: string, b: string, k: nat)
    requires k <= |a| && k <= |b| && a[..k] == b[..k]
    ensures k > 0 ==> a[0] == b[0]
  {
    assert k > 0 ==> a[..k][0] == a[0] && b[..k][0] == b[0];
  }

  lemma OneByteMore(a: string, b: string)
    requires a != [] && b != [] && a[0] == b[0]
    ensures Before(a, b) <==> Before(a[1..], b[1..])
  {
    if Before(a, b) {
      var k: nat :| k <= |a| && k <= |b| && a[..k] == b[..k] && (k == |a| || (k < |b| && a[k] < b[k]));
      assert k > 0;
      assert a[1..][..k - 1] == a[..k][1..] && b[1..][..k - 1] == b[..k][1..];
    }
    if Before(a[1..], b[1..]) {
      var k: nat :| k < |a| && k < |b| && a[1..][..k] == b[1..][..k]
        && (k == |a| - 1 || (k < |b| - 1 && a[1..][k] < b[1..][k]));
      assert a[..k + 1] == [a[0]] + a[1..][..k] && b[..k + 1] == [b[0]] + b[1..][..k];
    }
  }

  /** What is printed is in byte order. */
  lemma PrintedInOrder(lines: seq<string>, i: nat, j: nat)
    requires i <= j < |lines|
    ensures Before(Sorted(Trimmed(lines))[i], Sorted(Trimmed(lines))[j])
  {
    var s := Sorted(Trimmed(lines));
    SortedIsSorted(Trimmed(lines));
    assert '\0' !in s[i] && '\0' !in s[j] && UpTo(s[i], s[j]);
    CompareIsOrder(s[i], s[j]);
  }

  /* ---- the arena and the offsets ---- */

  /** The string at a place in a text. */
  ghost function StringAt(t: string, p: nat): (r: string)
    requires p <= |t|
    ensures '\0' !in r
  {
    UpToNul(t[p..])
  }

  ghost function Strings(text: string, offs: seq<nat>): (s: seq<string>)
    requires forall i | 0 <= i < |offs| :: offs[i] <= |text|
    ensures |s| == |offs| && forall i | 0 <= i < |offs| :: s[i] == StringAt(text, offs[i])
  {
    seq(|offs|, i requires 0 <= i < |offs| => StringAt(text, offs[i]))
  }

  /** An insertion by hand: everything from `k` on is beyond it, and what is before is not. */
  lemma {:induction false} InsertAt(s: seq<string>, k: nat, x: string)
    requires k <= |s| && (forall i | k <= i < |s| :: Compare(s[i], x) > 0) && (k > 0 ==> Compare(s[k - 1], x) <= 0)
    ensures Insert(s, x) == s[..k] + [x] + s[k..]
    decreases |s|
  {
    if k < |s| {
      InsertAt(s[..|s| - 1], k, x);
      assert s[..|s| - 1][..k] == s[..k] && s[k..] == s[..|s| - 1][k..] + [s[|s| - 1]];
    }
  }

  class Sorter {
    const text: array<char>
    const off: array<nat>
    var n: nat
    var used: nat

    ghost predicate Valid()
      reads this, text, off
    {
      && text as object != off as object
      && text.Length == TEXT_CAP && off.Length == LINES_MAX && n <= LINES_MAX && used <= TEXT_CAP
      && (forall i | 0 <= i < n :: off[i] < used)
      && (used > 0 ==> text[used - 1] == '\0')
    }

    /** The lines in the order of their offsets. */
    ghost function Contents(): seq<string>
      requires Valid()
      reads this, text, off
    {
      Strings(text[..used], off[..n])
    }

    constructor ()
      ensures Valid() && fresh(text) && fresh(off) && Contents() == [] && n == 0 && used == 0
    {
      text := new char[TEXT_CAP];
      off := new nat[LINES_MAX];
      n, used := 0, 0;
    }

    /** How two strings of the arena compare, byte by byte up to the end of one. */
    method Cmp(a: nat, b: nat, end: nat, ghost t: string) returns (d: int)
      requires a < end <= text.Length && b < end && t == text[..end] && t[end - 1] == '\0'
      ensures d == Compare(StringAt(t, a), StringAt(t, b))
    {
      hide StringAt, Compare;
      var i, j := a, b;
      while text[i] != '\0' && text[i] == text[j]
        invariant a <= i < end && b <= j < end
        invariant Compare(StringAt(t, a), StringAt(t, b)) == Compare(StringAt(t, i), StringAt(t, j))
        decreases end - i
      {
        SameByte(t, i, j);
        i, j := i + 1, j + 1;
      }
      DifferentByte(t, i, j);
      return (text[i] as int) - (text[j] as int);
    }

    /** Copies a line and its zero byte to the end of the arena. */
    method Park(line: array<char>, len: nat)
      requires Valid() && len < line.Length && used + len + 1 <= TEXT_CAP && line != text
      modifies text
      ensures text[..used] == old(text[..used]) && text[used..used + len + 1] == line[..len + 1]
    {
      var i := 0;
      while i <= len
        invariant 0 <= i <= len + 1 && text[used..used + i] == line[..i]
        invariant text[..used] == old(text[..used])
      {
        text[used + i] := line[i];
        i := i + 1;
        assert text[used..used + i] == text[used..used + i - 1] + [line[i - 1]];
      }
    }

    /** Moves up the offset of every line that is beyond the one at `at`, and says where that leaves room. */
    method MakeRoom(at: nat, end: nat, ghost t: string, ghost was: seq<nat>, ghost s: seq<string>) returns (slot: nat)
      requires text as object != off as object && off.Length == LINES_MAX && n < LINES_MAX && was == off[..n]
      requires at < end <= text.Length && t == text[..end] && t[end - 1] == '\0'
      requires |s| == n && forall i | 0 <= i < n :: was[i] < end && s[i] == StringAt(t, was[i])
      modifies off
      ensures Divides(s, slot, StringAt(t, at)) && Opened(was, off[..n + 1], slot)
    {
      hide StringAt, Compare;
      slot := n;
      while slot > 0
        invariant slot <= n && text[..end] == t
        invariant forall i | 0 <= i < n && i <= slot :: off[i] == was[i]
        invariant forall i {:trigger off[i]} | slot < i < n + 1 :: off[i] == was[i - 1]
        invariant forall i | slot <= i < n :: Compare(s[i], StringAt(t, at)) > 0
      {
        var d := Cmp(off[slot - 1], at, end, t);
        assert d == Compare(s[slot - 1], StringAt(t, at));
        if d <= 0 { break; }
        off[slot] := off[slot - 1];
        slot := slot - 1;
      }
    }

    /** Slides a new offset down past every line that is beyond it. */
    method Slide(at: nat, end: nat)
      requires text as object != off as object && off.Length == LINES_MAX && n < LINES_MAX
      requires at < end <= text.Length && text[end - 1] == '\0' && forall i | 0 <= i < n :: off[i] < end
      modifies off
      ensures forall i | 0 <= i < n + 1 :: off[i] < end
      ensures Strings(text[..end], off[..n + 1])
        == Insert(old(Strings(text[..end], off[..n])), StringAt(text[..end], at))
    {
      hide StringAt, Compare, Insert, Strings, Divides;
      ghost var was, t := off[..n], text[..end];
      var slot := MakeRoom(at, end, t, was, Strings(t, was));
      SlidIn(t, was, slot, at);
      off[slot] := at;
      assert off[..n + 1] == was[..slot] + [at] + was[slot..];
    }

    /** Takes one line in. */
    method Take(line: array<char>, len: nat)
      requires Valid() && n < LINES_MAX && len < line.Length && line[len] == '\0' && used + len + 1 <= TEXT_CAP
      requires line != text && line as object != off as object
      modifies this`n, this`used, text, off
      ensures Valid() && n == old(n) + 1 && used == old(used) + len + 1
      ensures Contents() == Insert(old(Contents()), UpToNul(line[..len]))
    {
      hide StringAt, UpToNul, Insert, Strings;
      ghost var t, offs := text[..used], off[..n];
      Park(line, len);
      var end := used + len + 1;
      assert text[..end] == t + line[..len + 1];
      assert line[..len + 1] == line[..len] + ['\0'];
      Longer(t, line[..len + 1], offs);
      Parked(t, line[..len]);
      Slide(used, end);
      used, n := end, n + 1;
    }

    /** Says a string of the arena, up to its zero byte. */
    method Say(at: nat) returns (said: string)
      requires Valid() && at < used
      ensures said == StringAt(text[..used], at)
    {
      hide StringAt;
      ghost var t := text[..used];
      var i := at;
      said := [];
      while text[i] != '\0'
        invariant at <= i < used && StringAt(t, at) == said + StringAt(t, i)
        decreases used - i
      {
        OneByte(t, i);
        said := said + [text[i]];
        i := i + 1;
      }
      Ended(t, i);
    }

    /** Prints every line in the order of the offsets. */
    method Print() returns (printed: seq<string>)
      requires Valid()
      ensures printed == Contents()
    {
      printed := [];
      var i := 0;
      while i < n
        invariant i <= n && printed == Contents()[..i]
      {
        var said := Say(off[i]);
        assert off[i] == off[..n][i];
        printed := printed + [said];
        i := i + 1;
      }
    }

    /** Reads one line and takes it in, or says why not; `over` when there is none. */
    method TakeNext(input: Reader, line: array<char>) returns (v: Verdict, over: bool, ghost taken: string)
      requires Valid() && input.Valid() && line.Length == LINE_CAP
      requires input.buf != text && input.buf as object != off as object
      requires line != text && line as object != off as object && line != input.buf
      modifies this`n, this`used, text, off, line, input, input.buf
      ensures Valid() && input.Valid()
      ensures over ==> Cut(old(input.Pending()), LINE_CAP) == [] && Contents() == old(Contents())
      ensures !over ==> Cut(old(input.Pending()), LINE_CAP) == [taken] + Cut(input.Pending(), LINE_CAP)
      ensures !over ==> |input.Pending()| < |old(input.Pending())|
      ensures !over && v == Fine ==> Contents() == Insert(old(Contents()), UpToNul(taken))
      ensures !over ==>
        Judged(Cut(old(input.Pending()), LINE_CAP), old(n), old(used)) ==
        if v == Fine then Judged(Cut(input.Pending(), LINE_CAP), n, used) else v
    {
      hide UpToNul, Insert, Strings, Cut, Next, Judged, StringAt;
      over, v, taken := false, Fine, [];
      ghost var left, t, offs := input.Pending(), text[..used], off[..n];
      var len := input.GetLine(line);
      assert text[..used] == t && off[..n] == offs;
      CutOneMore(left, LINE_CAP);
      if len < 0 { return Fine, true, []; }
      taken := line[..len];
      JudgedFirst(taken, Cut(input.Pending(), LINE_CAP), n, used);
      if len >= LINE_CAP - 1 {
        v := TooLong;
      } else if n == LINES_MAX {
        v := TooMany;
      } else if used + len + 1 > TEXT_CAP {
        v := TooMuch;
      } else {
        Take(line, len);
      }
    }

    /** Reads every line and prints them in order, or says why not and prints none. */
    method Run(input: Reader) returns (v: Verdict, printed: seq<string>)
      requires Valid() && n == 0 && used == 0 && input.Valid()
      requires input.buf != text && input.buf as object != off as object
      modifies this`n, this`used, text, off, input, input.buf
      ensures v == Judged(Whole(old(input.Pending()), []), 0, 0)
      ensures printed == if v == Fine then Sorted(Trimmed(Whole(old(input.Pending()), []))) else []
    {
      hide UpToNul, Insert, Strings, Cut, Next, Judged, Whole, Sorted, Trimmed;
      ghost var all, taken := Cut(input.Pending(), LINE_CAP), [];
      AsWhole(input.Pending());
      NothingSorted();
      NothingJudged();
      assert off[..0] == [];
      assert Contents() == Sorted(Trimmed(taken));
      var line := new char[LINE_CAP];
      while true
        invariant Valid() && input.Valid()
        invariant all == taken + Cut(input.Pending(), LINE_CAP)
        invariant Judged(all, 0, 0) == Judged(Cut(input.Pending(), LINE_CAP), n, used)
        invariant Contents() == Sorted(Trimmed(taken))
        decreases |input.Pending()|
      {
        ghost var text;
        var over;
        v, over, text := TakeNext(input, line);
        if over { break; }
        if v != Fine { return v, []; }
        SortedOneMore(taken, text);
        Reassoc(taken, text, Cut(input.Pending(), LINE_CAP));
        taken := taken + [text];
      }
      assert all == taken + [] == taken;
      printed := Print();
      v := Fine;
    }
  }

  lemma Reassoc(a: seq<string>, x: string, b: seq<string>)
    ensures a + ([x] + b) == a + [x] + b
  {
  }

  lemma NothingJudged()
    ensures forall n, used :: Judged([], n, used) == Fine
  {
  }

  lemma NothingSorted()
    ensures Sorted(Trimmed([])) == []
    ensures forall t :: Strings(t, []) == []
  {
  }

  lemma JudgedFirst(line: string, rest: seq<string>, n: nat, used: nat)
    ensures Judged([line] + rest, n, used) ==
      if |line| >= LINE_CAP - 1 then TooLong
      else if n == LINES_MAX then TooMany
      else if used + |line| + 1 > TEXT_CAP then TooMuch
      else Judged(rest, n + 1, used + |line| + 1)
  {
    assert ([line] + rest)[1..] == rest;
  }

  /** Lines as they are printed: up to their first zero byte, if they have one. */
  function Trimmed(lines: seq<string>): (r: seq<string>)
    ensures |r| == |lines| && forall i | 0 <= i < |lines| :: r[i] == UpToNul(lines[i])
  {
    seq(|lines|, i requires 0 <= i < |lines| => UpToNul(lines[i]))
  }

  lemma SortedOneMore(lines: seq<string>, line: string)
    ensures Sorted(Trimmed(lines + [line])) == Insert(Sorted(Trimmed(lines)), UpToNul(line))
  {
    var t := Trimmed(lines + [line]);
    assert t[..|t| - 1] == Trimmed(lines) && t[|t| - 1] == UpToNul(line);
  }

  lemma CutOneMore(s: string, cap: nat)
    ensures Cut(s, cap) == match Next(s, [], cap) case End => [] case Line(text, rest) => [text] + Cut(rest, cap)
  {
  }

  /** Whether judged whole or as handed out, the lines are the same if they are accepted. */
  lemma AsWhole(s: string)
    ensures var cut, whole := Cut(s, LINE_CAP), Whole(s, []);
      Judged(cut, 0, 0) == Judged(whole, 0, 0) && (Judged(cut, 0, 0) == Fine ==> cut == whole)
  {
    CutLines(s, LINE_CAP);
    JudgedAlike(Whole(s, []), Cut(s, LINE_CAP), 0, 0);
  }

  /** What is printed is in order, and is the lines that came in exactly when none of them has a zero byte in it. */
  lemma PrintedIsTheInput(lines: seq<string>)
    ensures InOrder(Sorted(Trimmed(lines)))
    ensures multiset(Sorted(Trimmed(lines))) == multiset(lines) <==> NoNuls(lines)
  {
    var t := Trimmed(lines);
    SortedIsSorted(t);
    forall i | 0 <= i < |lines| ensures t[i] == lines[i] <==> '\0' !in lines[i] { WholeIfNoNul(lines[i]); }
    if NoNuls(lines) {
      assert t == lines;
    } else {
      var i :| 0 <= i < |lines| && '\0' in lines[i];
      assert lines[i] in multiset(lines);
      assert lines[i] !in multiset(Sorted(t)) by {
        assert forall j | 0 <= j < |Sorted(t)| :: Sorted(t)[j] != lines[i];
      }
    }
  }

  /** Room for one more at `slot`: those from it on have moved up by one. */
  ghost predicate Opened(was: seq<nat>, now: seq<nat>, slot: nat) {
    && |now| == |was| + 1 && slot <= |was|
    && (forall i | 0 <= i < slot :: now[i] == was[i])
    && forall i {:trigger now[i]} | slot < i < |now| :: now[i] == was[i - 1]
  }

  /** Everything from `k` on is beyond `x`, and what is just before is not. */
  ghost predicate Divides(s: seq<string>, k: nat, x: string) {
    && k <= |s|
    && (forall i | k <= i < |s| :: Compare(s[i], x) > 0)
    && (k > 0 ==> Compare(s[k - 1], x) <= 0)
  }

  /** Offsets with a new one slid in name the strings with the new one inserted. */
  lemma SlidIn(t: string, was: seq<nat>, slot: nat, at: nat)
    requires (forall i | 0 <= i < |was| :: was[i] <= |t|) && at <= |t|
    requires Divides(Strings(t, was), slot, StringAt(t, at))
    ensures slot <= |was| && forall i | 0 <= i < |was| + 1 :: (was[..slot] + [at] + was[slot..])[i] <= |t|
    ensures Strings(t, was[..slot] + [at] + was[slot..]) == Insert(Strings(t, was), StringAt(t, at))
  {
    hide StringAt, Compare, Insert;
    var s, x := Strings(t, was), StringAt(t, at);
    InsertAt(s, slot, x);
    var now := was[..slot] + [at] + was[slot..];
    assert forall i {:trigger now[i]} | 0 <= i < |now| ::
      now[i] == if i < slot then was[i] else if i == slot then at else was[i - 1];
    assert Strings(t, now) == s[..slot] + [x] + s[slot..];
  }

  lemma OneByte(t: string, i: nat)
    requires i < |t| && t[|t| - 1] == '\0' && t[i] != '\0'
    ensures i + 1 < |t| && forall said: string :: said + StringAt(t, i) == said + [t[i]] + StringAt(t, i + 1)
  {
    assert t[i..][1..] == t[i + 1..];
  }

  lemma Ended(t: string, i: nat)
    requires i < |t| && t[i] == '\0'
    ensures StringAt(t, i) == []
  {
  }

  lemma Parked(t: string, line: string)
    ensures StringAt(t + (line + ['\0']), |t|) == UpToNul(line)
  {
    assert (t + (line + ['\0']))[|t|..] == line + ['\0'];
    WholeIfNoNul(line);
  }

  /** More text after the last zero byte changes none of the strings before it. */
  lemma Longer(t: string, more: string, offs: seq<nat>)
    requires (t == [] || t[|t| - 1] == '\0') && forall i | 0 <= i < |offs| :: offs[i] < |t|
    ensures Strings(t + more, offs) == Strings(t, offs)
  {
    forall i | 0 <= i < |offs| ensures StringAt(t + more, offs[i]) == StringAt(t, offs[i]) {
      assert (t + more)[offs[i]..] == t[offs[i]..] + more;
      UpToNulOf(t[offs[i]..], more);
    }
  }

  lemma SameByte(t: string, i: nat, j: nat)
    requires i < |t| && j < |t| && t[|t| - 1] == '\0' && t[i] != '\0' && t[i] == t[j]
    ensures i + 1 < |t| && j + 1 < |t|
    ensures Compare(StringAt(t, i), StringAt(t, j)) == Compare(StringAt(t, i + 1), StringAt(t, j + 1))
  {
    assert t[i..][1..] == t[i + 1..] && t[j..][1..] == t[j + 1..];
    var x, y := StringAt(t, i + 1), StringAt(t, j + 1);
    assert StringAt(t, i) == [t[i]] + x && StringAt(t, j) == [t[i]] + y;
    assert ([t[i]] + x)[1..] == x && ([t[i]] + y)[1..] == y;
  }

  lemma DifferentByte(t: string, i: nat, j: nat)
    requires i < |t| && j < |t| && !(t[i] != '\0' && t[i] == t[j])
    ensures Compare(StringAt(t, i), StringAt(t, j)) == (t[i] as int) - (t[j] as int)
  {
  }
}
