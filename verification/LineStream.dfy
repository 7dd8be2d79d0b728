/**
 Lines out of a stream that arrives in chunks of any size, as every filter
 reads them.
 */
module LineStream {

  const BUFFER := 96

  /** A line and what follows it, or the end of the input. */
  datatype Got = End | Line(text: string, rest: string)

  /** The next line, no longer than `cap` allows; `len` is what there is of it so far. */
  function Next(s: string, line: string, cap: nat): (g: Got)
    ensures g.Line? ==> |g.rest| <= |s| && (line == [] ==> |g.rest| < |s|)
    ensures |line| < cap && g.Line? ==> |g.text| < cap
    decreases |s|
  {
    if s == [] then (if line == [] then End else Line(line, []))
    else if s[0] == '\n' then Line(line, s[1..])
    else if s[0] == '\r' then Next(s[1..], line, cap)
    else Next(s[1..], if |line| + 1 < cap then line + [s[0]] else line, cap)
  }

  lemma NextOne(c: char, rest: string, line: string, cap: nat)
    ensures Next([c] + rest, line, cap) ==
      if c == '\n' then Line(line, rest)
      else if c == '\r' then Next(rest, line, cap)
      else Next(rest, if |line| + 1 < cap then line + [c] else line, cap)
  {
    assert ([c] + rest)[1..] == rest;
  }

  lemma NextOver(line: string, cap: nat)
    ensures Next([], line, cap) == if line == [] then End else Line(line, [])
  {
  }

  /** Every line of a stream, each cut to `cap`. */
  function Cut(s: string, cap: nat): seq<string>
    decreases |s|
  {
    match Next(s, [], cap)
    case End => []
    case Line(text, rest) => [text] + Cut(rest, cap)
  }

  /** Every line of a stream, whole: carriage returns are nothing, and a last line needs no newline. */
  function Whole(s: string, line: string): seq<string>
    decreases |s|
  {
    if s == [] then (if line == [] then [] else [line])
    else if s[0] == '\n' then [line] + Whole(s[1..], [])
    else if s[0] == '\r' then Whole(s[1..], line)
    else Whole(s[1..], line + [s[0]])
  }

  function Shorten(line: string, cap: nat): string
    requires cap >= 1
  {
    if |line| < cap then line else line[..cap - 1]
  }

  /** The lines handed out are the whole lines, each shortened to fit and nothing else. */
  lemma {:induction false} CutIsShortened(s: string, line: string, cap: nat)
    requires cap >= 2
    ensures var g, w := Next(s, Shorten(line, cap), cap), Whole(s, line);
      match g
      case End => w == []
      case Line(text, rest) => w != [] && text == Shorten(w[0], cap) && w[1..] == Whole(rest, [])
    decreases |s|
  {
    if s != [] && s[0] != '\n' {
      var next := if s[0] == '\r' then line else line + [s[0]];
      assert Shorten(next, cap) ==
        if s[0] == '\r' || |Shorten(line, cap)| + 1 >= cap then Shorten(line, cap) else Shorten(line, cap) + [s[0]];
      CutIsShortened(s[1..], next, cap);
    } else if s == [] {
      assert Whole(s, line) == if line == [] then [] else [line];
    } else {
      var w := Whole(s[1..], []);
      assert ([line] + w)[1..] == w;
    }
  }

  lemma {:induction false} CutLines(s: string, cap: nat)
    requires cap >= 2
    ensures |Cut(s, cap)| == |Whole(s, [])|
    ensures forall i | 0 <= i < |Cut(s, cap)| :: Cut(s, cap)[i] == Shorten(Whole(s, [])[i], cap)
    decreases |s|
  {
    CutIsShortened(s, [], cap);
    match Next(s, [], cap)
    case End =>
    case Line(text, rest) => CutLines(rest, cap);
  }

  /** What stands after the last newline: a last line that has none. */
  function Unended(s: string, line: string): string {
    if s == [] then line
    else if s[0] == '\n' then Unended(s[1..], [])
    else if s[0] == '\r' then Unended(s[1..], line)
    else Unended(s[1..], line + [s[0]])
  }

  /** With room for nothing but the zero a line is empty, and a last line with no newline is taken for the end. */
  lemma {:induction false} CutToNothing(s: string, line: string)
    ensures var g, w := Next(s, [], 1), Whole(s, line);
      match g
      case End => w == (if Unended(s, line) == [] then [] else [Unended(s, line)])
      case Line(text, rest) =>
        w != [] && text == [] && w[1..] == Whole(rest, []) && Unended(s, line) == Unended(rest, [])
    decreases |s|
  {
    if s != [] && s[0] != '\n' {
      CutToNothing(s[1..], if s[0] == '\r' then line else line + [s[0]]);
    } else if s != [] {
      var w := Whole(s[1..], []);
      assert ([line] + w)[1..] == w;
    }
  }

  lemma {:induction false} NothingLines(s: string)
    ensures |Cut(s, 1)| == |Whole(s, [])| - (if Unended(s, []) == [] then 0 else 1)
    ensures forall i | 0 <= i < |Cut(s, 1)| :: Cut(s, 1)[i] == []
    decreases |s|
  {
    CutToNothing(s, []);
    match Next(s, [], 1)
    case End =>
    case Line(text, rest) => NothingLines(rest);
  }

  /** No line is lost, only shortened to fit, unless a buffer of one byte meets a last line with no newline. */
  lemma LinesKeptIff(s: string, cap: nat)
    requires cap >= 1
    ensures (|Cut(s, cap)| == |Whole(s, [])|
             && forall i | 0 <= i < |Cut(s, cap)| :: Cut(s, cap)[i] == Shorten(Whole(s, [])[i], cap))
            <==> cap >= 2 || Unended(s, []) == []
  {
    if cap >= 2 {
      CutLines(s, cap);
    } else {
      NothingLines(s);
    }
  }

  /* ---- which lines a text has ---- */

  /** A newline ends a line, which is what stands before it. */
  lemma {:induction false} NewlineEnds(line: string, a: string, rest: string)
    requires '\n' !in a && '\r' !in a
    ensures Whole(a + "\n" + rest, line) == [line + a] + Whole(rest, [])
    decreases |a|
  {
    var s := a + "\n" + rest;
    if a == [] {
      assert s[1..] == rest && line + a == line;
    } else {
      assert s[1..] == a[1..] + "\n" + rest;
      NewlineEnds(line + [a[0]], a[1..], rest);
      assert line + [a[0]] + a[1..] == line + a;
    }
  }

  /** The end of the input ends one too, unless nothing is left. */
  lemma {:induction false} EndEnds(line: string, a: string)
    requires '\n' !in a && '\r' !in a
    ensures Whole(a, line) == if line + a == [] then [] else [line + a]
    decreases |a|
  {
    if a == [] {
      assert line + a == line;
    } else {
      EndEnds(line + [a[0]], a[1..]);
      assert line + [a[0]] + a[1..] == line + a;
    }
  }

  /** A carriage return might as well not be there. */
  lemma {:induction false} ReturnIsNothing(line: string, a: string, rest: string)
    ensures Whole(a + "\r" + rest, line) == Whole(a + rest, line)
    decreases |a|
  {
    var s := a + "\r" + rest;
    if a == [] {
      assert s[1..] == rest && a + rest == rest;
    } else {
      assert s[1..] == a[1..] + "\r" + rest && (a + rest)[1..] == a[1..] + rest;
      ReturnIsNothing(if a[0] == '\n' then [] else if a[0] == '\r' then line else line + [a[0]], a[1..], rest);
    }
  }

  /** What is handed out of a line that a newline ends: as much of it as leaves room for the zero. */
  lemma {:induction false} LineHandedOut(a: string, rest: string, cap: nat)
    requires cap >= 1 && '\n' !in a && '\r' !in a
    ensures Next(a + "\n" + rest, [], cap) == Line(if |a| < cap then a else a[..cap - 1], rest)
  {
    HandedOut([], a, rest, cap);
    assert [] + a == a;
  }

  lemma {:induction false} HandedOut(line: string, a: string, rest: string, cap: nat)
    requires '\n' !in a && '\r' !in a && |line| < cap
    ensures Next(a + "\n" + rest, line, cap)
         == Line(if |line + a| < cap then line + a else (line + a)[..cap - 1], rest)
    decreases |a|
  {
    var s := a + "\n" + rest;
    if a == [] {
      assert s[1..] == rest && line + a == line;
    } else {
      assert s[1..] == a[1..] + "\n" + rest;
      assert line + [a[0]] + a[1..] == line + a;
      if |line| + 1 < cap {
        HandedOut(line + [a[0]], a[1..], rest, cap);
      } else {
        HandedOut(line, a[1..], rest, cap);
        assert (line + a[1..])[..cap - 1] == line == (line + a)[..cap - 1];
      }
    }
  }

  /** The reader: a buffer, how much of it is filled and handed out, and what the path has still to give. */
  class Reader {
    const buf: array<char>
    var have: nat
    var next: nat
    var source: string

    ghost predicate Valid()
      reads this
    {
      buf.Length == BUFFER && next <= have <= BUFFER
    }

    /** The bytes not handed out yet. */
    ghost function Pending(): string
      requires Valid()
      reads this, buf
    {
      buf[next..have] + source
    }

    constructor (input: string)
      ensures Valid() && fresh(buf) && Pending() == input
    {
      buf := new char[BUFFER];
      have, next, source := 0, 0, input;
    }

    /** One read: as many bytes as the path chooses to give, none only at the end. */
    method Refill()
      requires Valid() && next == have
      modifies this, buf
      ensures Valid() && Pending() == old(Pending()) && (have == 0 <==> old(Pending()) == []) && next == 0
    {
      assert buf[next..have] == [];
      var some: int := *;
      var most := if |source| < BUFFER then |source| else BUFFER;
      var n := if some < 1 then 1 else some;
      if n > most { n := most; }
      var i := 0;
      while i < n
        invariant 0 <= i <= n && buf[..i] == source[..i]
        modifies buf
      {
        buf[i] := source[i];
        i := i + 1;
      }
      have, next := n, 0;
      source := source[n..];
      assert buf[0..n] + source == old(source);
    }

    /** The next byte, reading more when the buffer has been used up; `over` at the end of the input. */
    method GetByte() returns (over: bool, c: char)
      requires Valid()
      modifies this, buf
      ensures Valid()
      ensures if over then old(Pending()) == Pending() == [] else old(Pending()) == [c] + Pending()
    {
      over, c := false, '\0';
      if next >= have {
        Refill();
        if have == 0 { return true, c; }
      }
      c := buf[next];
      assert buf[next..have] == [c] + buf[next + 1..have];
      next := next + 1;
    }

    /** One line into `out`, with a zero after it: its length, or -1 when the input has finished. */
    method GetLine(out: array<char>) returns (len: int)
      requires Valid() && out.Length >= 1 && out != buf
      modifies this, buf, out
      ensures Valid() && -1 <= len < out.Length
      ensures Next(old(Pending()), [], out.Length) == if len < 0 then End else Line(out[..len], Pending())
      ensures len < 0 ==> Pending() == []
      ensures len >= 0 ==> out[len] == '\0'
    {
      hide Next;
      ghost var all := Pending();
      len := 0;
      assert out[..0] == [];
      while true
        invariant Valid() && 0 <= len < out.Length
        invariant Next(all, [], out.Length) == Next(Pending(), out[..len], out.Length)
        decreases |Pending()|
      {
        var over, c := GetByte();
        if over {
          NextOver(out[..len], out.Length);
          if len == 0 { return -1; }
          out[len] := '\0';
          return len;
        }
        NextOne(c, Pending(), out[..len], out.Length);
        if c == '\n' {
          out[len] := '\0';
          return len;
        }
        if c == '\r' { continue; }
        if len + 1 < out.Length {
          ghost var line, left := out[..len], Pending();
          out[len] := c;
          len := len + 1;
          assert out[..len] == line + [c] && Pending() == left;
        }
      }
    }
  }
}
