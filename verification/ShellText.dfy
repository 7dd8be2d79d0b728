/**
 The text of a script: how it is cut into lines and what a line means.

 `Parsed` is the reference: the lines of a text that mean something, whatever
 the chunks it arrives in. A carriage return and a newline each end a line;
 the empty line between the two of a CRLF means nothing.
 */
module ShellText {
  import opened Options
  import opened ShellControl

  const LINE_MAX := 256

  predicate IsEnding(c: char) {
    c == '\n' || c == '\r'
  }

  /** Where the first line ends: at its ending, at the end of the text, or when no more fits. */
  function LineEnd(s: seq<char>): (n: nat)
    ensures n <= |s| && n <= LINE_MAX - 1
    ensures n < |s| && n < LINE_MAX - 1 ==> IsEnding(s[n])
    ensures forall i | 0 <= i < n :: !IsEnding(s[i])
  {
    LineEndFrom(s, 0)
  }

  function LineEndFrom(s: seq<char>, i: nat): (n: nat)
    requires i <= |s| && i <= LINE_MAX - 1
    ensures i <= n <= |s| && n <= LINE_MAX - 1
    ensures n < |s| && n < LINE_MAX - 1 ==> IsEnding(s[n])
    ensures forall j | i <= j < n :: !IsEnding(s[j])
    decreases |s| - i
  {
    if i == |s| || i == LINE_MAX - 1 || IsEnding(s[i]) then i else LineEndFrom(s, i + 1)
  }

  /** Where the next line starts. */
  function NextLine(s: seq<char>): (n: nat)
    requires s != []
    ensures 0 < n <= |s| && LineEnd(s) <= n
  {
    var n := LineEnd(s);
    if n < |s| && n < LINE_MAX - 1 then n + 1 else n
  }

  function CString(s: seq<char>): seq<char> {
    if s == [] || s[0] == '\0' then [] else [s[0]] + CString(s[1..])
  }

  predicate IsBlank(c: char) {
    c == ' ' || c == '\t'
  }

  function SkipBlanks(s: seq<char>): seq<char> {
    if s != [] && IsBlank(s[0]) then SkipBlanks(s[1..]) else s
  }

  function SkipWord(s: seq<char>): seq<char> {
    if s != [] && !IsBlank(s[0]) then SkipWord(s[1..]) else s
  }

  function TakeWord(s: seq<char>, most: nat): seq<char>
    decreases |s|
  {
    if s != [] && !IsBlank(s[0]) && most > 0 then [s[0]] + TakeWord(s[1..], most - 1) else []
  }

  /** The first word, as far as nine characters of it, and whatever follows the word. */
  function FirstWord(s: seq<char>): seq<char> { TakeWord(SkipBlanks(s), 9) }

  function AfterWord(s: seq<char>): seq<char> { SkipBlanks(SkipWord(SkipBlanks(s))) }

  /** Blank lines and comments mean nothing; control words are literal; everything else is a command. */
  function Meaning(line: seq<char>): Option<Line> {
    var s := CString(line);
    var first := SkipBlanks(s);
    if first == [] || first[0] == '#' then None
    else
      var word := FirstWord(s);
      if word == "if" then Some(If(AfterWord(s)))
      else if word == "while" then Some(While(AfterWord(s)))
      else if word == "else" then Some(Else)
      else if word == "end" then Some(End)
      else Some(Command(s))
  }

  function Parsed(s: seq<char>): seq<Line>
    decreases |s|
  {
    if s == [] then []
    else
      var rest := Parsed(s[NextLine(s)..]);
      match Meaning(s[..LineEnd(s)])
      case None => rest
      case Some(l) => [l] + rest
  }

  /** The newline of a CRLF may be left for later: it only starts an empty line. */
  lemma NewlineAloneMeansNothing(s: seq<char>)
    requires s != [] && s[0] == '\n'
    ensures Parsed(s) == Parsed(s[1..])
  {
    assert LineEnd(s) == 0 && NextLine(s) == 1;
    assert s[..0] == [];
  }

  /** A line as long as the buffer is taken as it is; what follows starts another. */
  lemma FullLine(line: seq<char>, rest: seq<char>)
    requires |line| == 255 && forall i | 0 <= i < 255 :: line[i] != '\n' && line[i] != '\r'
    ensures Parsed(line + rest) == Meant(line) + Parsed(rest)
  {
    var s := line + rest;
    assert forall i | 0 <= i < 255 :: s[i] == line[i];
    assert LineEnd(s) == 255 && s[..255] == line && s[255..] == rest;
  }

  /* ---- lines written out, each with an ending of its own ---- */

  datatype Ending = Lf | Cr | CrLf

  function Spelt(e: Ending): seq<char> {
    match e
    case Lf => ['\n']
    case Cr => ['\r']
    case CrLf => ['\r', '\n']
  }

  /** Short enough to be taken whole, and with no ending inside it. */
  predicate OneLine(line: seq<char>) {
    |line| <= 255 && forall i | 0 <= i < |line| :: line[i] != '\n' && line[i] != '\r'
  }

  /** The lines, each with its ending, and then a last one with none. */
  function Text(lines: seq<seq<char>>, ends: seq<Ending>, last: seq<char>): seq<char>
    requires |lines| == |ends|
    decreases |lines|
  {
    if lines == [] then last else lines[0] + Spelt(ends[0]) + Text(lines[1..], ends[1..], last)
  }

  function Meant(line: seq<char>): (r: seq<Line>) {
    match Meaning(line)
    case None => []
    case Some(l) => [l]
  }

  function Meanings(lines: seq<seq<char>>): seq<Line>
    decreases |lines|
  {
    if lines == [] then [] else Meant(lines[0]) + Meanings(lines[1..])
  }

  /** A text that starts with a line and one ending character. */
  lemma ParsedLine(line: seq<char>, c: char, rest: seq<char>)
    requires OneLine(line) && IsEnding(c)
    ensures Parsed(line + [c] + rest) == Meant(line) + Parsed(rest)
  {
    var s := line + [c] + rest;
    Unbroken(s, 0, |line|);
    assert s[..|line|] == line;
    if |line| < LINE_MAX - 1 {
      assert s[|line| + 1..] == rest;
    } else {
      var t := s[|line|..];
      assert t == [c] + rest && t[1..] == rest && t[..0] == [];
      assert LineEnd(t) == 0;
      assert Parsed(t) == Parsed(rest);
    }
  }

  lemma {:induction false} Unbroken(s: seq<char>, i: nat, n: nat)
    requires i <= n <= |s| && n <= LINE_MAX - 1 && (forall j | 0 <= j < n :: !IsEnding(s[j]))
    requires n == |s| || n == LINE_MAX - 1 || IsEnding(s[n])
    ensures LineEndFrom(s, i) == n
    decreases n - i
  {
    if i < n { Unbroken(s, i + 1, n); }
  }

  /** Whatever ending each line has, and whether or not the last has one, the same lines are read. */
  lemma {:induction false} EndingsDoNotMatter(lines: seq<seq<char>>, ends: seq<Ending>, last: seq<char>)
    requires |lines| == |ends| && OneLine(last) && forall i | 0 <= i < |lines| :: OneLine(lines[i])
    ensures Parsed(Text(lines, ends, last)) == Meanings(lines) + Meant(last)
    decreases |lines|
  {
    hide Parsed, Meanings, Meant, OneLine;
    if lines == [] {
      LastLine(last);
    } else {
      var rest := Text(lines[1..], ends[1..], last);
      EndingsDoNotMatter(lines[1..], ends[1..], last);
      FirstMeaning(lines);
      assert Meant(lines[0]) + (Meanings(lines[1..]) + Meant(last)) ==
             Meant(lines[0]) + Meanings(lines[1..]) + Meant(last);
      if ends[0] == CrLf {
        var t := ['\n'] + rest;
        assert Text(lines, ends, last) == lines[0] + ['\r'] + t;
        ParsedLine(lines[0], '\r', t);
        assert t[1..] == rest;
        NewlineAloneMeansNothing(t);
      } else {
        ParsedLine(lines[0], Spelt(ends[0])[0], rest);
      }
    }
  }

  lemma FirstMeaning(lines: seq<seq<char>>)
    requires lines != []
    ensures Meanings(lines) == Meant(lines[0]) + Meanings(lines[1..])
  {
  }

  lemma LastLine(last: seq<char>)
    requires OneLine(last)
    ensures Parsed(last) == Meanings([]) + Meant(last)
  {
    Unbroken(last, 0, |last|);
    if last != [] {
      assert last[..|last|] == last && last[|last|..] == [];
    }
  }
}
