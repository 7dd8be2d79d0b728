/**
 A structured script written out as text: what each of its lines looks like,
 with any indentation, any blank lines and comments between, and any endings.
 However it is written, it is read as the lines it was written from.
 */
module ShellScript {
  import opened Options
  import opened ShellControl
  import opened ShellText
  import opened Shell

  predicate Blanks(s: string) {
    forall i | 0 <= i < |s| :: s[i] == ' ' || s[i] == '\t'
  }

  /** After some blanks, this word and nothing more of it. */
  predicate Opens(line: string, word: string) {
    exists n :: 0 <= n <= |line| - |word| && WordAt(line, word, n)
  }

  predicate WordAt(line: string, word: string, n: nat)
    requires n + |word| <= |line|
  {
    var end := n + |word|;
    Blanks(line[..n]) && line[n..end] == word && (end == |line| || line[end] == ' ' || line[end] == '\t')
  }

  /** What a line of text can be: it fits the buffer, has no ending inside and no zero. */
  predicate Typed(line: string) {
    OneLine(line) && '\0' !in line
  }

  /** A line that means nothing: blanks, and perhaps a comment after them. */
  predicate Idle(line: string) {
    Blanks(line) || exists n :: 0 <= n < |line| && Blanks(line[..n]) && line[n] == '#'
  }

  predicate CommandLine(line: string) {
    !Idle(line) && !Opens(line, "if") && !Opens(line, "while") && !Opens(line, "else") && !Opens(line, "end")
  }

  /** A line of the text: one that means nothing, or a line of the script with blanks before it and after its word. */
  datatype Item = Idling(text: string) | Saying(line: Line, before: string, after: string)

  function Spoken(i: Item): string {
    match i
    case Idling(text) => text
    case Saying(If(c), before, after) => before + "if" + after + c
    case Saying(While(c), before, after) => before + "while" + after + c
    case Saying(Else, before, after) => before + "else" + after
    case Saying(End, before, after) => before + "end" + after
    case Saying(Command(text), _, _) => text
  }

  /** Blanks where blanks are due, conditions that begin with none, and commands that are no control words. */
  predicate Proper(i: Item) {
    && Typed(Spoken(i))
    && if i.Idling? then Idle(i.text)
       else if i.line.Command? then CommandLine(i.line.text)
       else Blanks(i.before) && Blanks(i.after) && Begins(Condition(i.line), i.after)
  }

  function Condition(l: Line): string {
    match l
    case If(c) => c
    case While(c) => c
    case _ => ""
  }

  /** A condition, if there is one, stands after a blank and begins with none. */
  predicate Begins(c: string, after: string) {
    c == "" || (after != "" && c[0] != ' ' && c[0] != '\t')
  }

  function Texts(items: seq<Item>): (t: seq<string>)
    ensures |t| == |items| && forall k | 0 <= k < |items| :: t[k] == Spoken(items[k])
  {
    seq(|items|, k requires 0 <= k < |items| => Spoken(items[k]))
  }

  /** The lines of the script, as they were. */
  function Said(items: seq<Item>): seq<Line>
    decreases |items|
  {
    if items == [] then []
    else (if items[0].Saying? then [items[0].line] else []) + Said(items[1..])
  }

  /** The whole text: every line with the ending it has, and a last one with none. */
  function Script(items: seq<Item>, ends: seq<Ending>, last: Item): string
    requires |items| == |ends|
  {
    Text(Texts(items), ends, Spoken(last))
  }

  /* ---- one line ---- */

  lemma {:induction false} NoZero(s: string)
    requires '\0' !in s
    ensures CString(s) == s
  {
    if s != [] {
      assert s[0] in s && forall c | c in s[1..] :: c in s;
      NoZero(s[1..]);
    }
  }

  lemma {:induction false} PastBlanks(a: string, s: string)
    requires Blanks(a) && (s == "" || !IsBlank(s[0]))
    ensures SkipBlanks(a + s) == s
  {
    if a == "" {
      assert a + s == s;
    } else {
      assert (a + s)[1..] == a[1..] + s;
      PastBlanks(a[1..], s);
    }
  }

  lemma {:induction false} PastWord(w: string, s: string, most: nat)
    requires (forall i | 0 <= i < |w| :: !IsBlank(w[i])) && (s == "" || IsBlank(s[0])) && |w| <= most
    ensures SkipWord(w + s) == s && TakeWord(w + s, most) == w
    decreases |w|
  {
    if w == "" {
      assert w + s == s;
    } else {
      assert (w + s)[1..] == w[1..] + s;
      PastWord(w[1..], s, most - 1);
      assert w == [w[0]] + w[1..];
    }
  }

  /** A word, and what is after it, wherever it begins. */
  lemma WordIs(before: string, word: string, after: string, rest: string)
    requires Blanks(before) && Blanks(after) && word != "" && |word| <= 9
    requires forall i | 0 <= i < |word| :: !IsBlank(word[i])
    requires rest == "" || (after != "" && !IsBlank(rest[0]))
    ensures var s := before + word + after + rest;
      SkipBlanks(s) == word + (after + rest) && FirstWord(s) == word && AfterWord(s) == rest
  {
    var s, tail := before + word + after + rest, after + rest;
    assert s == before + (word + tail);
    assert (word + tail)[0] == word[0];
    PastBlanks(before, word + tail);
    assert tail == "" || IsBlank(tail[0]);
    PastWord(word, tail, 9);
    PastBlanks(after, rest);
  }

  /** The word a line is taken to begin with is one of nine characters or less exactly when that word stands there. */
  lemma FirstWordOpens(line: string, word: string)
    requires word != "" && |word| < 9 && (forall i | 0 <= i < |word| :: !IsBlank(word[i])) && FirstWord(line) == word
    ensures Opens(line, word)
  {
    var n := BlanksAt(line);
    var rest := line[n..];
    TakenWord(rest, 9);
    var end := n + |word|;
    assert rest[..|word|] == word;
    assert line[n..end] == word;
    assert |word| < |rest| ==> rest[|word|] == line[end];
    assert WordAt(line, word, n);
  }

  /** How many blanks a line begins with. */
  lemma {:induction false} BlanksAt(line: string) returns (n: nat)
    ensures n <= |line| && Blanks(line[..n]) && SkipBlanks(line) == line[n..]
    ensures n < |line| ==> !IsBlank(line[n])
  {
    if line != "" && IsBlank(line[0]) {
      var m := BlanksAt(line[1..]);
      n := m + 1;
      assert line[1..][m..] == line[n..] && line[1..][..m] == line[1..n];
      assert line[..n] == [line[0]] + line[1..n];
    } else {
      n := 0;
    }
  }

  lemma {:induction false} TakenWord(s: string, most: nat)
    ensures var w := TakeWord(s, most);
      && |w| <= |s| && |w| <= most && w == s[..|w|]
      && (|w| < most && |w| < |s| ==> IsBlank(s[|w|]))
    decreases |s|
  {
    if s != [] && !IsBlank(s[0]) && most > 0 { TakenWord(s[1..], most - 1); }
  }

  /** A control line is read as what it says. */
  lemma ControlRead(i: Item)
    requires Proper(i) && i.Saying? && !i.line.Command?
    ensures Meaning(Spoken(i)) == Some(i.line)
  {
    NoZero(Spoken(i));
    match i.line
    case If(c) => WordIs(i.before, "if", i.after, c);
    case While(c) => WordIs(i.before, "while", i.after, c);
    case Else =>
      WordIs(i.before, "else", i.after, "");
      assert i.before + "else" + i.after + "" == Spoken(i);
    case End =>
      WordIs(i.before, "end", i.after, "");
      assert i.before + "end" + i.after + "" == Spoken(i);
  }

  /** A line that means nothing. */
  lemma IdleRead(line: string)
    requires Typed(line) && Idle(line)
    ensures Meaning(line) == None
  {
    NoZero(line);
    if Blanks(line) {
      PastBlanks(line, "");
      assert line + "" == line;
    } else {
      var n :| 0 <= n < |line| && Blanks(line[..n]) && line[n] == '#';
      assert line == line[..n] + line[n..];
      PastBlanks(line[..n], line[n..]);
    }
  }

  /** Any other line is a command, whole. */
  lemma CommandRead(line: string)
    requires Typed(line) && CommandLine(line)
    ensures Meaning(line) == Some(Command(line))
  {
    NoZero(line);
    var n := BlanksAt(line);
    assert line[..|line|] == line;
    assert n < |line| && line[n] != '#' && SkipBlanks(line)[0] == line[n];
    if FirstWord(line) == "if" { FirstWordOpens(line, "if"); }
    if FirstWord(line) == "while" { FirstWordOpens(line, "while"); }
    if FirstWord(line) == "else" { FirstWordOpens(line, "else"); }
    if FirstWord(line) == "end" { FirstWordOpens(line, "end"); }
  }

  lemma ItemRead(i: Item)
    requires Proper(i)
    ensures Meant(Spoken(i)) == if i.Saying? then [i.line] else []
  {
    hide Meaning;
    match i
    case Idling(text) => IdleRead(text);
    case Saying(l, _, _) =>
      if l.Command? { CommandRead(l.text); } else { ControlRead(i); }
  }

  /* ---- the whole text ---- */

  lemma {:induction false} AllRead(items: seq<Item>)
    requires forall k | 0 <= k < |items| :: Proper(items[k])
    ensures Meanings(Texts(items)) == Said(items)
    decreases |items|
  {
    hide Meant, Proper;
    if items != [] {
      ItemRead(items[0]);
      AllRead(items[1..]);
      assert Texts(items)[1..] == Texts(items[1..]);
    }
  }

  /** However a script is written, it is read as the lines it was written from. */
  lemma ScriptRead(items: seq<Item>, ends: seq<Ending>, last: Item)
    requires |items| == |ends| && Proper(last) && forall k | 0 <= k < |items| :: Proper(items[k])
    ensures Parsed(Script(items, ends, last)) == Said(items + [last])
  {
    hide Parsed, Meanings, Meant;
    var lines := Texts(items);
    assert forall k | 0 <= k < |items| :: Typed(Spoken(items[k]));
    hide Proper;
    EndingsDoNotMatter(lines, ends, Spoken(last));
    AllRead(items);
    ItemRead(last);
    SaidLast(items, last);
  }

  lemma {:induction false} SaidLast(items: seq<Item>, last: Item)
    ensures Said(items + [last]) == Said(items) + (if last.Saying? then [last.line] else [])
    decreases |items|
  {
    if items == [] {
      assert items + [last] == [last] && [last][1..] == [];
    } else {
      SaidLast(items[1..], last);
      assert (items + [last])[1..] == items[1..] + [last];
    }
  }

  /** Every script whose lines can be typed at all has a text. */
  lemma {:induction false} Plainly(lines: seq<Line>) returns (items: seq<Item>)
    requires forall k | 0 <= k < |lines| :: Proper(Saying(lines[k], "", " "))
    ensures Said(items) == lines && forall k | 0 <= k < |items| :: Proper(items[k])
    decreases |lines|
  {
    if lines == [] { return []; }
    var rest := Plainly(lines[1..]);
    items := [Saying(lines[0], "", " ")] + rest;
    assert items[1..] == rest;
  }

  /**
   A structured script, however it is written out, run by a session opened on
   its text: what has been issued is what the script means and, with turns
   enough, as much of it as anybody asks for.
   */
  method RunText(text: string, b: Behaviour, turns: nat, ghost p: Block, ghost items: seq<Item>,
                 ghost ends: seq<Ending>, ghost last: Item)
      returns (s: Session)
    requires |items| == |ends| && Proper(last) && forall k | 0 <= k < |items| :: Proper(items[k])
    requires text == Script(items, ends, last) && Said(items + [last]) == Flat(p) && Depth(p) <= 4
    ensures fresh(s) && s.Valid() && s.script == text
    ensures s.past == Exec(p, b, [], |s.past|).past
    ensures forall fuel: nat, n: nat | Reaches(p, b, fuel, n) && turns >= (n + 1) * (|text| + 1) ::
              GotTo(s.Abstract(), b, Exec(p, b, [], fuel))
  {
    hide Parsed, Flat, Said, Exec, Reaches, GotTo;
    s := new Session(text);
    ScriptRead(items, ends, last);
    s.RunScript(b, turns);
  }

  /** Whatever the script means, so many turns of the shell are enough for any given number of its events. */
  lemma TurnsEnough(p: Block, b: Behaviour, fuel: nat, size: nat) returns (n: nat, turns: nat)
    requires Depth(p) <= 4
    ensures Reaches(p, b, fuel, n) && turns == (n + 1) * (size + 1)
  {
    n := LoopReachesMeaning(p, b, fuel);
    turns := (n + 1) * (size + 1);
  }
}
