/**
 Manifest values as they are typed and as they are shown. One tool turns the
 text of a value into the bytes its tag calls for; the other turns the bytes
 back into text.
 */
module ManifestValues {
  import opened Numerals
  import opened Manifest

  /** What both tools leave to the language they are written in. */
  datatype Host = Host(parse: string -> Result<int>, lower: string -> string, blank: char -> bool,
                       utf8: string -> Bytes, decode: Bytes -> Result<string>, replaced: Bytes -> string,
                       hex: Bytes -> string)

  /**
   UTF-8: text comes back from its own bytes; a character below 128 is one
   byte, and such a byte is nothing else; and taking bytes off the front takes
   at most as many characters with them.
   */
  ghost predicate Utf8(h: Host) {
    && (forall s :: h.decode(h.utf8(s)) == Ok(s) && h.replaced(h.utf8(s)) == s)
    && h.utf8("") == [] && (forall s :: |h.utf8(s)| >= |s|)
    && (forall s | s != "" && s[0] < 128 as char :: h.utf8(s) == [s[0] as int] + h.utf8(s[1..]))
    && (forall s | h.utf8(s) != [] && h.utf8(s)[0] < 128 :: s != "" && s[0] == h.utf8(s)[0] as char)
    && (forall s, k {:trigger h.utf8(s)[k..]} | 0 <= k <= |h.utf8(s)| :: |h.replaced(h.utf8(s)[k..])| >= |s| - k)
  }

  /** Every tag's name, at its own number. */
  function Tags(): (names: seq<string>)
    ensures |names| == TAG_COUNT
  {
    ["end", "desc", "stack", "static", "heap_max", "class", "period_us", "deadline_us", "min_inter_us", "wcet_us",
     "device", "exclusive", "failsafe", "capability", "compiler", "runtime", "on_deadline", "publishes", "watches",
     "mem_max", "placement", "heap_in", "ext_max"]
  }

  predicate Known(name: string) {
    Place(Tags(), name) < TAG_COUNT
  }

  const CLASSES: seq<string> := ["unspecified", "proaction", "reaction", "realtime"]
  const ON_DEADLINE: seq<string> := ["report", "fault"]
  const PLACEMENT: seq<string> := ["derived", "urgent", "routine"]
  const HEAP_IN: seq<string> := ["internal", "external"]

  const TAG_COUNT := 23
  const HEAP_MAX := 4
  const FAILSAFE := 12
  const TEXT_MAX := 255

  datatype Shape = Closing | Number | Small(names: seq<string>) | Text | Failsafe

  function ShapeOf(tag: nat): (s: Shape)
    requires tag < TAG_COUNT
    ensures s.Small? ==> |s.names| <= 4
  {
    if tag == 0 then Closing
    else if tag in {2, 3, HEAP_MAX, 6, 7, 8, 9, 19, 22} then Number
    else if tag == 5 then Small(CLASSES)
    else if tag == 16 then Small(ON_DEADLINE)
    else if tag == 20 then Small(PLACEMENT)
    else if tag == 21 then Small(HEAP_IN)
    else if tag == FAILSAFE then Failsafe
    else Text
  }

  /** The place of a name, or how many there are. */
  function Place(names: seq<string>, name: string): (k: nat)
    ensures k <= |names| && (k < |names| ==> names[k] == name)
    ensures forall i | 0 <= i < k :: names[i] != name
  {
    if names == [] || names[0] == name then 0 else 1 + Place(names[1..], name)
  }

  /* ---- writing ---- */

  function Pack32(n: int): Result<Bytes> {
    if 0 <= n < WORD32 then Ok(Le32(n)) else Err
  }

  /** The last `=`, or -1. */
  function LastEquals(s: string): (k: int)
    ensures k == -1 || (0 <= k < |s| && s[k] == '=')
    ensures forall i | k < i < |s| :: s[i] != '='
  {
    if s == "" then -1 else if s[|s| - 1] == '=' then |s| - 1 else LastEquals(s[..|s| - 1])
  }

  function Strip(h: Host, s: string): string
    decreases |s|
  {
    if s != "" && h.blank(s[0]) then Strip(h, s[1..])
    else if s != "" && h.blank(s[|s| - 1]) then Strip(h, s[..|s| - 1])
    else s
  }

  /** A failsafe is a path and a number with `=` between them. */
  function Device(h: Host, value: string): string
    requires LastEquals(value) >= 0
  {
    Strip(h, value[..LastEquals(value)])
  }

  function Setting(h: Host, value: string): Result<int>
    requires LastEquals(value) >= 0
  {
    h.parse(Strip(h, value[LastEquals(value) + 1..]))
  }

  /** The bytes of a value of a known tag, if it is one. */
  function Payload(h: Host, tag: nat, value: string): Result<Bytes>
    requires tag < TAG_COUNT
  {
    match ShapeOf(tag)
    case Closing => Err
    case Number => var n := h.parse(value); if n.Err? then Err else Pack32(n.value)
    case Small(names) =>
      var k := Place(names, h.lower(value));
      if k < |names| then Ok([k])
      else
        var n := h.parse(value);
        if n.Ok? && 0 <= n.value < 256 then Ok([n.value]) else Err
    case Text => if |h.utf8(value)| > TEXT_MAX then Err else Ok(h.utf8(value))
    case Failsafe =>
      if LastEquals(value) < 0 then Err
      else
        var path, n := Device(h, value), Setting(h, value);
        if path == "" || path[0] != '/' || n.Err? || Pack32(n.value).Err? || 4 + |h.utf8(path)| > TEXT_MAX then Err
        else Ok(Le32(n.value) + h.utf8(path))
  }

  /** An entry as it is asked for. */
  datatype Spec = Spec(name: string, value: string, mandatory: bool)

  /** A name that is not a known tag's may be a number; its value goes in as text. */
  function EntryOf(h: Host, spec: Spec): (r: Result<Entry>)
    ensures r.Ok? ==> Packs(r.value)
  {
    var tag := Place(Tags(), spec.name);
    var n := h.parse(spec.name);
    var payload := if tag < TAG_COUNT then Payload(h, tag, spec.value) else Ok(h.utf8(spec.value));
    if payload.Err? || (tag == TAG_COUNT && (n.Err? || n.value < 0)) then Err
    else
      var e := Entry(if tag < TAG_COUNT then tag else n.value, spec.mandatory, payload.value);
      if Packs(e) then Ok(e) else Err
  }

  predicate AllWritable(h: Host, specs: seq<Spec>) {
    forall i | 0 <= i < |specs| :: EntryOf(h, specs[i]).Ok?
  }

  function Entries(h: Host, specs: seq<Spec>): (entries: seq<Entry>)
    requires AllWritable(h, specs)
    ensures |entries| == |specs| && AllPack(entries)
    ensures forall i | 0 <= i < |specs| :: entries[i] == EntryOf(h, specs[i]).value
  {
    seq(|specs|, i requires 0 <= i < |specs| => EntryOf(h, specs[i]).value)
  }

  lemma OneMoreWritable(h: Host, specs: seq<Spec>, i: nat)
    requires i < |specs| && AllWritable(h, specs[..i]) && EntryOf(h, specs[i]).Ok?
    ensures AllWritable(h, specs[..i + 1])
    ensures var e := EntryOf(h, specs[i]).value;
      Packs(e) && Blocks(Entries(h, specs[..i + 1])) == Blocks(Entries(h, specs[..i])) + Block(e)
  {
    hide EntryOf, Block, Blocks;
    assert forall j | 0 <= j <= i :: specs[..i + 1][j] == if j < i then specs[..i][j] else specs[i];
    var before, e := Entries(h, specs[..i]), EntryOf(h, specs[i]).value;
    assert Entries(h, specs[..i + 1]) == before + [e];
    BlocksOneMore(before, e);
  }

  /** Appends entry after entry, keeping the length a multiple of four, unless one of them cannot be written. */
  method EncodeManifest(h: Host, specs: seq<Spec>) returns (r: Result<Bytes>)
    ensures r.Ok? <==> AllWritable(h, specs)
    ensures r.Ok? ==> r.value == Encoded(Entries(h, specs))
  {
    hide Block, EntryOf, Entries;
    var out: Bytes := [];
    for i := 0 to |specs|
      invariant AllWritable(h, specs[..i]) && out == Blocks(Entries(h, specs[..i]))
    {
      var e := EntryOf(h, specs[i]);
      if e.Err? { return Err; }
      OneMoreWritable(h, specs, i);
      out := Append(out, e.value);
    }
    assert specs[..|specs|] == specs;
    if out != [] { out := out + (Le16(0) + Le16(0)); }
    return Ok(out);
  }

  /* ---- reading ---- */

  /** A value as the reader shows it. */
  function Shown(h: Host, tag: nat, raw: Bytes): string {
    var shape := if tag < TAG_COUNT then ShapeOf(tag) else Text;
    if shape.Failsafe? && |raw| >= 5 then h.replaced(raw[4..]) + " = " + Decimal(Get32(raw, 0))
    else if shape.Number? && |raw| == 4 then
      if tag == HEAP_MAX && Get32(raw, 0) == 0 then "0 (no heap at all)" else Decimal(Get32(raw, 0))
    else if shape.Small? && |raw| == 1 then
      if raw[0] < |shape.names| then shape.names[raw[0]] else Decimal(raw[0])
    else if h.decode(raw).Ok? then h.decode(raw).value
    else h.hex(raw)
  }

  /** What a value typed for a tag is to be shown as, going by the text alone. */
  function Meant(h: Host, tag: nat, value: string): string {
    var shape := if tag < TAG_COUNT then ShapeOf(tag) else Text;
    match shape
    case Closing => ""
    case Number => if tag == HEAP_MAX && Typed(h, value) == 0 then "0 (no heap at all)" else Decimal(Typed(h, value))
    case Small(names) =>
      if h.lower(value) in names then h.lower(value)
      else if Typed(h, value) < |names| then names[Typed(h, value)]
      else Decimal(Typed(h, value))
    case Text => value
    case Failsafe =>
      if LastEquals(value) < 0 || Setting(h, value).Err? || Setting(h, value).value < 0 then ""
      else Device(h, value) + " = " + Decimal(Setting(h, value).value)
  }

  function Typed(h: Host, value: string): nat {
    var n := h.parse(value);
    if n.Ok? && n.value >= 0 then n.value else 0
  }

  lemma Le32Back(n: int, rest: Bytes)
    requires 0 <= n < WORD32
    ensures Get32(Le32(n) + rest, 0) == n && (Le32(n) + rest)[4..] == rest
  {
    var s := Le32(n) + rest;
    assert s[0..4] == Le32(n);
    HeldWord32(s, 0, n);
  }

  lemma PathThere(h: Host, path: string)
    requires Utf8(h) && path != ""
    ensures h.replaced(h.utf8(path)) == path && h.utf8(path) != []
  {
    assert |h.utf8(path)| >= |path|;
  }

  lemma ComesBack(h: Host, s: string)
    requires Utf8(h)
    ensures h.decode(h.utf8(s)) == Ok(s) && h.replaced(h.utf8(s)) == s
  {
  }

  /** Every value that can be written for a known tag is shown as it was meant. */
  lemma ValueShown(h: Host, tag: nat, value: string)
    requires Utf8(h) && tag < TAG_COUNT && Payload(h, tag, value).Ok?
    ensures Shown(h, tag, Payload(h, tag, value).value) == Meant(h, tag, value)
  {
    hide Utf8;
    var raw := Payload(h, tag, value).value;
    match ShapeOf(tag)
    case Number =>
      Le32Back(h.parse(value).value, []);
      assert raw + [] == raw;
    case Small(names) =>
      if h.lower(value) in names {
        assert Place(names, h.lower(value)) < |names|;
      }
    case Text =>
      ComesBack(h, value);
    case Failsafe =>
      var path := Device(h, value);
      Le32Back(Setting(h, value).value, h.utf8(path));
      PathThere(h, path);
  }

  /* ---- tags asked for by number ---- */

  /** The number a tag is asked for by, in its name or outright. */
  function Asked(h: Host, spec: Spec): int {
    if Known(spec.name) then Place(Tags(), spec.name)
    else if h.parse(spec.name).Ok? then h.parse(spec.name).value
    else -1
  }

  /** What is to be shown: a value of its tag's own kind or, when the tag was given as a number, the text as typed. */
  function Intended(h: Host, spec: Spec): string {
    if Known(spec.name) then Meant(h, Place(Tags(), spec.name), spec.value) else spec.value
  }

  /** So many bytes are what a value of this tag's own kind takes. */
  predicate Recognised(tag: nat, bytes: nat)
    requires tag < TAG_COUNT
  {
    match ShapeOf(tag)
    case Closing => false
    case Number => bytes == 4
    case Small(_) => bytes == 1
    case Text => false
    case Failsafe => bytes >= 5
  }

  /** A known tag given as a number, with a text just as long as a value of the tag's own kind. */
  predicate Mistaken(h: Host, spec: Spec) {
    !Known(spec.name) && 0 <= Asked(h, spec) < TAG_COUNT && Recognised(Asked(h, spec), |h.utf8(spec.value)|)
  }

  /** A byte below 128 at the front is the first character. */
  lemma Peel(h: Host, s: string)
    requires Utf8(h) && h.utf8(s) != [] && h.utf8(s)[0] < 128
    ensures s != "" && s[0] == h.utf8(s)[0] as char && h.utf8(s)[1..] == h.utf8(s[1..])
  {
    assert s[0] < 128 as char;
    assert h.utf8(s) == [s[0] as int] + h.utf8(s[1..]);
  }

  lemma {:induction false} DigitBytes(h: Host, s: string)
    requires Utf8(h) && AllDigits(s)
    ensures |h.utf8(s)| == |s| && forall i | 0 <= i < |s| :: h.utf8(s)[i] == s[i] as int
    decreases |s|
  {
    if s != "" {
      DigitBytes(h, s[1..]);
      assert h.utf8(s) == [s[0] as int] + h.utf8(s[1..]);
      assert forall i | 0 < i < |s| :: h.utf8(s)[i] == h.utf8(s[1..])[i - 1] && s[i] == s[1..][i - 1];
    }
  }

  lemma FourDigits(h: Host, s: string)
    requires Utf8(h) && AllDigits(s) && |h.utf8(s)| == 4
    ensures |s| == 4 && Get32(h.utf8(s), 0) >= 10000
  {
    DigitBytes(h, s);
    assert h.utf8(s)[3] == s[3] as int >= 48;
  }

  /** Four bytes of text, read as a number, have more digits than four. */
  lemma NumberMistaken(h: Host, tag: nat, value: string)
    requires Utf8(h) && tag < TAG_COUNT && ShapeOf(tag).Number? && |h.utf8(value)| == 4
    ensures Shown(h, tag, h.utf8(value)) != value
  {
    var n := Get32(h.utf8(value), 0);
    assert Power10(2) == 100 && Power10(4) == 10000;
    assert |h.utf8(value)| >= |value|;
    if value == Decimal(n) {
      FourDigits(h, value);
      HowManyDigits(n, 4);
    }
  }

  lemma LongNames(tag: nat, k: nat)
    requires tag < TAG_COUNT && ShapeOf(tag).Small? && k < |ShapeOf(tag).names|
    ensures |ShapeOf(tag).names[k]| > 1
  {
    assert ShapeOf(tag).names in {CLASSES, ON_DEADLINE, PLACEMENT, HEAP_IN};
  }

  lemma OneDigitByte(h: Host, s: string)
    requires Utf8(h) && AllDigits(s) && |h.utf8(s)| == 1
    ensures |s| == 1 && h.utf8(s)[0] >= 48
  {
    DigitBytes(h, s);
    assert h.utf8(s)[0] == s[0] as int;
  }

  /** One byte of text, read as a number or for a name, is never that number or that name. */
  lemma SmallMistaken(h: Host, tag: nat, value: string)
    requires Utf8(h) && tag < TAG_COUNT && ShapeOf(tag).Small? && |h.utf8(value)| == 1
    ensures Shown(h, tag, h.utf8(value)) != value
  {
    var b := h.utf8(value)[0];
    assert |h.utf8(value)| >= |value|;
    assert Power10(1) == 10;
    if b < |ShapeOf(tag).names| {
      LongNames(tag, b);
    } else if value == Decimal(b) {
      OneDigitByte(h, value);
      HowManyDigits(b, 1);
    }
  }

  /** Nothing is its own ending and four small characters before it, and also has a space in it. */
  lemma NoEcho(value: string, rest: string, front: string, end: string)
    requires |front| == 4 && |end| == 4 && end[0] == ' '
    requires forall i | 0 <= i < 4 :: front[i] < 10 as char
    requires value == front + rest
    ensures value != rest + end
  {
    assert (rest + end)[|rest|] == ' ';
    if value == rest + end { AllSmall(value, rest, front, end, |rest|); }
  }

  lemma {:induction false} AllSmall(value: string, rest: string, front: string, end: string, i: nat)
    requires |front| == 4 && value == front + rest == rest + end && i < |value|
    requires forall i | 0 <= i < 4 :: front[i] < 10 as char
    ensures value[i] < 10 as char
    decreases i
  {
    if i < 4 {
      assert value[i] == front[i];
    } else {
      assert value[i] == rest[i - 4] == value[i - 4];
      AllSmall(value, rest, front, end, i - 4);
    }
  }

  /** The first four characters, when the first four bytes come to less than ten. */
  lemma PeelFour(h: Host, s: string)
    requires Utf8(h) && |h.utf8(s)| >= 4 && Get32(h.utf8(s), 0) < 10
    ensures |s| >= 4 && h.replaced(h.utf8(s)[4..]) == s[4..]
    ensures forall i | 0 <= i < 4 :: s[i] < 10 as char
  {
    hide Utf8;
    var raw := h.utf8(s);
    assert raw[0] < 10 && raw[1] == raw[2] == raw[3] == 0;
    PeelMany(h, s, 4);
    ComesBack(h, s[4..]);
  }

  /** Small bytes at the front are as many small characters. */
  lemma {:induction false} PeelMany(h: Host, s: string, k: nat)
    requires Utf8(h) && k <= |h.utf8(s)| && forall i | 0 <= i < k :: h.utf8(s)[i] < 10
    ensures k <= |s| && h.utf8(s)[k..] == h.utf8(s[k..])
    ensures forall i | 0 <= i < k :: s[i] < 10 as char
    decreases k
  {
    hide Utf8;
    var raw := h.utf8(s);
    if k == 0 {
      assert s[0..] == s && raw[0..] == raw;
    } else {
      Peel(h, s);
      var rest := s[1..];
      assert h.utf8(rest) == raw[1..];
      PeelMany(h, rest, k - 1);
      assert rest[k - 1..] == s[k..] && raw[1..][k - 1..] == raw[k..];
      assert forall i | 0 < i < k :: s[i] == rest[i - 1];
    }
  }

  lemma FewerLost(h: Host, s: string, k: nat)
    requires Utf8(h) && k <= |h.utf8(s)|
    ensures |h.replaced(h.utf8(s)[k..])| >= |s| - k
  {
  }

  /** Five bytes of text or more, read as a number and a path, are never shown as they were. */
  lemma FailsafeMistaken(h: Host, tag: nat, value: string)
    requires Utf8(h) && tag == FAILSAFE && |h.utf8(value)| >= 5
    ensures Shown(h, tag, h.utf8(value)) != value
  {
    hide Utf8, Decimal;
    var raw := h.utf8(value);
    var n, path := Get32(raw, 0), h.replaced(raw[4..]);
    FewerLost(h, value, 4);
    assert Shown(h, tag, raw) == path + " = " + Decimal(n);
    assert Power10(1) == 10;
    HowManyDigits(n, 1);
    if n < 10 {
      PeelFour(h, value);
      var end := " = " + Decimal(n);
      assert value == value[..4] + path && path + " = " + Decimal(n) == path + end;
      NoEcho(value, path, value[..4], end);
    }
  }

  /**
   An entry is shown as it was meant, unless a known tag was given as a number
   and the text is as long as a value of the tag's own kind: then never.
   */
  lemma SpecShown(h: Host, spec: Spec)
    requires Utf8(h) && EntryOf(h, spec).Ok?
    ensures var e := EntryOf(h, spec).value;
      && e.tag == Asked(h, spec) && e.mandatory == spec.mandatory
      && (Shown(h, e.tag, e.payload) == Intended(h, spec) <==> !Mistaken(h, spec))
  {
    hide Tags, Payload, Shown, Meant;
    if Known(spec.name) {
      ValueShown(h, Place(Tags(), spec.name), spec.value);
    } else {
      NumberedShown(h, Asked(h, spec), spec.value);
    }
  }

  /** A text written under a number. */
  lemma NumberedShown(h: Host, tag: nat, value: string)
    requires Utf8(h)
    ensures Shown(h, tag, h.utf8(value)) == value <==> !(tag < TAG_COUNT && Recognised(tag, |h.utf8(value)|))
  {
    hide Utf8, Decimal, Get32;
    if tag < TAG_COUNT && Recognised(tag, |h.utf8(value)|) {
      match ShapeOf(tag)
      case Number => NumberMistaken(h, tag, value);
      case Small(_) => SmallMistaken(h, tag, value);
      case Failsafe => FailsafeMistaken(h, tag, value);
    } else {
      ComesBack(h, value);
    }
  }

  /** `deadline_us` given as the number 8 with the text `1000`: four bytes, shown as another number. */
  lemma NumberedExample(h: Host)
    requires Utf8(h)
    ensures Shown(h, 8, h.utf8("1000")) != "1000"
  {
    DigitBytes(h, "1000");
    NumberMistaken(h, 8, "1000");
  }

  /**
   What was typed is what is shown. The entries are found, all of them and in
   their order, exactly when every tag is a known name or a number from 1 to
   0x7FFF; and each is under its tag, with its mark, and shows what was meant
   exactly when it is not mistaken for a value of its tag's own kind.
   */
  lemma SpecsShown(h: Host, specs: seq<Spec>, image: Bytes, off: nat, moduleLen: nat)
    requires Utf8(h) && AllWritable(h, specs)
    requires off % 4 == 0 && Holds(image, off, Closed(Entries(h, specs)))
    requires off + |Closed(Entries(h, specs))| <= moduleLen <= |image|
    ensures var entries := Entries(h, specs);
      && (Walked(image, off, moduleLen) == (entries, Finished) <==>
            forall i | 0 <= i < |specs| :: 0 < Asked(h, specs[i]) < MANDATORY)
      && forall i | 0 <= i < |specs| ::
           && entries[i].tag == Asked(h, specs[i]) && entries[i].mandatory == specs[i].mandatory
           && (Shown(h, entries[i].tag, entries[i].payload) == Intended(h, specs[i]) <==> !Mistaken(h, specs[i]))
  {
    hide EntryOf, Shown, Intended, Mistaken, Asked, Utf8, Closed, Walked, Holds;
    var entries := Entries(h, specs);
    forall i | 0 <= i < |specs|
      ensures entries[i].tag == Asked(h, specs[i]) && entries[i].mandatory == specs[i].mandatory
      ensures Shown(h, entries[i].tag, entries[i].payload) == Intended(h, specs[i]) <==> !Mistaken(h, specs[i])
    {
      SpecShown(h, specs[i]);
    }
    BlocksBack(image, off, entries, moduleLen);
  }
}
