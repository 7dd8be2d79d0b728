/** The module format byte by byte: words, entries, the walk over them, tag numbers and the bytes of values. */
module ManifestLaws {
  import opened Manifest
  import opened ManifestValues

  /** Two bytes, and four, are a number: the lowest comes first. */
  predicate Has16(s: Bytes, at: nat, n: int) {
    at + 2 <= |s| && n == s[at] as int + 256 * (s[at + 1] as int)
  }

  predicate Has32(s: Bytes, at: nat, n: int) {
    at + 4 <= |s|
    && n == s[at] as int + 256 * (s[at + 1] as int) + 65536 * (s[at + 2] as int) + 16777216 * (s[at + 3] as int)
  }

  lemma HalfWritten(s: Bytes, at: nat, n: int)
    requires 0 <= n < WORD16 && Holds(s, at, Le16(n))
    ensures Has16(s, at, n)
  {
    assert s[at..at + 2][0] == s[at] && s[at..at + 2][1] == s[at + 1];
  }

  lemma WordWritten(s: Bytes, at: nat, n: int)
    requires 0 <= n < WORD32 && Holds(s, at, Le32(n))
    ensures Has32(s, at, n)
  {
    HoldsBoth(s, at, Le16(n % WORD16), Le16(n / WORD16));
    hide Le16;
    HalfWritten(s, at, n % WORD16);
    HalfWritten(s, at + 2, n / WORD16);
  }

  lemma WordRead(s: Bytes, at: nat)
    requires at + 4 <= |s|
    ensures Has16(s, at, Get16(s, at)) && Has32(s, at, Get32(s, at))
  {
  }

  /* ---- entries ---- */

  /**
   An entry in bytes: the tag, its highest bit set if it is mandatory; the
   length; the value; and zeros up to four bytes.
   */
  lemma BlockBytes(e: Entry)
    requires Packs(e)
    ensures var b := Block(e);
      && Has16(b, 0, if e.mandatory && e.tag < 0x8000 then e.tag + 0x8000 else e.tag)
      && Has16(b, 2, |e.payload|)
      && |b| % 4 == 0 && 4 + |e.payload| <= |b| < 8 + |e.payload|
      && b[4..4 + |e.payload|] == e.payload
      && forall i | 4 + |e.payload| <= i < |b| :: b[i] == 0
  {
    var b, pad := Block(e), Padding(4 + |e.payload|);
    HeldParts(b, 0, e);
    HalfWritten(b, 0, Marked(e.tag, e.mandatory));
    HalfWritten(b, 2, |e.payload|);
    assert b[4 + |e.payload|..] == pad;
    assert forall i | 4 + |e.payload| <= i < |b| :: b[i] == pad[i - 4 - |e.payload|];
  }

  /** The number in two bytes. */
  function Pair(s: Bytes, at: nat): (n: nat)
    requires at + 2 <= |s|
  {
    s[at] as int + 256 * (s[at + 1] as int)
  }

  /**
   One step of a walk: at `at` stand the tag, with and without its highest bit,
   the length, and as many bytes as that says and there are; the next offset
   is the first multiple of four from there on.
   */
  predicate Step(image: Bytes, moduleLen: nat, at: nat, e: Entry, next: nat) {
    && at + 4 <= |image| && at + 4 + Pair(image, at + 2) <= moduleLen
    && 0 < e.tag < 0x8000 && Pair(image, at) == e.tag + (if e.mandatory then 0x8000 else 0)
    && var end := at + 4 + Pair(image, at + 2);
       && e.payload == (if end <= |image| then image[at + 4..end] else image[at + 4..])
       && end <= next < end + 4 && next % 4 == 0
  }

  /** The offsets a walk visits and the entry it finds at each; it stops at the last. */
  predicate Visits(image: Bytes, moduleLen: nat, offs: seq<nat>, found: seq<Entry>) {
    && |offs| == |found| + 1
    && forall k | 0 <= k < |found| :: Step(image, moduleLen, offs[k], found[k], offs[k + 1])
  }

  /** Why a walk stops at `at`. */
  predicate Stops(image: Bytes, moduleLen: nat, at: nat, end: End) {
    if at + 4 > moduleLen then end == OutOfBytes
    else if at + 4 > |image| then end == Torn
    else if Pair(image, at) == 0 || Pair(image, at) == 0x8000 then end == Finished
    else end == RanOff && at + 4 + Pair(image, at + 2) > moduleLen
  }

  lemma {:induction false} WalkVisits(image: Bytes, off: nat, moduleLen: nat) returns (offs: seq<nat>)
    ensures offs != [] && offs[0] == off
    ensures Visits(image, moduleLen, offs, Walked(image, off, moduleLen).0)
    ensures Stops(image, moduleLen, offs[|offs| - 1], Walked(image, off, moduleLen).1)
    decreases moduleLen - off
  {
    hide Step, Get16, EntryAt, Aligned;
    if off + 4 <= moduleLen && off + 4 <= |image| {
      PairRead(image, off);
      PairRead(image, off + 2);
    }
    if GoesOn(image, off, moduleLen) {
      var next := Aligned(off + 4 + Get16(image, off + 2));
      var rest := WalkVisits(image, next, moduleLen);
      offs := [off] + rest;
      StepTaken(image, moduleLen, off);
      OneMoreVisit(image, moduleLen, off, EntryAt(image, off), rest, Walked(image, next, moduleLen).0);
    } else {
      offs := [off];
      StopsHere(image, off, moduleLen);
    }
  }

  /** An entry that is there, and within the module. */
  predicate GoesOn(image: Bytes, off: nat, moduleLen: nat) {
    && off + 4 <= moduleLen && off + 4 <= |image|
    && Get16(image, off) % MANDATORY != 0 && off + 4 + Get16(image, off + 2) <= moduleLen
  }

  lemma PairRead(image: Bytes, off: nat)
    requires off + 2 <= |image|
    ensures Pair(image, off) == Get16(image, off)
  {
  }

  lemma StopsHere(image: Bytes, off: nat, moduleLen: nat)
    requires !GoesOn(image, off, moduleLen)
    ensures Walked(image, off, moduleLen).0 == [] && Stops(image, moduleLen, off, Walked(image, off, moduleLen).1)
  {
  }

  lemma StepTaken(image: Bytes, moduleLen: nat, off: nat)
    requires GoesOn(image, off, moduleLen)
    ensures Step(image, moduleLen, off, EntryAt(image, off), Aligned(off + 4 + Get16(image, off + 2)))
  {
  }

  lemma OneMoreVisit(image: Bytes, moduleLen: nat, off: nat, e: Entry, rest: seq<nat>, found: seq<Entry>)
    requires rest != [] && Visits(image, moduleLen, rest, found) && Step(image, moduleLen, off, e, rest[0])
    ensures Visits(image, moduleLen, [off] + rest, [e] + found)
  {
    hide Step;
    var offs, all := [off] + rest, [e] + found;
    forall k | 0 <= k < |all| ensures Step(image, moduleLen, offs[k], all[k], offs[k + 1]) {
      if k > 0 {
        assert offs[k] == rest[k - 1] && offs[k + 1] == rest[k] && all[k] == found[k - 1];
      }
    }
  }

  /* ---- tags ---- */

  /** Length and first two letters tell the names apart. */
  function Key(name: string): int {
    if |name| < 2 then 0 else |name| * 65536 + (name[0] as int) * 256 + name[1] as int
  }

  predicate Named(k: nat, key: int) {
    k < TAG_COUNT && Key(Tags()[k]) == key
  }

  lemma Keys1()
    ensures Named(0, 0x3656e) && Named(1, 0x46465) && Named(2, 0x57374) && Named(3, 0x67374)
    ensures Named(4, 0x86865) && Named(5, 0x5636c)
  {
  }

  lemma Keys2()
    ensures Named(6, 0x97065) && Named(7, 0xb6465) && Named(8, 0xc6d69) && Named(9, 0x77763)
    ensures Named(10, 0x66465) && Named(11, 0x96578)
  {
  }

  lemma Keys3()
    ensures Named(12, 0x86661) && Named(13, 0xa6361) && Named(14, 0x8636f) && Named(15, 0x77275)
    ensures Named(16, 0xb6f6e) && Named(17, 0x97075)
  {
  }

  lemma Keys4()
    ensures Named(18, 0x77761) && Named(19, 0x76d65) && Named(20, 0x9706c) && Named(21, 0x76865)
    ensures Named(22, 0x76578)
  {
  }

  lemma NamesDiffer(i: nat, j: nat)
    requires i < TAG_COUNT && j < TAG_COUNT && Tags()[i] == Tags()[j]
    ensures i == j
  {
    hide Tags, Key;
    Keys1();
    Keys2();
    Keys3();
    Keys4();
  }

  lemma PlaceIs(k: nat)
    requires k < TAG_COUNT
    ensures Place(Tags(), Tags()[k]) == k
  {
    hide Tags;
    NamesDiffer(Place(Tags(), Tags()[k]), k);
  }

  /** The name with this number, and the shape of its values. */
  predicate TagIs(name: string, k: nat, shape: Shape) {
    k < TAG_COUNT && Tags()[k] == name && ShapeOf(k) == shape
  }

  /** Sizes. */
  lemma SizeTags()
    ensures TagIs("stack", 2, Number) && TagIs("static", 3, Number) && TagIs("heap_max", 4, Number)
    ensures TagIs("mem_max", 19, Number) && TagIs("ext_max", 22, Number)
  {
  }

  /** Times. */
  lemma TimeTags()
    ensures TagIs("period_us", 6, Number) && TagIs("deadline_us", 7, Number) && TagIs("min_inter_us", 8, Number)
    ensures TagIs("wcet_us", 9, Number)
  {
  }

  /** Values with names of their own. */
  lemma ChoiceTags()
    ensures TagIs("class", 5, Small(["unspecified", "proaction", "reaction", "realtime"]))
    ensures TagIs("on_deadline", 16, Small(["report", "fault"]))
    ensures TagIs("placement", 20, Small(["derived", "urgent", "routine"]))
    ensures TagIs("heap_in", 21, Small(["internal", "external"]))
  {
  }

  /** Texts. */
  lemma TextTags()
    ensures TagIs("desc", 1, Text) && TagIs("device", 10, Text) && TagIs("exclusive", 11, Text)
    ensures TagIs("capability", 13, Text)
  {
  }

  /** More texts, the failsafe, and the end. */
  lemma OtherTags()
    ensures TagIs("compiler", 14, Text) && TagIs("runtime", 15, Text) && TagIs("publishes", 17, Text)
    ensures TagIs("watches", 18, Text) && TagIs("failsafe", 12, Failsafe) && TagIs("end", 0, Closing)
  {
  }

  /* ---- the bytes of values ---- */

  predicate AllBlank(h: Host, s: string) {
    forall i | 0 <= i < |s| :: h.blank(s[i])
  }

  /** Stripping takes blanks off both ends, and all there are. */
  lemma {:induction false} StripIs(h: Host, s: string) returns (front: string, back: string)
    ensures var t := Strip(h, s);
      && s == front + t + back && AllBlank(h, front) && AllBlank(h, back)
      && (t != "" ==> !h.blank(t[0]) && !h.blank(t[|t| - 1]))
    decreases |s|
  {
    front, back := "", "";
    if s != "" && h.blank(s[0]) {
      front, back := StripIs(h, s[1..]);
      front := [s[0]] + front;
    } else if s != "" && h.blank(s[|s| - 1]) {
      front, back := StripIs(h, s[..|s| - 1]);
      back := back + [s[|s| - 1]];
    }
  }

  /** A number is one word. */
  lemma NumberBytes(h: Host, tag: nat, value: string)
    requires tag < TAG_COUNT && ShapeOf(tag) == Number
    ensures var r, n := Payload(h, tag, value), h.parse(value);
      && (r.Ok? <==> n.Ok? && 0 <= n.value < 0x1_0000_0000)
      && (r.Ok? ==> |r.value| == 4 && Has32(r.value, 0, n.value))
  {
    var r := Payload(h, tag, value);
    if r.Ok? {
      assert r.value[0..4] == r.value;
      WordWritten(r.value, 0, h.parse(value).value);
    }
  }

  /** A value with names of its own is one byte: the place of its name, whatever its case, or a number. */
  lemma ChoiceBytes(h: Host, tag: nat, value: string, k: nat)
    requires tag < TAG_COUNT && ShapeOf(tag).Small? && k < 256
    ensures var r, n, names := Payload(h, tag, value), h.parse(value), ShapeOf(tag).names;
      && (r.Ok? ==> |r.value| == 1)
      && (h.lower(value) in names && r.Ok? ==> r.value[0] < |names| && names[r.value[0]] == h.lower(value))
      && (h.lower(value) !in names ==> (r == Ok([k]) <==> n == Ok(k)))
      && (r.Err? <==> h.lower(value) !in names && !(n.Ok? && 0 <= n.value < 256))
  {
    var names := ShapeOf(tag).names;
    var p := Place(names, h.lower(value));
    assert p < |names| ==> names[p] in names;
  }

  /** A text is its bytes, 255 of them at most. */
  lemma TextBytes(h: Host, tag: nat, value: string)
    requires tag < TAG_COUNT && ShapeOf(tag) == Text
    ensures Payload(h, tag, value) == if |h.utf8(value)| <= 255 then Ok(h.utf8(value)) else Err
  {
  }

  /** A failsafe is the number after the last `=` as a word, then the path before it, from the root. */
  lemma FailsafeBytes(h: Host, tag: nat, left: string, right: string)
    requires tag < TAG_COUNT && ShapeOf(tag) == Failsafe && '=' !in right
    ensures var r := Payload(h, tag, left + "=" + right);
      var path, n := Strip(h, left), h.parse(Strip(h, right));
      && (r.Ok? <==> path != "" && path[0] == '/' && n.Ok? && 0 <= n.value < 0x1_0000_0000 && |h.utf8(path)| <= 251)
      && (r.Ok? ==> Has32(r.value, 0, n.value) && r.value[4..] == h.utf8(path))
  {
    hide Strip;
    var value := left + "=" + right;
    assert value[|left|] == '=';
    assert forall i | |left| < i < |value| :: value[i] == right[i - |left| - 1];
    assert LastEquals(value) == |left|;
    assert value[..|left|] == left && value[|left| + 1..] == right;
    var r := Payload(h, tag, value);
    if r.Ok? {
      Le32Back(Setting(h, value).value, h.utf8(Strip(h, left)));
      assert r.value[0..4] == Le32(Setting(h, value).value);
      WordWritten(r.value, 0, Setting(h, value).value);
    }
  }

  /** Without an `=` there is no failsafe. */
  lemma NoFailsafe(h: Host, tag: nat, value: string)
    requires tag < TAG_COUNT && ShapeOf(tag) == Failsafe && '=' !in value
    ensures Payload(h, tag, value).Err?
  {
  }
}
