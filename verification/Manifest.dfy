/**
 Little-endian words, and the manifest: tagged entries, each padded to four
 bytes, written by one tool and walked by another.
 */
module Manifest {

  type Byte = b: int | 0 <= b < 256

  type Bytes = seq<Byte>

  const MANDATORY := 0x8000
  const WORD16 := 0x1_0000
  const WORD32 := 0x1_0000_0000

  /* ---- words ---- */

  function Le16(n: int): (s: Bytes)
    requires 0 <= n < WORD16
    ensures |s| == 2
  {
    [n % 256, n / 256]
  }

  function Le32(n: int): (s: Bytes)
    requires 0 <= n < WORD32
    ensures |s| == 4
  {
    Le16(n % WORD16) + Le16(n / WORD16)
  }

  function Get16(s: Bytes, off: nat): (n: nat)
    requires off + 2 <= |s|
    ensures n < WORD16
  {
    (s[off] as int) + 256 * (s[off + 1] as int)
  }

  function Get32(s: Bytes, off: nat): (n: nat)
    requires off + 4 <= |s|
    ensures n < WORD32
  {
    Get16(s, off) + WORD16 * Get16(s, off + 2)
  }

  function Padding(n: nat): (p: Bytes)
    ensures |p| < 4 && (n + |p|) % 4 == 0
    ensures forall i | 0 <= i < |p| :: p[i] == 0
  {
    if n % 4 == 0 then [] else if n % 4 == 1 then [0, 0, 0] else if n % 4 == 2 then [0, 0] else [0]
  }

  /* ---- entries ---- */

  datatype Entry = Entry(tag: nat, mandatory: bool, payload: Bytes)

  datatype Result<T> = Ok(value: T) | Err

  /** What fits the two 16-bit words an entry begins with. */
  predicate Packs(e: Entry) {
    e.tag < WORD16 && |e.payload| < WORD16
  }

  predicate AllPack(entries: seq<Entry>) {
    forall i | 0 <= i < |entries| :: Packs(entries[i])
  }

  /** The tag with its mandatory bit; a tag that has the bit already keeps it. */
  function Marked(tag: nat, mandatory: bool): (m: nat)
    requires tag < WORD16
    ensures m < WORD16
  {
    if mandatory && tag < MANDATORY then tag + MANDATORY else tag
  }

  function Block(e: Entry): (b: Bytes)
    requires Packs(e)
    ensures |b| % 4 == 0 && |b| >= 4
  {
    Le16(Marked(e.tag, e.mandatory)) + Le16(|e.payload|) + e.payload + Padding(4 + |e.payload|)
  }

  function Blocks(entries: seq<Entry>): (b: Bytes)
    requires AllPack(entries)
    ensures |b| % 4 == 0
    decreases |entries|
  {
    if entries == [] then []
    else
      WholeWords(|Block(entries[0])|, |Blocks(entries[1..])|);
      Block(entries[0]) + Blocks(entries[1..])
  }

  lemma WholeWords(a: nat, b: nat)
    requires a % 4 == 0 && b % 4 == 0
    ensures (a + b) % 4 == 0
  {
  }

  /** The whole manifest, closed by an end tag; no entries, no manifest. */
  function Encoded(entries: seq<Entry>): (b: Bytes)
    requires AllPack(entries)
    ensures |b| % 4 == 0 && (b == [] <==> entries == [])
  {
    if entries == [] then []
    else
      WholeWords(|Blocks(entries)|, 4);
      Blocks(entries) + [0, 0, 0, 0]
  }

  lemma {:induction false} BlocksOneMore(entries: seq<Entry>, e: Entry)
    requires AllPack(entries) && Packs(e)
    ensures Blocks(entries + [e]) == Blocks(entries) + Block(e)
    decreases |entries|
  {
    hide Block;
    if entries == [] {
      assert entries + [e] == [e] && [e][1..] == [];
    } else {
      BlocksOneMore(entries[1..], e);
      assert (entries + [e])[1..] == entries[1..] + [e];
    }
  }

  method Append(out: Bytes, e: Entry) returns (longer: Bytes)
    requires |out| % 4 == 0 && Packs(e)
    ensures longer == out + Block(e)
  {
    var entry := Le16(Marked(e.tag, e.mandatory)) + Le16(|e.payload|) + e.payload;
    longer := out + entry;
    SamePadding(|out|, |entry|);
    longer := longer + Padding(|longer|);
  }

  lemma SamePadding(a: nat, n: nat)
    requires a % 4 == 0
    ensures Padding(a + n) == Padding(n)
  {
  }

  /* ---- the walk ---- */

  /** How a walk ended; `Torn` when the image itself ended inside the module. */
  datatype End = Finished | RanOff | OutOfBytes | BadOffset | Torn | None

  /** Bytes of an image, as many as there are. */
  function Cut(image: Bytes, from: nat, to: nat): Bytes
    requires from <= |image| && from <= to
  {
    image[from..if to < |image| then to else |image|]
  }

  /** One entry read from an image. */
  function EntryAt(image: Bytes, off: nat): Entry
    requires off + 4 <= |image|
  {
    var tag, n := Get16(image, off), Get16(image, off + 2);
    Entry(tag % MANDATORY, tag >= MANDATORY, Cut(image, off + 4, off + 4 + n))
  }

  function Aligned(off: nat): (r: nat)
    ensures r >= off && r % 4 == 0
  {
    off + |Padding(off)|
  }

  /** What the walk finds from an offset on, in a module that says it is `moduleLen` bytes long. */
  function Walked(image: Bytes, off: nat, moduleLen: nat): (seq<Entry>, End)
    decreases moduleLen - off
  {
    if off + 4 > moduleLen then ([], OutOfBytes)
    else if off + 4 > |image| then ([], Torn)
    else if Get16(image, off) % MANDATORY == 0 then ([], Finished)
    else if off + 4 + Get16(image, off + 2) > moduleLen then ([], RanOff)
    else
      var (rest, end) := Walked(image, Aligned(off + 4 + Get16(image, off + 2)), moduleLen);
      ([EntryAt(image, off)] + rest, end)
  }

  /** A module that is all there is never torn. */
  lemma {:induction false} NeverTorn(image: Bytes, off: nat, moduleLen: nat)
    requires moduleLen <= |image|
    ensures Walked(image, off, moduleLen).1 != Torn
    decreases moduleLen - off
  {
    hide EntryAt, Get16, Aligned;
    if off + 4 <= moduleLen && off + 4 + Get16(image, off + 2) <= moduleLen {
      NeverTorn(image, Aligned(off + 4 + Get16(image, off + 2)), moduleLen);
    }
  }

  /** The manifest of an image, entry by entry. */
  method WalkManifest(image: Bytes, start: nat, headerLen: nat, moduleLen: nat) returns (found: seq<Entry>, end: End)
    ensures (found, end) ==
      if start == 0 then ([], None)
      else if start < headerLen || start >= moduleLen then ([], BadOffset)
      else Walked(image, start, moduleLen)
  {
    hide EntryAt, Get16, Aligned;
    found := [];
    if start == 0 { return [], None; }
    if start < headerLen || start >= moduleLen { return [], BadOffset; }
    var off := start;
    assert [] + Walked(image, off, moduleLen).0 == Walked(image, off, moduleLen).0;
    while off + 4 <= moduleLen
      invariant Walked(image, start, moduleLen) ==
        (found + Walked(image, off, moduleLen).0, Walked(image, off, moduleLen).1)
      decreases moduleLen - off
    {
      assert found + [] == found;
      if off + 4 > |image| { return found, Torn; }
      var tag, length := Get16(image, off), Get16(image, off + 2);
      if tag % MANDATORY == 0 { return found, Finished; }
      if off + 4 + length > moduleLen { return found, RanOff; }
      ghost var rest := Walked(image, Aligned(off + 4 + length), moduleLen).0;
      assert found + ([EntryAt(image, off)] + rest) == (found + [EntryAt(image, off)]) + rest;
      found := found + [EntryAt(image, off)];
      off := Aligned(off + 4 + length);
    }
    assert found + [] == found;
    return found, OutOfBytes;
  }

  /* ---- what was written is what is found ---- */

  /** Tags that survive: an entry's own number, neither the end tag nor holding the mandatory bit. */
  predicate Plain(entries: seq<Entry>) {
    forall i | 0 <= i < |entries| :: 0 < entries[i].tag < MANDATORY
  }

  /** `s` has `part` at `off`. */
  predicate Holds(s: Bytes, off: nat, part: Bytes) {
    off + |part| <= |s| && s[off..off + |part|] == part
  }

  lemma HoldsBoth(s: Bytes, off: nat, a: Bytes, b: Bytes)
    requires Holds(s, off, a + b)
    ensures Holds(s, off, a) && Holds(s, off + |a|, b)
  {
    var both := s[off..off + |a + b|];
    assert both[..|a|] == a && both[|a|..] == b;
    assert s[off..off + |a|] == both[..|a|] && s[off + |a|..off + |a| + |b|] == both[|a|..];
  }

  lemma HeldWord16(s: Bytes, off: nat, n: int)
    requires 0 <= n < WORD16 && Holds(s, off, Le16(n))
    ensures Get16(s, off) == n
  {
    assert s[off] == s[off..off + 2][0] && s[off + 1] == s[off..off + 2][1];
  }

  lemma HeldWord32(s: Bytes, off: nat, n: int)
    requires 0 <= n < WORD32 && Holds(s, off, Le32(n))
    ensures Get32(s, off) == n
  {
    HoldsBoth(s, off, Le16(n % WORD16), Le16(n / WORD16));
    HeldWord16(s, off, n % WORD16);
    HeldWord16(s, off + 2, n / WORD16);
  }

  /** An entry is read back as it was written, and the next one is looked for where it stands. */
  lemma EntryBack(s: Bytes, off: nat, e: Entry)
    requires Packs(e) && off % 4 == 0 && Holds(s, off, Block(e))
    ensures off + 4 + |e.payload| <= off + |Block(e)| <= |s|
    ensures Get16(s, off) == Marked(e.tag, e.mandatory) && Get16(s, off + 2) == |e.payload|
    ensures EntryAt(s, off) ==
      Entry(Marked(e.tag, e.mandatory) % MANDATORY, Marked(e.tag, e.mandatory) >= MANDATORY, e.payload)
    ensures Aligned(off + 4 + |e.payload|) == off + |Block(e)|
  {
    HeldParts(s, off, e);
    assert Cut(s, off + 4, off + 4 + |e.payload|) == e.payload;
    hide Block, Le16, Get16, Padding, Marked;
    HeldWord16(s, off, Marked(e.tag, e.mandatory));
    HeldWord16(s, off + 2, |e.payload|);
    SamePadding(off, 4 + |e.payload|);
  }

  lemma HeldParts(s: Bytes, off: nat, e: Entry)
    requires Packs(e) && Holds(s, off, Block(e))
    ensures |Block(e)| == 4 + |e.payload| + |Padding(4 + |e.payload|)| && off + |Block(e)| <= |s|
    ensures Holds(s, off, Le16(Marked(e.tag, e.mandatory))) && Holds(s, off + 2, Le16(|e.payload|))
    ensures Holds(s, off + 4, e.payload)
  {
    var m, n, pad := Le16(Marked(e.tag, e.mandatory)), Le16(|e.payload|), Padding(4 + |e.payload|);
    assert Block(e) == m + (n + (e.payload + pad));
    hide Block, Le16, Padding, Holds, Marked;
    HoldsBoth(s, off, m, n + (e.payload + pad));
    HoldsBoth(s, off + 2, n, e.payload + pad);
    HoldsBoth(s, off + 4, e.payload, pad);
  }

  lemma TagBack(tag: nat, mandatory: bool)
    requires tag < WORD16
    ensures var m := Marked(tag, mandatory);
      (m % MANDATORY == tag && (m >= MANDATORY <==> mandatory)) <==> tag < MANDATORY
    ensures Marked(tag, mandatory) % MANDATORY == 0 <==> tag == 0 || tag == MANDATORY
  {
  }

  /** Entries and the end tag after them. */
  function Closed(entries: seq<Entry>): (b: Bytes)
    requires AllPack(entries)
    ensures |b| == |Blocks(entries)| + 4
  {
    Blocks(entries) + [0, 0, 0, 0]
  }

  lemma ClosedFirst(entries: seq<Entry>)
    requires AllPack(entries) && entries != []
    ensures Closed(entries) == Block(entries[0]) + Closed(entries[1..])
    ensures Plain(entries) <==> 0 < entries[0].tag < MANDATORY && Plain(entries[1..])
  {
    hide Block;
    assert entries == [entries[0]] + entries[1..];
  }

  lemma NoEntries(s: Bytes, off: nat, moduleLen: nat)
    requires Holds(s, off, Closed([])) && off + 4 <= moduleLen <= |s|
    ensures Walked(s, off, moduleLen) == ([], Finished)
  {
    HoldsBoth(s, off, [0, 0], [0, 0]);
    HeldWord16(s, off, 0);
  }

  /** Any number of entries, then an end tag: the walk finds those entries exactly when their tags are plain. */
  lemma {:induction false} BlocksBack(s: Bytes, off: nat, entries: seq<Entry>, moduleLen: nat)
    requires AllPack(entries) && off % 4 == 0 && Holds(s, off, Closed(entries))
    requires off + |Closed(entries)| <= moduleLen <= |s|
    ensures Walked(s, off, moduleLen) == (entries, Finished) <==> Plain(entries)
    decreases |entries|
  {
    hide Block, Blocks, Closed, Walked, Marked, EntryAt, Get16, Aligned, Holds;
    if entries == [] {
      NoEntries(s, off, moduleLen);
    } else {
      hide Plain;
      var e, rest := entries[0], entries[1..];
      ClosedFirst(entries);
      HoldsBoth(s, off, Block(e), Closed(rest));
      EntryBack(s, off, e);
      WholeWords(off, |Block(e)|);
      BlocksBack(s, off + |Block(e)|, rest, moduleLen);
      OneMoreWalked(s, off, moduleLen, entries);
    }
  }

  /** One step of the walk over an entry. */
  lemma OneMoreWalked(s: Bytes, off: nat, moduleLen: nat, entries: seq<Entry>)
    requires entries != [] && Packs(entries[0]) && off + 4 + |entries[0].payload| <= moduleLen <= |s|
    requires var e := entries[0];
      var m := Marked(e.tag, e.mandatory);
      Get16(s, off) == m && Get16(s, off + 2) == |e.payload|
      && EntryAt(s, off) == Entry(m % MANDATORY, m >= MANDATORY, e.payload)
    ensures Walked(s, off, moduleLen) == (entries, Finished) <==>
      0 < entries[0].tag < MANDATORY
      && Walked(s, Aligned(off + 4 + |entries[0].payload|), moduleLen) == (entries[1..], Finished)
  {
    var e := entries[0];
    TagBack(e.tag, e.mandatory);
    hide EntryAt, Get16, Aligned, Marked, Packs;
    var first, next := EntryAt(s, off), Walked(s, Aligned(off + 4 + |e.payload|), moduleLen);
    assert Walked(s, off, moduleLen) ==
      if Marked(e.tag, e.mandatory) % MANDATORY == 0 then ([], Finished) else ([first] + next.0, next.1);
    hide Walked;
    Heads(first, next.0, entries);
  }

  lemma Heads(first: Entry, rest: seq<Entry>, entries: seq<Entry>)
    requires entries != []
    ensures [first] + rest == entries <==> first == entries[0] && rest == entries[1..]
  {
    assert ([first] + rest)[1..] == rest && entries == [entries[0]] + entries[1..];
  }
}
