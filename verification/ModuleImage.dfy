/**
 A module image: a header, a name, a manifest and the code, with a checksum
 over the whole of it, and a store of such images one after another.
 */
module ModuleImage {

  import opened Manifest

  const MAGIC := 0x4D395652
  const HDR_LEN := 40
  const ABI := 1
  const CRC_AT := 32

  type Word = n: int | 0 <= n < 0x1_0000_0000 witness 0

  /** Any checksum will do, as long as it depends only on the bytes. */
  type Checksum = Bytes -> Word

  datatype Fields = Fields(moduleLen: int, nameOff: int, entryOff: int, staticSize: int, stackSize: int,
                           kind: int, revision: int, manifestOff: int)

  /** Every field fits the word the header has for it. */
  predicate FieldsPack(f: Fields) {
    && 0 <= f.moduleLen < WORD32 && 0 <= f.nameOff < WORD32 && 0 <= f.entryOff < WORD32
    && 0 <= f.staticSize < WORD32 && 0 <= f.stackSize < WORD32
    && 0 <= f.kind < 256 && 0 <= f.revision < 256 && 0 <= f.manifestOff < WORD32
  }

  /** The header up to its checksum. */
  function Front(f: Fields): (b: Bytes)
    requires FieldsPack(f)
    ensures |b| == CRC_AT
  {
    Le32(MAGIC) + (Le16(HDR_LEN) + (Le16(ABI) + (Le32(f.moduleLen) + (Le32(f.nameOff) + (Le32(f.entryOff)
    + (Le32(f.staticSize) + (Le32(f.stackSize) + [f.kind, 0, f.revision, 0])))))))
  }

  function Header(f: Fields, crc: Word): (b: Bytes)
    requires FieldsPack(f)
    ensures |b| == HDR_LEN
  {
    Front(f) + (Le32(crc) + Le32(f.manifestOff))
  }

  function Read(s: Bytes): Fields
    requires |s| >= HDR_LEN
  {
    Fields(Get32(s, 8), Get32(s, 12), Get32(s, 16), Get32(s, 20), Get32(s, 24),
           s[28] as int, s[30] as int, Get32(s, 36))
  }

  lemma FrontBack(s: Bytes, f: Fields)
    requires FieldsPack(f) && Holds(s, 0, Front(f))
    ensures Get32(s, 0) == MAGIC && Get32(s, 8) == f.moduleLen && Get32(s, 12) == f.nameOff
    ensures Get32(s, 16) == f.entryOff && Get32(s, 20) == f.staticSize && Get32(s, 24) == f.stackSize
    ensures |s| >= 32 && s[28] as int == f.kind && s[30] as int == f.revision
  {
    var last := [f.kind, 0, f.revision, 0];
    var stack := Le32(f.stackSize) + last;
    var statics := Le32(f.staticSize) + stack;
    var entry := Le32(f.entryOff) + statics;
    var name := Le32(f.nameOff) + entry;
    var length := Le32(f.moduleLen) + name;
    var abi := Le16(ABI) + length;
    var hdr := Le16(HDR_LEN) + abi;
    assert Front(f) == Le32(MAGIC) + hdr;
    hide Front, Le32, Le16, Get32, Holds;
    HoldsBoth(s, 0, Le32(MAGIC), hdr);
    HeldWord32(s, 0, MAGIC);
    HoldsBoth(s, 4, Le16(HDR_LEN), abi);
    HoldsBoth(s, 6, Le16(ABI), length);
    HoldsBoth(s, 8, Le32(f.moduleLen), name);
    HeldWord32(s, 8, f.moduleLen);
    HoldsBoth(s, 12, Le32(f.nameOff), entry);
    HeldWord32(s, 12, f.nameOff);
    HoldsBoth(s, 16, Le32(f.entryOff), statics);
    HeldWord32(s, 16, f.entryOff);
    HoldsBoth(s, 20, Le32(f.staticSize), stack);
    HeldWord32(s, 20, f.staticSize);
    HoldsBoth(s, 24, Le32(f.stackSize), last);
    HeldWord32(s, 24, f.stackSize);
    HeldByte(s, 28, last, 0);
    HeldByte(s, 28, last, 2);
  }

  lemma HeldByte(s: Bytes, off: nat, part: Bytes, i: nat)
    requires Holds(s, off, part) && i < |part|
    ensures off + i < |s| && s[off + i] == part[i]
  {
    assert s[off..off + |part|][i] == part[i];
  }

  /** Every field of the header is read back as it was written. */
  lemma HeaderBack(s: Bytes, f: Fields, crc: Word)
    requires FieldsPack(f) && Holds(s, 0, Header(f, crc))
    ensures |s| >= HDR_LEN && Read(s) == f && Get32(s, 0) == MAGIC && Get32(s, CRC_AT) == crc
  {
    HoldsBoth(s, 0, Front(f), Le32(crc) + Le32(f.manifestOff));
    HoldsBoth(s, CRC_AT, Le32(crc), Le32(f.manifestOff));
    hide Front, Le32, Get32;
    FrontBack(s, f);
    HeldWord32(s, CRC_AT, crc);
    HeldWord32(s, 36, f.manifestOff);
  }

  /* ---- building ---- */

  datatype Source = Source(name: Bytes, kind: int, entryOff: int, staticSize: int, stackSize: int, revision: int,
                           manifest: Bytes, blob: Bytes)

  function NameBytes(name: Bytes): (b: Bytes)
    ensures |b| % 4 == 0 && |b| > |name|
  {
    name + [0] + Padding(|name| + 1)
  }

  function FieldsOf(m: Source): Fields {
    var blobAt := HDR_LEN + |NameBytes(m.name)| + |m.manifest|;
    Fields(blobAt + |m.blob|, HDR_LEN, blobAt + m.entryOff, m.staticSize, m.stackSize, m.kind, m.revision,
           if m.manifest != [] then HDR_LEN + |NameBytes(m.name)| else 0)
  }

  predicate Ascii(name: Bytes) {
    forall i | 0 <= i < |name| :: name[i] < 128
  }

  predicate Buildable(m: Source) {
    Ascii(m.name) && FieldsPack(FieldsOf(m))
  }

  function Body(m: Source): Bytes {
    NameBytes(m.name) + (m.manifest + m.blob)
  }

  /** The image: the checksum in it is that of the same image with none. */
  function Image(m: Source, crc: Checksum): (b: Bytes)
    requires Buildable(m)
    ensures |b| == FieldsOf(m).moduleLen
  {
    var f := FieldsOf(m);
    Header(f, crc(Header(f, 0) + Body(m))) + Body(m)
  }

  /** An image with another word in the place of its checksum. */
  function Stamped(image: Bytes, crc: Word): Bytes
    requires |image| >= CRC_AT + 4
  {
    image[..CRC_AT] + Le32(crc) + image[CRC_AT + 4..]
  }

  lemma StampedHeader(f: Fields, before: Word, crc: Word, rest: Bytes)
    requires FieldsPack(f)
    ensures Stamped(Header(f, before) + rest, crc) == Header(f, crc) + rest
  {
    hide Front, Le32;
    var h := Front(f) + (Le32(before) + Le32(f.manifestOff));
    assert (h + rest)[..CRC_AT] == Front(f);
    assert (h + rest)[CRC_AT + 4..] == Le32(f.manifestOff) + rest;
    assert Header(f, crc) + rest == Front(f) + Le32(crc) + (Le32(f.manifestOff) + rest);
  }

  /** Puts a module together, then its checksum into it. */
  method Build(m: Source, crc: Checksum) returns (r: Result<Bytes>)
    ensures r.Ok? <==> Buildable(m)
    ensures r.Ok? ==> r.value == Image(m, crc)
  {
    if !Ascii(m.name) { return Err; }
    var nameBytes := m.name + [0];
    nameBytes := nameBytes + Padding(|nameBytes|);
    var manifestOff := if m.manifest != [] then HDR_LEN + |nameBytes| else 0;
    var blobAt := HDR_LEN + |nameBytes| + |m.manifest|;
    var f := Fields(blobAt + |m.blob|, HDR_LEN, blobAt + m.entryOff, m.staticSize, m.stackSize, m.kind, m.revision,
                    manifestOff);
    if !FieldsPack(f) { return Err; }
    var image := Header(f, 0) + nameBytes + m.manifest + m.blob;
    assert image == Header(f, 0) + Body(m);
    var sum := crc(image);
    StampedHeader(f, 0, sum, Body(m));
    return Ok(Stamped(image, sum));
  }

  /* ---- reading back ---- */

  datatype Listing = Listing(fields: Fields, name: Bytes, sumOk: bool, entries: seq<Entry>, end: End)

  /** Where the first zero byte is from `from` on, or -1. */
  function ZeroFrom(s: Bytes, from: nat): (r: int)
    ensures r == -1 || (from <= r < |s| && s[r] == 0 && forall i | from <= i < r :: s[i] != 0)
    ensures r == -1 ==> forall i | from <= i < |s| :: s[i] != 0
    decreases |s| - from
  {
    if from >= |s| then -1 else if s[from] == 0 then from else ZeroFrom(s, from + 1)
  }

  function FoundIn(image: Bytes, start: nat, moduleLen: nat): (seq<Entry>, End) {
    if start == 0 then ([], None)
    else if start < HDR_LEN || start >= moduleLen then ([], BadOffset)
    else Walked(image, start, moduleLen)
  }

  /**
   What the reader says of the module at the front of these bytes. A header
   that claims more bytes than there are has its checksum computed from those
   there are; the reader gives up where it runs off them.
   */
  function Shown(s: Bytes, crc: Checksum): (r: Result<Listing>)
    requires |s| >= HDR_LEN
    ensures r.Ok? ==> r.value.fields == Read(s) && CRC_AT + 4 <= r.value.fields.moduleLen
  {
    var f := Read(s);
    if Get32(s, 0) != MAGIC then Err
    else
      var end := ZeroFrom(s, f.nameOff);
      if end < 0 || !Ascii(s[f.nameOff..end]) then Err
      else if f.moduleLen < CRC_AT + 4 then Err
      else
        var found := FoundIn(s, f.manifestOff, f.moduleLen);
        if found.1 == Torn then Err
        else
          var sumOk := crc(Stamped(Cut(s, 0, f.moduleLen), 0)) == Get32(s, CRC_AT);
          Ok(Listing(f, s[f.nameOff..end], sumOk, found.0, found.1))
  }

  method Show(s: Bytes, crc: Checksum) returns (r: Result<Listing>)
    requires |s| >= HDR_LEN
    ensures r == Shown(s, crc)
  {
    hide Walked, Stamped, Get32;
    var f := Read(s);
    if Get32(s, 0) != MAGIC { return Err; }
    var end := ZeroFrom(s, f.nameOff);
    if end < 0 { return Err; }
    var name := s[f.nameOff..end];
    if !Ascii(name) { return Err; }
    var check := Cut(s, 0, f.moduleLen);
    if |check| < CRC_AT + 4 { return Err; }
    var computed := crc(Stamped(check, 0));
    var entries, over := WalkManifest(s, f.manifestOff, HDR_LEN, f.moduleLen);
    if over == Torn { return Err; }
    return Ok(Listing(f, name, computed == Get32(s, CRC_AT), entries, over));
  }

  /** The name is read up to its first zero byte. */
  lemma NameBack(s: Bytes, name: Bytes)
    requires Holds(s, HDR_LEN, NameBytes(name)) && Ascii(name)
    ensures var end := ZeroFrom(s, HDR_LEN);
      end >= HDR_LEN && Ascii(s[HDR_LEN..end]) && (s[HDR_LEN..end] == name <==> 0 !in name)
  {
    NameHeld(s, name);
    hide NameBytes, Holds;
    var end := ZeroFrom(s, HDR_LEN);
    if 0 in name {
      var j :| 0 <= j < |name| && name[j] == 0;
      assert s[HDR_LEN + j] == 0;
      assert end <= HDR_LEN + j;
    } else {
      assert end == HDR_LEN + |name|;
    }
    var got := s[HDR_LEN..end];
    assert |got| <= |name| && forall i | 0 <= i < |got| :: got[i] == name[i];
  }

  lemma NameHeld(s: Bytes, name: Bytes)
    requires Holds(s, HDR_LEN, NameBytes(name))
    ensures |s| > HDR_LEN + |name| && s[HDR_LEN + |name|] == 0
    ensures forall k {:trigger s[k]} | HDR_LEN <= k < HDR_LEN + |name| :: s[k] == name[k - HDR_LEN]
  {
    var b := NameBytes(name);
    var part := s[HDR_LEN..HDR_LEN + |b|];
    assert forall k {:trigger s[k]} | HDR_LEN <= k < HDR_LEN + |b| :: s[k] == part[k - HDR_LEN];
  }

  /** The checksum found in an image is the one the reader computes from it. */
  lemma SumBack(s: Bytes, m: Source, crc: Checksum)
    requires Buildable(m) && Holds(s, 0, Image(m, crc))
    ensures FieldsOf(m).moduleLen <= |s|
    ensures |Cut(s, 0, FieldsOf(m).moduleLen)| == FieldsOf(m).moduleLen >= HDR_LEN
    ensures crc(Stamped(Cut(s, 0, FieldsOf(m).moduleLen), 0)) == Get32(s, CRC_AT)
    ensures Read(s) == FieldsOf(m) && Get32(s, 0) == MAGIC
  {
    var f := FieldsOf(m);
    var sum := crc(Header(f, 0) + Body(m));
    assert Cut(s, 0, f.moduleLen) == Image(m, crc);
    HoldsBoth(s, 0, Header(f, sum), Body(m));
    hide Front, Le32, Header, Get32, Read;
    HeaderBack(s, f, sum);
    StampedHeader(f, sum, 0, Body(m));
  }

  lemma ImageParts(s: Bytes, m: Source, crc: Checksum)
    requires Buildable(m) && Holds(s, 0, Image(m, crc))
    ensures Holds(s, HDR_LEN, NameBytes(m.name)) && Holds(s, HDR_LEN + |NameBytes(m.name)|, m.manifest)
    ensures HDR_LEN + |NameBytes(m.name)| + |m.manifest| <= FieldsOf(m).moduleLen <= |s|
  {
    var f, nb := FieldsOf(m), NameBytes(m.name);
    hide Header, NameBytes, Holds;
    HoldsBoth(s, 0, Header(f, crc(Header(f, 0) + Body(m))), Body(m));
    HoldsBoth(s, HDR_LEN, nb, m.manifest + m.blob);
    HoldsBoth(s, HDR_LEN + |nb|, m.manifest, m.blob);
  }

  /** The manifest is found where the header says it is. */
  lemma ManifestBack(s: Bytes, m: Source, entries: seq<Entry>)
    requires AllPack(entries) && m.manifest == Encoded(entries)
    requires Holds(s, HDR_LEN + |NameBytes(m.name)|, m.manifest)
    requires HDR_LEN + |NameBytes(m.name)| + |m.manifest| <= FieldsOf(m).moduleLen <= |s|
    ensures FieldsOf(m).manifestOff >= 0
    ensures var found := FoundIn(s, FieldsOf(m).manifestOff, FieldsOf(m).moduleLen);
      found.1 != Torn && (found == (entries, if entries == [] then None else Finished) <==> Plain(entries))
  {
    hide NameBytes, Holds, Walked, Blocks, Block, Padding;
    NeverTorn(s, FieldsOf(m).manifestOff, FieldsOf(m).moduleLen);
    var off := HDR_LEN + |NameBytes(m.name)|;
    if entries != [] {
      WholeWords(HDR_LEN, |NameBytes(m.name)|);
      assert m.manifest == Closed(entries);
      BlocksBack(s, off, entries, FieldsOf(m).moduleLen);
    }
  }

  /** A module built with this manifest, at the front of any bytes at all, reads back as what it was built from. */
  lemma BuiltIsShown(s: Bytes, m: Source, entries: seq<Entry>, crc: Checksum)
    requires Buildable(m) && AllPack(entries) && m.manifest == Encoded(entries) && Holds(s, 0, Image(m, crc))
    ensures |s| >= HDR_LEN && Shown(s, crc).Ok?
    ensures var l := Shown(s, crc).value;
      && l.fields == FieldsOf(m) && l.sumOk
      && (l.name == m.name <==> 0 !in m.name)
      && ((l.entries, l.end) == (entries, if entries == [] then None else Finished) <==> Plain(entries))
  {
    hide Header, Body, Image, Holds, Walked, Plain, AllPack;
    ImageParts(s, m, crc);
    SumBack(s, m, crc);
    NameBack(s, m.name);
    ManifestBack(s, m, entries);
    assert FieldsOf(m).nameOff == HDR_LEN && FieldsOf(m).moduleLen > HDR_LEN;
    hide FieldsOf, NameBytes, Ascii, FoundIn, Stamped, Get32, Read, Encoded, Buildable, Cut;
  }

  /* ---- a store of modules ---- */

  function After(found: seq<Listing>, rest: Result<seq<Listing>>): Result<seq<Listing>> {
    if rest.Err? then Err else Ok(found + rest.value)
  }

  lemma AfterTwice(a: seq<Listing>, b: seq<Listing>, rest: Result<seq<Listing>>)
    ensures After(a, After(b, rest)) == After(a + b, rest)
    ensures After([], rest) == rest
    ensures After(a, Ok([])) == Ok(a)
  {
    if rest.Ok? {
      assert a + (b + rest.value) == a + b + rest.value;
      assert [] + rest.value == rest.value;
    }
    assert a + [] == a;
  }

  /** What walking a store from an offset on lists. */
  function Listed(data: Bytes, off: nat, crc: Checksum): Result<seq<Listing>>
    decreases |data| - off
  {
    if off + HDR_LEN > |data| || Get32(data, off) != MAGIC then Ok([])
    else
      var first := Shown(data[off..], crc);
      if first.Err? then Err
      else After([first.value], Listed(data, Aligned(off + first.value.fields.moduleLen), crc))
  }

  /** Lists every module of a store; a store with none is refused. */
  method List(data: Bytes, crc: Checksum) returns (r: Result<seq<Listing>>)
    ensures r == if Listed(data, 0, crc) == Ok([]) then Err else Listed(data, 0, crc)
  {
    hide Shown, Get32, After, Ascii;
    var off, found := 0, [];
    AfterTwice([], [], Listed(data, 0, crc));
    while off + HDR_LEN <= |data|
      invariant off == 0 <==> found == []
      invariant Listed(data, 0, crc) == After(found, Listed(data, off, crc))
      decreases |data| - off
    {
      AfterTwice(found, [], Ok([]));
      if Get32(data, off) != MAGIC { break; }
      var first := Show(data[off..], crc);
      if first.Err? { AfterError(found); return Err; }
      AfterTwice(found, [first.value], Listed(data, Aligned(off + first.value.fields.moduleLen), crc));
      found := found + [first.value];
      off := off + first.value.fields.moduleLen;
      off := off + |Padding(off)|;
    }
    AfterTwice(found, [], Ok([]));
    if off == 0 { return Err; }
    return Ok(found);
  }

  lemma AfterError(found: seq<Listing>)
    ensures After(found, Err) == Err
  {
  }

  datatype Module = Module(source: Source, entries: seq<Entry>)

  /** A module that builds, with a manifest and a name that survive. */
  ghost predicate Sound(b: Module) {
    AllPack(b.entries) && Plain(b.entries) && b.source.manifest == Encoded(b.entries)
    && Buildable(b.source) && 0 !in b.source.name
  }

  /** Modules end to end, each padded to four bytes. */
  function Store(modules: seq<Module>, crc: Checksum): (d: Bytes)
    requires forall i | 0 <= i < |modules| :: Buildable(modules[i].source)
    decreases |modules|
  {
    if modules == [] then []
    else Image(modules[0].source, crc) + Padding(|Image(modules[0].source, crc)|) + Store(modules[1..], crc)
  }

  function ListingOf(b: Module): Listing {
    Listing(FieldsOf(b.source), b.source.name, true, b.entries, if b.entries == [] then None else Finished)
  }

  function Listings(modules: seq<Module>): (l: seq<Listing>)
    ensures |l| == |modules| && forall i | 0 <= i < |modules| :: l[i] == ListingOf(modules[i])
    decreases |modules|
  {
    if modules == [] then [] else [ListingOf(modules[0])] + Listings(modules[1..])
  }

  ghost predicate AllSound(modules: seq<Module>) {
    forall i | 0 <= i < |modules| :: Sound(modules[i])
  }

  /** Nothing more to list: too little left for a header, or no magic number. */
  ghost predicate Over(data: Bytes, off: nat) {
    off + HDR_LEN > |data| || Get32(data, off) != MAGIC
  }

  /** A sound module is shown as its own listing. */
  lemma ModuleShown(data: Bytes, off: nat, b: Module, crc: Checksum)
    requires Sound(b) && Holds(data, off, Image(b.source, crc))
    ensures off + HDR_LEN <= |data| && Get32(data, off) == MAGIC
    ensures Shown(data[off..], crc) == Ok(ListingOf(b)) && ListingOf(b).fields.moduleLen == |Image(b.source, crc)|
  {
    var s, image := data[off..], Image(b.source, crc);
    assert s[..|image|] == data[off..off + |image|];
    SumBack(s, b.source, crc);
    BuiltIsShown(s, b.source, b.entries, crc);
    assert Get32(s, 0) == Get32(data, off);
  }

  lemma NothingListed(data: Bytes, off: nat, crc: Checksum)
    requires Over(data, off)
    ensures Listed(data, off, crc) == Ok(Listings([]))
  {
    hide Get32;
  }

  /** Walking a store lists each of its modules once, in order. */
  lemma {:induction false} StoreListed(data: Bytes, off: nat, modules: seq<Module>, crc: Checksum)
    requires AllSound(modules) && off % 4 == 0 && Holds(data, off, Store(modules, crc))
    requires Over(data, off + |Store(modules, crc)|)
    ensures Listed(data, off, crc) == Ok(Listings(modules))
    decreases |modules|
  {
    hide Image, Shown, Holds, Sound, Padding, Get32, ListingOf, Listed, After, Listings, Over, AllSound, Aligned;
    if modules == [] {
      NothingListed(data, off, crc);
    } else {
      StoreFirst(modules, crc);
      var b, rest, image := modules[0], modules[1..], Image(modules[0].source, crc);
      var pad, others := Padding(|image|), Store(rest, crc);
      var l := ListingOf(b);
      HoldsBoth(data, off, image, pad + others);
      HoldsBoth(data, off + |image|, pad, others);
      ModuleShown(data, off, b, crc);
      NextAligned(off, |image|);
      var next := off + |image| + |pad|;
      assert off + |Store(modules, crc)| == next + |others|;
      StoreListed(data, next, rest, crc);
      OneMoreListed(data, off, l, crc);
      AfterOne(l, Listings(rest));
      assert Listed(data, next, crc) == Ok(Listings(rest));
      assert Aligned(off + l.fields.moduleLen) == next;
      assert Listed(data, off, crc) == After([l], Ok(Listings(rest)));
      assert Listings(modules) == [l] + Listings(rest);
    }
  }

  lemma StoreFirst(modules: seq<Module>, crc: Checksum)
    requires AllSound(modules) && modules != []
    ensures Sound(modules[0]) && Buildable(modules[0].source) && AllSound(modules[1..])
    ensures forall i | 0 <= i < |modules[1..]| :: Buildable(modules[1..][i].source)
    ensures var image := Image(modules[0].source, crc);
      Store(modules, crc) == image + (Padding(|image|) + Store(modules[1..], crc))
    ensures Listings(modules) == [ListingOf(modules[0])] + Listings(modules[1..])
  {
    hide Image, Padding, ListingOf;
    assert Buildable(modules[0].source);
    var image := Image(modules[0].source, crc);
    var a, b, c := image, Padding(|image|), Store(modules[1..], crc);
    assert a + b + c == a + (b + c);
  }

  lemma NextAligned(off: nat, n: nat)
    requires off % 4 == 0
    ensures Aligned(off + n) == off + n + |Padding(n)| && Aligned(off + n) % 4 == 0
  {
    SamePadding(off, n);
  }

  lemma OneMoreListed(data: Bytes, off: nat, l: Listing, crc: Checksum)
    requires off + HDR_LEN <= |data| && Get32(data, off) == MAGIC && Shown(data[off..], crc) == Ok(l)
    ensures l.fields.moduleLen >= 0
    ensures Listed(data, off, crc) == After([l], Listed(data, Aligned(off + l.fields.moduleLen), crc))
  {
    hide Shown, Get32, After;
  }

  lemma AfterOne(l: Listing, rest: seq<Listing>)
    ensures After([l], Ok(rest)) == Ok([l] + rest)
  {
  }
}
