/** Where everything is in a module image, byte by byte. */
module ImageLaws {
  import opened Manifest
  import opened ManifestLaws
  import opened ModuleImage

  lemma HeldIn(s: Bytes, a: Bytes, part: Bytes, b: Bytes)
    requires s == a + (part + b)
    ensures Holds(s, |a|, part)
  {
    assert s[|a|..|a| + |part|] == part;
  }

  /** The header's fields: each at its own place. */
  lemma HeaderLayout(f: Fields, crc: Word, s: Bytes)
    requires FieldsPack(f) && Holds(s, 0, Header(f, crc))
    ensures s[0..4] == [0x52, 0x56, 0x39, 0x4D]
    ensures Has16(s, 4, 40) && Has16(s, 6, 1)
    ensures Has32(s, 8, f.moduleLen) && Has32(s, 12, f.nameOff) && Has32(s, 16, f.entryOff)
    ensures Has32(s, 20, f.staticSize) && Has32(s, 24, f.stackSize)
    ensures s[28..32] == [f.kind, 0, f.revision, 0]
    ensures Has32(s, 32, crc) && Has32(s, 36, f.manifestOff)
  {
    HoldsBoth(s, 0, Front(f), Le32(crc) + Le32(f.manifestOff));
    HoldsBoth(s, 32, Le32(crc), Le32(f.manifestOff));
    FrontLayout(f, s);
    WordWritten(s, 32, crc);
    WordWritten(s, 36, f.manifestOff);
  }

  lemma FrontLayout(f: Fields, s: Bytes)
    requires FieldsPack(f) && Holds(s, 0, Front(f))
    ensures s[0..4] == [0x52, 0x56, 0x39, 0x4D]
    ensures Has16(s, 4, 40) && Has16(s, 6, 1)
    ensures Has32(s, 8, f.moduleLen) && Has32(s, 12, f.nameOff) && Has32(s, 16, f.entryOff)
    ensures Has32(s, 20, f.staticSize) && Has32(s, 24, f.stackSize)
    ensures s[28..32] == [f.kind, 0, f.revision, 0]
  {
    var last := [f.kind, 0, f.revision, 0];
    var stack := Le32(f.stackSize) + last;
    var statics := Le32(f.staticSize) + stack;
    var entry := Le32(f.entryOff) + statics;
    var name := Le32(f.nameOff) + entry;
    var length := Le32(f.moduleLen) + name;
    var abi := Le16(ABI) + length;
    var hdr := Le16(HDR_LEN) + abi;
    assert Front(f) == Le32(MAGIC) + hdr;
    assert Le32(MAGIC) == [0x52, 0x56, 0x39, 0x4D];
    hide Front, Le32, Le16, Has16, Has32;
    HoldsBoth(s, 0, Le32(MAGIC), hdr);
    HoldsBoth(s, 4, Le16(HDR_LEN), abi);
    HalfWritten(s, 4, HDR_LEN);
    HoldsBoth(s, 6, Le16(ABI), length);
    HalfWritten(s, 6, ABI);
    HoldsBoth(s, 8, Le32(f.moduleLen), name);
    WordWritten(s, 8, f.moduleLen);
    HoldsBoth(s, 12, Le32(f.nameOff), entry);
    WordWritten(s, 12, f.nameOff);
    HoldsBoth(s, 16, Le32(f.entryOff), statics);
    WordWritten(s, 16, f.entryOff);
    HoldsBoth(s, 20, Le32(f.staticSize), stack);
    WordWritten(s, 20, f.staticSize);
    HoldsBoth(s, 24, Le32(f.stackSize), last);
    WordWritten(s, 24, f.stackSize);
  }

  /** Zeros from `a` up to `b`, at least one and at most four, so that `b` is a multiple of four. */
  predicate Closes(s: Bytes, a: nat, b: nat) {
    a < b <= a + 4 && b % 4 == 0 && b <= |s| && forall i | a <= i < b :: s[i] == 0
  }

  /**
   A built image: the header; the name, closed by zeros; the manifest, if there
   is one; and the code to the very end, with the entry point counted from its
   start. The checksum is that of the same bytes with zeros in its place.
   */
  lemma ImageLayout(m: Source, crc: Checksum)
    requires Buildable(m)
    ensures var s := Image(m, crc);
      var after := 40 + |NameBytes(m.name)|;
      && s[0..4] == [0x52, 0x56, 0x39, 0x4D] && Has16(s, 4, 40) && Has16(s, 6, 1)
      && Has32(s, 8, |s|) && Has32(s, 12, 40) && Has32(s, 16, |s| - |m.blob| + m.entryOff)
      && Has32(s, 20, m.staticSize) && Has32(s, 24, m.stackSize) && s[28..32] == [m.kind, 0, m.revision, 0]
      && Has32(s, 32, crc(s[..32] + [0, 0, 0, 0] + s[36..]))
      && Has32(s, 36, if m.manifest == [] then 0 else after)
      && s[40..40 + |m.name|] == m.name && Closes(s, 40 + |m.name|, after)
      && after + |m.manifest| + |m.blob| == |s|
      && s[after..after + |m.manifest|] == m.manifest && s[after + |m.manifest|..] == m.blob
  {
    var f, s, sum := FieldsOf(m), Image(m, crc), crc(Header(FieldsOf(m), 0) + Body(m));
    assert s[0..|s|] == s;
    assert s == Stamped(s, sum) && Stamped(s, 0) == s[..32] + [0, 0, 0, 0] + s[36..] by {
      StampedHeader(f, sum, 0, Body(m));
      StampedHeader(f, sum, sum, Body(m));
      assert Le32(0) == [0, 0, 0, 0];
    }
    StampedHeader(f, sum, 0, Body(m));
    HoldsBoth(s, 0, Header(f, sum), Body(m));
    hide Has16, Has32, Header, Stamped;
    HeaderLayout(f, sum, s);
    ImageParts(s, m, crc);
    NameLayout(m, s);
    BodyLayout(m, crc);
  }

  lemma NameLayout(m: Source, s: Bytes)
    requires Holds(s, 40, NameBytes(m.name))
    ensures s[40..40 + |m.name|] == m.name && Closes(s, 40 + |m.name|, 40 + |NameBytes(m.name)|)
  {
    var name, zeros := m.name, [0] + Padding(|m.name| + 1);
    assert NameBytes(name) == name + zeros;
    HoldsBoth(s, 40, name, zeros);
    assert forall i | 0 <= i < |zeros| :: zeros[i] == 0 && s[40 + |name|..40 + |name| + |zeros|][i] == zeros[i];
    assert forall i | 40 + |name| <= i < 40 + |name| + |zeros| ::
        s[i] == s[40 + |name|..40 + |name| + |zeros|][i - 40 - |name|];
  }

  lemma BodyLayout(m: Source, crc: Checksum)
    requires Buildable(m)
    ensures var s, after := Image(m, crc), 40 + |NameBytes(m.name)|;
      && after + |m.manifest| + |m.blob| == |s|
      && s[after..after + |m.manifest|] == m.manifest && s[after + |m.manifest|..] == m.blob
  {
    hide Header, NameBytes;
    var s, nb := Image(m, crc), NameBytes(m.name);
    var h := Header(FieldsOf(m), crc(Header(FieldsOf(m), 0) + Body(m)));
    assert s == h + (nb + (m.manifest + m.blob));
  }
}
