/**
 What the flash cache means, without saying how it is kept.

 A handful of erase blocks are held in memory in front of NOR flash. The
 `View` is the disk a caller sees: a byte whose block is held comes from the
 slot, any other byte from the flash. `Coherent` is the invariant every
 operation of the driver keeps; the lemmas say which changes leave the view
 alone and which single change a write makes.
 */
module FlashCache {
  import opened RamDisk

  const ERASE_SIZE := 4096
  const SECTORS_PER_ERASE := 8
  const FLUSH_IDLE_MS := 50

  datatype Slot = Slot(valid: bool, dirty: bool, block: nat, touched: nat, data: seq<bv8>)

  ghost predicate Holds(slots: seq<Slot>, k: int, block: nat) {
    0 <= k < |slots| && slots[k].valid && slots[k].block == block
  }

  /** Every slot is a whole block, and no block is held twice. */
  ghost predicate Distinct(slots: seq<Slot>) {
    && (forall k | 0 <= k < |slots| :: |slots[k].data| == ERASE_SIZE)
    && forall j, k | 0 <= j < k < |slots| && slots[j].valid && slots[k].valid ::
         slots[j].block != slots[k].block
  }

  /** Byte `j` of erase block `block`. */
  ghost function BlockByte(flash: seq<bv8>, block: nat, j: nat): bv8
    requires (block + 1) * ERASE_SIZE <= |flash| && j < ERASE_SIZE
  {
    flash[block * ERASE_SIZE + j]
  }

  ghost predicate SameAsFlash(flash: seq<bv8>, s: Slot)
    requires |s.data| == ERASE_SIZE
  {
    && (s.block + 1) * ERASE_SIZE <= |flash|
    && forall j | 0 <= j < ERASE_SIZE :: BlockByte(flash, s.block, j) == s.data[j]
  }

  /** The invariant: distinct blocks, dirty only when valid, clean slots agree with the flash. */
  ghost predicate Coherent(flash: seq<bv8>, slots: seq<Slot>) {
    && |flash| % ERASE_SIZE == 0
    && Distinct(slots)
    && (forall k | 0 <= k < |slots| && slots[k].valid :: (slots[k].block + 1) * ERASE_SIZE <= |flash|)
    && (forall k | 0 <= k < |slots| && slots[k].dirty :: slots[k].valid)
    && (forall k | 0 <= k < |slots| && slots[k].valid && !slots[k].dirty :: SameAsFlash(flash, slots[k]))
  }

  /** The first slot holding `block`, or -1. */
  ghost function Find(slots: seq<Slot>, block: nat): (r: int)
    ensures -1 <= r < |slots|
    ensures r == -1 <==> !exists k :: Holds(slots, k, block)
    ensures r >= 0 ==> Holds(slots, r, block)
    ensures r >= 0 ==> forall k | 0 <= k < r :: !Holds(slots, k, block)
  {
    if slots == [] then -1
    else
      var rest := slots[..|slots| - 1];
      var r := Find(rest, block);
      assert forall k :: Holds(rest, k, block) <==> k < |slots| - 1 && Holds(slots, k, block);
      if r >= 0 then r
      else if Holds(slots, |slots| - 1, block) then |slots| - 1
      else -1
  }

  ghost function ViewByte(flash: seq<bv8>, slots: seq<Slot>, i: nat): bv8
    requires i < |flash| && Distinct(slots)
  {
    var k := Find(slots, i / ERASE_SIZE);
    if k >= 0 then slots[k].data[i % ERASE_SIZE] else flash[i]
  }

  /** The disk a caller sees. */
  ghost function View(flash: seq<bv8>, slots: seq<Slot>): (v: seq<bv8>)
    requires Distinct(slots)
    ensures |v| == |flash|
    ensures forall i | 0 <= i < |v| :: v[i] == ViewByte(flash, slots, i)
  {
    seq(|flash|, i requires 0 <= i < |flash| => ViewByte(flash, slots, i))
  }

  /** Blocks are held once, so any holder is the one `Find` finds. */
  lemma FindUnique(slots: seq<Slot>, k: int, block: nat)
    requires Distinct(slots) && Holds(slots, k, block)
    ensures Find(slots, block) == k
  {
  }

  /** Two caches that hold the same blocks with the same bytes look alike. */
  lemma SameHoldings(a: seq<Slot>, b: seq<Slot>, block: nat)
    requires Distinct(a) && Distinct(b) && |a| == |b|
    requires forall k | 0 <= k < |a| ::
               a[k].valid == b[k].valid && (a[k].valid ==> a[k].block == b[k].block)
    ensures Find(a, block) == Find(b, block)
  {
    assert forall k :: Holds(a, k, block) <==> Holds(b, k, block);
  }

  /** Nothing done to the flash behind a held block, not even leaving it arbitrary, can be seen. */
  lemma BehindASlot(flash: seq<bv8>, flash': seq<bv8>, slots: seq<Slot>, k: int)
    requires Distinct(slots) && 0 <= k < |slots| && slots[k].valid
    requires |flash'| == |flash|
    requires forall i | 0 <= i < |flash| && i / ERASE_SIZE != slots[k].block :: flash'[i] == flash[i]
    ensures View(flash', slots) == View(flash, slots)
  {
    forall i | 0 <= i < |flash|
      ensures ViewByte(flash', slots, i) == ViewByte(flash, slots, i)
    {
      if i / ERASE_SIZE == slots[k].block {
        FindUnique(slots, k, i / ERASE_SIZE);
      }
    }
  }

  /** Working on the flash behind a dirty slot, and failing half way, keeps the cache coherent. */
  lemma Behind(flash: seq<bv8>, flash': seq<bv8>, slots: seq<Slot>, k: int)
    requires Coherent(flash, slots) && 0 <= k < |slots| && slots[k].valid && slots[k].dirty
    requires |flash'| == |flash|
    requires var off := slots[k].block * ERASE_SIZE;
             flash'[..off] == flash[..off] && flash'[off + ERASE_SIZE..] == flash[off + ERASE_SIZE..]
    ensures Coherent(flash', slots)
    ensures View(flash', slots) == View(flash, slots)
  {
    var off := slots[k].block * ERASE_SIZE;
    forall i | 0 <= i < |flash| && i / ERASE_SIZE != slots[k].block
      ensures flash'[i] == flash[i]
    {
      if i < off {
        assert flash'[..off][i] == flash[..off][i];
      } else {
        assert flash'[off + ERASE_SIZE..][i - off - ERASE_SIZE] == flash[off + ERASE_SIZE..][i - off - ERASE_SIZE];
      }
    }
    BehindASlot(flash, flash', slots, k);
    forall m | 0 <= m < |slots| && slots[m].valid && !slots[m].dirty
      ensures SameAsFlash(flash', slots[m])
    {
      assert SameAsFlash(flash, slots[m]);
      forall j | 0 <= j < ERASE_SIZE
        ensures BlockByte(flash', slots[m].block, j) == slots[m].data[j]
      {
        assert BlockByte(flash, slots[m].block, j) == slots[m].data[j];
      }
    }
  }

  /** The slots once slot `k` has been put back. */
  ghost function Cleaned(slots: seq<Slot>, k: nat): seq<Slot>
    requires k < |slots|
  {
    if slots[k].valid then slots[k := slots[k].(dirty := false)] else slots
  }

  ghost function Block(flash: seq<bv8>, block: nat): (r: seq<bv8>)
    requires (block + 1) * ERASE_SIZE <= |flash|
    ensures |r| == ERASE_SIZE
  {
    flash[block * ERASE_SIZE..block * ERASE_SIZE + ERASE_SIZE]
  }

  lemma BlockSlice(flash: seq<bv8>, s: Slot)
    requires |s.data| == ERASE_SIZE && (s.block + 1) * ERASE_SIZE <= |flash|
    ensures Block(flash, s.block) == s.data <==> SameAsFlash(flash, s)
  {
    if Block(flash, s.block) == s.data {
      forall j | 0 <= j < ERASE_SIZE ensures BlockByte(flash, s.block, j) == s.data[j] {
        assert Block(flash, s.block)[j] == s.data[j];
      }
    }
    if SameAsFlash(flash, s) {
      assert forall j | 0 <= j < ERASE_SIZE :: Block(flash, s.block)[j] == BlockByte(flash, s.block, j);
      assert Block(flash, s.block) == s.data;
    }
  }

  /** Some byte of this dirty slot sets a bit the flash has cleared. */
  ghost predicate NeedsErase(flash: seq<bv8>, s: Slot) {
    && s.valid && s.dirty
    && |s.data| == ERASE_SIZE && (s.block + 1) * ERASE_SIZE <= |flash|
    && !ClearsOnly(Block(flash, s.block), s.data)
  }

  /** This slot is dirty and is not what the flash behind it holds. */
  ghost predicate NeedsFlush(flash: seq<bv8>, s: Slot) {
    && s.valid && s.dirty
    && |s.data| == ERASE_SIZE && (s.block + 1) * ERASE_SIZE <= |flash|
    && Block(flash, s.block) != s.data
  }

  /** A block put back whole: the slot is clean, the view is as it was, and one slot less is dirty. */
  lemma PutBack(flash: seq<bv8>, flash': seq<bv8>, slots: seq<Slot>, k: nat)
    requires Coherent(flash, slots) && k < |slots| && slots[k].valid && slots[k].dirty
    requires |flash'| == |flash|
    requires var off := slots[k].block * ERASE_SIZE;
             && flash'[..off] == flash[..off] && flash'[off + ERASE_SIZE..] == flash[off + ERASE_SIZE..]
             && flash'[off..off + ERASE_SIZE] == slots[k].data
    ensures Coherent(flash', Cleaned(slots, k))
    ensures View(flash', Cleaned(slots, k)) == View(flash, slots)
    ensures Dirty(Cleaned(slots, k)) == Dirty(slots) - 1
  {
    hide View, Dirty;
    Behind(flash, flash', slots, k);
    BlockSlice(flash', slots[k]);
    FlagsInvisible(flash', slots, Cleaned(slots, k));
    DirtyUpdate(slots, k, slots[k].(dirty := false));
    BlockSlice(flash', Cleaned(slots, k)[k]);
  }

  /** Marking slots clean, dirty or touched is invisible. */
  lemma FlagsInvisible(flash: seq<bv8>, a: seq<Slot>, b: seq<Slot>)
    requires Distinct(a) && Distinct(b) && |a| == |b|
    requires forall k | 0 <= k < |a| ::
               a[k].valid == b[k].valid && (a[k].valid ==> a[k].block == b[k].block && a[k].data == b[k].data)
    ensures View(flash, a) == View(flash, b)
  {
    forall i | 0 <= i < |flash|
      ensures ViewByte(flash, a, i) == ViewByte(flash, b, i)
    {
      SameHoldings(a, b, i / ERASE_SIZE);
    }
  }

  lemma Touch(flash: seq<bv8>, slots: seq<Slot>, k: nat, now: nat)
    requires Coherent(flash, slots) && k < |slots|
    ensures Coherent(flash, slots[k := slots[k].(touched := now)])
    ensures View(flash, slots[k := slots[k].(touched := now)]) == View(flash, slots)
  {
    var after := slots[k := slots[k].(touched := now)];
    FlagsInvisible(flash, slots, after);
    if slots[k].valid && !slots[k].dirty {
      BlockSlice(flash, slots[k]);
      BlockSlice(flash, after[k]);
    }
  }

  /** Forgetting a slot that agrees with the flash is invisible; its bytes no longer matter. */
  lemma ForgetClean(flash: seq<bv8>, slots: seq<Slot>, k: int, gone: Slot)
    requires Coherent(flash, slots) && 0 <= k < |slots|
    requires slots[k].valid ==> SameAsFlash(flash, slots[k])
    requires !gone.valid && !gone.dirty && |gone.data| == ERASE_SIZE
    ensures Coherent(flash, slots[k := gone])
    ensures View(flash, slots[k := gone]) == View(flash, slots)
  {
    var after := slots[k := gone];
    forall i | 0 <= i < |flash|
      ensures ViewByte(flash, after, i) == ViewByte(flash, slots, i)
    {
      var b := i / ERASE_SIZE;
      var j := Find(after, b);
      if j >= 0 {
        assert Holds(slots, j, b);
        FindUnique(slots, j, b);
      } else if Holds(slots, k, b) {
        FindUnique(slots, k, b);
        assert BlockByte(flash, b, i % ERASE_SIZE) == slots[k].data[i % ERASE_SIZE];
      } else {
        assert forall m | m != k :: Holds(slots, m, b) == Holds(after, m, b);
      }
    }
  }

  /** Loading a block nobody holds into an empty slot is invisible. */
  lemma LoadInvisible(flash: seq<bv8>, slots: seq<Slot>, k: int, loaded: Slot)
    requires Coherent(flash, slots) && 0 <= k < |slots| && !slots[k].valid
    requires Find(slots, loaded.block) == -1
    requires loaded.valid && !loaded.dirty && |loaded.data| == ERASE_SIZE && SameAsFlash(flash, loaded)
    ensures Coherent(flash, slots[k := loaded])
    ensures View(flash, slots[k := loaded]) == View(flash, slots)
  {
    var after := slots[k := loaded];
    assert forall m | 0 <= m < |slots| && slots[m].valid :: !Holds(slots, m, loaded.block);
    assert Coherent(flash, after);
    ForgetClean(flash, after, k, slots[k]);
    assert after[k := slots[k]] == slots;
  }

  lemma Patched(data: seq<bv8>, nth: nat, src: seq<bv8>)
    requires |data| == ERASE_SIZE && nth < SECTORS_PER_ERASE && |src| == SECTOR_SIZE
    ensures var at := nth * SECTOR_SIZE;
      var r := data[..at] + src + data[at + SECTOR_SIZE..];
      && |r| == ERASE_SIZE
      && forall j | 0 <= j < ERASE_SIZE :: r[j] == if j / SECTOR_SIZE == nth then src[j % SECTOR_SIZE] else data[j]
  {
  }

  /** Storing a sector into its slot overwrites exactly that sector of the view. */
  lemma StoreIsOverwrite(flash: seq<bv8>, slots: seq<Slot>, k: int, stored: Slot, lsn: nat, src: seq<bv8>)
    requires Coherent(flash, slots) && Holds(slots, k, lsn / SECTORS_PER_ERASE)
    requires |src| == SECTOR_SIZE
    requires stored.valid && stored.dirty && stored.block == slots[k].block && |stored.data| == ERASE_SIZE
    requires forall j | 0 <= j < ERASE_SIZE ::
               stored.data[j] == if j / SECTOR_SIZE == lsn % SECTORS_PER_ERASE
                                 then src[j % SECTOR_SIZE] else slots[k].data[j]
    ensures (lsn + 1) * SECTOR_SIZE <= |flash|
    ensures Coherent(flash, slots[k := stored])
    ensures View(flash, slots[k := stored]) == Overwrite(View(flash, slots), lsn, src)
  {
    var after := slots[k := stored];
    var before := View(flash, slots);
    forall i | 0 <= i < |flash|
      ensures ViewByte(flash, after, i) == Overwrite(before, lsn, src)[i]
    {
      var b := i / ERASE_SIZE;
      SameHoldings(slots, after, b);
      SectorOfByte(i, lsn);
      if b == slots[k].block {
        FindUnique(slots, k, b);
      }
    }
  }

  /** Byte `i` belongs to sector `lsn` just when it is that sector of that block. */
  lemma SectorOfByte(i: nat, lsn: nat)
    ensures lsn * SECTOR_SIZE <= i < (lsn + 1) * SECTOR_SIZE
       <==> i / ERASE_SIZE == lsn / SECTORS_PER_ERASE
            && (i % ERASE_SIZE) / SECTOR_SIZE == lsn % SECTORS_PER_ERASE
    ensures (i % ERASE_SIZE) % SECTOR_SIZE == i % SECTOR_SIZE
  {
  }

  /* ---- what flash allows ---- */

  /** Programming can clear bits and cannot set them. */
  function Program(was: seq<bv8>, now: seq<bv8>): (r: seq<bv8>)
    requires |was| == |now|
    ensures |r| == |now|
    ensures forall j | 0 <= j < |r| :: r[j] == was[j] & now[j]
  {
    seq(|now|, j requires 0 <= j < |now| => was[j] & now[j])
  }

  function Erased(n: nat): (r: seq<bv8>)
    ensures |r| == n && forall j | 0 <= j < n :: r[j] == 0xFF
  {
    seq(n, _ => 0xFF)
  }

  ghost predicate ClearsOnly(was: seq<bv8>, now: seq<bv8>)
    requires |was| == |now|
  {
    forall j | 0 <= j < |now| :: was[j] & now[j] == now[j]
  }

  /** Programming over what is there leaves the new bytes exactly when no bit has to be set. */
  lemma ProgramLegal(was: seq<bv8>, now: seq<bv8>)
    requires |was| == |now|
    ensures Program(was, now) == now <==> ClearsOnly(was, now)
    ensures Program(Erased(|now|), now) == now
  {
    if Program(was, now) == now {
      assert forall j | 0 <= j < |now| :: now[j] == Program(was, now)[j];
    }
  }

  lemma SliceOfSlice(s: seq<bv8>, from: nat, to: nat, a: nat, b: nat)
    requires from <= to <= |s| && a <= b <= to - from
    ensures s[from..to][a..b] == s[from + a..from + b]
  {
    assert forall i | 0 <= i < b - a :: s[from..to][a..b][i] == s[from + a + i];
  }

  /** The comparison goes piece by piece. */
  lemma AppendPiece(have: seq<bv8>, want: seq<bv8>, at: nat, to: nat)
    requires |have| == |want| && at <= to <= |have|
    ensures ClearsOnly(have[..at], want[..at]) && ClearsOnly(have[at..to], want[at..to]) <==>
            ClearsOnly(have[..to], want[..to])
    ensures ClearsOnly(have, want) ==> ClearsOnly(have[..to], want[..to])
    ensures have[..to] == want[..to] <==> have[..at] == want[..at] && have[at..to] == want[at..to]
  {
    assert have[..to] == have[..at] + have[at..to] && want[..to] == want[..at] + want[at..to];
    assert forall j | at <= j < to :: have[j] == have[at..to][j - at] && want[j] == want[at..to][j - at];
    if have[..to] == want[..to] {
      assert have[..to][..at] == have[..at] && have[..to][at..] == have[at..to];
      assert want[..to][..at] == want[..at] && want[..to][at..] == want[at..to];
    }
  }

  /* ---- what the cache costs ---- */

  ghost function Dirty(slots: seq<Slot>): nat {
    if slots == [] then 0
    else Dirty(slots[..|slots| - 1]) + if slots[|slots| - 1].dirty then 1 else 0
  }

  lemma {:induction false} DirtyUpdate(slots: seq<Slot>, k: int, s: Slot)
    requires 0 <= k < |slots|
    ensures Dirty(slots[k := s])
         == Dirty(slots) - (if slots[k].dirty then 1 else 0) + (if s.dirty then 1 else 0)
  {
    var n := |slots| - 1;
    if k < n {
      assert slots[k := s][..n] == slots[..n][k := s];
      DirtyUpdate(slots[..n], k, s);
    } else {
      assert slots[k := s][..n] == slots[..n];
    }
  }

  /** With every slot clean the flash is the view: nothing is left to lose. */
  lemma AllCleanIsFlash(flash: seq<bv8>, slots: seq<Slot>)
    requires Coherent(flash, slots) && Dirty(slots) == 0
    ensures View(flash, slots) == flash
  {
    NoneDirty(slots);
    forall i | 0 <= i < |flash| ensures ViewByte(flash, slots, i) == flash[i] {
      var k := Find(slots, i / ERASE_SIZE);
      if k >= 0 {
        assert BlockByte(flash, slots[k].block, i % ERASE_SIZE) == slots[k].data[i % ERASE_SIZE];
      }
    }
  }

  lemma {:induction false} NoneDirty(slots: seq<Slot>)
    ensures Dirty(slots) == 0 <==> forall k | 0 <= k < |slots| :: !slots[k].dirty
  {
    if slots != [] {
      var rest := slots[..|slots| - 1];
      NoneDirty(rest);
      assert forall k | 0 <= k < |rest| :: rest[k] == slots[k];
    }
  }

  /* ---- when an eviction can happen ---- */

  ghost function Held(slots: seq<Slot>): set<nat> {
    set k | 0 <= k < |slots| && slots[k].valid :: slots[k].block
  }

  lemma {:induction false} HeldCount(slots: seq<Slot>)
    requires Distinct(slots)
    requires forall k | 0 <= k < |slots| :: slots[k].valid
    ensures |Held(slots)| == |slots|
  {
    if slots != [] {
      var n := |slots| - 1;
      HeldCount(slots[..n]);
      assert Held(slots) == Held(slots[..n]) + {slots[n].block};
      assert slots[n].block !in Held(slots[..n]);
    }
  }

  /**
   A run that keeps to no more blocks than there are slots never evicts: a
   block that is not held yet always finds an empty slot.
   */
  lemma RoomForOneMore(slots: seq<Slot>, working: set<nat>, block: nat)
    requires Distinct(slots) && Held(slots) <= working && |working| <= |slots|
    requires block in working && Find(slots, block) == -1
    ensures exists k :: 0 <= k < |slots| && !slots[k].valid
  {
    if forall k | 0 <= k < |slots| :: slots[k].valid {
      NotHeld(slots, block);
      HeldCount(slots);
      var more := Held(slots) + {block};
      assert |more| == |slots| + 1;
      Cardinality(more, working);
      assert false;
    }
  }

  lemma NotHeld(slots: seq<Slot>, block: nat)
    requires Find(slots, block) == -1
    ensures block !in Held(slots)
  {
    assert forall k | 0 <= k < |slots| :: !Holds(slots, k, block);
  }

  lemma {:induction false} Cardinality(a: set<nat>, b: set<nat>)
    requires a <= b
    ensures |a| <= |b|
  {
    if a != {} {
      var x :| x in a;
      Cardinality(a - {x}, b - {x});
    }
  }

  /** The slot a new block goes to: the first empty one, or the first of the least recently used. */
  ghost predicate Victim(slots: seq<Slot>, v: int) {
    && 0 <= v < |slots|
    && if slots[v].valid then
         forall j | 0 <= j < |slots| ::
           && slots[j].valid && slots[v].touched <= slots[j].touched
           && (j < v ==> slots[v].touched < slots[j].touched)
       else
         forall j | 0 <= j < v :: slots[j].valid
  }

  /** Whatever was held is still held, in the same place. */
  ghost predicate Kept(before: seq<Slot>, after: seq<Slot>) {
    && |before| == |after|
    && forall k | 0 <= k < |before| && before[k].valid :: after[k].valid && after[k].block == before[k].block
  }

  /** A working set that holds everything held now, everything asked for, and fits the slots. */
  ghost predicate Fits(slots: seq<Slot>, working: set<nat>, lsn: nat, count: nat) {
    && Held(slots) <= working && |working| <= |slots|
    && forall s | lsn <= s < lsn + count :: InBlockOf(s, working)
  }

  ghost predicate InBlockOf(sector: nat, working: set<nat>) {
    sector / SECTORS_PER_ERASE in working
  }

  /** Handing a slot to a block of the working set keeps everything held and the working set large enough. */
  lemma NoEviction(before: seq<Slot>, after: seq<Slot>, working: set<nat>, block: nat, k: int)
    requires Distinct(before) && Held(before) <= working && |working| <= |before|
    requires block in working && |after| == |before| && 0 <= k < |before|
    requires forall j | 0 <= j < |before| && j != k :: after[j] == before[j]
    requires if Find(before, block) >= 0 then k == Find(before, block) && after[k].valid && after[k].block == block
             else Victim(before, k) && (!after[k].valid || after[k].block == block || after[k] == before[k])
    ensures Kept(before, after) && Held(after) <= working
    ensures Find(before, block) == -1 ==> !before[k].valid
  {
    if Find(before, block) == -1 {
      RoomForOneMore(before, working, block);
      assert !before[k].valid;
    }
    forall b | b in Held(after) ensures b in working {
      var j :| 0 <= j < |after| && after[j].valid && after[j].block == b;
      if j != k {
        assert before[j].block in Held(before);
      }
    }
  }

  /** Byte `j` of a sector: from the slot holding its block, or straight from the flash. */
  ghost function SectorByte(flash: seq<bv8>, slots: seq<Slot>, sector: nat, j: nat): bv8
    requires Distinct(slots) && (sector + 1) * SECTOR_SIZE <= |flash| && j < SECTOR_SIZE
  {
    var k := Find(slots, sector / SECTORS_PER_ERASE);
    if k >= 0 then slots[k].data[(sector % SECTORS_PER_ERASE) * SECTOR_SIZE + j]
    else flash[sector * SECTOR_SIZE + j]
  }

  lemma SectorView(flash: seq<bv8>, slots: seq<Slot>, sector: nat, j: nat)
    requires Distinct(slots) && (sector + 1) * SECTOR_SIZE <= |flash| && j < SECTOR_SIZE
    ensures View(flash, slots)[sector * SECTOR_SIZE + j] == SectorByte(flash, slots, sector, j)
  {
    var i := sector * SECTOR_SIZE + j;
    assert i / ERASE_SIZE == sector / SECTORS_PER_ERASE;
    assert i % ERASE_SIZE == (sector % SECTORS_PER_ERASE) * SECTOR_SIZE + j;
    assert View(flash, slots)[i] == ViewByte(flash, slots, i);
  }

  /** A held sector reads from its slot. */
  lemma HeldSector(flash: seq<bv8>, slots: seq<Slot>, sector: nat)
    requires Distinct(slots) && (sector + 1) * SECTOR_SIZE <= |flash|
    requires Find(slots, sector / SECTORS_PER_ERASE) >= 0
    ensures var at := (sector % SECTORS_PER_ERASE) * SECTOR_SIZE;
      Sectors(View(flash, slots), sector, 1)
      == slots[Find(slots, sector / SECTORS_PER_ERASE)].data[at..at + SECTOR_SIZE]
  {
    forall j | 0 <= j < SECTOR_SIZE
      ensures Sectors(View(flash, slots), sector, 1)[j] == SectorByte(flash, slots, sector, j)
    {
      SectorView(flash, slots, sector, j);
    }
  }

  /** No slot stands in for the flash behind this sector. */
  ghost predicate Direct(slots: seq<Slot>, sector: nat) {
    Find(slots, sector / SECTORS_PER_ERASE) == -1
  }

  /** A run of sectors nobody holds reads straight from the flash. */
  lemma RunView(flash: seq<bv8>, slots: seq<Slot>, sector: nat, run: nat)
    requires Distinct(slots) && (sector + run) * SECTOR_SIZE <= |flash|
    requires forall s | sector <= s < sector + run :: Direct(slots, s)
    ensures Sectors(View(flash, slots), sector, run) == Sectors(flash, sector, run)
  {
    forall i | 0 <= i < run * SECTOR_SIZE
      ensures Sectors(View(flash, slots), sector, run)[i] == Sectors(flash, sector, run)[i]
    {
      assert Direct(slots, sector + i / SECTOR_SIZE);
      SectorView(flash, slots, sector + i / SECTOR_SIZE, i % SECTOR_SIZE);
    }
  }

  /** Long enough untouched to be put back; the subtraction wraps as the machine's does. */
  predicate Idle(s: Slot, now: nat) {
    s.dirty && (now - s.touched) % 0x1_0000_0000_0000_0000 >= FLUSH_IDLE_MS
  }

  /** With a clock that does not go back the subtraction does not wrap. */
  lemma IdleIs(s: Slot, now: nat)
    requires s.dirty && s.touched <= now < 0x1_0000_0000_0000_0000
    ensures Idle(s, now) <==> now - s.touched >= 50
  {
  }

  lemma HeldSame(a: seq<Slot>, b: seq<Slot>)
    requires |a| == |b|
    requires forall k | 0 <= k < |a| :: b[k].valid == a[k].valid && b[k].block == a[k].block
    ensures Held(a) == Held(b) && Kept(a, b)
  {
    forall x ensures x in Held(a) <==> x in Held(b) {
      if x in Held(a) {
        var k :| 0 <= k < |a| && a[k].valid && a[k].block == x;
        assert b[k].valid;
      }
      if x in Held(b) {
        var k :| 0 <= k < |b| && b[k].valid && b[k].block == x;
        assert a[k].valid;
      }
    }
  }
}
