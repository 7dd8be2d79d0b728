/** The write-back cache over the flash partition. */
module FlashDisk {
  import opened RamDisk
  import opened FlashCache
  import opened FlashUse
  import opened NorFlash

  const SCRATCH := 256

  const CLOCK_END := 0x1_0000_0000_0000_0000

  /** One piece of the comparison, byte by byte, stopping at the first bit that would have to be set. */
  method ComparePiece(scratch: seq<bv8>, want: seq<bv8>, sameSoFar: bool) returns (clearsOnly: bool, same: bool)
    requires |scratch| == |want| == SCRATCH
    ensures clearsOnly == ClearsOnly(scratch, want)
    ensures clearsOnly ==> same == (sameSoFar && scratch == want)
  {
    clearsOnly, same := true, sameSoFar;
    var i := 0;
    while i < SCRATCH
      invariant 0 <= i <= SCRATCH
      invariant forall j | 0 <= j < i :: scratch[j] & want[j] == want[j]
      invariant same ==> sameSoFar && forall j | 0 <= j < i :: scratch[j] == want[j]
      invariant !same ==> !sameSoFar || scratch != want
    {
      if scratch[i] & want[i] != want[i] {
        clearsOnly := false;
        break;
      }
      if scratch[i] != want[i] { same := false; }
      i := i + 1;
    }
  }

  /** memcpy into the caller's buffer, between what has been read so far and the part beyond the request. */
  method CopyIn(dst: array<bv8>, at: nat, src: seq<bv8>, ghost sofar: seq<bv8>, ghost tail: seq<bv8>)
    requires at == |sofar| && at + |src| + |tail| <= dst.Length
    requires dst[..at] == sofar && dst[dst.Length - |tail|..] == tail
    modifies dst
    ensures dst[..at + |src|] == sofar + src
    ensures dst[dst.Length - |tail|..] == tail
  {
    forall i | 0 <= i < |src| { dst[at + i] := src[i]; }
  }

  class Driver {
    const part: Partition
    const slot: array<Slot>
    const sectors: nat
    var writes: nat
    var flushes: nat
    var erases: nat
    var time: nat    // what the clock last read, and how often it has been read
    ghost var readings: nat
    /** Every use of a block, and every block whose slot was given to another. */
    ghost var uses: seq<Use>
    ghost var gone: seq<Eviction>

    /** The invariant, with what the run has cost so far. */
    ghost predicate Valid()
      reads this, part, slot
    {
      && slot.Length > 0
      && Coherent(part.bytes, slot[..])
      && |part.bytes| == sectors * SECTOR_SIZE
      && flushes + Dirty(slot[..]) <= writes
      && erases <= flushes + part.faults
    }

    /** The slots are marked with the times their blocks were last used, and what was given up was the oldest. */
    ghost predicate Dated()
      reads this, slot
    {
      InTime(uses, time) && time < CLOCK_END && AllMarked(slot[..], uses) && AllOldest(gone)
    }

    /** The disk this driver presents. */
    ghost function Disk(): (d: seq<bv8>)
      requires Valid()
      reads this, part, slot
      ensures |d| == sectors * SECTOR_SIZE
    {
      View(part.bytes, slot[..])
    }

    constructor (part: Partition, cacheSlots: nat)
      requires cacheSlots > 0 && |part.bytes| % ERASE_SIZE == 0
      ensures Valid() && this.part == part && fresh(slot) && slot.Length == cacheSlots
      ensures Disk() == part.bytes
      ensures writes == flushes == erases == 0 && Dated() && uses == [] && gone == []
      ensures forall k | 0 <= k < slot.Length :: !slot[k].valid
    {
      this.part := part;
      slot := new Slot[cacheSlots](_ => Slot(false, false, 0, 0, Erased(ERASE_SIZE)));
      sectors := |part.bytes| / SECTOR_SIZE;
      writes, flushes, erases, time := 0, 0, 0, 0;
      readings, uses, gone := 0, [], [];
      new;
      hide Coherent, Dirty, View;
      WholeSectors(|part.bytes|);
      NothingHeld(part.bytes, slot[..]);
    }

    /**
     Compare a slot's bytes with the flash behind them, a piece at a time: may
     the block be programmed without an erase, and has it changed at all?
     */
    method CompareBlock(want: seq<bv8>, off: nat) returns (clearsOnly: bool, same: bool)
      requires |want| == ERASE_SIZE && off + ERASE_SIZE <= |part.bytes|
      modifies part`faults
      ensures part.faults >= old(part.faults)
      ensures clearsOnly ==> part.faults == old(part.faults)
      ensures part.faults == old(part.faults) ==>
                clearsOnly == ClearsOnly(part.bytes[off..off + ERASE_SIZE], want)
      ensures clearsOnly ==> same == (part.bytes[off..off + ERASE_SIZE] == want)
    {
      clearsOnly, same := true, true;
      var at := 0;
      ghost var flash := part.bytes;
      ghost var have := flash[off..off + ERASE_SIZE];
      while at < ERASE_SIZE && clearsOnly
        invariant at <= ERASE_SIZE && at % SCRATCH == 0
        invariant part.faults >= old(part.faults) && part.bytes == flash
        invariant clearsOnly ==> part.faults == old(part.faults)
        invariant clearsOnly ==> ClearsOnly(have[..at], want[..at]) && same == (have[..at] == want[..at])
        invariant !clearsOnly && part.faults == old(part.faults) ==> !ClearsOnly(have, want)
        decreases ERASE_SIZE - at, clearsOnly
      {
        clearsOnly, same := CompareNext(want, off, at, same, have);
        at := at + SCRATCH;
      }
      assert have[..ERASE_SIZE] == have && want[..ERASE_SIZE] == want;
    }

    /** The next piece of that comparison; a read that fails ends it as if a bit had to be set. */
    method CompareNext(want: seq<bv8>, off: nat, at: nat, sameSoFar: bool, ghost have: seq<bv8>)
        returns (clearsOnly: bool, same: bool)
      requires |want| == ERASE_SIZE && off + ERASE_SIZE <= |part.bytes| && at + SCRATCH <= ERASE_SIZE
      requires have == part.bytes[off..off + ERASE_SIZE]
      requires ClearsOnly(have[..at], want[..at]) && sameSoFar == (have[..at] == want[..at])
      modifies part`faults
      ensures part.faults >= old(part.faults) && (clearsOnly ==> part.faults == old(part.faults))
      ensures clearsOnly ==>
                && ClearsOnly(have[..at + SCRATCH], want[..at + SCRATCH])
                && same == (have[..at + SCRATCH] == want[..at + SCRATCH])
      ensures !clearsOnly && part.faults == old(part.faults) ==> !ClearsOnly(have, want)
    {
      var ok, scratch := part.Read(off + at, SCRATCH);
      if !ok { return false, sameSoFar; }
      SliceOfSlice(part.bytes, off, off + ERASE_SIZE, at, at + SCRATCH);
      clearsOnly, same := ComparePiece(scratch, want[at..at + SCRATCH], sameSoFar);
      AppendPiece(have, want, at, at + SCRATCH);
    }

    /** Make a block of flash hold `data`, erasing first unless only bits have to be cleared. */
    method WriteBack(data: seq<bv8>, off: nat, clearsOnly: bool) returns (ok: bool)
      requires |data| == ERASE_SIZE && off + ERASE_SIZE <= |part.bytes|
      requires clearsOnly ==> ClearsOnly(part.bytes[off..off + ERASE_SIZE], data)
      modifies part, this`erases
      ensures |part.bytes| == old(|part.bytes|)
      ensures part.bytes[..off] == old(part.bytes[..off])
      ensures part.bytes[off + ERASE_SIZE..] == old(part.bytes[off + ERASE_SIZE..])
      ensures ok ==> part.bytes[off..off + ERASE_SIZE] == data
      ensures if ok then part.faults == old(part.faults) else part.faults > old(part.faults)
      ensures ok ==> erases == old(erases) + if clearsOnly then 0 else 1
      ensures old(erases) <= erases <= old(erases) + part.faults - old(part.faults) + if ok then 1 else 0
      ensures erases <= old(erases) + 1
    {
      if !clearsOnly {
        ok := part.Erase(off, ERASE_SIZE);
        if !ok { return; }
        erases := erases + 1;
      }
      ProgramLegal(part.bytes[off..off + ERASE_SIZE], data);
      ok := part.Write(off, data);
    }

    /** Put a dirty block back, with an erase only when some bit has to be set. */
    method FlushSlot(k: nat) returns (ok: bool)
      requires Valid() && k < slot.Length
      modifies part, slot, this`flushes, this`erases
      ensures Valid() && Disk() == old(Disk())
      ensures slot[..] == if ok then Cleaned(old(slot[..]), k) else old(slot[..])
      ensures part.faults >= old(part.faults)
      ensures !ok ==> part.faults > old(part.faults)
      // a read that failed has the block erased and programmed whatever is in the flash
      ensures var misread := part.faults > old(part.faults);
        && (ok ==> erases - old(erases) == if misread || NeedsErase(old(part.bytes), old(slot[k])) then 1 else 0)
        && (ok ==> flushes - old(flushes) == if misread || NeedsFlush(old(part.bytes), old(slot[k])) then 1 else 0)
      ensures !ok ==> flushes == old(flushes) && old(erases) <= erases <= old(erases) + 1
    {
      ghost var flash, was := part.bytes, slot[..];
      var sl := slot[k];
      if !sl.valid || !sl.dirty {
        assert Cleaned(was, k) == was;
        return true;
      }
      var off := sl.block * ERASE_SIZE;
      var clearsOnly, same := CompareBlock(sl.data, off);
      ok := true;
      if !clearsOnly || !same {
        ok := WriteBack(sl.data, off, clearsOnly);
        if !ok {
          Behind(flash, part.bytes, was, k);
          return;
        }
        flushes := flushes + 1;
      }
      slot[k] := sl.(dirty := false);
      PutBack(flash, part.bytes, was, k);
      assert slot[..] == Cleaned(was, k);
    }

    /** The linear search for a slot holding `block`; -1 when there is none. */
    method FindSlot(block: nat) returns (r: int)
      ensures r == Find(slot[..], block)
    {
      for i := 0 to slot.Length
        invariant forall k | 0 <= k < i :: !Holds(slot[..], k, block)
      {
        if slot[i].valid && slot[i].block == block {
          assert Holds(slot[..], i, block);
          return i;
        }
      }
      return -1;
    }

    method ChooseVictim() returns (v: nat)
      requires slot.Length > 0
      ensures Victim(slot[..], v)
    {
      v := 0;
      for i := 0 to slot.Length
        invariant v < slot.Length && (v < i || v == 0)
        invariant forall j | 0 <= j < i :: slot[j].valid && slot[v].touched <= slot[j].touched
        invariant forall j | 0 <= j < v :: slot[v].touched < slot[j].touched
      {
        if !slot[i].valid { return i; }
        if slot[i].touched < slot[v].touched { v := i; }
      }
    }

    /** The clock, in milliseconds: it never goes back. */
    method Now() returns (t: nat)
      requires time < CLOCK_END
      modifies this`time, this`readings
      ensures t == time && old(time) <= time < CLOCK_END && readings == old(readings) + 1
    {
      var passed: int := *;
      if passed > 0 && time + passed < CLOCK_END { time := time + passed; }
      readings := readings + 1;
      t := time;
    }

    /** A slot has been used: it is marked with what the clock reads now. */
    method Stamp(k: nat)
      requires Valid() && k < slot.Length && slot[k].valid
      requires InTime(uses, time) && time < CLOCK_END && AllOldest(gone)
      requires forall j | 0 <= j < slot.Length && j != k && slot[j].valid :: Marked(slot[j], uses)
      modifies slot, this`time, this`readings, this`uses
      ensures Valid() && Disk() == old(Disk()) && Dated()
      ensures slot[..] == old(slot[..])[k := old(slot[k]).(touched := time)]
      ensures time >= old(time) && readings == old(readings) + 1
      ensures uses == old(uses) + [Use(slot[k].block, time)]
    {
      hide Dirty, View, Marked, AllMarked, InTime, AllOldest;
      ghost var was := slot[..];
      var now := Now();
      slot[k] := slot[k].(touched := now);
      uses := uses + [Use(slot[k].block, now)];
      assert slot[..] == was[k := slot[k]];
      DirtyUpdate(was, k, slot[k]);
      Touch(part.bytes, was, k, now);
      MarkedAgain(was, old(uses), k, now, old(time));
    }

    /** Replace what a clean slot holds; it is empty when the flash cannot be read. */
    method LoadSlot(block: nat, k: nat) returns (ok: bool)
      requires Valid() && k < slot.Length && !slot[k].dirty
      requires (block + 1) * ERASE_SIZE <= |part.bytes| && Find(slot[..], block) == -1
      modifies part`faults, slot, this`gone
      ensures Valid() && Disk() == old(Disk())
      ensures slot[..] == old(slot[..])[k := slot[k]] && !slot[k].dirty
      ensures gone == old(gone)
        + if old(slot[k]).valid then [Eviction(old(slot[k]).block, Held(old(slot[..])), uses)] else []
      ensures ok ==> slot[k].touched == old(slot[k]).touched
      ensures if ok then slot[k].valid && slot[k].block == block else !slot[k].valid
      ensures if ok then part.faults == old(part.faults) else part.faults > old(part.faults)
    {
      ghost var clean := slot[..];
      var got;
      ok, got := part.Read(block * ERASE_SIZE, ERASE_SIZE);
      if slot[k].valid { gone := gone + [Eviction(slot[k].block, Held(slot[..]), uses)]; }
      slot[k] := slot[k].(valid := false, data := got);
      ghost var empty := slot[..];
      assert empty == clean[k := slot[k]];
      ForgetClean(part.bytes, clean, k, slot[k]);
      DirtyUpdate(clean, k, slot[k]);
      if !ok { return; }
      slot[k] := Slot(true, false, block, slot[k].touched, got);
      assert slot[..] == empty[k := slot[k]];
      BlockSlice(part.bytes, slot[k]);
      assert forall j :: Holds(empty, j, block) ==> Holds(clean, j, block);
      LoadInvisible(part.bytes, empty, k, slot[k]);
      DirtyUpdate(empty, k, slot[k]);
    }

    /** A slot for a block that is in none: the least recently used, put back first if it has to be. */
    method Bring(block: nat) returns (ok: bool, k: nat)
      requires Valid() && Dated() && (block + 1) * ERASE_SIZE <= |part.bytes| && Find(slot[..], block) == -1
      modifies part, slot, this`flushes, this`erases, this`gone
      ensures Valid() && Disk() == old(Disk()) && Victim(old(slot[..]), k)
      ensures k < slot.Length && forall j | 0 <= j < slot.Length && j != k :: slot[j] == old(slot[j])
      ensures ok ==> slot[k] == Slot(true, false, block, old(slot[..])[k].touched, slot[k].data)
      ensures !ok ==> Dated() && (!slot[k].valid || slot[k] == old(slot[..])[k])
      ensures AllOldest(gone) && forall j | 0 <= j < slot.Length && j != k && slot[j].valid :: Marked(slot[j], uses)
      ensures gone == old(gone)
        + if old(slot[..])[k].valid && (ok || !slot[k].valid)
          then [Eviction(old(slot[..])[k].block, Held(old(slot[..])), uses)] else []
      ensures if ok then part.faults >= old(part.faults) else part.faults > old(part.faults)
      ensures flushes >= old(flushes) && erases >= old(erases)
    {
      hide Dirty, View, Marked, InTime, Oldest, Held;
      ghost var was := slot[..];
      k := ChooseVictim();
      if slot[k].valid { SmallestIsOldest(was, uses, k); }
      ok := FlushSlot(k);
      if !ok { return; }
      SameHoldings(was, slot[..], block);
      HeldSame(was, slot[..]);
      ok := LoadSlot(block, k);
      if !ok { StillMarked(was, slot[..], uses); }
    }

    /**
     A slot holding `block`, loading it, and evicting the least recently used
     when it is not there. `k` is the slot chosen whether or not it worked; when
     it did, the slot is marked with the time and the use is recorded.
     */
    method GetSlot(block: nat) returns (ok: bool, k: nat)
      requires Valid() && Dated() && (block + 1) * ERASE_SIZE <= |part.bytes|
      modifies part, slot, this`flushes, this`erases, this`gone, this`uses, this`time, this`readings
      ensures Valid() && Disk() == old(Disk()) && Dated()
      ensures k < slot.Length && forall j | 0 <= j < slot.Length && j != k :: slot[j] == old(slot[j])
      ensures ok ==> Holds(slot[..], k, block)
      ensures if ok then time >= old(time) && readings == old(readings) + 1 && uses == old(uses) + [Use(block, time)]
              else time == old(time) && readings == old(readings) && uses == old(uses)
      ensures old(Find(slot[..], block)) >= 0 ==>
                ok && k == old(Find(slot[..], block)) && slot[k] == old(slot[..])[k].(touched := time)
      ensures old(Find(slot[..], block)) == -1 ==> Victim(old(slot[..]), k)
      ensures old(Find(slot[..], block)) == -1 && ok ==> slot[k] == Slot(true, false, block, time, slot[k].data)
      ensures !ok ==> !slot[k].valid || slot[k] == old(slot[..])[k]
      ensures gone == old(gone)
        + if old(Find(slot[..], block)) == -1 && old(slot[..])[k].valid && (ok || !slot[k].valid)
          then [Eviction(old(slot[..])[k].block, Held(old(slot[..])), old(uses))] else []
      ensures if ok then part.faults >= old(part.faults) else part.faults > old(part.faults)
      ensures flushes >= old(flushes) && erases >= old(erases)
      ensures old(Find(slot[..], block)) >= 0 ==>
                flushes == old(flushes) && erases == old(erases) && part.bytes == old(part.bytes)
    {
      hide Dirty, View, Marked, InTime, Oldest, Held, AllOldest;
      var found := FindSlot(block);
      if found >= 0 {
        ok, k := true, found;
      } else {
        ok, k := Bring(block);
        if !ok { return; }
      }
      Stamp(k);
    }

    /**
     One round of the background task: put back every dirty slot that has not
     been used for a while, and carry on past one that could not be written.
     */
    method FlushIdle() returns (now: nat)
      requires Valid() && Dated()
      modifies part, slot, this`flushes, this`erases, this`time, this`readings
      ensures Valid() && Disk() == old(Disk()) && Dated()
      ensures now == time >= old(time) && readings == old(readings) + 1
      // a dirty block goes back once fifty milliseconds have passed since it was last used, and not before
      ensures forall k | 0 <= k < slot.Length && old(slot[..])[k].dirty ::
                && old(slot[..])[k].touched <= now
                && (now - old(slot[..])[k].touched < 50 ==> slot[k] == old(slot[..])[k])
                && (now - old(slot[..])[k].touched >= 50 && part.faults == old(part.faults) ==> !slot[k].dirty)
      ensures part.faults >= old(part.faults) && flushes >= old(flushes) && erases >= old(erases)
      ensures Kept(old(slot[..]), slot[..]) && Held(slot[..]) == Held(old(slot[..]))
      ensures part.faults == old(part.faults) ==>
                forall k | 0 <= k < slot.Length ::
                  slot[k] == if Idle(old(slot[..])[k], now) then old(slot[..])[k].(dirty := false) else old(slot[..])[k]
      // once everything is idle and the flash works, nothing is left only in memory
      ensures part.faults == old(part.faults)
              && (forall k | 0 <= k < slot.Length && old(slot[..])[k].dirty :: Idle(old(slot[..])[k], now)) ==>
                part.bytes == Disk()
    {
      hide Dirty, View, AllMarked, InTime, AllOldest, Idle;
      ghost var was := slot[..];
      MarksInTime(was, uses, time);
      now := Now();
      LaterTime(uses, old(time), now);
      FlushOld(now);
      StillMarked(was, slot[..], uses);
      forall k | 0 <= k < slot.Length && was[k].dirty ensures was[k].touched <= now {
        assert was[k].valid;
      }
      forall k | 0 <= k < slot.Length && was[k].dirty
        ensures Idle(was[k], now) <==> now - was[k].touched >= 50
      {
        IdleIs(was[k], now);
      }
    }

    /** That round, at a given time. */
    method FlushOld(now: nat)
      requires Valid()
      modifies part, slot, this`flushes, this`erases
      ensures Valid() && Disk() == old(Disk()) && SameMarks(old(slot[..]), slot[..])
      ensures part.faults >= old(part.faults) && flushes >= old(flushes) && erases >= old(erases)
      ensures Kept(old(slot[..]), slot[..]) && Held(slot[..]) == Held(old(slot[..]))
      ensures forall k | 0 <= k < slot.Length && !Idle(old(slot[..])[k], now) :: slot[k] == old(slot[..])[k]
      ensures part.faults == old(part.faults) ==>
                forall k | 0 <= k < slot.Length ::
                  slot[k] == if Idle(old(slot[..])[k], now) then old(slot[..])[k].(dirty := false) else old(slot[..])[k]
      ensures part.faults == old(part.faults)
              && (forall k | 0 <= k < slot.Length && old(slot[..])[k].dirty :: Idle(old(slot[..])[k], now)) ==>
                part.bytes == Disk()
    {
      ghost var was := slot[..];
      assert forall k | 0 <= k < slot.Length && was[k].dirty :: was[k].valid;
      assert forall k | 0 <= k < slot.Length && Idle(was[k], now) :: was[k].dirty;
      hide Coherent, Dirty, View, Idle;
      for i := 0 to slot.Length
        invariant Valid() && Disk() == old(Disk())
        invariant part.faults >= old(part.faults) && flushes >= old(flushes) && erases >= old(erases)
        invariant forall k | 0 <= k < slot.Length ::
                    slot[k] == was[k] || (k < i && Idle(was[k], now) && slot[k] == was[k].(dirty := false))
        invariant part.faults == old(part.faults) ==>
                    forall k | 0 <= k < i ::
                      slot[k] == if Idle(was[k], now) then was[k].(dirty := false) else was[k]
      {
        FlushIfIdle(i, now);
      }
      HeldSame(was, slot[..]);
      if part.faults == old(part.faults) && (forall k | 0 <= k < slot.Length && was[k].dirty :: Idle(was[k], now)) {
        NoneDirty(slot[..]);
        AllCleanIsFlash(part.bytes, slot[..]);
      }
    }

    method FlushIfIdle(i: nat, now: nat)
      requires Valid() && i < slot.Length
      modifies part, slot, this`flushes, this`erases
      ensures Valid() && Disk() == old(Disk())
      ensures part.faults >= old(part.faults)
      ensures flushes >= old(flushes) && erases >= old(erases)
      ensures forall k | 0 <= k < slot.Length && k != i :: slot[k] == old(slot[k])
      ensures slot[i] == old(slot[i]) || slot[i] == old(slot[i]).(dirty := false)
      ensures part.faults == old(part.faults) && Idle(old(slot[i]), now) ==> slot[i] == old(slot[i]).(dirty := false)
      ensures !Idle(old(slot[i]), now) ==> slot[i] == old(slot[i])
    {
      ghost var before := slot[..];
      assert before[i].dirty ==> before[i].valid;
      hide Coherent, Dirty, View;
      if Idle(slot[i], now) {
        var ok := FlushSlot(i);
        assert slot[..] == if ok then Cleaned(before, i) else before;
        assert forall k | 0 <= k < slot.Length && k != i :: slot[k] == slot[..][k] == before[k];
        assert slot[i] == slot[..][i];
      }
    }

    /**
     The next sectors of a read: one from its slot if a slot holds it, otherwise
     a run straight from the flash, as far as no slot stands in the way.
     */
    method Fetch(sector: nat, most: nat) returns (ok: bool, run: nat, got: seq<bv8>)
      requires Valid() && most > 0 && sector + most <= sectors
      modifies part`faults
      ensures 1 <= run <= most && |got| == run * SECTOR_SIZE
      ensures Valid() && Disk() == old(Disk())
      ensures ok ==> got == Sectors(Disk(), sector, run)
      ensures part.faults == old(part.faults) + if ok then 0 else 1
    {
      var k := FindSlot(sector / SECTORS_PER_ERASE);
      if k >= 0 {
        var at := (sector % SECTORS_PER_ERASE) * SECTOR_SIZE;
        HeldSector(part.bytes, slot[..], sector);
        return true, 1, slot[k].data[at..at + SECTOR_SIZE];
      }
      run := MeasureRun(sector, most);
      RunView(part.bytes, slot[..], sector, run);
      ok, got := part.Read(sector * SECTOR_SIZE, run * SECTOR_SIZE);
    }

    /** Read whole sectors: cached blocks from their slots, everything else a run at a time from the flash. */
    method Read(lsn: nat, count: nat, dst: array<bv8>) returns (err: Outcome)
      requires Valid() && dst.Length >= count * SECTOR_SIZE && dst as object != slot as object
      modifies dst, part`faults
      ensures Valid() && Disk() == old(Disk())
      ensures err == Invalid <==> lsn + count > sectors
      ensures err == Ok ==> dst[..count * SECTOR_SIZE] == Sectors(Disk(), lsn, count)
      ensures dst[count * SECTOR_SIZE..] == old(dst[count * SECTOR_SIZE..])
      ensures err == Invalid ==> dst[..] == old(dst[..])
      ensures if err == Failed then part.faults > old(part.faults) else part.faults == old(part.faults)
    {
      hide Coherent, Dirty, View;
      if lsn + count > sectors { return Invalid; }
      var done := 0;
      ghost var flash, held, disk, tail := part.bytes, slot[..], Disk(), dst[count * SECTOR_SIZE..];
      ghost var out: seq<bv8> := [];
      while done < count
        invariant done <= count && part.faults == old(part.faults)
        invariant part.bytes == flash && slot[..] == held
        invariant dst[..done * SECTOR_SIZE] == out && out == Sectors(disk, lsn, done)
        invariant dst[count * SECTOR_SIZE..] == tail
      {
        var ok, run, got := Fetch(lsn + done, count - done);
        SectorsSteps(disk, lsn, done, run);
        CopyIn(dst, done * SECTOR_SIZE, got, out, tail);
        if !ok { return Failed; }
        out := out + got;
        done := done + run;
      }
      return Ok;
    }

    /** Lay one sector over the slot that holds its block. */
    method StoreSector(k: nat, sector: nat, piece: seq<bv8>)
      requires Valid() && Holds(slot[..], k, sector / SECTORS_PER_ERASE) && |piece| == SECTOR_SIZE
      modifies slot, this`writes
      ensures Valid() && (sector + 1) * SECTOR_SIZE <= sectors * SECTOR_SIZE
      ensures Disk() == Overwrite(old(Disk()), sector, piece)
      ensures writes == old(writes) + 1 && SameMarks(old(slot[..]), slot[..])
      ensures Kept(old(slot[..]), slot[..]) && Held(slot[..]) == Held(old(slot[..]))
    {
      ghost var was := slot[..];
      var at := (sector % SECTORS_PER_ERASE) * SECTOR_SIZE;
      var data := slot[k].data;
      var patched := data[..at] + piece + data[at + SECTOR_SIZE..];
      Patched(data, sector % SECTORS_PER_ERASE, piece);
      slot[k] := slot[k].(data := patched, dirty := true);
      writes := writes + 1;
      assert slot[..] == was[k := slot[k]];
      DirtyUpdate(was, k, slot[k]);
      StoreIsOverwrite(part.bytes, was, k, slot[k], sector, piece);
      HeldSame(was, slot[..]);
    }

    /** How many sectors from here on, at most `most`, can be read straight from the flash. */
    method MeasureRun(sector: nat, most: nat) returns (run: nat)
      requires most > 0 && Direct(slot[..], sector)
      ensures 1 <= run <= most
      ensures forall s | sector <= s < sector + run :: Direct(slot[..], s)
      ensures run == most || !Direct(slot[..], sector + run)
    {
      run := 1;
      while run < most
        invariant 1 <= run <= most
        invariant forall s | sector <= s < sector + run :: Direct(slot[..], s)
      {
        var k := FindSlot((sector + run) / SECTORS_PER_ERASE);
        if k >= 0 { return; }
        run := run + 1;
      }
    }

    /** One sector into the cache: get its slot, lay it over. */
    method WriteSector(sector: nat, piece: seq<bv8>, ghost working: set<nat>) returns (ok: bool)
      requires Valid() && Dated() && sector < sectors && |piece| == SECTOR_SIZE
      modifies part, slot, this
      ensures Valid() && Dated()
      ensures Disk() == if ok then Overwrite(old(Disk()), sector, piece) else old(Disk())
      ensures writes == old(writes) + if ok then 1 else 0
      ensures flushes >= old(flushes) && erases >= old(erases) && time >= old(time)
      ensures uses == old(uses) + if ok then [Use(sector / SECTORS_PER_ERASE, time)] else []
      ensures if ok then part.faults >= old(part.faults) else part.faults > old(part.faults)
      ensures Fits(old(slot[..]), working, sector, 1) ==>
                Kept(old(slot[..]), slot[..]) && Held(slot[..]) <= working && gone == old(gone)
    {
      hide InTime, AllMarked, AllOldest;
      ghost var before := slot[..];
      var k;
      ok, k := GetSlot(sector / SECTORS_PER_ERASE);
      if Fits(before, working, sector, 1) {
        assert InBlockOf(sector, working);
        NoEviction(before, slot[..], working, sector / SECTORS_PER_ERASE, k);
      }
      if ok {
        ghost var got := slot[..];
        StoreSector(k, sector, piece);
        StillMarked(got, slot[..], uses);
      }
    }

    /** The next sector of a run of writes that began with these slots. */
    method WriteNext(lsn: nat, count: nat, done: nat, piece: seq<bv8>, ghost was: seq<Slot>, ghost working: set<nat>)
        returns (ok: bool)
      requires Valid() && Dated() && lsn + count <= sectors && done < count && |piece| == SECTOR_SIZE
      requires StaysHeld(was, slot[..], working, lsn, count)
      modifies part, slot, this
      ensures Valid() && Dated()
      ensures Disk() == if ok then Overwrite(old(Disk()), lsn + done, piece) else old(Disk())
      ensures writes == old(writes) + if ok then 1 else 0
      ensures flushes >= old(flushes) && erases >= old(erases) && time >= old(time)
      ensures uses == old(uses) + if ok then [Use((lsn + done) / SECTORS_PER_ERASE, time)] else []
      ensures if ok then part.faults >= old(part.faults) else part.faults > old(part.faults)
      ensures StaysHeld(was, slot[..], working, lsn, count)
      ensures Fits(was, working, lsn, count) ==> gone == old(gone)
    {
      hide *;
      ghost var now := slot[..];
      ok := WriteSector(lsn + done, piece, working);
      StillFits(was, now, slot[..], working, lsn, count, done);
    }

    /** Write whole sectors into the cache. `stored` says how many got there before any failure. */
    method Write(lsn: nat, count: nat, src: array<bv8>, ghost working: set<nat>)
        returns (err: Outcome, ghost stored: nat)
      requires Valid() && Dated() && src.Length >= count * SECTOR_SIZE && src as object != slot as object
      modifies part, slot, this
      ensures Valid() && Dated() && stored <= count && time >= old(time)
      ensures Blocks(uses) == Blocks(old(uses)) + BlocksOf(lsn, stored)
      ensures err == Invalid <==> lsn + count > sectors
      ensures err == Ok ==> stored == count
      ensures err == Invalid ==> stored == 0
      ensures lsn + count <= sectors ==> Disk() == Overwrite(old(Disk()), lsn, src[..stored * SECTOR_SIZE])
      ensures err == Invalid ==> Disk() == old(Disk())
      ensures writes == old(writes) + stored && flushes >= old(flushes) && erases >= old(erases)
      ensures if err == Failed then part.faults > old(part.faults) else part.faults >= old(part.faults)
      ensures Fits(old(slot[..]), working, lsn, count) ==>
                Kept(old(slot[..]), slot[..]) && Held(slot[..]) <= working && gone == old(gone)
      ensures err == Failed ==> stored < count
    {
      hide Coherent, Dirty, View, Kept, Fits, Held, Overwrite, Upto, StaysHeld, InTime, AllMarked, AllOldest;
      hide Blocks, BlocksOf;
      stored := 0;
      NoBlocks(Blocks(uses), lsn);
      ghost var disk, was := Disk(), slot[..];
      KeptItself(was, working, lsn, count);
      if lsn + count > sectors { return Invalid, 0; }
      ghost var data := src[..];
      NothingStored(disk, lsn, data);
      var done := 0;
      err := Ok;
      while done < count
        invariant err == Ok
        invariant done == stored <= count && src[..] == data
        invariant Valid() && Dated() && Disk() == Overwrite(disk, lsn, Upto(data, done))
        invariant time >= old(time) && Blocks(uses) == Blocks(old(uses)) + BlocksOf(lsn, done)
        invariant writes == old(writes) + done && part.faults >= old(part.faults)
        invariant flushes >= old(flushes) && erases >= old(erases)
        invariant StaysHeld(was, slot[..], working, lsn, count)
        invariant Fits(was, working, lsn, count) ==> gone == old(gone)
      {
        PieceStored(disk, lsn, data, done);
        ghost var before := uses;
        var ok := WriteNext(lsn, count, done, src[done * SECTOR_SIZE..(done + 1) * SECTOR_SIZE], was, working);
        if !ok {
          err := Failed;
          assert uses == before;
          break;
        }
        OneMoreBlock(before, Use((lsn + done) / SECTORS_PER_ERASE, time));
        OneMoreSector(Blocks(old(uses)), lsn, done);
        done, stored := done + 1, stored + 1;
      }
      Settled(was, slot[..], working, lsn, count);
      UptoIs(data, stored);
    }
  }

  /** The first `n` sectors of some data. */
  ghost function Upto(data: seq<bv8>, n: nat): (first: seq<bv8>)
    requires n * SECTOR_SIZE <= |data|
    ensures |first| == n * SECTOR_SIZE
  {
    data[..n * SECTOR_SIZE]
  }

  lemma UptoIs(data: seq<bv8>, n: nat)
    requires n * SECTOR_SIZE <= |data|
    ensures Upto(data, n) == data[..n * SECTOR_SIZE]
  {
  }

  lemma PieceStored(disk: seq<bv8>, lsn: nat, data: seq<bv8>, done: nat)
    requires lsn * SECTOR_SIZE + (done + 1) * SECTOR_SIZE <= |disk| && (done + 1) * SECTOR_SIZE <= |data|
    ensures Overwrite(Overwrite(disk, lsn, Upto(data, done)), lsn + done,
                      data[done * SECTOR_SIZE..(done + 1) * SECTOR_SIZE])
         == Overwrite(disk, lsn, Upto(data, done + 1))
  {
    hide Overwrite;
    var first := data[..(done + 1) * SECTOR_SIZE];
    OverwriteSteps(disk, lsn, first, done);
    assert first[..done * SECTOR_SIZE] == Upto(data, done) && first[..(done + 1) * SECTOR_SIZE] == first;
    assert first[done * SECTOR_SIZE..(done + 1) * SECTOR_SIZE] == data[done * SECTOR_SIZE..(done + 1) * SECTOR_SIZE];
  }

  lemma WholeSectors(n: nat)
    requires n % ERASE_SIZE == 0
    ensures n / SECTOR_SIZE * SECTOR_SIZE == n
  {
    SectorQuotient(n, 8 * (n / ERASE_SIZE));
  }

  lemma SectorQuotient(n: nat, q: nat)
    requires n == SECTOR_SIZE * q
    ensures n / SECTOR_SIZE == q
  {
  }

  /** An empty cache shows the flash as it is. */
  lemma NothingHeld(flash: seq<bv8>, slots: seq<Slot>)
    requires |flash| % ERASE_SIZE == 0
    requires forall k | 0 <= k < |slots| :: !slots[k].valid && !slots[k].dirty && |slots[k].data| == ERASE_SIZE
    ensures Coherent(flash, slots) && View(flash, slots) == flash && Dirty(slots) == 0
  {
    NoneDirty(slots);
    AllCleanIsFlash(flash, slots);
  }

  lemma NothingStored(disk: seq<bv8>, lsn: nat, data: seq<bv8>)
    requires lsn * SECTOR_SIZE <= |disk|
    ensures Overwrite(disk, lsn, Upto(data, 0)) == disk
  {
  }

  lemma KeptItself(was: seq<Slot>, working: set<nat>, lsn: nat, count: nat)
    ensures Kept(was, was) && (Fits(was, working, lsn, count) ==> Held(was) <= working)
    ensures StaysHeld(was, was, working, lsn, count)
  {
  }

  /** A run of writes that fits the cache has lost nothing it held when it began, and holds only the working set. */
  ghost predicate StaysHeld(was: seq<Slot>, now: seq<Slot>, working: set<nat>, lsn: nat, count: nat) {
    Fits(was, working, lsn, count) ==> Kept(was, now) && Held(now) <= working
  }

  lemma Settled(was: seq<Slot>, now: seq<Slot>, working: set<nat>, lsn: nat, count: nat)
    requires StaysHeld(was, now, working, lsn, count)
    ensures Fits(was, working, lsn, count) ==> Kept(was, now) && Held(now) <= working
  {
  }

  /** One sector of a run that fits: it fits too, and nothing held since the beginning is lost. */
  lemma StillFits(was: seq<Slot>, now: seq<Slot>, next: seq<Slot>, working: set<nat>, lsn: nat, count: nat, done: nat)
    requires StaysHeld(was, now, working, lsn, count) && done < count
    ensures Fits(was, working, lsn, count) ==> Fits(now, working, lsn + done, 1)
    ensures (Fits(now, working, lsn + done, 1) ==> Kept(now, next) && Held(next) <= working) ==>
              StaysHeld(was, next, working, lsn, count)
  {
    hide Held;
    if Fits(was, working, lsn, count) { assert InBlockOf(lsn + done, working); }
  }
}
