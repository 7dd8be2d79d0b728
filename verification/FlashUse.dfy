/**
 Which block a full cache gives up: the record of uses, each with the reading
 of the clock taken at it, and what the slots' own marks say of that record.
 */
module FlashUse {
  import opened FlashCache

  datatype Use = Use(block: nat, at: nat)

  /** How many uses there had been when this block was last used; 0 if it never was. */
  ghost function LastUse(uses: seq<Use>, block: nat): (n: nat)
    ensures n <= |uses| && (n > 0 ==> uses[n - 1].block == block)
    ensures forall i | n <= i < |uses| :: uses[i].block != block
  {
    if uses == [] then 0
    else if uses[|uses| - 1].block == block then |uses|
    else LastUse(uses[..|uses| - 1], block)
  }

  /** The clock never goes back. */
  ghost predicate InTime(uses: seq<Use>, time: nat) {
    && (forall i, j | 0 <= i < j < |uses| :: uses[i].at <= uses[j].at)
    && forall i | 0 <= i < |uses| :: uses[i].at <= time
  }

  ghost predicate Marked(s: Slot, uses: seq<Use>) {
    var n := LastUse(uses, s.block);
    n > 0 && s.touched == uses[n - 1].at
  }

  /** Every slot in use is marked with the reading taken when its block was last used. */
  ghost predicate AllMarked(slots: seq<Slot>, uses: seq<Use>) {
    forall k | 0 <= k < |slots| && slots[k].valid :: Marked(slots[k], uses)
  }

  /** A block given up, when these were held and had been used so. */
  datatype Eviction = Eviction(block: nat, held: set<nat>, uses: seq<Use>)

  /** No block that was held had been last used at an earlier reading of the clock. */
  ghost predicate Oldest(e: Eviction) {
    && e.block in e.held
    && forall b | b in e.held ::
         var i, j := LastUse(e.uses, e.block), LastUse(e.uses, b);
         i > 0 && j > 0 && e.uses[i - 1].at <= e.uses[j - 1].at
  }

  ghost predicate AllOldest(gone: seq<Eviction>) {
    forall i | 0 <= i < |gone| :: Oldest(gone[i])
  }

  lemma OneMoreUse(uses: seq<Use>, u: Use, block: nat)
    ensures LastUse(uses + [u], block) == if block == u.block then |uses| + 1 else LastUse(uses, block)
  {
    assert (uses + [u])[..|uses|] == uses;
  }

  /** A slot marked at its use leaves every mark right. */
  lemma MarkedAgain(slots: seq<Slot>, uses: seq<Use>, k: nat, now: nat, time: nat)
    requires Distinct(slots) && k < |slots| && slots[k].valid && InTime(uses, time) && time <= now
    requires forall j | 0 <= j < |slots| && j != k && slots[j].valid :: Marked(slots[j], uses)
    ensures var after := uses + [Use(slots[k].block, now)];
      AllMarked(slots[k := slots[k].(touched := now)], after) && InTime(after, now)
  {
    var u := Use(slots[k].block, now);
    var after, marked := uses + [u], slots[k := slots[k].(touched := now)];
    forall j | 0 <= j < |slots| && slots[j].valid ensures Marked(marked[j], after) {
      OneMoreUse(uses, u, slots[j].block);
      if j != k {
        assert Marked(slots[j], uses);
        assert slots[j].block != u.block;
      }
    }
  }

  /** Slots that hold what they held, or nothing, and are marked as they were. */
  ghost predicate SameMarks(before: seq<Slot>, after: seq<Slot>) {
    && |after| == |before|
    && forall k | 0 <= k < |after| && after[k].valid ::
         before[k].valid && after[k].block == before[k].block && after[k].touched == before[k].touched
  }

  lemma StillMarked(before: seq<Slot>, after: seq<Slot>, uses: seq<Use>)
    requires AllMarked(before, uses) && SameMarks(before, after)
    ensures AllMarked(after, uses)
  {
    forall k | 0 <= k < |after| && after[k].valid ensures Marked(after[k], uses) {
      assert Marked(before[k], uses);
    }
  }

  lemma MarksInTime(slots: seq<Slot>, uses: seq<Use>, time: nat)
    requires AllMarked(slots, uses) && InTime(uses, time)
    ensures forall k | 0 <= k < |slots| && slots[k].valid :: slots[k].touched <= time
  {
    forall k | 0 <= k < |slots| && slots[k].valid ensures slots[k].touched <= time {
      assert Marked(slots[k], uses);
    }
  }

  lemma LaterTime(uses: seq<Use>, time: nat, now: nat)
    requires InTime(uses, time) && time <= now
    ensures InTime(uses, now)
  {
  }

  lemma EarlierMark(a: Slot, b: Slot, uses: seq<Use>)
    requires Marked(a, uses) && Marked(b, uses) && a.touched <= b.touched
    ensures var i, j := LastUse(uses, a.block), LastUse(uses, b.block);
      i > 0 && j > 0 && uses[i - 1].at <= uses[j - 1].at
  {
  }

  /** The slot with the smallest mark holds a block that nothing held was used before. */
  lemma SmallestIsOldest(slots: seq<Slot>, uses: seq<Use>, k: nat)
    requires AllMarked(slots, uses) && k < |slots| && slots[k].valid && Victim(slots, k)
    ensures Oldest(Eviction(slots[k].block, Held(slots), uses))
  {
    hide Marked, LastUse;
    assert forall j | 0 <= j < |slots| && slots[j].valid :: slots[k].touched <= slots[j].touched;
    forall b | b in Held(slots)
      ensures var i, j := LastUse(uses, slots[k].block), LastUse(uses, b);
        i > 0 && j > 0 && uses[i - 1].at <= uses[j - 1].at
    {
      var j :| 0 <= j < |slots| && slots[j].valid && slots[j].block == b;
      EarlierMark(slots[k], slots[j], uses);
    }
  }

  /**
   What is given up is what was used longest ago, except that the clock cannot
   tell apart two uses at one reading.
   */
  lemma LeastRecent(e: Eviction, b: nat, time: nat)
    requires Oldest(e) && InTime(e.uses, time) && b in e.held && b != e.block
    ensures var i, j := LastUse(e.uses, e.block), LastUse(e.uses, b);
      i > 0 && j > 0 && (i < j <==> !(j < i && e.uses[i - 1].at == e.uses[j - 1].at))
  {
  }

  /** Two blocks used within one reading: the first slot's goes, though it was used last. */
  lemma TieExample() returns (slots: seq<Slot>, uses: seq<Use>)
    ensures |slots| == 2 && AllMarked(slots, uses) && Distinct(slots) && Victim(slots, 0)
    ensures LastUse(uses, slots[0].block) > LastUse(uses, slots[1].block)
  {
    var data := seq(ERASE_SIZE, i => 0 as bv8);
    slots := [Slot(true, false, 0, 7, data), Slot(true, false, 1, 7, data)];
    uses := [Use(1, 7), Use(0, 7)];
    assert uses[..1] == [Use(1, 7)] && LastUse([Use(1, 7)], 1) == 1;
    assert LastUse(uses, 0) == 2 && LastUse(uses, 1) == 1;
  }

  /** The blocks used, in order. */
  ghost function Blocks(uses: seq<Use>): (b: seq<nat>)
    ensures |b| == |uses| && forall i | 0 <= i < |uses| :: b[i] == uses[i].block
  {
    seq(|uses|, i requires 0 <= i < |uses| => uses[i].block)
  }

  /** The blocks of so many sectors, sector by sector. */
  ghost function BlocksOf(lsn: nat, n: nat): (b: seq<nat>)
    ensures |b| == n && forall i | 0 <= i < n :: b[i] == (lsn + i) / SECTORS_PER_ERASE
  {
    seq(n, i requires 0 <= i < n => (lsn + i) / SECTORS_PER_ERASE)
  }

  lemma OneMoreBlock(uses: seq<Use>, u: Use)
    ensures Blocks(uses + [u]) == Blocks(uses) + [u.block]
  {
  }

  lemma NoBlocks(before: seq<nat>, lsn: nat)
    ensures before + BlocksOf(lsn, 0) == before
  {
  }

  lemma OneMoreSector(before: seq<nat>, lsn: nat, n: nat)
    ensures before + BlocksOf(lsn, n) + [(lsn + n) / SECTORS_PER_ERASE] == before + BlocksOf(lsn, n + 1)
  {
  }
}
