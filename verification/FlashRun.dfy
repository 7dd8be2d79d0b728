/**
 Whole runs of the flash disk: any sequence of reads, writes and background
 rounds, with any device failures, answered as the RAM disk would answer.
 */
module FlashRun {
  import opened RamDisk
  import opened FlashCache
  import opened FlashUse
  import opened NorFlash
  import opened FlashDisk

  datatype Request = Read(lsn: nat, count: nat) | Write(lsn: nat, data: seq<bv8>) | Round

  datatype Reply = Data(err: Outcome, bytes: seq<bv8>) | Stored(err: Outcome, sectors: nat) | Quiet

  predicate WellFormed(q: Request) {
    q.Write? ==> |q.data| % SECTOR_SIZE == 0
  }

  function Count(q: Request): nat
    requires q.Write?
  {
    |q.data| / SECTOR_SIZE
  }

  predicate InRange(disk: seq<bv8>, lsn: nat, count: nat) {
    (lsn + count) * SECTOR_SIZE <= |disk|
  }

  /** A reply a flat disk could have given: the right bytes, or the right prefix stored before a failure. */
  ghost predicate Right(disk: seq<bv8>, q: Request, p: Reply) {
    match q
    case Read(lsn, count) =>
      && p.Data?
      && (p.err == Invalid <==> !InRange(disk, lsn, count))
      && p.bytes == (if p.err == Ok then Sectors(disk, lsn, count) else [])
    case Write(lsn, data) =>
      && p.Stored?
      && (p.err == Invalid <==> !InRange(disk, lsn, Count(q)))
      && p.sectors <= Count(q)
      && (p.err == Ok ==> p.sectors == Count(q))
      && (p.err == Failed ==> p.sectors < Count(q))
      && (p.err == Invalid ==> p.sectors == 0)
    case Round => p == Quiet
  }

  /** What the request did to the disk, given how far it got. */
  ghost function Effect(disk: seq<bv8>, q: Request, p: Reply): (r: seq<bv8>)
    requires Right(disk, q, p)
    ensures |r| == |disk|
  {
    if q.Write? && p.err != Invalid then Overwrite(disk, q.lsn, q.data[..p.sectors * SECTOR_SIZE]) else disk
  }

  /** The replies are those of a flat disk that started as `disk` and ended as `end`. */
  ghost predicate Explained(disk: seq<bv8>, qs: seq<Request>, ps: seq<Reply>, end: seq<bv8>)
    decreases |qs|
  {
    |qs| == |ps| &&
    if qs == [] then end == disk
    else Right(disk, qs[0], ps[0]) && Explained(Effect(disk, qs[0], ps[0]), qs[1..], ps[1..], end)
  }

  predicate Failure(p: Reply) {
    !p.Quiet? && p.err == Failed
  }

  /** How many sectors a request has stored. */
  function Landed(p: Reply): nat {
    if p.Stored? then p.sectors else 0
  }

  function AllLanded(ps: seq<Reply>): nat {
    if ps == [] then 0 else Landed(ps[0]) + AllLanded(ps[1..])
  }

  /** The blocks a request has used: one for every sector stored. */
  ghost function Used(q: Request, p: Reply): seq<nat> {
    if q.Write? then BlocksOf(q.lsn, Landed(p)) else []
  }

  ghost function AllUsed(qs: seq<Request>, ps: seq<Reply>): seq<nat>
    decreases |qs|
  {
    if qs == [] || ps == [] then [] else Used(qs[0], ps[0]) + AllUsed(qs[1..], ps[1..])
  }

  /** What the RAM disk answers, and what it holds afterwards. */
  function RamReply(disk: seq<bv8>, q: Request): Reply {
    match q
    case Read(lsn, count) =>
      if InRange(disk, lsn, count) then Data(Ok, Sectors(disk, lsn, count)) else Data(Invalid, [])
    case Write(lsn, data) =>
      if InRange(disk, lsn, Count(q)) then Stored(Ok, Count(q)) else Stored(Invalid, 0)
    case Round => Quiet
  }

  function RamAfter(disk: seq<bv8>, q: Request): seq<bv8>
    requires WellFormed(q)
  {
    if q.Write? && InRange(disk, q.lsn, Count(q)) then Overwrite(disk, q.lsn, q.data) else disk
  }

  function RamReplies(disk: seq<bv8>, qs: seq<Request>): seq<Reply>
    requires forall i | 0 <= i < |qs| :: WellFormed(qs[i])
    decreases |qs|
  {
    if qs == [] then [] else [RamReply(disk, qs[0])] + RamReplies(RamAfter(disk, qs[0]), qs[1..])
  }

  function RamEnd(disk: seq<bv8>, qs: seq<Request>): seq<bv8>
    requires forall i | 0 <= i < |qs| :: WellFormed(qs[i])
    decreases |qs|
  {
    if qs == [] then disk else RamEnd(RamAfter(disk, qs[0]), qs[1..])
  }

  /** An explained run in which nothing failed is exactly the RAM disk's run. */
  lemma {:induction false} ExplainedIsRam(disk: seq<bv8>, qs: seq<Request>, ps: seq<Reply>, end: seq<bv8>)
    requires forall i | 0 <= i < |qs| :: WellFormed(qs[i])
    requires Explained(disk, qs, ps, end) && forall i | 0 <= i < |ps| :: !Failure(ps[i])
    ensures ps == RamReplies(disk, qs) && end == RamEnd(disk, qs)
    decreases |qs|
  {
    if qs != [] {
      var q, p := qs[0], ps[0];
      assert !Failure(p) && WellFormed(q);
      assert p == RamReply(disk, q);
      if q.Write? && p.err == Ok {
        assert q.data[..p.sectors * SECTOR_SIZE] == q.data;
      }
      assert Effect(disk, q, p) == RamAfter(disk, q);
      ExplainedIsRam(RamAfter(disk, q), qs[1..], ps[1..], end);
      assert ps == [p] + ps[1..];
    }
  }

  /** Every block written lies in the working set. */
  ghost predicate Confined(qs: seq<Request>, working: set<nat>) {
    forall i | 0 <= i < |qs| && qs[i].Write? ::
      forall s | qs[i].lsn <= s < qs[i].lsn + Count(qs[i]) :: InBlockOf(s, working)
  }

  /** Serve one request and say, for the record, what came of it. */
  method ServeOne(d: Driver, q: Request, ghost working: set<nat>) returns (ghost p: Reply)
    requires d.Valid() && d.Dated() && WellFormed(q)
    modifies d, d.part, d.slot
    ensures d.Dated() && Blocks(d.uses) == Blocks(old(d.uses)) + Used(q, p)
    ensures d.Valid() && Right(old(d.Disk()), q, p) && d.Disk() == Effect(old(d.Disk()), q, p)
    ensures d.part.faults >= old(d.part.faults)
    ensures Failure(p) ==> d.part.faults > old(d.part.faults)
    ensures d.writes == old(d.writes) + Landed(p) && d.flushes >= old(d.flushes) && d.erases >= old(d.erases)
    ensures Held(old(d.slot[..])) <= working && |working| <= d.slot.Length && Confined([q], working) ==>
              Kept(old(d.slot[..]), d.slot[..]) && Held(d.slot[..]) <= working && d.gone == old(d.gone)
  {
    match q
    case Read(lsn, count) =>
      var buf := new bv8[count * SECTOR_SIZE];
      var err := d.Read(lsn, count, buf);
      p := Data(err, if err == Ok then buf[..count * SECTOR_SIZE] else []);
      HeldSame(old(d.slot[..]), d.slot[..]);
    case Write(lsn, data) =>
      var buf := new bv8[|data|](i requires 0 <= i < |data| => data[i]);
      assert buf[..] == data;
      ghost var before := d.slot[..];
      if Held(before) <= working && |working| <= d.slot.Length && Confined([q], working) {
        assert [q][0] == q;
        assert Fits(before, working, lsn, Count(q));
      }
      var err;
      ghost var stored;
      err, stored := d.Write(lsn, Count(q), buf, working);
      assert buf[..stored * SECTOR_SIZE] == data[..stored * SECTOR_SIZE];
      p := Stored(err, stored);
    case Round =>
      var _ := d.FlushIdle();
      p := Quiet;
  }

  /**
   Any run at all. The replies are those of a flat disk; with a flash that
   never fails they are the RAM disk's own; and a run that keeps to no more
   blocks than there are slots never evicts one.
   */
  method Serve(d: Driver, qs: seq<Request>, ghost working: set<nat>) returns (ghost ps: seq<Reply>)
    requires d.Valid() && d.Dated() && forall i | 0 <= i < |qs| :: WellFormed(qs[i])
    modifies d, d.part, d.slot
    ensures d.Valid() && d.Dated()
    ensures Blocks(d.uses) == Blocks(old(d.uses)) + AllUsed(qs, ps)
    ensures forall i | 0 <= i < |d.gone| :: Oldest(d.gone[i])
    ensures Explained(old(d.Disk()), qs, ps, d.Disk())
    ensures d.part.faults >= old(d.part.faults)
    ensures d.writes == old(d.writes) + AllLanded(ps) && d.flushes >= old(d.flushes) && d.erases >= old(d.erases)
    ensures d.part.faults == old(d.part.faults) ==>
              ps == RamReplies(old(d.Disk()), qs) && d.Disk() == RamEnd(old(d.Disk()), qs)
    ensures Held(old(d.slot[..])) <= working && |working| <= d.slot.Length && Confined(qs, working) ==>
              Kept(old(d.slot[..]), d.slot[..]) && Held(d.slot[..]) <= working && d.gone == old(d.gone)
  {
    ghost var disk := d.Disk();
    ps := ServeAll(d, qs, working);
    if d.part.faults == old(d.part.faults) {
      ExplainedIsRam(disk, qs, ps, d.Disk());
    }
  }

  method ServeAll(d: Driver, qs: seq<Request>, ghost working: set<nat>) returns (ghost ps: seq<Reply>)
    requires d.Valid() && d.Dated() && forall i | 0 <= i < |qs| :: WellFormed(qs[i])
    modifies d, d.part, d.slot
    ensures d.Dated() && Blocks(d.uses) == Blocks(old(d.uses)) + AllUsed(qs, ps)
    ensures d.Valid() && Explained(old(d.Disk()), qs, ps, d.Disk())
    ensures d.part.faults >= old(d.part.faults)
    ensures d.writes == old(d.writes) + AllLanded(ps) && d.flushes >= old(d.flushes) && d.erases >= old(d.erases)
    ensures d.part.faults == old(d.part.faults) ==> forall i | 0 <= i < |ps| :: !Failure(ps[i])
    ensures Held(old(d.slot[..])) <= working && |working| <= d.slot.Length && Confined(qs, working) ==>
              Kept(old(d.slot[..]), d.slot[..]) && Held(d.slot[..]) <= working && d.gone == old(d.gone)
  {
    hide Blocks, Used, AllUsed, InTime, AllMarked, AllOldest, Coherent, Dirty, View, Held;
    UsedFirst(Blocks(d.uses), qs, [], []);
    if qs == [] { return []; }
    ghost var blocks := Blocks(d.uses);
    assert Confined(qs, working) ==> Confined([qs[0]], working) && Confined(qs[1..], working);
    ghost var first := ServeOne(d, qs[0], working);
    ghost var rest := ServeAll(d, qs[1..], working);
    ps := [first] + rest;
    assert ps[1..] == rest;
    UsedFirst(blocks, qs, [first], rest);
  }

  lemma UsedFirst(blocks: seq<nat>, qs: seq<Request>, first: seq<Reply>, rest: seq<Reply>)
    ensures first == [] && qs == [] ==> blocks + AllUsed(qs, []) == blocks
    ensures |first| == 1 && qs != [] ==>
      blocks + AllUsed(qs, first + rest) == blocks + Used(qs[0], first[0]) + AllUsed(qs[1..], rest)
  {
    if |first| == 1 && qs != [] {
      assert (first + rest)[0] == first[0] && (first + rest)[1..] == rest;
    }
  }

  /* ---- the same requests to a RAM disk ---- */

  /** A request to the RAM disk; a round of the flusher is nothing to it. */
  method RamServeOne(d: Disk, q: Request) returns (p: Reply)
    requires d.Valid() && WellFormed(q)
    modifies d.data
    ensures p == RamReply(old(d.data[..]), q) && d.data[..] == RamAfter(old(d.data[..]), q)
  {
    match q
    case Read(lsn, count) =>
      var buf := new bv8[count * SECTOR_SIZE];
      var err := d.Read(lsn, count, buf);
      p := Data(err, if err == Ok then buf[..count * SECTOR_SIZE] else []);
    case Write(lsn, data) =>
      var buf := new bv8[|data|](i requires 0 <= i < |data| => data[i]);
      assert buf[..] == data && buf[..Count(q) * SECTOR_SIZE] == data;
      var err := d.Write(lsn, Count(q), buf);
      p := Stored(err, if err == Ok then Count(q) else 0);
    case Round =>
      p := Quiet;
  }

  method RamServe(d: Disk, qs: seq<Request>) returns (ps: seq<Reply>)
    requires d.Valid() && forall i | 0 <= i < |qs| :: WellFormed(qs[i])
    modifies d.data
    ensures ps == RamReplies(old(d.data[..]), qs) && d.data[..] == RamEnd(old(d.data[..]), qs)
  {
    hide RamReply, RamAfter;
    if qs == [] { return []; }
    var first := RamServeOne(d, qs[0]);
    var rest := RamServe(d, qs[1..]);
    ps := [first] + rest;
  }

  /**
   The same requests to both disks, which begin with the same contents: as
   long as the flash does not fail the replies are the same, and so are the
   contents afterwards.
   */
  method Alongside(d: Driver, ram: Disk, qs: seq<Request>, ghost working: set<nat>)
      returns (ghost ps: seq<Reply>, rs: seq<Reply>)
    requires d.Valid() && d.Dated() && ram.Valid() && d.Disk() == ram.data[..]
    requires ram.data as object != d.slot as object
    requires forall i | 0 <= i < |qs| :: WellFormed(qs[i])
    modifies d, d.part, d.slot, ram.data
    ensures d.Valid() && Explained(old(d.Disk()), qs, ps, d.Disk())
    ensures d.part.faults == old(d.part.faults) ==> ps == rs && d.Disk() == ram.data[..]
  {
    hide Explained, RamReplies, RamEnd;
    ps := Serve(d, qs, working);
    rs := RamServe(ram, qs);
  }
}
