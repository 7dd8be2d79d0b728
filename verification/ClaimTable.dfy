/** The claims as the system keeps them: a linked list of records, newest first. */
module ClaimTable {
  import opened Options
  import opened ClaimRecords

  datatype Outcome = Ok | Busy | NoMemory | NotFound

  /** Nobody in the first `n` records is in the way. */
  ghost predicate Clear(rs: seq<Rec>, n: nat, name: string, owner: nat, exclusive: bool) {
    n <= |rs| && forall j | 0 <= j < n :: !(Others(rs[j], name, owner) && (rs[j].exclusive || exclusive))
  }

  lemma ClearNext(rs: seq<Rec>, n: nat, name: string, owner: nat, exclusive: bool)
    requires n < |rs|
    ensures Clear(rs, 0, name, owner, exclusive)
    ensures var blocks := Others(rs[n], name, owner) && (rs[n].exclusive || exclusive);
      && (Clear(rs, n + 1, name, owner, exclusive) <==> Clear(rs, n, name, owner, exclusive) && !blocks)
      && (blocks ==> Blocked(rs, name, owner, exclusive))
  {
  }

  lemma ClearAll(rs: seq<Rec>, name: string, owner: nat, exclusive: bool)
    ensures Clear(rs, |rs|, name, owner, exclusive) <==> !Blocked(rs, name, owner, exclusive)
    ensures Clear(rs, 0, name, owner, exclusive)
  {
  }

  class Claim {
    const name: string
    const owner: nat
    var exclusive: bool
    var reserved: bool
    var refs: nat
    var failsafe: Option<nat>
    var next: Claim?
    ghost var paths: nat   // the open paths that hold it

    constructor (name: string, owner: nat, exclusive: bool, next: Claim?)
      ensures Value() == Rec(name, owner, exclusive, false, 1, 0, None) && this.next == next
    {
      this.name, this.owner, this.exclusive, this.next := name, owner, exclusive, next;
      reserved, refs, failsafe, paths := false, 1, None, 0;
    }

    ghost function Value(): Rec
      reads this
    {
      Rec(name, owner, exclusive, reserved, refs, paths, failsafe)
    }
  }

  ghost function Values(cs: seq<Claim>): (rs: seq<Rec>)
    reads cs
    ensures |rs| == |cs| && forall i | 0 <= i < |cs| :: rs[i] == cs[i].Value()
  {
    if cs == [] then [] else Values(cs[..|cs| - 1]) + [cs[|cs| - 1].Value()]
  }

  class Table {
    var head: Claim?
    ghost var spine: seq<Claim>

    /** The claim at place `i` of the list, or null past its end. */
    ghost function At(i: nat): Claim?
      reads this
    {
      if i < |spine| then spine[i] else null
    }

    ghost predicate Linked()
      reads this, spine
    {
      && head == At(0)
      && (forall i {:trigger spine[i].next} | 0 <= i < |spine| :: spine[i].next == At(i + 1))
      && forall i, j | 0 <= i < j < |spine| :: spine[i] != spine[j]
    }

    ghost function Recs(): (rs: seq<Rec>)
      reads this, spine
      ensures |rs| == |spine|
    {
      Values(spine)
    }

    /** From one place of the list to the next. */
    lemma Walk(i: nat)
      requires Linked()
      ensures head == At(0) == if spine == [] then null else spine[0]
      ensures i < |spine| ==> spine[i].next == At(i + 1)
    {
    }

    constructor ()
      ensures Linked() && Recs() == [] && spine == []
    {
      head, spine := null, [];
    }

    /** Who is in the way, if anybody is; otherwise this owner's own record, if there is one. */
    method Look(name: string, owner: nat, exclusive: bool) returns (busy: bool, blocker: nat, mine: Claim?)
      requires Linked() && Tidy(Recs())
      ensures busy <==> Blocked(Recs(), name, owner, exclusive)
      ensures busy ==>
                exists i :: 0 <= i < |spine| && Others(Recs()[i], name, owner) && spine[i].owner == blocker != owner
      ensures !busy ==> mine == At(Own(Recs(), name, owner))
    {
      hide Tidy, Sound, Values, Own, Clear, Blocked, Linked;
      Walk(0);
      ghost var rs := Recs();
      ghost var i: nat, k: nat := 0, |spine|;
      var c := head;
      mine, blocker, busy := null, 0, false;
      ClearAll(rs, name, owner, exclusive);
      while c != null
        invariant i <= |spine| && c == At(i)
        invariant Clear(rs, i, name, owner, exclusive)
        invariant mine == At(k) && (k < i || k == |spine|)
        invariant k < |spine| ==> Is(rs[k], name, owner)
        invariant k == |spine| ==> forall j | 0 <= j < i :: !Is(rs[j], name, owner)
        decreases |spine| - i
      {
        assert rs[i] == c.Value();
        ClearNext(rs, i, name, owner, exclusive);
        if c.name == name {
          if c.owner == owner {
            mine := c;
            k := i;
          } else if c.exclusive || exclusive {
            return true, c.owner, mine;
          }
        }
        Walk(i);
        c := c.next;
        i := i + 1;
      }
      ClearAll(rs, name, owner, exclusive);
      if k < |spine| { OwnIsUnique(rs, k, name, owner); }
    }

    /** Write to one record of the list: the others stay as they are. */
    lemma {:induction false} ValuesAt(cs: seq<Claim>, rs: seq<Rec>, k: nat)
      requires |rs| == |cs| && k < |cs|
      requires forall i | 0 <= i < |cs| && i != k :: rs[i] == cs[i].Value()
      ensures Values(cs) == rs[k := cs[k].Value()]
    {
    }

    /** One more reference on a record already in the list. */
    method Grow(c: Claim, exclusive: bool, ghost k: nat)
      requires Linked() && k < |spine| && spine[k] == c
      modifies c
      ensures Linked() && spine == old(spine)
      ensures Recs() == old(Recs())[k := old(Recs())[k].(exclusive := old(Recs())[k].exclusive || exclusive,
                                                         refs := old(Recs())[k].refs + 1)]
    {
      hide Values;
      ghost var rs := Recs();
      c.exclusive, c.refs := c.exclusive || exclusive, c.refs + 1;
      ValuesAt(spine, rs, k);
    }

    /** A new record, at the head of the list. */
    method Add(name: string, owner: nat, exclusive: bool) returns (c: Claim)
      requires Linked()
      modifies this
      ensures Linked() && fresh(c) && spine == [c] + old(spine)
      ensures Recs() == [Rec(name, owner, exclusive, false, 1, 0, None)] + old(Recs())
    {
      hide Values;
      c := new Claim(name, owner, exclusive, head);
      ghost var cs, rs := spine, Recs();
      assert forall i | 0 <= i < |cs| :: rs[i] == cs[i].Value();
      head := c;
      spine := [c] + spine;
      assert forall i | 0 < i < |spine| :: spine[i] == cs[i - 1];
    }

    /** Take a claim, or leave everything as it is and say why not. */
    method TakeLocked(name: string, owner: nat, exclusive: bool) returns (err: Outcome, out: Claim?, ghost k: nat)
      requires Linked() && Tidy(Recs()) && |name| < NAME_MAX
      modifies this, spine
      ensures Linked()
      ensures err == Busy <==> Blocked(old(Recs()), name, owner, exclusive)
      ensures err == Ok || err == Busy || err == NoMemory
      ensures err == NoMemory ==> Own(old(Recs()), name, owner) == |old(Recs())|
      ensures err != Ok ==> Recs() == old(Recs()) && spine == old(spine)
      ensures err == Ok ==> k < |spine| && out == spine[k] && Recs() == Counting(old(Recs()), name, owner, exclusive)
      ensures err == Ok ==>
                k == var own := Own(old(Recs()), name, owner); if own < |old(Recs())| then own else 0
      ensures err == Ok ==> spine == old(spine) || (fresh(out) && spine == [out] + old(spine))
    {
      hide Tidy, Sound, Blocked, Values;
      var busy, blocker, mine := Look(name, owner, exclusive);
      if busy { return Busy, null, 0; }
      if mine != null {
        k := Own(Recs(), name, owner);
        Grow(mine, exclusive, k);
        return Ok, mine, k;
      }
      var full: bool := *;
      if full { return NoMemory, null, 0; }
      out := Add(name, owner, exclusive);
      return Ok, out, 0;
    }

    /** Open: a claim held by a path. */
    method Take(name: string, owner: nat, exclusive: bool) returns (err: Outcome, out: Claim?)
      requires Linked() && Tidy(Recs()) && |name| < NAME_MAX
      modifies this, spine
      ensures Linked() && Tidy(Recs()) && (old(Sound(Recs())) ==> Sound(Recs()))
      ensures err == Busy <==> Blocked(old(Recs()), name, owner, exclusive)
      ensures err == Ok || err == Busy || err == NoMemory
      ensures err == NoMemory ==> Own(old(Recs()), name, owner) == |old(Recs())|
      ensures err != Ok ==> Recs() == old(Recs()) && spine == old(spine)
      ensures err == Ok ==> Recs() == Taken(old(Recs()), name, owner, exclusive, true)
      ensures err == Ok ==> out != null && out in spine && out.name == name && out.owner == owner
    {
      ghost var rs, k := Recs(), 0;
      hide *;
      err, out, k := TakeLocked(name, owner, exclusive);
      if err != Ok { return; }
      CountingIsTaking(rs, name, owner, exclusive, k, true);
      TakeTidy(rs, name, owner, exclusive, true);
      if Sound(rs) { TakeSound(rs, name, owner, exclusive, true); }
      HoldPath(out, k);
    }

    /** A path is open on this claim. */
    ghost method HoldPath(c: Claim, k: nat)
      requires Linked() && k < |spine| && spine[k] == c
      modifies c
      ensures Linked() && Recs() == old(Recs())[k := For(old(Recs())[k], true)]
      ensures spine == old(spine) && c.name == old(Recs())[k].name && c.owner == old(Recs())[k].owner
    {
      hide Values;
      var rs := Recs();
      c.paths := c.paths + 1;
      ValuesAt(spine, rs, k);
    }

    /** Reserve it for the owner's life. */
    method MarkReserved(c: Claim, ghost k: nat)
      requires Linked() && k < |spine| && spine[k] == c
      modifies c
      ensures Linked() && Recs() == old(Recs())[k := For(old(Recs())[k], false)]
      ensures spine == old(spine)
    {
      hide Values;
      ghost var rs := Recs();
      c.reserved := true;
      ValuesAt(spine, rs, k);
    }

    /** The list without its first record. */
    method UnlinkHead()
      requires Linked() && spine != []
      modifies this
      ensures Linked() && spine == old(spine)[1..] && Recs() == old(Recs())[1..]
    {
      hide Values;
      ghost var rs, cs := Recs(), spine;
      Walk(0);
      head := head.next;
      spine := spine[1..];
      assert forall i | 0 <= i < |spine| :: spine[i] == cs[i + 1];
      ValuesAre(spine, rs[1..]);
    }

    /** The list without the record after `p`. */
    method UnlinkAfter(p: Claim, ghost k: nat)
      requires Linked() && 0 < k < |spine| && spine[k - 1] == p
      modifies this, p
      ensures Linked() && spine == old(spine)[..k] + old(spine)[k + 1..]
      ensures Recs() == old(Recs())[..k] + old(Recs())[k + 1..]
    {
      hide Values;
      ghost var rs, cs := Recs(), spine;
      Walk(k - 1);
      Walk(k);
      p.next := p.next.next;
      spine := spine[..k] + spine[k + 1..];
      forall i | 0 <= i < |spine|
        ensures spine[i] == cs[if i < k then i else i + 1] && spine[i].next == At(i + 1)
        ensures (rs[..k] + rs[k + 1..])[i] == spine[i].Value()
      {
        assert old(cs[if i < k then i else i + 1].next) == old(At(if i < k then i + 1 else i + 2));
        assert rs[if i < k then i else i + 1] == old(cs[if i < k then i else i + 1].Value());
      }
      ValuesAre(spine, rs[..k] + rs[k + 1..]);
    }

    lemma ValuesAre(cs: seq<Claim>, rs: seq<Rec>)
      requires |rs| == |cs| && forall i | 0 <= i < |cs| :: rs[i] == cs[i].Value()
      ensures Values(cs) == rs
    {
    }

    method FindBefore(c: Claim, ghost k: nat) returns (p: Claim)
      requires Linked() && k < |spine| && spine[k] == c && head != c
      ensures 0 < k && p == spine[k - 1]
    {
      Walk(0);
      p := head;
      ghost var i: nat := 0;
      while p.next != c
        invariant i < k && p == spine[i]
        decreases k - i
      {
        Walk(i);
        p := p.next;
        i := i + 1;
      }
      Walk(i);
    }

    /** One reference less; the record goes with its last. */
    method DropLocked(c: Claim, ghost k: nat) returns (freed: bool)
      requires Linked() && k < |spine| && spine[k] == c
      modifies this, spine
      ensures Linked()
      ensures Recs() == Lessened(old(Recs()), k)
      ensures spine == if freed then old(spine)[..k] + old(spine)[k + 1..] else old(spine)
      ensures freed == (old(c.refs) <= 1)
    {
      ghost var rs, cs := Recs(), spine;
      assert rs[k] == c.Value();
      assert rs[k].refs == c.refs;
      hide *;
      Forgo(c, k);
      LessenedIs(rs, k, c.refs);
      if c.refs > 0 { return false; }
      Unlink(c, k);
      freed := true;
    }

    /** The list without this claim. */
    method Unlink(c: Claim, ghost k: nat)
      requires Linked() && k < |spine| && spine[k] == c
      modifies this, spine
      ensures Linked() && spine == old(spine)[..k] + old(spine)[k + 1..]
      ensures Recs() == old(Recs())[..k] + old(Recs())[k + 1..]
    {
      hide *;
      ghost var rs, cs := Recs(), spine;
      FirstIsHead(c, k);
      if head == c {
        UnlinkHead();
        assert cs[..0] + cs[1..] == cs[1..] && rs[..0] + rs[1..] == rs[1..];
      } else {
        var p := FindBefore(c, k);
        UnlinkAfter(p, k);
      }
    }

    lemma FirstIsHead(c: Claim, k: nat)
      requires Linked() && k < |spine| && spine[k] == c
      ensures head == c <==> k == 0
    {
      Walk(0);
    }

    method Forgo(c: Claim, ghost k: nat)
      requires Linked() && k < |spine| && spine[k] == c
      modifies c
      ensures Linked() && spine == old(spine) && c.refs == if old(c.refs) > 0 then old(c.refs) - 1 else 0
      ensures Recs() == old(Recs())[k := old(Recs())[k].(refs := c.refs)]
    {
      hide Values;
      ghost var rs := Recs();
      if c.refs > 0 { c.refs := c.refs - 1; }
      ValuesAt(spine, rs, k);
    }

    /** Close: the path's reference is given back. */
    method Drop(c: Claim)
      requires Linked() && Tidy(Recs()) && c in spine && c.paths > 0
      modifies this, spine
      ensures Linked() && Tidy(Recs()) && (old(Sound(Recs())) ==> Sound(Recs()))
      ensures var rs := old(Recs());
        var k := Own(rs, c.name, c.owner);
        k < |rs| && Recs() == Dropped(rs, k)
    {
      hide *;
      ghost var k: nat :| k < |spine| && spine[k] == c;
      ghost var rs := Recs();
      Handle(c, k);
      DropIsLessening(rs, k);
      LosePath(c, k);
      var freed := DropLocked(c, k);
    }

    /** A path's handle is its owner's record. */
    lemma Handle(c: Claim, k: nat)
      requires Linked() && Tidy(Recs()) && k < |spine| && spine[k] == c && c.paths > 0
      ensures k < |Recs()| && Recs()[k].paths > 0 && Own(Recs(), c.name, c.owner) == k
      ensures Tidy(Dropped(Recs(), k)) && (Sound(Recs()) ==> Sound(Dropped(Recs(), k)))
    {
      hide Values;
      var rs := Recs();
      assert rs[k] == c.Value();
      OwnIsUnique(rs, k, c.name, c.owner);
      DropTidy(rs, k);
      if Sound(rs) { DropSound(rs, k); }
    }

    ghost method LosePath(c: Claim, k: nat)
      requires Linked() && k < |spine| && spine[k] == c && c.paths > 0
      modifies c
      ensures Linked() && spine == old(spine) && old(Recs())[k].paths > 0
      ensures Recs() == old(Recs())[k := old(Recs())[k].(paths := old(Recs())[k].paths - 1)]
    {
      hide Values;
      var rs := Recs();
      c.paths := c.paths - 1;
      ValuesAt(spine, rs, k);
    }

    method FindOwn(name: string, owner: nat) returns (c: Claim?)
      requires Linked()
      ensures c == At(Own(Recs(), name, owner))
    {
      hide Values, Linked;
      ghost var rs := Recs();
      Walk(0);
      c := head;
      ghost var i: nat := 0;
      while c != null
        invariant i <= |spine| && c == At(i)
        invariant i + Own(rs[i..], name, owner) == Own(rs, name, owner)
        decreases |spine| - i
      {
        assert rs[i] == c.Value() && rs[i..][1..] == rs[i + 1..];
        if c.owner == owner && c.name == name { return; }
        Walk(i);
        c := c.next;
        i := i + 1;
      }
    }

    /** Reserve for a process that does not exist yet; twice is as good as once. */
    method Reserve(name: string, owner: nat, exclusive: bool) returns (err: Outcome)
      requires Linked() && Tidy(Recs()) && |name| < NAME_MAX
      modifies this, spine
      ensures Linked()
      ensures err == Busy <==> !MayReserve(old(Recs()), name, owner, exclusive)
      ensures err == Ok || err == Busy || err == NoMemory
      ensures err == NoMemory ==> Own(old(Recs()), name, owner) == |old(Recs())|
      ensures err != Ok ==> Recs() == old(Recs())
      ensures err == Ok ==> Recs() == Reserved(old(Recs()), name, owner, exclusive)
      ensures Tidy(Recs())
      ensures old(Sound(Recs())) ==>
                (Sound(Recs()) <==> !(err == Ok && UpgradesOverOthers(old(Recs()), name, owner, exclusive)))
    {
      ghost var rs, k := Recs(), Own(Recs(), name, owner);
      hide Values, Linked, Tidy, Sound, Own, Blocked;
      var c := FindOwn(name, owner);
      assert k < |spine| ==> c == spine[k] && rs[k] == c.Value();
      if c != null && c.reserved {
        ReserveTidy(rs, name, owner, exclusive);
        if Sound(rs) { ReserveSound(rs, name, owner, exclusive); }
        Upgrade(c, exclusive, k);
        return Ok;
      }
      err := ReserveNew(name, owner, exclusive);
    }

    /** The one branch that looks at nobody else's claim. */
    method Upgrade(c: Claim, exclusive: bool, ghost k: nat)
      requires Linked() && k < |spine| && spine[k] == c
      modifies c
      ensures Linked() && spine == old(spine)
      ensures Recs() == old(Recs())[k := old(Recs())[k].(exclusive := old(Recs())[k].exclusive || exclusive)]
    {
      hide Values;
      ghost var rs := Recs();
      if exclusive { c.exclusive := true; }
      ValuesAt(spine, rs, k);
    }

    method ReserveNew(name: string, owner: nat, exclusive: bool) returns (err: Outcome)
      requires Linked() && Tidy(Recs()) && |name| < NAME_MAX
      requires Own(Recs(), name, owner) < |Recs()| ==> !Recs()[Own(Recs(), name, owner)].reserved
      modifies this, spine
      ensures Linked()
      ensures err == Busy <==> !MayReserve(old(Recs()), name, owner, exclusive)
      ensures err == Ok || err == Busy || err == NoMemory
      ensures err == NoMemory ==> Own(old(Recs()), name, owner) == |old(Recs())|
      ensures err != Ok ==> Recs() == old(Recs())
      ensures err == Ok ==> Recs() == Reserved(old(Recs()), name, owner, exclusive)
      ensures Tidy(Recs()) && (old(Sound(Recs())) ==> Sound(Recs()))
      ensures !UpgradesOverOthers(old(Recs()), name, owner, exclusive)
    {
      ghost var rs := Recs();
      NothingReserved(rs, name, owner, exclusive);
      hide *;
      ghost var k;
      var out;
      err, out, k := TakeLocked(name, owner, exclusive);
      if err == Ok {
        CountingIsTaking(rs, name, owner, exclusive, k, false);
        TakeTidy(rs, name, owner, exclusive, false);
        if Sound(rs) { TakeSound(rs, name, owner, exclusive, false); }
        MarkReserved(out, k);
      }
    }

    /** One reservation given back, and the record with it if nothing else holds it. */
    method Unreserve(c: Claim, ghost k: nat) returns (freed: bool)
      requires Linked() && k < |spine| && spine[k] == c && c.reserved
      modifies this, spine
      ensures Linked() && freed == (Shrunk(old(Recs())[k], false) == [])
      ensures Recs() == old(Recs())[..k] + Shrunk(old(Recs())[k], false) + old(Recs())[k + 1..]
      ensures spine == if freed then old(spine)[..k] + old(spine)[k + 1..] else old(spine)
    {
      ghost var rs := Recs();
      assert rs[k] == c.Value();
      UnreserveIsLessening(rs, k);
      hide Values, Lessened, Shrunk;
      ClearReserved(c, k);
      freed := DropLocked(c, k);
    }

    method ClearReserved(c: Claim, ghost k: nat)
      requires Linked() && k < |spine| && spine[k] == c
      modifies c
      ensures Linked() && spine == old(spine) && c.refs == old(c.refs)
      ensures Recs() == old(Recs())[k := old(Recs())[k].(reserved := false)]
    {
      hide Values;
      ghost var rs := Recs();
      c.reserved := false;
      ValuesAt(spine, rs, k);
    }

    /** However a process ended, its reservations are given back. */
    method ReleasePid(owner: nat)
      requires Linked() && Tidy(Recs())
      modifies this, spine
      ensures Linked() && Tidy(Recs())
      ensures Recs() == Released(old(Recs()), owner) && (old(Sound(Recs())) ==> Sound(Recs()))
    {
      ghost var rs, todo := Recs(), spine;
      hide *;
      ReleaseTidy(rs, owner);
      if Sound(rs) { ReleaseSound(rs, owner); }
      Walk(0);
      var c := head;
      ghost var i: nat, done: nat := 0, 0;
      ReleasedNone(rs, owner);
      assert todo[0..] == todo;
      while c != null
        invariant Linked() && i <= |todo| && done <= |spine| && spine[done..] == todo[i..]
        invariant c == if done < |spine| then spine[done] else null
        invariant Partly(rs, i, done, owner, Recs())
        invariant forall j | 0 <= j < |spine| :: spine[j] in old(spine)
        decreases |todo| - i
      {
        c, done := ReleaseOne(c, owner, rs, i, done);
        i := i + 1;
      }
      assert i == |todo| by { assert spine[done..] == []; }
      PartlyAll(rs, i, done, owner, Recs());
    }

    /** One record of the walk: release it if it is this owner's, and step on. */
    method ReleaseOne(c: Claim, owner: nat, ghost rs: seq<Rec>, ghost i: nat, ghost done: nat)
        returns (next: Claim?, ghost after: nat)
      requires Linked() && i < |rs| && done < |spine| && spine[done] == c
      requires Partly(rs, i, done, owner, Recs())
      modifies this, spine
      ensures Linked() && after <= |spine| && next == if after < |spine| then spine[after] else null
      ensures spine[after..] == old(spine)[done + 1..] && forall j | 0 <= j < |spine| :: spine[j] in old(spine)
      ensures Partly(rs, i + 1, after, owner, Recs())
    {
      hide Tidy, Sound, Values, Partly, Linked, Shrunk;
      ghost var cs, now := spine, Recs();
      Walk(done);
      next := c.next;
      PartlyStep(rs, i, done, owner, now);
      assert now[done] == c.Value();
      if c.owner == owner && c.reserved {
        var freed := Unreserve(c, done);
        after := if freed then done else done + 1;
      } else {
        after := done + 1;
      }
    }

    /** A failsafe is recorded against a claim already held, or refused. */
    method SetFailsafe(name: string, owner: nat, value: nat) returns (err: Outcome)
      requires Linked() && Tidy(Recs())
      modifies spine
      ensures Linked() && Tidy(Recs()) && (old(Sound(Recs())) ==> Sound(Recs()))
      ensures spine == old(spine) && Recs() == Parked(old(Recs()), name, owner, value)
      ensures err == if exists i :: 0 <= i < |old(Recs())| && Is(old(Recs())[i], name, owner) then Ok else NotFound
    {
      hide *;
      ghost var rs, k := Recs(), Own(Recs(), name, owner);
      ParkKeeps(rs, name, owner, value);
      OwnExists(rs, name, owner);
      ParkedIs(rs, name, owner, value);
      var c := FindOwn(name, owner);
      OwnPlace(k);
      if c == null { return NotFound; }
      SetPark(c, value, k);
      return Ok;
    }

    lemma OwnPlace(k: nat)
      ensures At(k) == null <==> k >= |spine|
      ensures k < |spine| ==> At(k) == spine[k]
    {
    }

    method SetPark(c: Claim, value: nat, ghost k: nat)
      requires Linked() && k < |spine| && spine[k] == c
      modifies c
      ensures Linked() && spine == old(spine)
      ensures Recs() == old(Recs())[k := old(Recs())[k].(failsafe := Some(value))]
    {
      hide Values;
      ghost var rs := Recs();
      c.failsafe := Some(value);
      ValuesAt(spine, rs, k);
    }

    /** What this owner promised to park, in the order of the list; at most `max` of it is copied out. */
    method Failsafes(owner: nat, max: nat) returns (n: nat, out: seq<(string, nat)>)
      requires Linked()
      ensures n == |Promised(Recs(), owner)|
      ensures out == Promised(Recs(), owner)[..if n < max then n else max]
    {
      hide Values, Linked, Recs;
      ghost var rs := Recs();
      Walk(0);
      var c := head;
      ghost var i: nat := 0;
      n, out := 0, [];
      assert rs[..0] == [];
      while c != null
        invariant i <= |spine| && c == At(i)
        invariant n == |Promised(rs[..i], owner)|
        invariant out == Promised(rs[..i], owner)[..if n < max then n else max]
        decreases |spine| - i
      {
        ValueAt(i);
        assert rs[..i + 1][..i] == rs[..i];
        if c.owner == owner && c.failsafe.Some? {
          if n < max { out := out + [(c.name, c.failsafe.value)]; }
          n := n + 1;
        }
        Walk(i);
        c := c.next;
        i := i + 1;
      }
      assert rs[..i] == rs;
    }

    lemma ValueAt(i: nat)
      requires i < |spine|
      ensures Recs()[i] == spine[i].Value()
    {
    }

    /** Whose a resource is; the first exclusive owner is the definitive answer, and the only owner in a sound table. */
    method OwnerOf(name: string) returns (found: bool, owner: nat, exclusive: bool)
      requires Linked()
      ensures found <==> exists i :: 0 <= i < |Recs()| && Recs()[i].name == name
      ensures found ==> exists i :: 0 <= i < |Recs()| && Is(Recs()[i], name, owner) && Recs()[i].exclusive == exclusive
      ensures exclusive ==>
                found && exists i :: 0 <= i < |Recs()| && Is(Recs()[i], name, owner) && FirstAlone(Recs(), name, i)
      ensures exclusive && Sound(Recs()) ==>
                forall i | 0 <= i < |Recs()| && Recs()[i].name == name :: Recs()[i].owner == owner
      ensures !exclusive ==> forall i | 0 <= i < |Recs()| && Recs()[i].name == name :: !Recs()[i].exclusive
      ensures found && !exclusive ==>
                exists i :: 0 <= i < |Recs()| && Is(Recs()[i], name, owner) && LastOf(Recs(), name, i)
    {
      hide Values, Linked, Recs;
      ghost var rs := Recs();
      Walk(0);
      var c := head;
      ghost var i: nat := 0;
      found, owner, exclusive := false, 0, false;
      while c != null
        invariant i <= |spine| && c == At(i)
        invariant found <==> exists j :: 0 <= j < i && rs[j].name == name
        invariant found ==> exists j :: 0 <= j < i && Is(rs[j], name, owner) && rs[j].exclusive == exclusive
        invariant !exclusive
        invariant forall j | 0 <= j < i && rs[j].name == name :: !rs[j].exclusive
        invariant found ==> exists j :: 0 <= j < i && Is(rs[j], name, owner) && LastOf(rs[..i], name, j)
        decreases |spine| - i
      {
        ValueAt(i);
        if c.name == name {
          found, owner, exclusive := true, c.owner, c.exclusive;
          assert Is(rs[i], name, owner);
          if c.exclusive {
            assert FirstAlone(rs, name, i);
            if Sound(rs) { ExclusiveIsAlone(rs, i); }
            return;
          }
        }
        Walk(i);
        c := c.next;
        i := i + 1;
      }
    }
  }

  /** One reference less on the record at `k`, or the record gone. */
  function Lessened(rs: seq<Rec>, k: nat): seq<Rec>
    requires k < |rs|
  {
    rs[..k] + (if rs[k].refs > 1 then [rs[k].(refs := rs[k].refs - 1)] else []) + rs[k + 1..]
  }

  lemma LessenedIs(rs: seq<Rec>, k: nat, refs: nat)
    requires k < |rs| && refs == if rs[k].refs > 0 then rs[k].refs - 1 else 0
    ensures var r := rs[k := rs[k].(refs := refs)];
      Lessened(rs, k) == if refs > 0 then r else r[..k] + r[k + 1..]
  {
    var r := rs[k := rs[k].(refs := refs)];
    assert r == r[..k] + [r[k]] + r[k + 1..];
  }

  lemma DropIsLessening(rs: seq<Rec>, k: nat)
    requires k < |rs| && rs[k].paths > 0
    ensures Lessened(rs[k := rs[k].(paths := rs[k].paths - 1)], k) == Dropped(rs, k)
  {
    var r := rs[k := rs[k].(paths := rs[k].paths - 1)];
    assert r[..k] == rs[..k] && r[k + 1..] == rs[k + 1..];
  }

  lemma UnreserveIsLessening(rs: seq<Rec>, k: nat)
    requires k < |rs|
    ensures Lessened(rs[k := rs[k].(reserved := false)], k) == rs[..k] + Shrunk(rs[k], false) + rs[k + 1..]
    ensures Shrunk(rs[k], false) == [] <==> rs[k].refs <= 1
  {
    var r := rs[k := rs[k].(reserved := false)];
    assert r[..k] == rs[..k] && r[k + 1..] == rs[k + 1..];
  }

  /** Part way through a release: the first `i` records have become the first `done`. */
  ghost predicate Partly(rs: seq<Rec>, i: nat, done: nat, owner: nat, now: seq<Rec>) {
    && i <= |rs| && done == |Released(rs[..i], owner)|
    && now == Released(rs[..i], owner) + rs[i..]
  }

  lemma ReleasedNone(rs: seq<Rec>, owner: nat)
    ensures Partly(rs, 0, 0, owner, rs)
  {
    assert rs[..0] == [] && rs[0..] == rs;
  }

  lemma PartlyAll(rs: seq<Rec>, i: nat, done: nat, owner: nat, now: seq<Rec>)
    requires Partly(rs, i, done, owner, now) && i == |rs|
    ensures now == Released(rs, owner)
  {
    assert rs[..i] == rs && rs[i..] == [];
  }

  lemma PartlyStep(rs: seq<Rec>, i: nat, done: nat, owner: nat, now: seq<Rec>)
    requires Partly(rs, i, done, owner, now) && i < |rs|
    ensures done < |now| && now[done] == rs[i]
    ensures var s := Shrunk(rs[i], false);
      if rs[i].owner == owner && rs[i].reserved
      then Partly(rs, i + 1, done + |s|, owner, now[..done] + s + now[done + 1..])
      else Partly(rs, i + 1, done + 1, owner, now)
  {
    ReleasedStep(rs, i, owner);
    assert rs[i..] == [rs[i]] + rs[i + 1..];
    assert now[..done] == Released(rs[..i], owner) && now[done + 1..] == rs[i + 1..];
  }

  /** What an owner has promised to leave its devices at. */
  function Promised(rs: seq<Rec>, owner: nat): seq<(string, nat)> {
    if rs == [] then []
    else
      var r := rs[|rs| - 1];
      var before := Promised(rs[..|rs| - 1], owner);
      if r.owner == owner && r.failsafe.Some? then before + [(r.name, r.failsafe.value)] else before
  }

  /** `ks` are the places of the owner's records with a failsafe, all of them and in order; `out` is what these say. */
  ghost predicate AllParked(rs: seq<Rec>, owner: nat, ks: seq<nat>, out: seq<(string, nat)>) {
    && |out| == |ks|
    && (forall i, j | 0 <= i < j < |ks| :: ks[i] < ks[j])
    && (forall i | 0 <= i < |ks| :: ks[i] < |rs| && rs[ks[i]].owner == owner
          && rs[ks[i]].failsafe == Some(out[i].1) && out[i].0 == rs[ks[i]].name)
    && forall k: nat | k < |rs| && rs[k].owner == owner && rs[k].failsafe != None :: k in ks
  }

  /** Every promise is the owner's own parked record, and none is missed. */
  lemma {:induction false} PromisedIs(rs: seq<Rec>, owner: nat) returns (ks: seq<nat>)
    ensures AllParked(rs, owner, ks, Promised(rs, owner))
  {
    hide AllParked;
    if rs == [] {
      ks := [];
      NoneParked(owner);
    } else {
      var had := PromisedIs(rs[..|rs| - 1], owner);
      var r := rs[|rs| - 1];
      ks := if r.owner == owner && r.failsafe.Some? then had + [|rs| - 1] else had;
      OneMoreParked(rs, owner, had, Promised(rs[..|rs| - 1], owner));
    }
  }

  lemma NoneParked(owner: nat)
    ensures AllParked([], owner, [], [])
  {
  }

  lemma OneMoreParked(rs: seq<Rec>, owner: nat, had: seq<nat>, out: seq<(string, nat)>)
    requires rs != [] && AllParked(rs[..|rs| - 1], owner, had, out)
    ensures var n, r := |rs| - 1, rs[|rs| - 1];
      if r.owner == owner && r.failsafe.Some?
      then AllParked(rs, owner, had + [n], out + [(r.name, r.failsafe.value)])
      else AllParked(rs, owner, had, out)
  {
    hide AllParked;
    if rs[|rs| - 1].owner == owner && rs[|rs| - 1].failsafe.Some? {
      LastParked(rs, owner, had, out);
    } else {
      LastNotParked(rs, owner, had, out);
    }
  }

  lemma LastNotParked(rs: seq<Rec>, owner: nat, had: seq<nat>, out: seq<(string, nat)>)
    requires rs != [] && AllParked(rs[..|rs| - 1], owner, had, out)
    requires !(rs[|rs| - 1].owner == owner && rs[|rs| - 1].failsafe.Some?)
    ensures AllParked(rs, owner, had, out)
  {
    var n := |rs| - 1;
    var before := rs[..n];
    assert forall k | 0 <= k < n :: before[k] == rs[k];
    forall k: nat | k < |rs| && rs[k].owner == owner && rs[k].failsafe != None ensures k in had {
      assert k < n;
    }
  }

  lemma LastParked(rs: seq<Rec>, owner: nat, had: seq<nat>, out: seq<(string, nat)>)
    requires rs != [] && AllParked(rs[..|rs| - 1], owner, had, out)
    requires rs[|rs| - 1].owner == owner && rs[|rs| - 1].failsafe.Some?
    ensures AllParked(rs, owner, had + [|rs| - 1], out + [(rs[|rs| - 1].name, rs[|rs| - 1].failsafe.value)])
  {
    var n, r := |rs| - 1, rs[|rs| - 1];
    var before, ks, all := rs[..n], had + [n], out + [(r.name, r.failsafe.value)];
    assert forall k | 0 <= k < n :: before[k] == rs[k];
    forall i | 0 <= i < |ks|
      ensures ks[i] < |rs| && rs[ks[i]].owner == owner
      ensures rs[ks[i]].failsafe == Some(all[i].1) && all[i].0 == rs[ks[i]].name
    {
      if i < |had| { assert ks[i] == had[i] && all[i] == out[i]; }
    }
    forall k: nat | k < |rs| && rs[k].owner == owner && rs[k].failsafe != None ensures k in ks {
      if k < n {
        assert k in had;
      } else {
        assert ks[|had|] == n;
      }
    }
  }

  lemma OwnExists(rs: seq<Rec>, name: string, owner: nat)
    ensures Own(rs, name, owner) < |rs| <==> exists i :: 0 <= i < |rs| && Is(rs[i], name, owner)
  {
  }

  lemma ParkKeeps(rs: seq<Rec>, name: string, owner: nat, value: nat)
    requires Tidy(rs)
    ensures Tidy(Parked(rs, name, owner, value)) && (Sound(rs) ==> Sound(Parked(rs, name, owner, value)))
  {
    ParkTidy(rs, name, owner, value);
    if Sound(rs) { ParkSound(rs, name, owner, value); }
  }

  lemma ParkedIs(rs: seq<Rec>, name: string, owner: nat, value: nat)
    ensures var k := Own(rs, name, owner);
      Parked(rs, name, owner, value) == if k < |rs| then rs[k := rs[k].(failsafe := Some(value))] else rs
  {
  }

  /** The first record of a resource that is exclusive. */
  ghost predicate FirstAlone(rs: seq<Rec>, name: string, i: nat) {
    i < |rs| && rs[i].name == name && rs[i].exclusive && forall j | 0 <= j < i && rs[j].name == name :: !rs[j].exclusive
  }

  /** The last record of a resource in the list. */
  ghost predicate LastOf(rs: seq<Rec>, name: string, i: nat) {
    i < |rs| && rs[i].name == name && forall j | i < j < |rs| :: rs[j].name != name
  }

  lemma ExclusiveIsAlone(rs: seq<Rec>, i: nat)
    requires Sound(rs) && i < |rs| && rs[i].exclusive
    ensures forall j | 0 <= j < |rs| && rs[j].name == rs[i].name :: j == i
  {
    assert forall j | 0 <= j < i :: Compatible(rs[j], rs[i]);
    assert forall j | i < j < |rs| :: Compatible(rs[i], rs[j]);
  }

  lemma NothingReserved(rs: seq<Rec>, name: string, owner: nat, exclusive: bool)
    requires Own(rs, name, owner) < |rs| ==> !rs[Own(rs, name, owner)].reserved
    ensures MayReserve(rs, name, owner, exclusive) <==> !Blocked(rs, name, owner, exclusive)
    ensures Reserved(rs, name, owner, exclusive) == Taken(rs, name, owner, exclusive, false)
    ensures !UpgradesOverOthers(rs, name, owner, exclusive)
  {
  }

  /** One record further. */
  lemma ReleasedStep(rs: seq<Rec>, i: nat, owner: nat)
    requires i < |rs|
    ensures Released(rs[..i + 1], owner) == Released(rs[..i], owner)
              + (if rs[i].owner == owner && rs[i].reserved then Shrunk(rs[i], false) else [rs[i]])
  {
    assert rs[..i + 1] == rs[..i] + [rs[i]];
    ReleasedAppend(rs[..i], [rs[i]], owner);
    assert [rs[i]][1..] == [];
  }

  /** Whichever it turns out to be for, a counted reference is a taken one. */
  lemma CountingIsTaking(rs: seq<Rec>, name: string, owner: nat, exclusive: bool, k: nat, path: bool)
    requires k == if Own(rs, name, owner) < |rs| then Own(rs, name, owner) else 0
    ensures var c := Counting(rs, name, owner, exclusive);
      && k < |c| && c[k].name == name && c[k].owner == owner
      && c[k := For(c[k], path)] == Taken(rs, name, owner, exclusive, path)
  {
    var c := Counting(rs, name, owner, exclusive);
    if Own(rs, name, owner) < |rs| {
      assert c[k := For(c[k], path)] == rs[k := For(c[k], path)];
    } else {
      assert c[1..] == rs && c[0 := For(c[0], path)][1..] == rs;
    }
  }

  function For(r: Rec, path: bool): Rec {
    if path then r.(paths := r.paths + 1) else r.(reserved := true)
  }

  /** One more reference counted, not yet said whether for a path or a reservation. */
  function Counting(rs: seq<Rec>, name: string, owner: nat, exclusive: bool): seq<Rec> {
    var k := Own(rs, name, owner);
    if k < |rs| then rs[k := rs[k].(exclusive := rs[k].exclusive || exclusive, refs := rs[k].refs + 1)]
    else [Rec(name, owner, exclusive, false, 1, 0, None)] + rs
  }
}
