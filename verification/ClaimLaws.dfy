/** What each step does to the records, told record by record, and what an owner can count on. */
module ClaimLaws {
  import opened Options
  import opened ClaimRecords

  /** Nothing differs but the record at `k`. */
  predicate OnlyAt(rs: seq<Rec>, after: seq<Rec>, k: nat) {
    |after| == |rs| && k < |rs| && forall i | 0 <= i < |rs| && i != k :: after[i] == rs[i]
  }

  /** One more reference: on the owner's record, the rest of which stays, or on a new one in front. */
  ghost predicate Grows(rs: seq<Rec>, after: seq<Rec>, name: string, owner: nat, exclusive: bool, path: bool) {
    if exists i :: 0 <= i < |rs| && rs[i].name == name && rs[i].owner == owner then
      exists k: nat :: OnlyAt(rs, after, k) && rs[k].name == name && rs[k].owner == owner
        && after[k] == Rec(name, owner, rs[k].exclusive || exclusive, rs[k].reserved || !path, rs[k].refs + 1,
                           rs[k].paths + (if path then 1 else 0), rs[k].failsafe)
    else
      after == [Rec(name, owner, exclusive, !path, 1, if path then 1 else 0, None)] + rs
  }

  lemma OwnIff(rs: seq<Rec>, name: string, owner: nat)
    ensures var k := Own(rs, name, owner);
      && (k < |rs| ==> rs[k].name == name && rs[k].owner == owner)
      && (k < |rs| <==> exists i :: 0 <= i < |rs| && rs[i].name == name && rs[i].owner == owner)
  {
    var k := Own(rs, name, owner);
    forall i | 0 <= i < |rs| && rs[i].name == name && rs[i].owner == owner ensures k <= i {
      assert Is(rs[i], name, owner);
    }
  }

  lemma TakenGrows(rs: seq<Rec>, name: string, owner: nat, exclusive: bool, path: bool)
    ensures Grows(rs, Taken(rs, name, owner, exclusive, path), name, owner, exclusive, path)
  {
    OwnIff(rs, name, owner);
    var k, after := Own(rs, name, owner), Taken(rs, name, owner, exclusive, path);
    if k < |rs| {
      assert OnlyAt(rs, after, k);
    }
  }

  /** Refused exactly when someone else has the resource and one of the two wants it alone. */
  ghost predicate Refused(rs: seq<Rec>, name: string, owner: nat, exclusive: bool) {
    exists i :: 0 <= i < |rs| && rs[i].name == name && rs[i].owner != owner && (rs[i].exclusive || exclusive)
  }

  lemma RefusedIff(rs: seq<Rec>, name: string, owner: nat, exclusive: bool)
    ensures Blocked(rs, name, owner, exclusive) <==> Refused(rs, name, owner, exclusive)
  {
  }

  /** An open is refused and changes nothing, or is one more path. */
  lemma OpenIs(rs: seq<Rec>, name: string, owner: nat, exclusive: bool)
    ensures var after := After(rs, Open(name, owner, exclusive));
      if Refused(rs, name, owner, exclusive) then after == rs else Grows(rs, after, name, owner, exclusive, true)
  {
    RefusedIff(rs, name, owner, exclusive);
    TakenGrows(rs, name, owner, exclusive, true);
  }

  /** A close is one path and one reference less on the owner's record, which goes with its last reference. */
  lemma CloseIs(rs: seq<Rec>, k: nat)
    requires Tidy(rs) && k < |rs| && rs[k].paths > 0
    ensures var after := After(rs, Close(rs[k].name, rs[k].owner));
      if rs[k].refs == 1 then after == rs[..k] + rs[k + 1..]
      else OnlyAt(rs, after, k) && after[k] == rs[k].(refs := rs[k].refs - 1, paths := rs[k].paths - 1)
  {
    hide Tidy, Own, Dropped;
    OwnIsUnique(rs, k, rs[k].name, rs[k].owner);
    TidyIs(rs, k);
    DroppedIs(rs, k);
  }

  lemma DroppedIs(rs: seq<Rec>, k: nat)
    requires k < |rs| && rs[k].paths > 0 && rs[k].refs >= 1
    ensures Dropped(rs, k) ==
      if rs[k].refs == 1 then rs[..k] + rs[k + 1..]
      else rs[k := rs[k].(refs := rs[k].refs - 1, paths := rs[k].paths - 1)]
  {
    if rs[k].refs == 1 {
      assert rs[..k] + [] + rs[k + 1..] == rs[..k] + rs[k + 1..];
    } else {
      InPlace(rs, k, rs[k].(refs := rs[k].refs - 1, paths := rs[k].paths - 1));
    }
  }

  /**
   A reservation made already can only be made exclusive, and nobody is asked;
   otherwise it is refused and changes nothing, or is one more reference.
   */
  lemma ReserveIs(rs: seq<Rec>, name: string, owner: nat, exclusive: bool, k: nat)
    requires Tidy(rs)
    ensures var after := After(rs, Reserve(name, owner, exclusive));
      var had := exists i :: 0 <= i < |rs| && rs[i].name == name && rs[i].owner == owner && rs[i].reserved;
      && (k < |rs| && rs[k].name == name && rs[k].owner == owner && rs[k].reserved ==>
            OnlyAt(rs, after, k) && after[k] == rs[k].(exclusive := rs[k].exclusive || exclusive))
      && (!had && Refused(rs, name, owner, exclusive) ==> after == rs)
      && (!had && !Refused(rs, name, owner, exclusive) ==> Grows(rs, after, name, owner, exclusive, false))
  {
    RefusedIff(rs, name, owner, exclusive);
    TakenGrows(rs, name, owner, exclusive, false);
    OwnIff(rs, name, owner);
    if k < |rs| && rs[k].name == name && rs[k].owner == owner { OwnIsUnique(rs, k, name, owner); }
  }

  /** Parking touches nothing but the failsafe of the owner's own record; without one it does nothing. */
  lemma ParkIs(rs: seq<Rec>, name: string, owner: nat, value: nat, k: nat)
    requires Tidy(rs)
    ensures var after := After(rs, Park(name, owner, value));
      && (k < |rs| && rs[k].name == name && rs[k].owner == owner ==>
            OnlyAt(rs, after, k) && after[k] == rs[k].(failsafe := Some(value)))
      && ((forall i | 0 <= i < |rs| :: !(rs[i].name == name && rs[i].owner == owner)) ==> after == rs)
  {
    OwnIff(rs, name, owner);
    if k < |rs| && rs[k].name == name && rs[k].owner == owner { OwnIsUnique(rs, k, name, owner); }
  }

  /**
   A path opened and closed leaves the table as it was, but that having asked
   for the resource alone stays on a record there was.
   */
  lemma OpenThenClose(rs: seq<Rec>, name: string, owner: nat, exclusive: bool, k: nat)
    requires Tidy(rs) && !Refused(rs, name, owner, exclusive)
    ensures var after := After(After(rs, Open(name, owner, exclusive)), Close(name, owner));
      && (k < |rs| && rs[k].name == name && rs[k].owner == owner ==>
            after == rs[k := rs[k].(exclusive := rs[k].exclusive || exclusive)])
      && ((forall i | 0 <= i < |rs| :: !(rs[i].name == name && rs[i].owner == owner)) ==> after == rs)
  {
    hide Tidy, Blocked, Own, Refused, Dropped;
    RefusedIff(rs, name, owner, exclusive);
    OwnIff(rs, name, owner);
    var j, held := Own(rs, name, owner), Taken(rs, name, owner, exclusive, true);
    TakeTidy(rs, name, owner, exclusive, true);
    if j < |rs| {
      OwnIsUnique(held, j, name, owner);
      TidyIs(rs, j);
      DroppedIs(held, j);
      assert held[j := rs[j].(exclusive := rs[j].exclusive || exclusive)]
          == rs[j := rs[j].(exclusive := rs[j].exclusive || exclusive)];
      if k < |rs| && rs[k].name == name && rs[k].owner == owner { OwnIsUnique(rs, k, name, owner); }
    } else {
      OwnIsUnique(held, 0, name, owner);
      DroppedIs(held, 0);
      assert held[..0] + held[1..] == rs;
    }
  }

  lemma TidyIs(rs: seq<Rec>, k: nat)
    requires Tidy(rs) && k < |rs|
    ensures rs[k].refs == rs[k].paths + (if rs[k].reserved then 1 else 0) >= 1
  {
    assert Counted(rs[k]);
  }

  /* ---- holding a resource alone ---- */

  /** This owner has the resource, and wants it alone. */
  ghost predicate Alone(rs: seq<Rec>, name: string, owner: nat) {
    exists i :: 0 <= i < |rs| && rs[i].name == name && rs[i].owner == owner && rs[i].exclusive
  }

  /** Opened alone, it is held alone; and whoever else then asks for it in any way is refused. */
  lemma ShutsOut(rs: seq<Rec>, name: string, owner: nat, other: nat, exclusive: bool)
    requires !Refused(rs, name, owner, true) && other != owner
    ensures var held := After(rs, Open(name, owner, true));
      Alone(held, name, owner) && After(held, Open(name, other, exclusive)) == held
  {
    OpenIs(rs, name, owner, true);
    var held := After(rs, Open(name, owner, true));
    assert Alone(held, name, owner) by {
      if exists i :: 0 <= i < |rs| && rs[i].name == name && rs[i].owner == owner {
        var k: nat :| OnlyAt(rs, held, k) && rs[k].name == name && rs[k].owner == owner
          && held[k] == Rec(name, owner, true, rs[k].reserved, rs[k].refs + 1, rs[k].paths + 1, rs[k].failsafe);
        assert held[k].exclusive;
      } else {
        assert held[0].name == name && held[0].owner == owner && held[0].exclusive;
      }
    }
    RefusedIff(held, name, other, exclusive);
    OpenIs(held, name, other, exclusive);
  }

  /** The steps that can take the owner's claim away: its own closing of that resource, and its end. */
  predicate LetsGo(op: Op, name: string, owner: nat) {
    match op
    case Close(n, o) => n == name && o == owner
    case Exit(o) => o == owner
    case _ => false
  }

  predicate Keeps(ops: seq<Op>, name: string, owner: nat) {
    forall i | 0 <= i < |ops| :: !LetsGo(ops[i], name, owner)
  }

  lemma GrowsKeepsAlone(rs: seq<Rec>, after: seq<Rec>, n: string, o: nat, e: bool, path: bool, name: string, owner: nat)
    requires Alone(rs, name, owner) && Grows(rs, after, n, o, e, path)
    ensures Alone(after, name, owner)
  {
    var i :| 0 <= i < |rs| && rs[i].name == name && rs[i].owner == owner && rs[i].exclusive;
    assert after[if |after| == |rs| then i else i + 1].exclusive;
  }

  /** One record changed, its resource and owner kept, and its claim no weaker. */
  lemma ChangeKeepsAlone(rs: seq<Rec>, after: seq<Rec>, k: nat, name: string, owner: nat)
    requires Alone(rs, name, owner) && OnlyAt(rs, after, k)
    requires after[k].name == rs[k].name && after[k].owner == rs[k].owner && (rs[k].exclusive ==> after[k].exclusive)
    ensures Alone(after, name, owner)
  {
    var i :| 0 <= i < |rs| && rs[i].name == name && rs[i].owner == owner && rs[i].exclusive;
    assert after[i].exclusive;
  }

  /** Somebody else's record, or one of another resource, gone. */
  lemma GoneKeepsAlone(rs: seq<Rec>, k: nat, name: string, owner: nat)
    requires Alone(rs, name, owner) && k < |rs| && !(rs[k].name == name && rs[k].owner == owner)
    ensures Alone(rs[..k] + rs[k + 1..], name, owner)
  {
    var i :| 0 <= i < |rs| && rs[i].name == name && rs[i].owner == owner && rs[i].exclusive;
    assert (rs[..k] + rs[k + 1..])[if i < k then i else i - 1] == rs[i];
  }

  lemma CloseKeepsAlone(rs: seq<Rec>, n: string, o: nat, name: string, owner: nat)
    requires Tidy(rs) && Alone(rs, name, owner) && !(n == name && o == owner)
    ensures Alone(After(rs, Close(n, o)), name, owner)
  {
    hide Tidy, Alone;
    OwnIff(rs, n, o);
    var k := Own(rs, n, o);
    if k < |rs| && rs[k].paths > 0 {
      CloseIs(rs, k);
      if rs[k].refs == 1 { GoneKeepsAlone(rs, k, name, owner); }
      else { ChangeKeepsAlone(rs, After(rs, Close(n, o)), k, name, owner); }
    }
  }

  lemma ReserveKeepsAlone(rs: seq<Rec>, n: string, o: nat, e: bool, name: string, owner: nat)
    requires Tidy(rs) && Alone(rs, name, owner)
    ensures Alone(After(rs, Reserve(n, o, e)), name, owner)
  {
    hide Tidy, Alone, Grows, Refused;
    OwnIff(rs, n, o);
    var k, after := Own(rs, n, o), After(rs, Reserve(n, o, e));
    ReserveIs(rs, n, o, e, k);
    if k < |rs| && rs[k].reserved {
      ChangeKeepsAlone(rs, after, k, name, owner);
    } else {
      forall i | 0 <= i < |rs| && rs[i].name == n && rs[i].owner == o ensures i == k { OwnIsUnique(rs, i, n, o); }
      if !Refused(rs, n, o, e) { GrowsKeepsAlone(rs, after, n, o, e, false, name, owner); }
    }
  }

  lemma ExitKeepsAlone(rs: seq<Rec>, o: nat, name: string, owner: nat)
    requires Tidy(rs) && Alone(rs, name, owner) && o != owner
    ensures Alone(After(rs, Exit(o)), name, owner)
  {
    hide Tidy, Released;
    var i :| 0 <= i < |rs| && rs[i].name == name && rs[i].owner == owner && rs[i].exclusive;
    var after := After(rs, Exit(o));
    var ks := ReleaseLeaves(rs, o);
    assert Survives(rs[i], o);
    var j :| 0 <= j < |ks| && ks[j] == i;
    assert after[j] == rs[i];
  }

  lemma ParkKeepsAlone(rs: seq<Rec>, n: string, o: nat, v: nat, name: string, owner: nat)
    requires Tidy(rs) && Alone(rs, name, owner)
    ensures Alone(After(rs, Park(n, o, v)), name, owner)
  {
    hide Tidy, Alone;
    OwnIff(rs, n, o);
    var k := Own(rs, n, o);
    ParkIs(rs, n, o, v, k);
    if k < |rs| { ChangeKeepsAlone(rs, After(rs, Park(n, o, v)), k, name, owner); }
  }

  lemma StepKeepsAlone(rs: seq<Rec>, op: Op, name: string, owner: nat)
    requires Tidy(rs) && Alone(rs, name, owner) && !LetsGo(op, name, owner)
    ensures Alone(After(rs, op), name, owner)
  {
    hide Tidy, Alone, After, Grows, Refused;
    match op
    case Open(n, o, e) =>
      OpenIs(rs, n, o, e);
      if !Refused(rs, n, o, e) { GrowsKeepsAlone(rs, After(rs, op), n, o, e, true, name, owner); }
    case Close(n, o) => CloseKeepsAlone(rs, n, o, name, owner);
    case Reserve(n, o, e) => ReserveKeepsAlone(rs, n, o, e, name, owner);
    case Exit(o) => ExitKeepsAlone(rs, o, name, owner);
    case Park(n, o, v) => ParkKeepsAlone(rs, n, o, v, name, owner);
  }

  /**
   Who holds a resource alone and does not let go of it has it alone after any
   run whatever, of any owners' steps, that upgrades over nobody.
   */
  lemma {:induction false} StaysAlone(rs: seq<Rec>, ops: seq<Op>, name: string, owner: nat)
    requires Sound(rs) && Careful(rs, ops) && Alone(rs, name, owner) && Keeps(ops, name, owner)
    ensures var after := Run(rs, ops);
      && Alone(after, name, owner)
      && forall i | 0 <= i < |after| && after[i].name == name :: after[i].owner == owner
    decreases ops
  {
    hide Sound, Careful, After, Alone;
    SoundIsTidy(rs);
    if ops == [] {
      AloneIsOnly(rs, name, owner);
    } else {
      CarefulStep(rs, ops);
      StepKeepsAlone(rs, ops[0], name, owner);
      assert Keeps(ops[1..], name, owner);
      StaysAlone(After(rs, ops[0]), ops[1..], name, owner);
    }
  }

  lemma CarefulStep(rs: seq<Rec>, ops: seq<Op>)
    requires Sound(rs) && ops != [] && Careful(rs, ops)
    ensures Sound(After(rs, ops[0])) && Careful(After(rs, ops[0]), ops[1..])
  {
    hide Sound, After;
    StepSound(rs, ops[0]);
  }

  lemma AloneIsOnly(rs: seq<Rec>, name: string, owner: nat)
    requires Sound(rs) && Alone(rs, name, owner)
    ensures forall i | 0 <= i < |rs| && rs[i].name == name :: rs[i].owner == owner
  {
    var k :| 0 <= k < |rs| && rs[k].name == name && rs[k].owner == owner && rs[k].exclusive;
    assert forall i | 0 <= i < k :: Compatible(rs[i], rs[k]);
    assert forall i | k < i < |rs| :: Compatible(rs[k], rs[i]);
  }
}
