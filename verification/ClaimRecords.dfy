/**
 Who owns a device, as a list of records.

 One record for each owner of each resource, counting the open paths and the
 reservation that hold it. Two owners may share a resource unless either wants
 it alone.
 */
module ClaimRecords {
  import opened Options

  const NAME_MAX := 48

  /** `refs` is what the system counts; `paths` is how many open paths there really are. */
  datatype Rec = Rec(name: string, owner: nat, exclusive: bool, reserved: bool, refs: nat, paths: nat,
                     failsafe: Option<nat>)

  predicate Is(r: Rec, name: string, owner: nat) {
    r.name == name && r.owner == owner
  }

  /** Somebody else's record on the resource. */
  predicate Others(r: Rec, name: string, owner: nat) {
    r.name == name && r.owner != owner
  }

  /** The reference count is the open paths and the reservation, and there is at least one. */
  predicate Counted(r: Rec) {
    r.refs == r.paths + (if r.reserved then 1 else 0) && r.refs >= 1
  }

  predicate Compatible(a: Rec, b: Rec) {
    a.name == b.name ==> a.owner != b.owner && !a.exclusive && !b.exclusive
  }

  predicate Apart(a: Rec, b: Rec) {
    a.name == b.name ==> a.owner != b.owner
  }

  /** One record per owner and resource, honestly counted: nothing ever breaks this. */
  ghost predicate Tidy(rs: seq<Rec>) {
    && (forall i | 0 <= i < |rs| :: Counted(rs[i]))
    && forall i, j | 0 <= i < j < |rs| :: Apart(rs[i], rs[j])
  }

  /** One record per owner and resource, honestly counted, and an exclusive one is alone. */
  ghost predicate Sound(rs: seq<Rec>) {
    && (forall i | 0 <= i < |rs| :: Counted(rs[i]))
    && forall i, j | 0 <= i < j < |rs| :: Compatible(rs[i], rs[j])
  }

  lemma SoundIsTidy(rs: seq<Rec>)
    requires Sound(rs)
    ensures Tidy(rs)
  {
    forall i, j | 0 <= i < j < |rs| ensures Apart(rs[i], rs[j]) { assert Compatible(rs[i], rs[j]); }
  }

  /** The place of this owner's record, or the length of the list. */
  function Own(rs: seq<Rec>, name: string, owner: nat): (k: nat)
    ensures k <= |rs|
    ensures k < |rs| ==> Is(rs[k], name, owner)
    ensures forall i | 0 <= i < k :: !Is(rs[i], name, owner)
  {
    if rs == [] || Is(rs[0], name, owner) then 0 else 1 + Own(rs[1..], name, owner)
  }

  /** Somebody else has it, and one of the two wants it alone. */
  ghost predicate Blocked(rs: seq<Rec>, name: string, owner: nat, exclusive: bool) {
    exists i :: 0 <= i < |rs| && Others(rs[i], name, owner) && (rs[i].exclusive || exclusive)
  }

  /** One more reference for this owner: `path` for an open path, otherwise a reservation. */
  function Taken(rs: seq<Rec>, name: string, owner: nat, exclusive: bool, path: bool): seq<Rec> {
    var k := Own(rs, name, owner);
    if k < |rs| then rs[k := Grown(rs[k], exclusive, path)]
    else [Rec(name, owner, exclusive, !path, 1, if path then 1 else 0, None)] + rs
  }

  function Grown(r: Rec, exclusive: bool, path: bool): Rec {
    r.(exclusive := r.exclusive || exclusive, refs := r.refs + 1,
       paths := r.paths + (if path then 1 else 0), reserved := r.reserved || !path)
  }

  /** The record after a reference is given up, or nothing once the last is gone. */
  function Shrunk(r: Rec, path: bool): seq<Rec> {
    var s := r.(refs := if r.refs > 0 then r.refs - 1 else 0,
                paths := if path && r.paths > 0 then r.paths - 1 else r.paths, reserved := r.reserved && path);
    if s.refs > 0 then [s] else []
  }

  function Dropped(rs: seq<Rec>, k: nat): seq<Rec>
    requires k < |rs|
  {
    rs[..k] + Shrunk(rs[k], true) + rs[k + 1..]
  }

  /** Reserving again what is reserved is one requirement stated twice. */
  function Reserved(rs: seq<Rec>, name: string, owner: nat, exclusive: bool): seq<Rec> {
    var k := Own(rs, name, owner);
    if k < |rs| && rs[k].reserved then rs[k := rs[k].(exclusive := rs[k].exclusive || exclusive)]
    else Taken(rs, name, owner, exclusive, false)
  }

  /** Every reservation of one owner given back. */
  function Released(rs: seq<Rec>, owner: nat): seq<Rec> {
    if rs == [] then []
    else (if rs[0].owner == owner && rs[0].reserved then Shrunk(rs[0], false) else [rs[0]]) + Released(rs[1..], owner)
  }

  function Parked(rs: seq<Rec>, name: string, owner: nat, value: nat): seq<Rec> {
    var k := Own(rs, name, owner);
    if k < |rs| then rs[k := rs[k].(failsafe := Some(value))] else rs
  }

  /* ---- what every operation keeps ---- */

  lemma OwnIsUnique(rs: seq<Rec>, k: nat, name: string, owner: nat)
    requires Tidy(rs) && k < |rs| && Is(rs[k], name, owner)
    ensures Own(rs, name, owner) == k
  {
    assert forall i | 0 <= i < k :: Apart(rs[i], rs[k]);
  }

  /** Every reference granted keeps the table tidy, whoever is in the way. */
  lemma TakeTidy(rs: seq<Rec>, name: string, owner: nat, exclusive: bool, path: bool)
    requires Tidy(rs)
    requires !path ==> (Own(rs, name, owner) < |rs| ==> !rs[Own(rs, name, owner)].reserved)
    ensures Tidy(Taken(rs, name, owner, exclusive, path))
  {
    var k := Own(rs, name, owner);
    var after := Taken(rs, name, owner, exclusive, path);
    forall i, j | 0 <= i < j < |after| ensures Apart(after[i], after[j]) {
      if k < |rs| {
        assert Apart(rs[i], rs[j]);
      } else if i > 0 {
        assert Apart(rs[i - 1], rs[j - 1]);
      } else {
        assert !Is(rs[j - 1], name, owner);
      }
    }
    forall i | 0 <= i < |after| ensures Counted(after[i]) {
      if k < |rs| {
        assert Counted(rs[i]);
      } else if i > 0 {
        assert Counted(rs[i - 1]);
      }
    }
  }

  /** Putting an honestly counted record of the same owner, or none, in a record's place. */
  lemma ReplaceTidy(rs: seq<Rec>, k: nat, r: seq<Rec>)
    requires Tidy(rs) && k < |rs| && |r| <= 1
    requires r != [] ==> Counted(r[0]) && r[0].name == rs[k].name && r[0].owner == rs[k].owner
    ensures Tidy(rs[..k] + r + rs[k + 1..])
  {
    var after := rs[..k] + r + rs[k + 1..];
    forall i, j | 0 <= i < j < |after| ensures Apart(after[i], after[j]) {
      assert Apart(rs[if i < k then i else i + 1 - |r|], rs[if j < k then j else j + 1 - |r|]);
    }
    forall i | 0 <= i < |after| ensures Counted(after[i]) {
      assert Counted(rs[if i < k then i else i + 1 - |r|]);
    }
  }

  lemma DropTidy(rs: seq<Rec>, k: nat)
    requires Tidy(rs) && k < |rs| && rs[k].paths > 0
    ensures Tidy(Dropped(rs, k))
  {
    assert Counted(rs[k]);
    ReplaceTidy(rs, k, Shrunk(rs[k], true));
  }

  lemma InPlace(rs: seq<Rec>, k: nat, r: Rec)
    requires k < |rs|
    ensures rs[k := r] == rs[..k] + [r] + rs[k + 1..]
  {
  }

  lemma ParkTidy(rs: seq<Rec>, name: string, owner: nat, value: nat)
    requires Tidy(rs)
    ensures Tidy(Parked(rs, name, owner, value))
  {
    var k := Own(rs, name, owner);
    if k < |rs| {
      var r := rs[k].(failsafe := Some(value));
      assert Counted(rs[k]);
      ReplaceTidy(rs, k, [r]);
      InPlace(rs, k, r);
    }
  }

  /** Reserving keeps it even where it lets an exclusive claim in beside others. */
  lemma ReserveTidy(rs: seq<Rec>, name: string, owner: nat, exclusive: bool)
    requires Tidy(rs)
    ensures Tidy(Reserved(rs, name, owner, exclusive))
  {
    var k := Own(rs, name, owner);
    if k < |rs| && rs[k].reserved {
      var r := rs[k].(exclusive := rs[k].exclusive || exclusive);
      assert Counted(rs[k]);
      ReplaceTidy(rs, k, [r]);
      InPlace(rs, k, r);
    } else {
      TakeTidy(rs, name, owner, exclusive, false);
    }
  }

  /** A reference granted when nobody is in the way keeps exclusive records alone. */
  lemma TakeSound(rs: seq<Rec>, name: string, owner: nat, exclusive: bool, path: bool)
    requires Sound(rs) && !Blocked(rs, name, owner, exclusive)
    requires !path ==> (Own(rs, name, owner) < |rs| ==> !rs[Own(rs, name, owner)].reserved)
    ensures Sound(Taken(rs, name, owner, exclusive, path))
  {
    var k := Own(rs, name, owner);
    var after := Taken(rs, name, owner, exclusive, path);
    forall i, j | 0 <= i < j < |after| ensures Compatible(after[i], after[j]) {
      if k < |rs| {
        assert Compatible(rs[i], rs[j]);
        assert i == k ==> !Others(rs[j], name, owner) || (!rs[j].exclusive && !exclusive);
        assert j == k ==> !Others(rs[i], name, owner) || (!rs[i].exclusive && !exclusive);
      } else if i > 0 {
        assert after[i] == rs[i - 1] && after[j] == rs[j - 1];
        assert Compatible(rs[i - 1], rs[j - 1]);
      } else {
        assert after[j] == rs[j - 1] && !Is(rs[j - 1], name, owner);
        assert !Others(rs[j - 1], name, owner) || (!rs[j - 1].exclusive && !exclusive);
      }
    }
    forall i | 0 <= i < |after| ensures Counted(after[i]) {
      if k < |rs| {
        assert Counted(rs[i]);
      } else if i > 0 {
        assert after[i] == rs[i - 1] && Counted(rs[i - 1]);
      }
    }
  }

  /** A closed path gives its reference back. */
  lemma DropSound(rs: seq<Rec>, k: nat)
    requires Sound(rs) && k < |rs| && rs[k].paths > 0
    ensures Sound(Dropped(rs, k))
  {
    assert Counted(rs[k]);
    Replace(rs, k, Shrunk(rs[k], true));
  }

  /** Putting a lesser record, or none, in a record's place. */
  lemma Replace(rs: seq<Rec>, k: nat, r: seq<Rec>)
    requires Sound(rs) && k < |rs| && |r| <= 1
    requires r != [] ==> Counted(r[0]) && r[0].name == rs[k].name && r[0].owner == rs[k].owner
                         && (r[0].exclusive ==> rs[k].exclusive)
    ensures Sound(rs[..k] + r + rs[k + 1..])
  {
    var after := rs[..k] + r + rs[k + 1..];
    forall i, j | 0 <= i < j < |after| ensures Compatible(after[i], after[j]) {
      var a := if i < k then i else i + 1 - |r|;
      var b := if j < k then j else j + 1 - |r|;
      assert Compatible(rs[a], rs[b]);
    }
    forall i | 0 <= i < |after| ensures Counted(after[i]) {
      assert Counted(rs[if i < k then i else i + 1 - |r|]);
    }
  }

  /** Marking a record's failsafe changes nobody's claim. */
  lemma ParkSound(rs: seq<Rec>, name: string, owner: nat, value: nat)
    requires Sound(rs)
    ensures Sound(Parked(rs, name, owner, value))
  {
    var k := Own(rs, name, owner);
    if k < |rs| {
      assert Counted(rs[k]);
      Replace(rs, k, [rs[k].(failsafe := Some(value))]);
      assert rs[k := rs[k].(failsafe := Some(value))] == rs[..k] + [rs[k].(failsafe := Some(value))] + rs[k + 1..];
    }
  }

  /* ---- reserving twice ---- */

  /** A reserved shared claim asked for again, this time alone, while somebody else has the resource too. */
  ghost predicate UpgradesOverOthers(rs: seq<Rec>, name: string, owner: nat, exclusive: bool) {
    var k := Own(rs, name, owner);
    && k < |rs| && rs[k].reserved && exclusive
    && exists i :: 0 <= i < |rs| && Others(rs[i], name, owner)
  }

  /** Does the reservation go through? */
  ghost predicate MayReserve(rs: seq<Rec>, name: string, owner: nat, exclusive: bool) {
    var k := Own(rs, name, owner);
    (k < |rs| && rs[k].reserved) || !Blocked(rs, name, owner, exclusive)
  }

  /**
   A granted reservation keeps exclusive records alone exactly when it does not
   upgrade, unasked, over another owner: that one branch looks at nobody else.
   */
  lemma ReserveSound(rs: seq<Rec>, name: string, owner: nat, exclusive: bool)
    requires Sound(rs) && MayReserve(rs, name, owner, exclusive)
    ensures Sound(Reserved(rs, name, owner, exclusive)) <==> !UpgradesOverOthers(rs, name, owner, exclusive)
  {
    var k := Own(rs, name, owner);
    var after := Reserved(rs, name, owner, exclusive);
    if k < |rs| && rs[k].reserved {
      if UpgradesOverOthers(rs, name, owner, exclusive) {
        var i :| 0 <= i < |rs| && Others(rs[i], name, owner);
        assert after[i].name == after[k].name && after[k].exclusive;
        assert !Compatible(after[if i < k then i else k], after[if i < k then k else i]);
      } else {
        forall i, j | 0 <= i < j < |after| ensures Compatible(after[i], after[j]) {
          assert Compatible(rs[i], rs[j]);
          assert exclusive ==> !Others(rs[i], name, owner) && !Others(rs[j], name, owner);
        }
        assert forall i | 0 <= i < |after| :: Counted(rs[i]) ==> Counted(after[i]);
      }
    } else {
      TakeSound(rs, name, owner, exclusive, false);
    }
  }

  /* ---- giving everything back ---- */

  lemma {:induction false} ReleasedAppend(a: seq<Rec>, b: seq<Rec>, owner: nat)
    ensures Released(a + b, owner) == Released(a, owner) + Released(b, owner)
  {
    if a == [] {
      assert a + b == b;
    } else {
      assert (a + b)[1..] == a[1..] + b;
      ReleasedAppend(a[1..], b, owner);
    }
  }

  /** Everybody else's records, in order. */
  function NotOf(rs: seq<Rec>, owner: nat): seq<Rec> {
    if rs == [] then [] else (if rs[0].owner != owner then [rs[0]] else []) + NotOf(rs[1..], owner)
  }

  /** Releasing an owner leaves every other owner's records exactly as they were. */
  lemma {:induction false} ReleaseTouchesNobodyElse(rs: seq<Rec>, owner: nat)
    ensures NotOf(Released(rs, owner), owner) == NotOf(rs, owner)
  {
    if rs != [] {
      ReleaseTouchesNobodyElse(rs[1..], owner);
      var first := if rs[0].owner == owner && rs[0].reserved then Shrunk(rs[0], false) else [rs[0]];
      NotOfAppend(first, Released(rs[1..], owner), owner);
      if first != [] { assert NotOf(first[1..], owner) == []; }
    }
  }

  lemma {:induction false} NotOfAppend(a: seq<Rec>, b: seq<Rec>, owner: nat)
    ensures NotOf(a + b, owner) == NotOf(a, owner) + NotOf(b, owner)
  {
    if a == [] {
      assert a + b == b;
    } else {
      assert (a + b)[1..] == a[1..] + b;
      NotOfAppend(a[1..], b, owner);
    }
  }

  /** Where a record that survives a release comes from, and what is left of it. */
  lemma {:induction false} ReleaseKeeps(rs: seq<Rec>, owner: nat, i: nat) returns (k: nat)
    requires Tidy(rs) && i < |Released(rs, owner)|
    ensures i <= k < |rs|
    ensures Released(rs, owner)[i] ==
            if rs[k].owner == owner then rs[k].(reserved := false, refs := rs[k].paths) else rs[k]
    ensures rs[k].owner == owner ==> rs[k].paths > 0
  {
    var first := if rs[0].owner == owner && rs[0].reserved then Shrunk(rs[0], false) else [rs[0]];
    assert Counted(rs[0]);
    if i < |first| {
      k := 0;
    } else {
      TailTidy(rs);
      k := ReleaseKeeps(rs[1..], owner, i - |first|);
      k := k + 1;
    }
  }

  /** What a release leaves: everybody else's records, and the owner's own with a path open on them. */
  predicate Survives(r: Rec, owner: nat) {
    r.owner != owner || r.paths > 0
  }

  function Unreserved(r: Rec, owner: nat): Rec {
    if r.owner == owner then r.(reserved := false, refs := r.paths) else r
  }

  /** `left` is all the survivors and nothing else, in order, less the owner's reservations; `ks` are their places. */
  ghost predicate AllSurvivors(rs: seq<Rec>, owner: nat, ks: seq<nat>, left: seq<Rec>) {
    && |left| == |ks|
    && (forall i, j | 0 <= i < j < |ks| :: ks[i] < ks[j])
    && (forall i | 0 <= i < |ks| ::
          ks[i] < |rs| && Survives(rs[ks[i]], owner) && left[i] == Unreserved(rs[ks[i]], owner))
    && (forall k: nat | k < |rs| && Survives(rs[k], owner) :: k in ks)
  }

  /** A release leaves every survivor, in order, and nothing else. */
  lemma {:induction false} ReleaseLeaves(rs: seq<Rec>, owner: nat) returns (ks: seq<nat>)
    requires Tidy(rs)
    ensures AllSurvivors(rs, owner, ks, Released(rs, owner))
  {
    hide Released, AllSurvivors, Tidy;
    if rs == [] {
      NoSurvivors(owner);
      return [];
    }
    var n := |rs| - 1;
    var before, last := rs[..n], rs[n];
    assert rs == before + [last];
    Parts(rs, n);
    var had := ReleaseLeaves(before, owner);
    ReleasedAppend(before, [last], owner);
    LastReleased(last, owner);
    ks := if Survives(last, owner) then had + [n] else had;
    OneMoreSurvivor(rs, owner, had, Released(before, owner));
  }

  lemma NoSurvivors(owner: nat)
    ensures AllSurvivors([], owner, [], Released([], owner))
  {
  }

  lemma Parts(rs: seq<Rec>, n: nat)
    requires Tidy(rs) && n < |rs|
    ensures Tidy(rs[..n]) && Counted(rs[n])
  {
    assert forall i, j | 0 <= i < j < n :: Apart(rs[i], rs[j]);
  }

  lemma LastReleased(r: Rec, owner: nat)
    requires Counted(r)
    ensures Released([r], owner) == if Survives(r, owner) then [Unreserved(r, owner)] else []
  {
    assert Released([r], owner)
        == (if r.owner == owner && r.reserved then Shrunk(r, false) else [r]) + Released([], owner);
  }

  lemma OneMoreSurvivor(rs: seq<Rec>, owner: nat, had: seq<nat>, left: seq<Rec>)
    requires rs != [] && AllSurvivors(rs[..|rs| - 1], owner, had, left)
    ensures var n, last := |rs| - 1, rs[|rs| - 1];
      if Survives(last, owner) then AllSurvivors(rs, owner, had + [n], left + [Unreserved(last, owner)])
      else AllSurvivors(rs, owner, had, left + [])
  {
    hide AllSurvivors, Survives, Unreserved;
    assert left + [] == left;
    if Survives(rs[|rs| - 1], owner) {
      LastSurvives(rs, owner, had, left);
    } else {
      LastGoes(rs, owner, had, left);
    }
  }

  lemma LastGoes(rs: seq<Rec>, owner: nat, had: seq<nat>, left: seq<Rec>)
    requires rs != [] && AllSurvivors(rs[..|rs| - 1], owner, had, left) && !Survives(rs[|rs| - 1], owner)
    ensures AllSurvivors(rs, owner, had, left)
  {
    hide Survives, Unreserved;
    var before := rs[..|rs| - 1];
    forall i | 0 <= i < |had|
      ensures had[i] < |rs| && Survives(rs[had[i]], owner) && left[i] == Unreserved(rs[had[i]], owner)
    {
      assert before[had[i]] == rs[had[i]];
    }
    forall k: nat | k < |rs| && Survives(rs[k], owner) ensures k in had {
      assert before[k] == rs[k];
    }
  }

  lemma LastSurvives(rs: seq<Rec>, owner: nat, had: seq<nat>, left: seq<Rec>)
    requires rs != [] && AllSurvivors(rs[..|rs| - 1], owner, had, left) && Survives(rs[|rs| - 1], owner)
    ensures AllSurvivors(rs, owner, had + [|rs| - 1], left + [Unreserved(rs[|rs| - 1], owner)])
  {
    hide Survives, Unreserved;
    var n := |rs| - 1;
    var before, ks, all := rs[..n], had + [n], left + [Unreserved(rs[n], owner)];
    forall i | 0 <= i < |ks|
      ensures ks[i] < |rs| && Survives(rs[ks[i]], owner) && all[i] == Unreserved(rs[ks[i]], owner)
    {
      if i < |had| { assert ks[i] == had[i] && all[i] == left[i] && before[had[i]] == rs[had[i]]; }
    }
    forall k: nat | k < |rs| && Survives(rs[k], owner) ensures k in ks {
      if k < n {
        assert before[k] == rs[k];
        assert k in had;
      } else {
        assert ks[|had|] == n;
      }
    }
  }

  lemma TailTidy(rs: seq<Rec>)
    requires Tidy(rs) && rs != []
    ensures Tidy(rs[1..])
  {
    forall i, j | 0 <= i < j < |rs[1..]| ensures Apart(rs[1..][i], rs[1..][j]) {
      assert Apart(rs[i + 1], rs[j + 1]);
    }
    forall i | 0 <= i < |rs[1..]| ensures Counted(rs[1..][i]) {
      assert Counted(rs[i + 1]);
    }
  }

  lemma TailSound(rs: seq<Rec>)
    requires Sound(rs) && rs != []
    ensures Sound(rs[1..])
  {
    forall i, j | 0 <= i < j < |rs[1..]| ensures Compatible(rs[1..][i], rs[1..][j]) {
      assert Compatible(rs[i + 1], rs[j + 1]);
    }
    forall i | 0 <= i < |rs[1..]| ensures Counted(rs[1..][i]) {
      assert Counted(rs[i + 1]);
    }
  }

  /** Releasing keeps the table tidy, and afterwards the owner has reserved nothing. */
  lemma ReleaseTidy(rs: seq<Rec>, owner: nat)
    requires Tidy(rs)
    ensures Tidy(Released(rs, owner))
    ensures forall i | 0 <= i < |Released(rs, owner)| && Released(rs, owner)[i].owner == owner ::
              !Released(rs, owner)[i].reserved && Released(rs, owner)[i].paths > 0
  {
    hide Released;
    var ks := ReleaseLeaves(rs, owner);
    var after := Released(rs, owner);
    forall i, j | 0 <= i < j < |after| ensures Apart(after[i], after[j]) {
      assert ks[i] < ks[j];
      assert Apart(rs[ks[i]], rs[ks[j]]);
    }
    forall i | 0 <= i < |after| ensures Counted(after[i]) {
      assert Counted(rs[ks[i]]);
    }
  }

  /** Releasing keeps the table sound, and afterwards the owner has reserved nothing. */
  lemma {:induction false} ReleaseSound(rs: seq<Rec>, owner: nat)
    requires Sound(rs)
    ensures Sound(Released(rs, owner))
    ensures forall i | 0 <= i < |Released(rs, owner)| && Released(rs, owner)[i].owner == owner ::
              !Released(rs, owner)[i].reserved && Released(rs, owner)[i].paths > 0
  {
    if rs != [] {
      TailSound(rs);
      ReleaseSound(rs[1..], owner);
      var first := if rs[0].owner == owner && rs[0].reserved then Shrunk(rs[0], false) else [rs[0]];
      var rest := Released(rs[1..], owner);
      var after := first + rest;
      assert Counted(rs[0]);
      forall i, j | 0 <= i < j < |after| ensures Compatible(after[i], after[j]) {
        if i < |first| {
          assert after[j] == rest[j - |first|];
          SoundIsTidy(rs[1..]);
          var k := ReleaseKeeps(rs[1..], owner, j - |first|);
          assert Compatible(rs[0], rs[1 + k]);
        } else {
          assert Compatible(rest[i - |first|], rest[j - |first|]);
        }
      }
      forall i | 0 <= i < |after| ensures Counted(after[i]) {
        if i >= |first| { assert Counted(rest[i - |first|]); }
      }
    }
  }

  /* ---- whole runs ---- */

  datatype Op =
    | Open(name: string, owner: nat, exclusive: bool)
    | Close(name: string, owner: nat)
    | Reserve(name: string, owner: nat, exclusive: bool)
    | Exit(owner: nat)
    | Park(name: string, owner: nat, value: nat)

  ghost function After(rs: seq<Rec>, op: Op): seq<Rec> {
    match op
    case Open(name, owner, exclusive) =>
      if Blocked(rs, name, owner, exclusive) then rs else Taken(rs, name, owner, exclusive, true)
    case Close(name, owner) =>
      var k := Own(rs, name, owner);
      if k < |rs| && rs[k].paths > 0 then Dropped(rs, k) else rs
    case Reserve(name, owner, exclusive) =>
      if MayReserve(rs, name, owner, exclusive) then Reserved(rs, name, owner, exclusive) else rs
    case Exit(owner) => Released(rs, owner)
    case Park(name, owner, value) => Parked(rs, name, owner, value)
  }

  ghost function Run(rs: seq<Rec>, ops: seq<Op>): seq<Rec>
    decreases ops
  {
    if ops == [] then rs else Run(After(rs, ops[0]), ops[1..])
  }

  /** No step of the run upgrades a shared reservation over another owner. */
  ghost predicate Careful(rs: seq<Rec>, ops: seq<Op>)
    decreases ops
  {
    if ops == [] then true
    else
      && !(ops[0].Reserve? && UpgradesOverOthers(rs, ops[0].name, ops[0].owner, ops[0].exclusive))
      && Careful(After(rs, ops[0]), ops[1..])
  }

  /** Any other step keeps the table sound; that one always breaks it. */
  lemma StepSound(rs: seq<Rec>, op: Op)
    requires Sound(rs)
    ensures Sound(After(rs, op)) <==> !(op.Reserve? && UpgradesOverOthers(rs, op.name, op.owner, op.exclusive))
  {
    match op
    case Open(name, owner, exclusive) =>
      if !Blocked(rs, name, owner, exclusive) { TakeSound(rs, name, owner, exclusive, true); }
    case Close(name, owner) =>
      var k := Own(rs, name, owner);
      if k < |rs| && rs[k].paths > 0 { DropSound(rs, k); }
    case Reserve(name, owner, exclusive) =>
      if MayReserve(rs, name, owner, exclusive) { ReserveSound(rs, name, owner, exclusive); }
    case Exit(owner) => ReleaseSound(rs, owner);
    case Park(name, owner, value) => ParkSound(rs, name, owner, value);
  }

  /** No step at all makes the table untidy. */
  lemma StepTidy(rs: seq<Rec>, op: Op)
    requires Tidy(rs)
    ensures Tidy(After(rs, op))
  {
    match op
    case Open(name, owner, exclusive) => TakeTidy(rs, name, owner, exclusive, true);
    case Close(name, owner) =>
      var k := Own(rs, name, owner);
      if k < |rs| && rs[k].paths > 0 { DropTidy(rs, k); }
    case Reserve(name, owner, exclusive) => ReserveTidy(rs, name, owner, exclusive);
    case Exit(owner) => ReleaseTidy(rs, owner);
    case Park(name, owner, value) => ParkTidy(rs, name, owner, value);
  }

  /** Whatever is done, each owner of a resource has one record, counting its paths and its reservation. */
  lemma {:induction false} RunTidy(rs: seq<Rec>, ops: seq<Op>)
    requires Tidy(rs)
    ensures Tidy(Run(rs, ops))
    decreases ops
  {
    if ops != [] {
      StepTidy(rs, ops[0]);
      RunTidy(After(rs, ops[0]), ops[1..]);
    }
  }

  /** Sound to begin with and after every step. */
  ghost predicate AlwaysSound(rs: seq<Rec>, ops: seq<Op>) {
    forall n | 0 <= n <= |ops| :: Sound(Run(rs, ops[..n]))
  }

  lemma AlwaysFrom(rs: seq<Rec>, ops: seq<Op>)
    requires Sound(rs) && ops != []
    ensures AlwaysSound(rs, ops) <==> AlwaysSound(After(rs, ops[0]), ops[1..])
  {
    hide Sound, After;
    var next, rest := After(rs, ops[0]), ops[1..];
    forall n | 0 < n <= |ops| ensures Run(rs, ops[..n]) == Run(next, rest[..n - 1]) {
      assert ops[..n][1..] == rest[..n - 1];
    }
    assert Run(rs, ops[..0]) == rs;
    if AlwaysSound(rs, ops) {
      forall n | 0 <= n <= |rest| ensures Sound(Run(next, rest[..n])) {
        assert Sound(Run(rs, ops[..n + 1]));
      }
    }
  }

  /**
   However opens, closes, reservations and exits interleave, an exclusive
   owner is alone all the while exactly if no step upgrades over others.
   */
  lemma {:induction false} RunSound(rs: seq<Rec>, ops: seq<Op>)
    requires Sound(rs)
    ensures AlwaysSound(rs, ops) <==> Careful(rs, ops)
    ensures Careful(rs, ops) ==> Sound(Run(rs, ops))
    decreases ops
  {
    hide Sound;
    if ops == [] {
      assert forall n | 0 <= n <= 0 :: ops[..n] == [];
    } else {
      var next := After(rs, ops[0]);
      StepSound(rs, ops[0]);
      AlwaysFrom(rs, ops);
      if Sound(next) {
        RunSound(next, ops[1..]);
      } else {
        assert !Sound(Run(next, ops[1..][..0]));
      }
    }
  }

  /** Two owners reserve a resource to share; one repeats it, this time to have it alone, and is let. */
  lemma UpgradeEndsUnsound(name: string)
    ensures var ops := [Reserve(name, 1, false), Reserve(name, 2, false), Reserve(name, 1, true)];
      !Careful([], ops) && !Sound(Run([], ops)) && Tidy(Run([], ops))
  {
    var one, two := Rec(name, 1, false, true, 1, 0, None), Rec(name, 2, false, true, 1, 0, None);
    var ops := [Reserve(name, 1, false), Reserve(name, 2, false), Reserve(name, 1, true)];
    var first, second, third := [one], [two, one], [two, one.(exclusive := true)];
    assert After([], ops[0]) == first;
    assert Own(first, name, 2) == 1 && After(first, ops[1]) == second;
    assert Own(second[1..], name, 1) == 0 && Own(second, name, 1) == 1 && After(second, ops[2]) == third;
    assert ops[1..][0] == ops[1] && ops[1..][1..] == [ops[2]] && [ops[2]][1..] == [];
    assert Run([], ops) == Run(first, ops[1..]) == Run(second, [ops[2]]) == Run(third, []) == third;
    assert Others(second[0], name, 1) && UpgradesOverOthers(second, name, 1, true);
    assert !Compatible(third[0], third[1]);
    assert ops[..3] == ops;
    RunSound([], ops);
  }
}
