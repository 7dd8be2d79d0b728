/** What a poll reads off the glass, and which events tell of it. */
module TouchReading {
  import opened TouchQueue
  import opened TouchBook
  import opened TouchPlace

  /** A point as the chip reports it: only the low four bits of the track id count. */
  datatype RawPoint = RawPoint(id: nat, x: nat, y: nat, pressure: nat)

  /** The glass and how it is fitted. */
  datatype Panel = Panel(w: nat, h: nat, mirrorX: bool, mirrorY: bool, swapXY: bool)

  const AWAY := Finger(false, 0, 0, 0)

  predicate Small(points: seq<RawPoint>) {
    forall i | 0 <= i < |points| :: points[i].x < UINT16 && points[i].y < UINT16
  }

  lemma FewSmall(points: seq<RawPoint>)
    requires Small(points)
    ensures Small(if |points| > 5 then points[..5] else points)
  {
  }

  function TrackId(p: RawPoint): nat { p.id % 16 }

  /** One axis: turned round if it is mirrored, and clamped. */
  lemma AxisIs(raw: nat, size: nat, mirror: bool, m: nat)
    requires raw < UINT16 && size < UINT16 && m == if mirror && size > 0 then (size - 1 - raw) % UINT16 else raw
    ensures PlaceAxis(raw, size, mirror) == if size > 0 && m >= size then size - 1 else m
  {
  }

  /** Where a raw point is on the panel. */
  function Placed(g: Panel, p: RawPoint): (nat, nat)
    requires g.w < UINT16 && g.h < UINT16 && p.x < UINT16 && p.y < UINT16
  {
    var (rx, ry) := if g.swapXY then (p.y, p.x) else (p.x, p.y);
    (PlaceAxis(rx, g.w, g.mirrorX), PlaceAxis(ry, g.h, g.mirrorY))
  }

  /** The fingers a report says are down, and where: of two points with one track id the later counts. */
  function Reading(g: Panel, points: seq<RawPoint>): (f: seq<Finger>)
    requires g.w < UINT16 && g.h < UINT16 && Small(points)
    ensures |f| == MAX_POINTS
    decreases |points|
  {
    if points == [] then [AWAY, AWAY, AWAY, AWAY, AWAY]
    else
      var p, before := points[|points| - 1], Reading(g, points[..|points| - 1]);
      var (x, y) := Placed(g, p);
      if TrackId(p) < MAX_POINTS then before[TrackId(p) := Finger(true, x, y, p.pressure)] else before
  }

  /** Where and how hard a point presses, on the panel as it is fitted. */
  ghost predicate PressedBy(g: Panel, f: Finger, p: RawPoint) {
    && f.down && f.pressure == p.pressure
    && Seated(f.x, if g.swapXY then p.y else p.x, g.w, g.mirrorX)
    && Seated(f.y, if g.swapXY then p.x else p.y, g.h, g.mirrorY)
  }

  /** No later point has this one's track id. */
  predicate LastOne(points: seq<RawPoint>, j: nat)
    requires j < |points|
  {
    forall i | j < i < |points| :: points[i].id % 16 != points[j].id % 16
  }

  /** No point has this track id. */
  predicate Absent(points: seq<RawPoint>, id: nat) {
    forall j | 0 <= j < |points| :: points[j].id % 16 != id
  }

  /** Each finger is where the last point with its track id is, or up if there is none. */
  ghost predicate Felt(g: Panel, points: seq<RawPoint>, fs: seq<Finger>) {
    && |fs| == 5
    && (forall j | 0 <= j < |points| && points[j].id % 16 < 5 && LastOne(points, j) ::
          PressedBy(g, fs[points[j].id % 16], points[j]))
    && forall id: nat | id < 5 && Absent(points, id) :: !fs[id].down
  }

  lemma {:induction false} ReadingIsFelt(g: Panel, points: seq<RawPoint>)
    requires g.w < UINT16 && g.h < UINT16 && Small(points)
    ensures Felt(g, points, Reading(g, points))
    ensures forall id | 0 <= id < 5 && !Reading(g, points)[id].down :: Reading(g, points)[id] == Finger(false, 0, 0, 0)
    decreases |points|
  {
    if points == [] {
      assert Reading(g, points) == [AWAY, AWAY, AWAY, AWAY, AWAY];
    } else {
      hide Felt, PressedBy, Placed;
      var n := |points| - 1;
      var p, before := points[n], points[..n];
      assert points == before + [p];
      ReadingIsFelt(g, before);
      PlacedIsPressed(g, p);
      OneMoreFelt(g, before, p, Reading(g, before), Reading(g, points));
    }
  }

  lemma PlacedIsPressed(g: Panel, p: RawPoint)
    requires g.w < UINT16 && g.h < UINT16 && p.x < UINT16 && p.y < UINT16
    ensures PressedBy(g, Finger(true, Placed(g, p).0, Placed(g, p).1, p.pressure), p)
  {
    hide Seated, PlaceAxis;
    PlaceIsSeat(if g.swapXY then p.y else p.x, g.w, g.mirrorX);
    PlaceIsSeat(if g.swapXY then p.x else p.y, g.h, g.mirrorY);
  }

  lemma OneMoreFelt(g: Panel, before: seq<RawPoint>, p: RawPoint, was: seq<Finger>, now: seq<Finger>)
    requires Felt(g, before, was) && |now| == MAX_POINTS
    requires var id := p.id % 16;
      if id < 5 then PressedBy(g, now[id], p) && forall i | 0 <= i < 5 && i != id :: now[i] == was[i] else now == was
    ensures Felt(g, before + [p], now)
  {
    hide PressedBy;
    var points, n := before + [p], |before|;
    assert points[n] == p;
    forall j: nat | j < |points| && points[j].id % 16 < 5 && LastOne(points, j)
      ensures PressedBy(g, now[points[j].id % 16], points[j])
    {
      if j < n { LastBefore(before, p, j); }
    }
    forall id: nat | id < 5 && Absent(points, id) ensures !now[id].down {
      AbsentBefore(before, p, id);
    }
  }

  lemma LastBefore(before: seq<RawPoint>, p: RawPoint, j: nat)
    requires j < |before| && LastOne(before + [p], j)
    ensures LastOne(before, j) && before[j].id % 16 != p.id % 16
  {
    var points := before + [p];
    assert points[|before|] == p;
    assert forall i | 0 <= i < |before| :: points[i] == before[i];
  }

  lemma AbsentBefore(before: seq<RawPoint>, p: RawPoint, id: nat)
    requires Absent(before + [p], id)
    ensures Absent(before, id) && p.id % 16 != id
  {
    var points := before + [p];
    assert points[|before|] == p;
    assert forall i | 0 <= i < |before| :: points[i] == before[i];
  }

  /** A finger that settles as it was read is still where its point is. */
  lemma StillFelt(g: Panel, points: seq<RawPoint>, now: seq<Finger>, settled: seq<Finger>)
    requires Felt(g, points, now) && |settled| == MAX_POINTS
    requires forall id | 0 <= id < MAX_POINTS ::
               settled[id].down == now[id].down && (now[id].down ==> settled[id] == now[id])
    ensures Felt(g, points, settled)
  {
    hide Seated;
  }

  /* ---- what is told of it ---- */

  /** What the first `n` fingers did between two readings, in order. */
  function AllChanges(was: seq<Finger>, now: seq<Finger>, n: nat): seq<Event>
    requires n <= |was| && n <= |now|
    decreases n
  {
    if n == 0 then [] else AllChanges(was, now, n - 1) + Changes(n - 1, was[n - 1], now[n - 1])
  }

  /** A press where the finger now is, a move to where it now is, a release from where it was. */
  predicate Tells(was: Finger, now: Finger, e: Event) {
    || (e.kind == Down && !was.down && now.down && e.x == now.x && e.y == now.y && e.pressure == now.pressure)
    || (e.kind == Move && was.down && now.down && (now.x != was.x || now.y != was.y)
        && e.x == now.x && e.y == now.y && e.pressure == now.pressure)
    || (e.kind == Up && was.down && !now.down && e.x == was.x && e.y == was.y && e.pressure == now.pressure)
  }

  /** A finger to tell of: gone down, lifted, or moved. */
  predicate Stirs(was: Finger, now: Finger) {
    was.down != now.down || (was.down && (was.x != now.x || was.y != now.y))
  }

  /** One event for each of the first `n` fingers there is anything to tell of, lowest id first, and no other. */
  ghost predicate Told(was: seq<Finger>, now: seq<Finger>, n: nat, es: seq<Event>) {
    && n <= |was| && n <= |now|
    && (forall i, j | 0 <= i < j < |es| :: es[i].id < es[j].id)
    && (forall i | 0 <= i < |es| :: es[i].id < n && Tells(was[es[i].id], now[es[i].id], es[i]))
    && forall id: nat | id < n && Stirs(was[id], now[id]) :: exists i :: 0 <= i < |es| && es[i].id == id
  }

  lemma NoneTold(was: seq<Finger>, now: seq<Finger>)
    ensures Told(was, now, 0, [])
  {
    hide Tells, Stirs;
  }

  lemma {:induction false} ChangesTold(was: seq<Finger>, now: seq<Finger>, n: nat)
    requires n <= |was| && n <= |now|
    ensures Told(was, now, n, AllChanges(was, now, n))
  {
    hide Told, Changes;
    if n == 0 {
      NoneTold(was, now);
    } else {
      ChangesTold(was, now, n - 1);
      OneMoreTold(was, now, n - 1, AllChanges(was, now, n - 1));
    }
  }

  lemma OneMoreTold(was: seq<Finger>, now: seq<Finger>, n: nat, es: seq<Event>)
    requires Told(was, now, n, es) && n < |was| && n < |now|
    ensures Told(was, now, n + 1, es + Changes(n, was[n], now[n]))
  {
    var more := Changes(n, was[n], now[n]);
    var all := es + more;
    forall id: nat | id < n + 1 && Stirs(was[id], now[id]) ensures exists i :: 0 <= i < |all| && all[i].id == id {
      if id < n {
        var i :| 0 <= i < |es| && es[i].id == id;
        assert all[i].id == id;
      } else {
        assert all[|es|].id == id;
      }
    }
  }
}
