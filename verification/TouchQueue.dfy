/**
 The touch queue as a sequence.

 What the driver keeps in a ring buffer is, to a reader, a queue with one
 rule for when it is full: give up a move rather than a press or a release.
 */
module TouchQueue {
  import opened Options

  datatype Kind = Down | Move | Up

  datatype Event = Event(kind: Kind, id: nat, x: int, y: int, pressure: int)

  /** The oldest move, or the oldest event of all if there is none. */
  function Victim(q: seq<Event>): (v: nat)
    requires q != []
    ensures v < |q|
    ensures q[v].kind == Move || v == 0
    ensures forall i | 0 <= i < v :: q[i].kind != Move
    ensures q[v].kind != Move ==> forall i | 0 <= i < |q| :: q[i].kind != Move
  {
    var m := OldestMove(q);
    if m < |q| then m else 0
  }

  function OldestMove(q: seq<Event>): (m: nat)
    ensures m <= |q|
    ensures forall i | 0 <= i < m :: q[i].kind != Move
    ensures m < |q| ==> q[m].kind == Move
  {
    if q == [] || q[0].kind == Move then 0 else 1 + OldestMove(q[1..])
  }

  function Without(q: seq<Event>, v: nat): (r: seq<Event>)
    requires v < |q|
    ensures |r| == |q| - 1
  {
    q[..v] + q[v + 1..]
  }

  /** The queue after an event has arrived. */
  function Put(q: seq<Event>, room: nat, e: Event): seq<Event>
    requires room > 0
  {
    if |q| < room then q + [e]
    else if q == [] || e.kind == Move then q
    else Without(q, Victim(q)) + [e]
  }

  /** What is given up for it, if anything. */
  function Lost(q: seq<Event>, room: nat, e: Event): seq<Event>
    requires room > 0
  {
    if |q| < room then []
    else if q == [] || e.kind == Move then [e]
    else [q[Victim(q)]]
  }

  /** The queue after any number of events, one after another. */
  function PutAll(q: seq<Event>, room: nat, es: seq<Event>): seq<Event>
    requires room > 0
  {
    if es == [] then q else Put(PutAll(q, room, es[..|es| - 1]), room, es[|es| - 1])
  }

  /** Everything given up for them, in the order it went. */
  function LostAll(q: seq<Event>, room: nat, es: seq<Event>): seq<Event>
    requires room > 0
  {
    if es == [] then []
    else
      var before := es[..|es| - 1];
      LostAll(q, room, before) + Lost(PutAll(q, room, before), room, es[|es| - 1])
  }

  lemma OneMorePut(q: seq<Event>, room: nat, es: seq<Event>, e: Event)
    requires room > 0
    ensures PutAll(q, room, es + [e]) == Put(PutAll(q, room, es), room, e)
    ensures LostAll(q, room, es + [e]) == LostAll(q, room, es) + Lost(PutAll(q, room, es), room, e)
  {
    assert (es + [e])[..|es|] == es;
  }

  /**
   What goes when the queue is full, and nothing before it is: a move that
   arrives; for a press or a release the oldest move waiting, or failing that
   the oldest event. What arrives goes to the end.
   */
  lemma Policy(q: seq<Event>, room: nat, e: Event, v: nat)
    requires room > 0 && |q| <= room
    ensures |q| < room ==> Put(q, room, e) == q + [e] && Lost(q, room, e) == []
    ensures |q| == room && e.kind == Move ==> Put(q, room, e) == q && Lost(q, room, e) == [e]
    ensures |q| == room && e.kind != Move && v < room && q[v].kind == Move
            && (forall i | 0 <= i < v :: q[i].kind != Move)
      ==> Put(q, room, e) == q[..v] + q[v + 1..] + [e] && Lost(q, room, e) == [q[v]]
    ensures |q| == room && e.kind != Move && (forall i | 0 <= i < room :: q[i].kind != Move)
      ==> Put(q, room, e) == q[1..] + [e] && Lost(q, room, e) == [q[0]]
  {
  }

  /** A press or a release is given up only by a queue of nothing but presses and releases. */
  lemma OnlyMovesGoFirst(q: seq<Event>, room: nat, e: Event)
    requires room > 0 && |q| <= room && Lost(q, room, e) != [] && Lost(q, room, e)[0].kind != Move
    ensures |q| == room && forall i | 0 <= i < |q| :: q[i].kind != Move
    ensures e.kind != Move && Lost(q, room, e) == [q[0]]
  {
  }

  /** Nothing is made up and nothing is lost but what is counted. */
  lemma Conserved(q: seq<Event>, room: nat, e: Event)
    requires room > 0 && |q| <= room
    ensures multiset(q + [e]) == multiset(Put(q, room, e)) + multiset(Lost(q, room, e))
    ensures |Put(q, room, e)| <= room
  {
    if |q| == room && e.kind != Move {
      var v := Victim(q);
      assert q == q[..v] + [q[v]] + q[v + 1..];
    }
  }

  /** So it is for any number of events: queued and given up, they are what was queued and what arrived. */
  lemma {:induction false} AllConserved(q: seq<Event>, room: nat, es: seq<Event>)
    requires room > 0 && |q| <= room
    ensures multiset(q + es) == multiset(PutAll(q, room, es)) + multiset(LostAll(q, room, es))
    ensures |PutAll(q, room, es)| <= room
  {
    hide Put, Lost;
    if es == [] {
      assert q + es == q;
    } else {
      var before, e := es[..|es| - 1], es[|es| - 1];
      var queued, lost := PutAll(q, room, before), LostAll(q, room, before);
      AllConserved(q, room, before);
      Conserved(queued, room, e);
      assert q + es == q + before + [e];
      assert multiset(q + es) == multiset(queued + [e]) + multiset(lost);
    }
  }

  /** Order is kept: what is queued afterwards is what was queued and what arrived, less at most one event. */
  lemma AtMostOneMissing(q: seq<Event>, room: nat, e: Event)
    requires room > 0 && |q| <= room
    ensures Put(q, room, e) == q + [e] || exists v :: 0 <= v <= |q| && Put(q, room, e) == Without(q + [e], v)
  {
    if |q| == room {
      var v := if e.kind == Move then |q| else Victim(q);
      assert Put(q, room, e) == Without(q + [e], v);
    }
  }

  /** Presses and releases only. */
  function Edges(q: seq<Event>): seq<Event> {
    if q == [] then []
    else Edges(q[..|q| - 1]) + if q[|q| - 1].kind != Move then [q[|q| - 1]] else []
  }

  /** Giving up a move leaves the presses and releases, and their order, alone. */
  lemma {:induction false} EdgesWithoutMove(q: seq<Event>, v: nat)
    requires v < |q| && q[v].kind == Move
    ensures Edges(Without(q, v)) == Edges(q)
  {
    var n := |q| - 1;
    if v == n {
      assert Without(q, v) == q[..n];
    } else {
      assert Without(q, v)[..n - 1] == Without(q[..n], v);
      EdgesWithoutMove(q[..n], v);
    }
  }

  /* ---- one finger at a time ---- */

  datatype Track = Track(down: bool, x: int, y: int)

  /** One event of a finger: it goes down, moves to somewhere else, or lifts from where it was. */
  function Next(t: Track, e: Event): Option<Track> {
    match e.kind
    case Down => if t.down then None else Some(Track(true, e.x, e.y))
    case Move => if t.down && (e.x != t.x || e.y != t.y) then Some(Track(true, e.x, e.y)) else None
    case Up => if t.down && e.x == t.x && e.y == t.y then Some(Track(false, e.x, e.y)) else None
  }

  /** Where a stream leaves finger `id`; None if the stream is not one a finger can make. */
  function Follow(es: seq<Event>, id: nat): Option<Track> {
    if es == [] then Some(Track(false, 0, 0))
    else
      var e := es[|es| - 1];
      var t := Follow(es[..|es| - 1], id);
      if e.id != id || t.None? then t else Next(t.value, e)
  }

  /** The same with positions forgotten: presses and releases alternate and moves lie between them. */
  function Shape(start: bool, es: seq<Event>, id: nat): Option<bool> {
    if es == [] then Some(start)
    else
      var e := es[|es| - 1];
      var t := Shape(start, es[..|es| - 1], id);
      if e.id != id || t.None? then t
      else
        match e.kind
        case Down => if t.value then None else Some(true)
        case Move => if t.value then t else None
        case Up => if t.value then Some(false) else None
  }

  lemma FollowOne(es: seq<Event>, e: Event, id: nat)
    ensures Follow(es + [e], id)
         == if e.id != id || Follow(es, id).None? then Follow(es, id) else Next(Follow(es, id).value, e)
  {
    assert (es + [e])[..|es|] == es;
  }

  lemma ShapeOne(start: bool, es: seq<Event>, e: Event, id: nat)
    requires e.id != id
    ensures Shape(start, es + [e], id) == Shape(start, es, id)
  {
    assert (es + [e])[..|es|] == es;
  }

  lemma ShapeNext(start: bool, es: seq<Event>, e: Event, id: nat)
    requires e.id == id && Shape(start, es, id).Some?
    requires e.kind == Down <==> !Shape(start, es, id).value
    ensures Shape(start, es + [e], id) == Some(e.kind != Up)
  {
    assert (es + [e])[..|es|] == es;
  }

  /** A stream with a move missing still has the shape, and ends the same way. */
  lemma {:induction false} ShapeWithoutMove(start: bool, es: seq<Event>, v: nat, id: nat)
    requires v < |es| && es[v].kind == Move && Shape(start, es, id).Some?
    ensures Shape(start, Without(es, v), id) == Shape(start, es, id)
  {
    var n := |es| - 1;
    if v == n {
      assert Without(es, v) == es[..n];
    } else {
      assert Without(es, v)[..n - 1] == Without(es[..n], v);
      ShapeWithoutMove(start, es[..n], v, id);
    }
  }
}
