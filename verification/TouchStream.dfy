/** What a reader's stream keeps of the emitted one when only moves are given up. */
module TouchStream {
  import opened Options
  import opened TouchQueue

  /** Finger `id` is up before a press and down before anything else. */
  predicate Due(down: bool, e: Event) {
    e.kind == Down <==> !down
  }

  lemma PutKeepsShape(start: bool, heard: seq<Event>, q: seq<Event>, room: nat, e: Event, id: nat)
    requires room > 0 && |q| <= room && Shape(start, heard + q, id).Some?
    requires e.id == id ==> Due(Shape(start, heard + q, id).value, e)
    requires Lost(q, room, e) == [] || Lost(q, room, e)[0].kind == Move
    ensures Shape(start, heard + Put(q, room, e), id)
         == if e.id == id then Some(e.kind != Up) else Shape(start, heard + q, id)
  {
    hide Shape;
    var s := heard + q;
    if |q| < room {
      assert heard + Put(q, room, e) == s + [e];
      After(start, s, e, id);
    } else if e.kind != Move {
      var v := Victim(q);
      WithoutAfter(heard, q, v);
      assert heard + Put(q, room, e) == Without(s, |heard| + v) + [e];
      ShapeWithoutMove(start, s, |heard| + v, id);
      After(start, Without(s, |heard| + v), e, id);
    }
  }

  lemma WithoutAfter(heard: seq<Event>, q: seq<Event>, v: nat)
    requires v < |q|
    ensures heard + Without(q, v) == Without(heard + q, |heard| + v)
    ensures (heard + q)[|heard| + v] == q[v]
  {
  }

  lemma After(start: bool, s: seq<Event>, e: Event, id: nat)
    requires Shape(start, s, id).Some? && (e.id == id ==> Due(Shape(start, s, id).value, e))
    ensures Shape(start, s + [e], id) == if e.id == id then Some(e.kind != Up) else Shape(start, s, id)
  {
    if e.id == id { ShapeNext(start, s, e, id); } else { ShapeOne(start, s, e, id); }
  }

  lemma PutKeepsEdges(heard: seq<Event>, q: seq<Event>, room: nat, e: Event)
    requires room > 0 && |q| <= room
    requires Lost(q, room, e) == [] || Lost(q, room, e)[0].kind == Move
    ensures Edges(heard + Put(q, room, e)) == Edges(heard + q) + Edges([e])
  {
    hide Edges;
    var s := heard + q;
    if |q| < room {
      assert heard + Put(q, room, e) == s + [e];
      EdgesOne(s, e);
    } else if e.kind != Move {
      var v := Victim(q);
      WithoutAfter(heard, q, v);
      assert heard + Put(q, room, e) == Without(s, |heard| + v) + [e];
      EdgesWithoutMove(s, |heard| + v);
      EdgesOne(Without(s, |heard| + v), e);
    } else {
      EdgesOne([], e);
    }
  }

  lemma EdgesOne(s: seq<Event>, e: Event)
    ensures Edges(s + [e]) == Edges(s) + Edges([e])
    ensures Edges([e]) == if e.kind == Move then [] else [e]
  {
    assert (s + [e])[..|s|] == s && [e][..0] == [];
  }

  lemma PutConserves(heard: seq<Event>, q: seq<Event>, room: nat, e: Event, since: seq<Event>, lost: seq<Event>)
    requires room > 0 && |q| <= room
    requires multiset(since) == multiset(heard + q) + multiset(lost)
    ensures multiset(since + [e]) == multiset(heard + Put(q, room, e)) + multiset(lost + Lost(q, room, e))
  {
    Conserved(q, room, e);
    assert multiset(q + [e]) == multiset(q) + multiset([e]);
    assert multiset(since + [e]) == multiset(heard) + multiset(q + [e]) + multiset(lost);
  }
}
