/** The record of everything sent, and what it says about the fingers and the reader. */
module TouchBook {
  import opened Options
  import opened TouchQueue
  import opened TouchStream

  const MAX_POINTS := 5

  /** One finger as a poll found it. */
  datatype Finger = Finger(down: bool, x: int, y: int, pressure: int)

  /**
   Everything sent since the driver started and since the device was opened;
   what of that the reader has been given, and what was given up; how many of
   those it has been told of; which fingers were down at the opening.
   */
  datatype Book = Book(sent: seq<Event>, since: seq<Event>, heard: seq<Event>, lost: seq<Event>,
                       reported: nat, atOpen: seq<bool>)

  predicate InPanel(x: int, y: int, w: nat, h: nat) {
    (w > 0 ==> 0 <= x < w) && (h > 0 ==> 0 <= y < h)
  }

  /** The last poll is where the whole stream of events leaves this finger. */
  predicate Tracks(sent: seq<Event>, id: nat, f: Finger) {
    var t := Follow(sent, id);
    t.Some? && t.value.down == f.down && (f.down ==> t.value.x == f.x && t.value.y == f.y)
  }

  predicate OnlyMoves(es: seq<Event>) {
    forall i | 0 <= i < |es| :: es[i].kind == Move
  }

  /** The reader's stream, with what is still queued, makes sense and ends where the finger is. */
  predicate Keeps(start: bool, stream: seq<Event>, id: nat, f: Finger) {
    Shape(start, stream, id) == Some(f.down)
  }

  /** The polls and the events agree, and every position is on the glass. */
  ghost predicate Fingers(sent: seq<Event>, fs: seq<Finger>, w: nat, h: nat) {
    && |fs| == MAX_POINTS
    && (forall id | 0 <= id < MAX_POINTS :: Tracks(sent, id, fs[id]))
    && (forall id | 0 <= id < MAX_POINTS && fs[id].down :: InPanel(fs[id].x, fs[id].y, w, h))
    && forall i | 0 <= i < |sent| :: InPanel(sent[i].x, sent[i].y, w, h)
  }

  /** What was sent since the opening is the end of all that was sent. */
  ghost predicate Latest(sent: seq<Event>, since: seq<Event>) {
    |since| <= |sent| && sent[|sent| - |since|..] == since
  }

  /** Emitted = read + queued + given up, and what was given up is counted. */
  ghost predicate Accounts(b: Book, q: seq<Event>, dropped: nat) {
    && Latest(b.sent, b.since)
    && multiset(b.since) == multiset(b.heard + q) + multiset(b.lost)
    && |b.lost| == b.reported + dropped
  }

  /** While only moves are given up, the reader misses no press or release and its stream keeps its shape. */
  ghost predicate Readable(b: Book, q: seq<Event>, fs: seq<Finger>) {
    && |fs| == |b.atOpen| == MAX_POINTS
    && (OnlyMoves(b.lost) ==>
          && Edges(b.heard + q) == Edges(b.since)
          && forall id | 0 <= id < MAX_POINTS :: Keeps(b.atOpen[id], b.heard + q, id, fs[id]))
  }

  ghost predicate Sound(b: Book, q: seq<Event>, dropped: nat, fs: seq<Finger>, w: nat, h: nat) {
    Fingers(b.sent, fs, w, h) && Accounts(b, q, dropped) && Readable(b, q, fs)
  }

  function Sent(b: Book, q: seq<Event>, room: nat, e: Event): Book
    requires room > 0
  {
    b.(sent := b.sent + [e], since := b.since + [e], lost := b.lost + Lost(q, room, e))
  }

  /** The book after any number of events. */
  function AllSent(b: Book, q: seq<Event>, room: nat, es: seq<Event>): Book
    requires room > 0
  {
    b.(sent := b.sent + es, since := b.since + es, lost := b.lost + LostAll(q, room, es))
  }

  lemma NothingSent(b: Book, q: seq<Event>, room: nat)
    requires room > 0
    ensures AllSent(b, q, room, []) == b && PutAll(q, room, []) == q && LostAll(q, room, []) == []
  {
    assert b.sent + [] == b.sent && b.since + [] == b.since && b.lost + [] == b.lost;
  }

  lemma OneMoreSent(b: Book, q: seq<Event>, room: nat, es: seq<Event>, e: Event)
    requires room > 0
    ensures AllSent(b, q, room, es + [e]) == Sent(AllSent(b, q, room, es), PutAll(q, room, es), room, e)
  {
    hide PutAll, LostAll, Put, Lost;
    OneMorePut(q, room, es, e);
    assert b.sent + (es + [e]) == b.sent + es + [e] && b.since + (es + [e]) == b.since + es + [e];
    var lost, given := LostAll(q, room, es), Lost(PutAll(q, room, es), room, e);
    assert b.lost + (lost + given) == b.lost + lost + given;
  }

  lemma OneMoreLatest(sent: seq<Event>, since: seq<Event>, e: Event)
    requires Latest(sent, since)
    ensures Latest(sent + [e], since + [e])
  {
    var n := |sent| - |since|;
    assert (sent + [e])[n..] == sent[n..] + [e];
  }

  /** Sending what a finger did next, whatever the queue has to give up for it. */
  lemma SendSound(b: Book, q: seq<Event>, room: nat, dropped: nat, fs: seq<Finger>, w: nat, h: nat, e: Event, f: Finger)
    requires Sound(b, q, dropped, fs, w, h) && room > 0 && |q| <= room
    requires e.id < MAX_POINTS && InPanel(e.x, e.y, w, h)
    requires Next(Track(fs[e.id].down, fs[e.id].x, fs[e.id].y), e) == Some(Track(f.down, f.x, f.y))
    ensures Sound(Sent(b, q, room, e), Put(q, room, e), dropped + |Lost(q, room, e)|, fs[e.id := f], w, h)
  {
    SendFingers(b.sent, fs, w, h, e, f);
    OneMoreLatest(b.sent, b.since, e);
    PutConserves(b.heard, q, room, e, b.since, b.lost);
    if OnlyMoves(Sent(b, q, room, e).lost) {
      SendKeeps(b, q, room, dropped, fs, w, h, e, f);
    }
  }

  lemma SendFingers(sent: seq<Event>, fs: seq<Finger>, w: nat, h: nat, e: Event, f: Finger)
    requires Fingers(sent, fs, w, h) && e.id < MAX_POINTS && InPanel(e.x, e.y, w, h)
    requires Next(Track(fs[e.id].down, fs[e.id].x, fs[e.id].y), e) == Some(Track(f.down, f.x, f.y))
    ensures Fingers(sent + [e], fs[e.id := f], w, h)
  {
    hide Tracks, Next;
    var fs' := fs[e.id := f];
    forall id | 0 <= id < MAX_POINTS ensures Tracks(sent + [e], id, fs'[id]) {
      assert Tracks(sent, id, fs[id]);
      SendOne(sent, e, id, fs[id], fs'[id]);
    }
    NextIsThere(Track(fs[e.id].down, fs[e.id].x, fs[e.id].y), e);
  }

  lemma SendOne(sent: seq<Event>, e: Event, id: nat, was: Finger, now: Finger)
    requires Tracks(sent, id, was)
    requires if e.id == id then Next(Track(was.down, was.x, was.y), e) == Some(Track(now.down, now.x, now.y))
             else now == was
    ensures Tracks(sent + [e], id, now)
  {
    FollowOne(sent, e, id);
  }

  lemma NextIsThere(t: Track, e: Event)
    ensures var n := Next(t, e); n.Some? ==> n.value.x == e.x && n.value.y == e.y
  {
  }

  lemma LastInPanel(b: Book, q: seq<Event>, dropped: nat, fs: seq<Finger>, w: nat, h: nat, id: nat)
    requires Sound(b, q, dropped, fs, w, h) && id < MAX_POINTS && fs[id].down
    ensures InPanel(fs[id].x, fs[id].y, w, h)
  {
  }

  lemma SendKeeps(b: Book, q: seq<Event>, room: nat, dropped: nat, fs: seq<Finger>, w: nat, h: nat, e: Event, f: Finger)
    requires Sound(b, q, dropped, fs, w, h) && room > 0 && |q| <= room && e.id < MAX_POINTS
    requires Next(Track(fs[e.id].down, fs[e.id].x, fs[e.id].y), e) == Some(Track(f.down, f.x, f.y))
    requires OnlyMoves(b.lost + Lost(q, room, e))
    ensures Edges(b.heard + Put(q, room, e)) == Edges(b.since + [e])
    ensures forall id | 0 <= id < MAX_POINTS :: Keeps(b.atOpen[id], b.heard + Put(q, room, e), id, fs[e.id := f][id])
  {
    var given := Lost(q, room, e);
    assert forall i | 0 <= i < |b.lost| :: (b.lost + given)[i] == b.lost[i];
    assert given != [] ==> (b.lost + given)[|b.lost|] == given[0];
    PutKeepsEdges(b.heard, q, room, e);
    EdgesOne(b.since, e);
    forall id | 0 <= id < MAX_POINTS
      ensures Keeps(b.atOpen[id], b.heard + Put(q, room, e), id, fs[e.id := f][id])
    {
      assert Keeps(b.atOpen[id], b.heard + q, id, fs[id]);
      PutKeepsShape(b.atOpen[id], b.heard, q, room, e, id);
    }
  }

  /** What is remembered of a finger that stays up, or of one that stays where it is, does not matter. */
  lemma RestSound(b: Book, q: seq<Event>, dropped: nat, fs: seq<Finger>, w: nat, h: nat, id: nat, f: Finger)
    requires Sound(b, q, dropped, fs, w, h) && id < MAX_POINTS && f.down == fs[id].down
    requires fs[id].down ==> f.x == fs[id].x && f.y == fs[id].y
    ensures Sound(b, q, dropped, fs[id := f], w, h)
  {
    var fs' := fs[id := f];
    assert forall i | 0 <= i < MAX_POINTS :: Tracks(b.sent, i, fs[i]) ==> Tracks(b.sent, i, fs'[i]);
    assert forall i | 0 <= i < MAX_POINTS ::
        Keeps(b.atOpen[i], b.heard + q, i, fs[i]) ==> Keeps(b.atOpen[i], b.heard + q, i, fs'[i]);
  }

  /** The reader is handed the front of the queue and told what was given up. */
  lemma HandOverSound(b: Book, q: seq<Event>, n: nat, dropped: nat, fs: seq<Finger>, w: nat, h: nat)
    requires Sound(b, q, dropped, fs, w, h) && n <= |q|
    ensures Sound(b.(heard := b.heard + q[..n], reported := b.reported + dropped), q[n..], 0, fs, w, h)
  {
    assert (b.heard + q[..n]) + q[n..] == b.heard + q by { assert q[..n] + q[n..] == q; }
  }

  /** Which fingers are down. */
  function DownFlags(fs: seq<Finger>): (r: seq<bool>)
    ensures |r| == |fs| && forall i | 0 <= i < |fs| :: r[i] == fs[i].down
  {
    seq(|fs|, i requires 0 <= i < |fs| => fs[i].down)
  }

  /** Opening the device starts the reader's stream afresh. */
  lemma OpenSound(b: Book, q: seq<Event>, dropped: nat, fs: seq<Finger>, w: nat, h: nat)
    requires Sound(b, q, dropped, fs, w, h)
    ensures Sound(Book(b.sent, [], [], [], 0, DownFlags(fs)), [], 0, fs, w, h)
  {
    var open := DownFlags(fs);
    var none: seq<Event> := [];
    assert none + none == none;
    forall id | 0 <= id < MAX_POINTS ensures Keeps(open[id], none + none, id, fs[id]) {
    }
  }

  /**
   What a reader can rely on when no finger was down at the opening and only
   moves were given up: for each finger presses and releases alternate,
   starting with a press, with moves only in between.
   */
  lemma ReaderSees(b: Book, q: seq<Event>, dropped: nat, fs: seq<Finger>, w: nat, h: nat, id: nat)
    requires Sound(b, q, dropped, fs, w, h) && id < MAX_POINTS && !b.atOpen[id] && OnlyMoves(b.lost)
    ensures Shape(false, b.heard, id).Some? && Shape(false, b.heard + q, id) == Some(fs[id].down)
  {
    assert Keeps(b.atOpen[id], b.heard + q, id, fs[id]);
    ShapePrefix(false, b.heard, q, id);
  }

  lemma {:induction false} ShapePrefix(start: bool, a: seq<Event>, c: seq<Event>, id: nat)
    requires Shape(start, a + c, id).Some?
    ensures Shape(start, a, id).Some?
    decreases c
  {
    if c == [] {
      assert a + c == a;
    } else {
      assert (a + c)[..|a + c| - 1] == a + c[..|c| - 1];
      ShapePrefix(start, a, c[..|c| - 1], id);
    }
  }

  /** What a finger's change from one poll to the next is reported as: at most one event. */
  function Changes(id: nat, was: Finger, now: Finger): (es: seq<Event>)
    ensures |es| <= 1
    ensures es == [] <==> was.down == now.down && (now.down ==> was.x == now.x && was.y == now.y)
    ensures es != [] ==> es[0].id == id && es[0].kind == (if !was.down then Down else if now.down then Move else Up)
  {
    if now.down && !was.down then [Event(Down, id, now.x, now.y, now.pressure)]
    else if now.down && was.down then
      if now.x != was.x || now.y != was.y then [Event(Move, id, now.x, now.y, now.pressure)] else []
    else if was.down then [Event(Up, id, was.x, was.y, now.pressure)]
    else []
  }
}
