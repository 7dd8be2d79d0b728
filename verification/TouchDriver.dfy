/** The touch driver: polls become events, events go into the ring, readers take them out. */
module TouchDriver {
  import opened Options
  import opened TouchQueue
  import opened TouchBook
  import opened TouchPlace
  import opened TouchRing
  import opened TouchReading

  class Driver {
    const q: array<Event>
    const depth: nat
    var head: nat
    var tail: nat
    var dropped: nat
    const last: array<Finger>
    const w: nat
    const h: nat
    const mirrorX: bool
    const mirrorY: bool
    const swapXY: bool

    ghost var book: Book

    function Panel(): Panel { TouchReading.Panel(w, h, mirrorX, mirrorY, swapXY) }

    ghost predicate RingValid()
      reads this
    {
      q.Length == depth >= 2 && head < depth && tail < depth
    }

    ghost function Used(): (n: nat)
      requires RingValid()
      reads this
      ensures n < depth && Wrap(tail + n, depth) == head
    {
      if head >= tail then head - tail else head + depth - tail
    }

    /** What is waiting, oldest first. */
    ghost function Queue(): (s: seq<Event>)
      requires RingValid()
      reads this, q
      ensures |s| == Used()
    {
      Rotated(q[..], tail)[..Used()]
    }

    method QUsed() returns (n: nat)
      requires RingValid()
      ensures n == Used()
    {
      ModWrap(head + depth - tail, depth);
      n := (head + depth - tail) % depth;
    }

    /** Where in the ring the event to give up is. */
    method FindVictim() returns (at: nat)
      requires RingValid() && Queue() != []
      ensures at == Wrap(tail + Victim(Queue()), depth)
    {
      ghost var s := Queue();
      var i := tail;
      ghost var k: nat := 0;
      while i != head
        invariant k <= |s| && i == Wrap(tail + k, depth)
        invariant forall j | 0 <= j < k :: s[j].kind != Move
        decreases |s| - k
      {
        assert q[i] == s[k];
        if q[i].kind == Move {
          return i;
        }
        ModWrap(i + 1, depth);
        i := (i + 1) % depth;
        k := k + 1;
      }
      return tail;
    }

    /** Shuffle the older side forward over the event given up, so that order is kept. */
    method CloseGap(at: nat, ghost v: nat)
      requires RingValid() && v < depth && at == Wrap(tail + v, depth)
      modifies q
      ensures Rotated(q[..], tail) == Shifted(old(Rotated(q[..], tail)), v)
    {
      hide Rotated, Shifted, Moving;
      ghost var s := Rotated(q[..], tail);
      var i := at;
      ghost var k: nat := v;
      MoveStart(s, v);
      while i != tail
        invariant k <= v && i == Wrap(tail + k, depth)
        invariant Moving(Rotated(q[..], tail), s, k, v)
        decreases k
      {
        ModWrap(i + depth - 1, depth);
        var prev := (i + depth - 1) % depth;
        ghost var was, r := q[..], Rotated(q[..], tail);
        assert prev == Wrap(tail + (k - 1), depth);
        MoveStep(r, s, k, v);
        q[i] := q[prev];
        assert q[..] == was[Wrap(tail + k, depth) := r[k - 1]];
        RotatedUpdate(was, tail, k, r[k - 1]);
        i := prev;
        k := k - 1;
      }
      Moved(Rotated(q[..], tail), s, v);
    }

    method QPut(e: Event)
      requires RingValid()
      modifies q, this`head, this`tail, this`dropped
      ensures RingValid()
      ensures Queue() == Put(old(Queue()), depth - 1, e)
      ensures dropped == old(dropped) + |Lost(old(Queue()), depth - 1, e)|
    {
      var used := QUsed();
      if used == depth - 1 {
        if e.kind == Move {
          dropped := dropped + 1;
          return;
        }
        MakeRoom();
      }
      Append(e);
    }

    /** Give up the victim of a full queue. */
    method MakeRoom()
      requires RingValid() && Used() == depth - 1
      modifies q, this`tail, this`dropped
      ensures RingValid() && Queue() == Without(old(Queue()), Victim(old(Queue())))
      ensures dropped == old(dropped) + 1
    {
      hide Rotated, Shifted, Without, Victim, Wrap;
      ghost var all, s := Rotated(q[..], tail), Queue();
      assert s == all[..depth - 1];
      var at := FindVictim();
      CloseGap(at, Victim(s));
      ghost var shut := Rotated(q[..], tail);
      LetGo();
      assert Queue() == (shut[1..] + [shut[0]])[..depth - 2];
      GapClosed(all, Victim(s), shut[1..] + [shut[0]]);
      dropped := dropped + 1;
    }

    /** The oldest slot becomes the free one. */
    method LetGo()
      requires RingValid() && Used() == depth - 1
      modifies this`tail
      ensures RingValid() && Used() == depth - 2
      ensures Queue() == var r := old(Rotated(q[..], tail)); (r[1..] + [r[0]])[..depth - 2]
    {
      RotatedOnce(q[..], tail);
      ModWrap(tail + 1, depth);
      tail := (tail + 1) % depth;
    }

    method Append(e: Event)
      requires RingValid() && Used() < depth - 1
      modifies q, this`head
      ensures RingValid() && Queue() == old(Queue()) + [e]
    {
      ghost var s, all, n, was := Queue(), Rotated(q[..], tail), Used(), q[..];
      q[head] := e;
      assert q[..] == was[Wrap(tail + n, depth) := e];
      RotatedUpdate(was, tail, n, e);
      ModWrap(head + 1, depth);
      head := (head + 1) % depth;
      assert Queue() == all[n := e][..n + 1];
    }

    /* ---- events ---- */

    ghost predicate Valid()
      reads this, q, last
    {
      && RingValid() && w < UINT16 && h < UINT16
      && last.Length == MAX_POINTS && q as object != last as object
      && Sound(book, Queue(), dropped, last[..], w, h)
    }

    constructor (depth: nat, w: nat, h: nat, mirrorX: bool, mirrorY: bool, swapXY: bool)
      requires depth >= 4 && w < UINT16 && h < UINT16
      ensures Valid() && fresh(q) && fresh(last)
      ensures book == Book([], [], [], [], 0, [false, false, false, false, false]) && Queue() == []
    {
      this.depth, this.w, this.h := depth, w, h;
      this.mirrorX, this.mirrorY, this.swapXY := mirrorX, mirrorY, swapXY;
      q := new Event[depth](_ => Event(Down, 0, 0, 0, 0));
      last := new Finger[MAX_POINTS](_ => AWAY);
      head, tail, dropped := 0, 0, 0;
      book := Book([], [], [], [], 0, [false, false, false, false, false]);
    }

    /** Send on its way what finger `e.id` did next; `f` is how that leaves it. */
    method Emit(e: Event, f: Finger)
      requires Valid() && e.id < MAX_POINTS && InPanel(e.x, e.y, w, h)
      requires Next(Track(last[e.id].down, last[e.id].x, last[e.id].y), e) == Some(Track(f.down, f.x, f.y))
      modifies this, q, last
      ensures Valid() && last[..] == old(last[..])[e.id := f]
      ensures book == Sent(old(book), old(Queue()), depth - 1, e)
      ensures Queue() == Put(old(Queue()), depth - 1, e)
      ensures dropped == old(dropped) + |Lost(old(Queue()), depth - 1, e)|
    {
      hide Sound, Rotated, Sent, Put, Lost;
      SendSound(book, Queue(), depth - 1, dropped, last[..], w, h, e, f);
      book := Sent(book, Queue(), depth - 1, e);
      QPut(e);
      last[e.id] := f;
      assert last[..] == old(last[..])[e.id := f];
    }

    method Rest(id: nat, f: Finger)
      requires Valid() && id < MAX_POINTS && f.down == last[id].down
      requires last[id].down ==> f.x == last[id].x && f.y == last[id].y
      modifies last
      ensures Valid() && last[..] == old(last[..])[id := f]
    {
      hide Sound;
      RestSound(book, Queue(), dropped, last[..], w, h, id, f);
      last[id] := f;
      assert last[..] == old(last[..])[id := f];
    }

    /** From this book, queue and count of drops, these events have been sent and nothing else has happened. */
    ghost predicate HasSent(b: Book, s: seq<Event>, n: nat, es: seq<Event>)
      requires RingValid()
      reads this, q
    {
      && book == AllSent(b, s, depth - 1, es)
      && Queue() == PutAll(s, depth - 1, es)
      && dropped == n + |LostAll(s, depth - 1, es)|
    }

    /** One finger of a poll against the same finger of the poll before. */
    method Settle(id: nat, now: Finger)
      requires Valid() && id < MAX_POINTS && (now.down ==> InPanel(now.x, now.y, w, h))
      modifies this, q, last
      ensures Valid() && HasSent(old(book), old(Queue()), old(dropped), Changes(id, old(last[id]), now))
      ensures last[id].down == now.down && (now.down ==> last[id] == now)
      ensures forall i | 0 <= i < MAX_POINTS && i != id :: last[i] == old(last[i])
    {
      hide Sound, AllSent, PutAll, LostAll, Sent, Put, Lost;
      var was := last[id];
      ghost var es := Changes(id, was, now);
      NothingSent(book, Queue(), depth - 1);
      if es != [] {
        assert es == [] + [es[0]];
        OneMoreSent(book, Queue(), depth - 1, [], es[0]);
        OneMorePut(Queue(), depth - 1, [], es[0]);
      }
      if now.down && !was.down {
        Emit(Event(Down, id, now.x, now.y, now.pressure), now);
      } else if now.down && was.down {
        if now.x != was.x || now.y != was.y {
          Emit(Event(Move, id, now.x, now.y, now.pressure), now);
        } else {
          Rest(id, now);
        }
      } else if !now.down && was.down {
        LastInPanel(book, Queue(), dropped, last[..], w, h, id);
        var left := now.(x := was.x, y := was.y);
        Emit(Event(Up, id, left.x, left.y, left.pressure), left);
      } else {
        Rest(id, now);
      }
    }

    /* ---- polling ---- */

    /** A raw point, as the panel is fitted: swapped, mirrored in sixteen bits, clamped. */
    method Place(p: RawPoint) returns (x: nat, y: nat)
      requires w < UINT16 && h < UINT16 && p.x < UINT16 && p.y < UINT16
      ensures InPanel(x, y, w, h) && (x, y) == Placed(Panel(), p)
      ensures var (rx, ry) := if swapXY then (p.y, p.x) else (p.x, p.y);
        && (w > 0 ==> (x == Nearest(rx, w, mirrorX) <==> !(mirrorX && rx >= w && w > 1)))
        && (h > 0 ==> (y == Nearest(ry, h, mirrorY) <==> !(mirrorY && ry >= h && h > 1)))
        && (w == 0 ==> x == rx) && (h == 0 ==> y == ry)
    {
      hide Nearest, PlaceAxis;
      x, y := p.x, p.y;
      if swapXY { x, y := y, x; }
      ghost var rx, ry := x, y;
      if w > 0 { NearestUnlessMirroredOutside(x, w, mirrorX); }
      if h > 0 { NearestUnlessMirroredOutside(y, h, mirrorY); }
      if mirrorX && w > 0 { x := (w - 1 - x) % UINT16; }
      if mirrorY && h > 0 { y := (h - 1 - y) % UINT16; }
      AxisIs(rx, w, mirrorX, x);
      AxisIs(ry, h, mirrorY, y);
      if w > 0 && x >= w { x := w - 1; }
      if h > 0 && y >= h { y := h - 1; }
    }

    /** The fingers of one report, by track id; a later point with the same id replaces an earlier one. */
    method Gather(points: seq<RawPoint>) returns (now: seq<Finger>)
      requires w < UINT16 && h < UINT16 && Small(points)
      ensures now == Reading(Panel(), points) && Felt(Panel(), points, now)
      ensures forall id | 0 <= id < MAX_POINTS ::
        if now[id].down then InPanel(now[id].x, now[id].y, w, h) else now[id] == AWAY
    {
      now := [AWAY, AWAY, AWAY, AWAY, AWAY];
      for i := 0 to |points|
        invariant now == Reading(Panel(), points[..i])
        invariant forall id | 0 <= id < MAX_POINTS && now[id].down :: InPanel(now[id].x, now[id].y, w, h)
      {
        assert points[..i + 1][..i] == points[..i] && points[..i + 1][i] == points[i];
        var id := points[i].id % 16;
        if id < MAX_POINTS {
          var x, y := Place(points[i]);
          now := now[id := Finger(true, x, y, points[i].pressure)];
        }
      }
      assert points[..|points|] == points;
      ReadingIsFelt(Panel(), points);
    }

    /** One poll: nothing said and nothing changed, unless the chip had a report that could be read. */
    method Poll(r: Report)
      requires Valid() && (r.Points? ==> Small(r.points))
      modifies this, q, last
      ensures Valid()
      ensures !r.Points? ==> dropped == old(dropped)
      ensures !r.Points? ==> book == old(book) && last[..] == old(last[..]) && Queue() == old(Queue())
      ensures r.Points? ==>
                var points := if |r.points| > MAX_POINTS then r.points[..MAX_POINTS] else r.points;
                var now := Reading(Panel(), points);
                var told := AllChanges(old(last[..]), now, MAX_POINTS);
                && HasSent(old(book), old(Queue()), old(dropped), told)
                && Told(old(last[..]), now, 5, told)
                && Felt(Panel(), points, now) && Felt(Panel(), points, last[..])
    {
      hide Sound, Reading, Felt, Told, Small;
      if !r.Points? { return; }
      var points := if |r.points| > MAX_POINTS then r.points[..MAX_POINTS] else r.points;
      FewSmall(r.points);
      var now := Gather(points);
      ChangesTold(last[..], now, MAX_POINTS);
      SettleAll(now);
      StillFelt(Panel(), points, now, last[..]);
    }

    method SettleAll(now: seq<Finger>)
      requires Valid() && |now| == MAX_POINTS
      requires forall id | 0 <= id < MAX_POINTS && now[id].down :: InPanel(now[id].x, now[id].y, w, h)
      modifies this, q, last
      ensures Valid()
      ensures HasSent(old(book), old(Queue()), old(dropped), AllChanges(old(last[..]), now, MAX_POINTS))
      ensures forall id | 0 <= id < MAX_POINTS ::
        last[id].down == now[id].down && (now[id].down ==> last[id] == now[id])
    {
      hide Sound, Rotated, Used, Changes, HasSent;
      ghost var was := last[..];
      NothingYet();
      for id := 0 to MAX_POINTS
        invariant Valid()
        invariant HasSent(old(book), old(Queue()), old(dropped), AllChanges(was, now, id))
        invariant forall i | 0 <= i < id :: last[i].down == now[i].down && (now[i].down ==> last[i] == now[i])
        invariant forall i | id <= i < MAX_POINTS :: last[i] == was[i]
      {
        ghost var b, s, n, es := book, Queue(), dropped, AllChanges(was, now, id);
        SentSoFar(old(book), old(Queue()), old(dropped), es);
        Settle(id, now[id]);
        SentAfter(old(book), old(Queue()), old(dropped), es, b, s, n, Changes(id, was[id], now[id]));
      }
    }

    lemma NothingYet()
      requires RingValid()
      ensures HasSent(book, Queue(), dropped, [])
    {
      NothingSent(book, Queue(), depth - 1);
    }

    lemma SentSoFar(b: Book, s: seq<Event>, n: nat, es: seq<Event>)
      requires RingValid() && HasSent(b, s, n, es)
      ensures book == AllSent(b, s, depth - 1, es) && Queue() == PutAll(s, depth - 1, es)
      ensures dropped == n + |LostAll(s, depth - 1, es)|
    {
    }

    /** Some events, and at most one more after them. */
    lemma SentAfter(b: Book, s: seq<Event>, n: nat, es: seq<Event>, b': Book, s': seq<Event>, n': nat, more: seq<Event>)
      requires RingValid() && |more| <= 1
      requires b' == AllSent(b, s, depth - 1, es) && s' == PutAll(s, depth - 1, es)
      requires n' == n + |LostAll(s, depth - 1, es)| && HasSent(b', s', n', more)
      ensures HasSent(b, s, n, es + more)
    {
      hide AllSent, PutAll, LostAll, Sent, Put, Lost;
      if more == [] {
        NothingSent(b', s', depth - 1);
        assert es + more == es;
      } else {
        assert more == [] + [more[0]] && es + more == es + [more[0]];
        NothingSent(b', s', depth - 1);
        OneMoreSent(b', s', depth - 1, [], more[0]);
        OneMorePut(s', depth - 1, [], more[0]);
        OneMoreSent(b, s, depth - 1, es, more[0]);
        OneMorePut(s, depth - 1, es, more[0]);
      }
    }

    /* ---- reading ---- */

    /** The first reader starts from now: what was queued for nobody is forgotten. */
    method Open()
      requires Valid()
      modifies this
      ensures Valid() && Queue() == [] && dropped == 0
      ensures book.sent == old(book.sent) && book.since == book.heard == book.lost == []
      ensures last[..] == old(last[..]) && forall id | 0 <= id < MAX_POINTS :: book.atOpen[id] == last[id].down
    {
      OpenSound(book, Queue(), dropped, last[..], w, h);
      head, tail, dropped := 0, 0, 0;
      book := Book(book.sent, [], [], [], 0, DownFlags(last[..]));
      assert Queue() == [];
    }

    /** Whole events, oldest first; WouldBlock when there are none, Invalid when there is no room for one. */
    method Read(want: nat) returns (err: Outcome, out: seq<Event>)
      requires Valid()
      modifies this`tail, this`dropped, this`book
      ensures Valid()
      ensures |out| == if want < |old(Queue())| then want else |old(Queue())|
      ensures err == if want == 0 then Invalid else if out == [] then WouldBlock else Ok
      ensures out + Queue() == old(Queue())
      ensures want == 0 ==> book == old(book) && dropped == old(dropped)
      ensures want > 0 ==>
                book == old(book.(heard := book.heard + out, reported := book.reported + dropped)) && dropped == 0
    {
      hide Sound, Rotated, Used;
      ghost var s := Queue();
      if want == 0 {
        assert [] + s == s;
        return Invalid, [];
      }
      out := Take(want);
      err := if out == [] then WouldBlock else Ok;
      HandOver(s, out);
    }

    /** The reader has the front of the queue, and the count of what was given up starts again. */
    method HandOver(ghost s: seq<Event>, out: seq<Event>)
      requires RingValid() && last.Length == MAX_POINTS && q as object != last as object && w < UINT16 && h < UINT16
      requires Sound(book, s, dropped, last[..], w, h)
      requires |out| <= |s| && out == s[..|out|] && Queue() == s[|out|..]
      modifies this`dropped, this`book
      ensures Valid() && out + Queue() == s && dropped == 0
      ensures book == old(book.(heard := book.heard + out, reported := book.reported + dropped))
    {
      hide Sound;
      HandOverSound(book, s, |out|, dropped, last[..], w, h);
      book := book.(heard := book.heard + out, reported := book.reported + dropped);
      dropped := 0;
    }

    method Take(want: nat) returns (out: seq<Event>)
      requires RingValid()
      modifies this`tail
      ensures RingValid()
      ensures |out| == if want < |old(Queue())| then want else |old(Queue())|
      ensures out == old(Queue())[..|out|] && Queue() == old(Queue())[|out|..]
    {
      hide Rotated;
      out := [];
      ghost var s := Queue();
      while |out| < want
        invariant RingValid() && |out| <= |s| && |out| <= want
        invariant out == s[..|out|] && Queue() == s[|out|..]
      {
        var used := QUsed();
        if used == 0 { break; }
        var e := q[tail];
        Advance();
        out := out + [e];
      }
    }

    method Advance()
      requires RingValid() && Used() > 0
      modifies this`tail
      ensures RingValid() && Queue() == old(Queue())[1..] && old(Queue())[0] == q[old(tail)]
    {
      RotatedOnce(q[..], tail);
      ModWrap(tail + 1, depth);
      tail := (tail + 1) % depth;
    }
  }

  /** What a poll finds: the bus silent, no report ready, a report that cannot be read, or points. */
  datatype Report = BusError | NotReady | Unreadable | Points(points: seq<RawPoint>)

  datatype Outcome = Ok | Invalid | WouldBlock
}
