/**
 The log: a ring of the last bytes ever logged, and a short queue of lines a
 real-time task logged, held back from the port until someone with time to
 spare logs or flushes.
 */
module LogRing {

  const RING_BYTES := 8192
  const LINE_MAX := 256
  const DEFER_LINES := 8

  /** What the port gets: lines, and now and then a word about how many it never got. */
  datatype Sent = Line(text: string) | Loss(count: nat)

  /** A line logged, and whether the port is to have it. */
  datatype Event = Kept(text: string) | Dropped(text: string)

  function Truncated(text: string): (t: string)
    ensures |t| < LINE_MAX
  {
    if |text| > LINE_MAX - 1 then text[..LINE_MAX - 1] else text
  }

  function LinesOf(port: seq<Sent>): seq<string>
    decreases |port|
  {
    if port == [] then []
    else
      var last := port[|port| - 1];
      LinesOf(port[..|port| - 1]) + match last case Line(t) => [t] case Loss(_) => []
  }

  function Reported(port: seq<Sent>): nat
    decreases |port|
  {
    if port == [] then 0
    else
      var last := port[|port| - 1];
      Reported(port[..|port| - 1]) + match last case Line(_) => 0 case Loss(n) => n
  }

  function KeptOf(events: seq<Event>): seq<string>
    decreases |events|
  {
    if events == [] then []
    else
      var last := events[|events| - 1];
      KeptOf(events[..|events| - 1]) + match last case Kept(t) => [t] case Dropped(_) => []
  }

  function DroppedOf(events: seq<Event>): nat
    decreases |events|
  {
    if events == [] then 0
    else
      var last := events[|events| - 1];
      DroppedOf(events[..|events| - 1]) + match last case Kept(_) => 0 case Dropped(_) => 1
  }

  /** The last `n` bytes, or all there are. */
  function Latest(s: string, n: nat): (t: string)
    ensures |t| == if |s| < n then |s| else n
  {
    if |s| < n then s else s[|s| - n..]
  }

  /** A window of what is held, as much of it as there is. */
  function Window(held: string, from: nat, cap: nat): string {
    if from >= |held| then []
    else held[from..if |held| - from > cap then from + cap else |held|]
  }

  /** As many of the last `held` bytes as there are from the `from`-th of them on and as fit. */
  predicate Shows(out: string, ever: string, held: nat, from: nat, cap: nat) {
    && held <= |ever|
    && |out| == (if from >= held then 0 else if held - from > cap then cap else held - from)
    && forall i | 0 <= i < |out| :: out[i] == ever[|ever| - held + from + i]
  }

  lemma WindowShows(ever: string, from: nat, cap: nat)
    ensures Shows(Window(Latest(ever, RING_BYTES), from, cap), ever, if |ever| < 8192 then |ever| else 8192, from, cap)
  {
  }

  function Lines(texts: seq<string>): (port: seq<Sent>)
    ensures |port| == |texts| && forall i | 0 <= i < |texts| :: port[i] == Line(texts[i])
  {
    seq(|texts|, i requires 0 <= i < |texts| => Line(texts[i]))
  }

  lemma PortOneMore(port: seq<Sent>, s: Sent)
    ensures LinesOf(port + [s]) == LinesOf(port) + match s case Line(t) => [t] case Loss(_) => []
    ensures Reported(port + [s]) == Reported(port) + match s case Line(_) => 0 case Loss(n) => n
  {
    assert (port + [s])[..|port|] == port;
  }

  lemma EventOneMore(events: seq<Event>, e: Event)
    ensures KeptOf(events + [e]) == KeptOf(events) + match e case Kept(t) => [t] case Dropped(_) => []
    ensures DroppedOf(events + [e]) == DroppedOf(events) + match e case Kept(_) => 0 case Dropped(_) => 1
  {
    assert (events + [e])[..|events|] == events;
  }

  /** The ring's slots hold the latest bytes, each at its count round the ring. */
  ghost predicate Rings(ring: seq<char>, ever: string) {
    && |ring| == RING_BYTES
    && forall k {:trigger ever[k]} | 0 <= k < |ever| && |ever| - RING_BYTES <= k :: ring[k % RING_BYTES] == ever[k]
  }

  function Count(head: nat, tail: nat): nat
    requires head < DEFER_LINES && tail < DEFER_LINES
  {
    (head + DEFER_LINES - tail) % DEFER_LINES
  }

  ghost function QueueOf(slots: seq<string>, head: nat, tail: nat): (q: seq<string>)
    requires |slots| == DEFER_LINES && head < DEFER_LINES && tail < DEFER_LINES
    ensures |q| == Count(head, tail)
    ensures forall i | 0 <= i < |q| :: q[i] == slots[(tail + i) % DEFER_LINES]
  {
    seq(Count(head, tail), i requires 0 <= i < Count(head, tail) => slots[(tail + i) % DEFER_LINES])
  }

  lemma PutBack(slots: seq<string>, head: nat, tail: nat, line: string)
    requires |slots| == DEFER_LINES && head < DEFER_LINES && tail < DEFER_LINES
    requires Count(head, tail) < DEFER_LINES - 1
    ensures QueueOf(slots[head := line], (head + 1) % DEFER_LINES, tail) == QueueOf(slots, head, tail) + [line]
  {
    var q, n := QueueOf(slots, head, tail), Count(head, tail);
    var after := QueueOf(slots[head := line], (head + 1) % DEFER_LINES, tail);
    OneMore(head, tail);
    forall i | 0 <= i <= n ensures after[i] == (q + [line])[i] {
      EndsAtHead(head, tail, i);
    }
  }

  lemma OneMore(head: nat, tail: nat)
    requires head < DEFER_LINES && tail < DEFER_LINES && Count(head, tail) < DEFER_LINES - 1
    ensures Count((head + 1) % DEFER_LINES, tail) == Count(head, tail) + 1
  {
  }

  lemma EndsAtHead(head: nat, tail: nat, i: nat)
    requires head < DEFER_LINES && tail < DEFER_LINES && i <= Count(head, tail)
    ensures (tail + i) % DEFER_LINES == head <==> i == Count(head, tail)
  {
  }

  lemma TakeFront(slots: seq<string>, head: nat, tail: nat)
    requires |slots| == DEFER_LINES && head < DEFER_LINES && tail < DEFER_LINES && Count(head, tail) > 0
    ensures QueueOf(slots, head, tail) == [slots[tail]] + QueueOf(slots, head, (tail + 1) % DEFER_LINES)
  {
    var next, n := (tail + 1) % DEFER_LINES, Count(head, tail);
    OneFewer(head, tail);
    forall i | 0 <= i < n - 1 ensures QueueOf(slots, head, tail)[i + 1] == QueueOf(slots, head, next)[i] {
      RoundAgain(tail, i);
    }
  }

  lemma OneFewer(head: nat, tail: nat)
    requires head < DEFER_LINES && tail < DEFER_LINES && Count(head, tail) > 0
    ensures Count(head, (tail + 1) % DEFER_LINES) == Count(head, tail) - 1
  {
  }

  lemma RoundAgain(tail: nat, i: nat)
    requires tail < DEFER_LINES
    ensures (tail + (i + 1)) % DEFER_LINES == ((tail + 1) % DEFER_LINES + i) % DEFER_LINES
  {
  }

  class Log {
    const ring: array<char>
    var head: nat
    var wrapped: bool
    const defer: array<string>
    var deferHead: nat
    var deferTail: nat
    var lost: nat
    var port: seq<Sent>
    /** Every byte ever put in the ring, and every line ever logged. */
    ghost var ever: string
    ghost var events: seq<Event>

    ghost predicate Valid()
      reads this, ring, defer
    {
      && ring as object != defer as object
      && defer.Length == DEFER_LINES && deferHead < DEFER_LINES && deferTail < DEFER_LINES
      && RingValid() && Accounted()
    }

    ghost predicate RingValid()
      reads this, ring
    {
      && Rings(ring[..], ever) && head == |ever| % RING_BYTES && (wrapped <==> |ever| >= RING_BYTES)
    }

    function Waiting(): nat
      reads this
      requires deferHead < DEFER_LINES && deferTail < DEFER_LINES
    {
      Count(deferHead, deferTail)
    }

    /** The lines that wait, oldest first. */
    ghost function Queue(): (q: seq<string>)
      reads this, defer
      requires defer.Length == DEFER_LINES && deferHead < DEFER_LINES && deferTail < DEFER_LINES
      ensures |q| == Waiting()
    {
      QueueOf(defer[..], deferHead, deferTail)
    }

    /**
     The port's lines and then those waiting are all the lines ever logged,
     in order, but for those lost; and the losses owned up to, and those still
     to be, are exactly those.
     */
    ghost predicate Accounted()
      reads this, defer
      requires defer.Length == DEFER_LINES && deferHead < DEFER_LINES && deferTail < DEFER_LINES
    {
      LinesOf(port) + Queue() == KeptOf(events) && Reported(port) + lost == DroppedOf(events)
    }

    constructor ()
      ensures Valid() && ever == [] && events == [] && port == [] && fresh(ring) && fresh(defer)
    {
      ring := new char[RING_BYTES];
      defer := new string[DEFER_LINES];
      head, wrapped, deferHead, deferTail, lost := 0, false, 0, 0, 0;
      port, ever, events := [], "", [];
    }

    /** Appends bytes, over the oldest once the ring is full. */
    method RingPut(s: string)
      requires RingValid()
      modifies this`head, this`wrapped, this`ever, ring
      ensures RingValid() && ever == old(ever) + s
    {
      var i := 0;
      while i < |s|
        invariant 0 <= i <= |s| && RingValid() && ever == old(ever) + s[..i]
      {
        ghost var was, r := ever, ring[..];
        ring[head] := s[i];
        ever := ever + [s[i]];
        head := (head + 1) % RING_BYTES;
        if head == 0 { wrapped := true; }
        RoundOnce(r, was, s[i]);
        assert ring[..] == r[|was| % RING_BYTES := s[i]];
        i := i + 1;
      }
    }

    /** A window of what is held, oldest first. */
    method Read(from: nat, cap: nat) returns (out: string)
      requires RingValid()
      ensures out == Window(Latest(ever, RING_BYTES), from, cap)
      ensures Shows(out, ever, if |ever| < 8192 then |ever| else 8192, from, cap)
    {
      ghost var all := Latest(ever, RING_BYTES);
      WindowShows(ever, from, cap);
      var held := if wrapped then RING_BYTES else head;
      assert |all| == held;
      if cap == 0 || from >= held { return []; }
      hide Shows;
      var start := if wrapped then head else 0;
      var want := held - from;
      if want > cap { want := cap; }
      out := Copy(start, from, want);
    }

    /** So many bytes from the `from`-th held one on. */
    method Copy(start: nat, from: nat, want: nat) returns (out: string)
      requires RingValid() && start == (if wrapped then head else 0)
      requires from + want <= |Latest(ever, RING_BYTES)|
      ensures out == Latest(ever, RING_BYTES)[from..from + want]
    {
      out := [];
      var i := 0;
      while i < want
        invariant 0 <= i <= want && |out| == i
        invariant forall k {:trigger out[k]} | 0 <= k < i :: out[k] == Latest(ever, RING_BYTES)[from + k]
      {
        SlotOf(|ever|, from + i);
        out := out + [ring[(start + from + i) % RING_BYTES]];
        i := i + 1;
      }
    }

    /** Holds a line back from the port, or counts it lost if no more can be held. */
    method DeferPut(line: string)
      requires Valid()
      modifies this`deferHead, this`lost, this`events, defer
      ensures Valid() && Waiting() + lost == old(Waiting() + lost) + 1
      ensures events == old(events) + [if old(Waiting()) == 7 then Dropped(line) else Kept(line)]
      ensures if old(Waiting()) == 7 then Queue() == old(Queue()) else Queue() == old(Queue()) + [line]
    {
      hide Rings, LinesOf, KeptOf, Reported, DroppedOf, QueueOf;
      if Waiting() == DEFER_LINES - 1 {
        lost := lost + 1;
        EventOneMore(events, Dropped(line));
        assert KeptOf(events) + [] == KeptOf(events);
        events := events + [Dropped(line)];
      } else {
        PutBack(defer[..], deferHead, deferTail, line);
        EventOneMore(events, Kept(line));
        assert LinesOf(port) + (Queue() + [line]) == LinesOf(port) + Queue() + [line];
        ghost var was := defer[..];
        defer[deferHead] := line;
        assert defer[..] == was[deferHead := line];
        deferHead := (deferHead + 1) % DEFER_LINES;
        events := events + [Kept(line)];
      }
    }

    method SendOldest()
      requires Valid() && Waiting() > 0
      modifies this`deferTail, this`port
      ensures Valid() && Waiting() == old(Waiting()) - 1
      ensures LinesOf(port) + Queue() == old(LinesOf(port) + Queue()) && Reported(port) == Reported(old(port))
      ensures port == old(port + [Line(Queue()[0])]) && Queue() == old(Queue()[1..])
    {
      hide Rings, LinesOf, KeptOf, Reported, DroppedOf, QueueOf;
      TakeFront(defer[..], deferHead, deferTail);
      var line := defer[deferTail];
      PortOneMore(port, Line(line));
      ghost var rest := QueueOf(defer[..], deferHead, (deferTail + 1) % DEFER_LINES);
      assert LinesOf(port) + ([line] + rest) == LinesOf(port) + [line] + rest;
      deferTail := (deferTail + 1) % DEFER_LINES;
      port := port + [Line(line)];
    }

    /** Sends what waits, oldest first, and then owns up to what was lost. */
    method Flush()
      requires Valid()
      modifies this`deferTail, this`lost, this`port
      ensures Valid() && Waiting() == 0 && lost == 0
      ensures LinesOf(port) == LinesOf(old(port)) + old(Queue()) && Reported(port) == Reported(old(port)) + old(lost)
      ensures port == old(port + Lines(Queue()) + if lost > 0 then [Loss(lost)] else [])
    {
      hide Rings, LinesOf, KeptOf, Reported, DroppedOf, QueueOf;
      ghost var was, q := port, Queue();
      assert port == was + Lines(q[..0]);
      if Waiting() == 0 && lost == 0 {
        assert LinesOf(port) + Queue() == LinesOf(port);
        return;
      }
      while Waiting() > 0
        invariant Valid() && lost == old(lost)
        invariant LinesOf(port) + Queue() == LinesOf(old(port)) + old(Queue()) && Reported(port) == Reported(old(port))
        invariant Waiting() <= |q| && Queue() == q[|q| - Waiting()..] && port == was + Lines(q[..|q| - Waiting()])
        decreases Waiting()
      {
        SendOldest();
      }
      assert q[..|q|] == q;
      assert LinesOf(port) + Queue() == LinesOf(port);
      var count := lost;
      lost := 0;
      if count > 0 {
        PortOneMore(port, Loss(count));
        assert LinesOf(port) + [] == LinesOf(port);
        port := port + [Loss(count)];
      }
    }

    /** One line logged, from a real-time task or not. */
    method LogLine(text: string, realTime: bool)
      requires Valid()
      modifies this, ring, defer
      ensures Valid() && ever == old(ever) + (if |text| > 255 then text[..255] else text)
      ensures realTime ==> port == old(port) && Waiting() + lost == old(Waiting() + lost) + 1
      ensures realTime ==>
        events == old(events) +
                  (var line := if |text| > 255 then text[..255] else text;
                   [if old(Waiting()) == 7 then Dropped(line) else Kept(line)])
      ensures !realTime ==> Waiting() == 0 && lost == 0 && events == old(events) + [Kept(text)]
      ensures !realTime ==>
        port == old(port + Lines(Queue()) + if lost > 0 then [Loss(lost)] else []) + [Line(text)]
    {
      var line := Truncated(text);
      assert line == if |text| > 255 then text[..255] else text;
      hide Truncated;
      ghost var queue := Queue();
      RingPut(line);
      assert Queue() == queue;
      if realTime {
        DeferPut(line);
        return;
      }
      Flush();
      Send(text);
    }

    /** Straight to the port, when nothing waits. */
    method Send(text: string)
      requires Valid() && Waiting() == 0
      modifies this`port, this`events
      ensures Valid() && Waiting() == 0 && port == old(port) + [Line(text)] && events == old(events) + [Kept(text)]
    {
      hide Rings, LinesOf, KeptOf, Reported, DroppedOf, QueueOf;
      PortOneMore(port, Line(text));
      EventOneMore(events, Kept(text));
      assert LinesOf(port) + Queue() == LinesOf(port);
      assert (LinesOf(port) + [text]) + Queue() == LinesOf(port) + [text];
      port := port + [Line(text)];
      events := events + [Kept(text)];
    }
  }

  /** One byte more: the slot it takes is the one of the byte that is no longer held. */
  lemma RoundOnce(ring: seq<char>, ever: string, c: char)
    requires Rings(ring, ever)
    ensures Rings(ring[|ever| % RING_BYTES := c], ever + [c])
    ensures (|ever| + 1) % RING_BYTES == (|ever| % RING_BYTES + 1) % RING_BYTES
  {
    var n, more := |ever|, ever + [c];
    forall k {:trigger more[k]} | 0 <= k < n && n + 1 - RING_BYTES <= k ensures k % RING_BYTES != n % RING_BYTES {
      Apart(k, n);
    }
  }

  lemma Apart(k: nat, n: nat)
    requires k < n < k + RING_BYTES
    ensures k % RING_BYTES != n % RING_BYTES
  {
  }

  /** The slot of the byte `i` after the oldest. */
  lemma SlotOf(n: nat, i: nat)
    ensures n >= RING_BYTES ==> (n % RING_BYTES + i) % RING_BYTES == (n - RING_BYTES + i) % RING_BYTES
    ensures n < RING_BYTES ==> n % RING_BYTES == n
  {
  }
}
