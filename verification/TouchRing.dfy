/** The ring buffer seen from its oldest slot. */
module TouchRing {
  import opened TouchQueue

  function Wrap(i: nat, n: nat): nat {
    if i >= n then i - n else i
  }

  /** Remainders are taken of sums that go round at most once. */
  lemma ModWrap(i: nat, n: nat)
    requires i < 2 * n
    ensures i % n == Wrap(i, n)
  {
    if i >= n {
      assert i == n + (i - n) && (i - n) % n == i - n;
      RemainderOnce(i - n, n);
    }
  }

  lemma RemainderOnce(r: nat, n: nat)
    requires r < n
    ensures (r + n) % n == r
  {
    var k := (r + n) / n;
    assert r + n == k * n + (r + n) % n;
    assert k == 1;
  }

  /** Every slot, oldest first. */
  ghost function Rotated(buf: seq<Event>, tail: nat): (r: seq<Event>)
    requires tail < |buf|
    ensures |r| == |buf|
    ensures forall i | 0 <= i < |r| :: r[i] == buf[Wrap(tail + i, |buf|)]
  {
    buf[tail..] + buf[..tail]
  }

  /** The first `v` elements moved up one place, over the one at `v`. */
  ghost function Shifted(s: seq<Event>, v: nat): (r: seq<Event>)
    ensures |r| == |s|
    ensures forall j {:trigger r[j]} | 0 <= j < |s| :: r[j] == if 1 <= j <= v then s[j - 1] else s[j]
  {
    seq(|s|, j requires 0 <= j < |s| => if 1 <= j <= v then s[j - 1] else s[j])
  }

  /** Part way through: the places above `k` up to `v` have been filled from below. */
  ghost predicate Moving(r: seq<Event>, s: seq<Event>, k: nat, v: nat) {
    |r| == |s| && forall j {:trigger r[j]} | 0 <= j < |s| :: r[j] == if k < j <= v then s[j - 1] else s[j]
  }

  lemma MoveStart(s: seq<Event>, v: nat)
    ensures Moving(s, s, v, v)
  {
  }

  lemma MoveStep(r: seq<Event>, s: seq<Event>, k: nat, v: nat)
    requires Moving(r, s, k, v) && 0 < k <= v < |s|
    ensures Moving(r[k := r[k - 1]], s, k - 1, v)
  {
    assert r[k - 1] == s[k - 1];
  }

  lemma Moved(r: seq<Event>, s: seq<Event>, v: nat)
    requires Moving(r, s, 0, v)
    ensures r == Shifted(s, v)
  {
  }

  /** With the oldest slot then let go, the queue is as before without that one. */
  lemma GapClosed(s: seq<Event>, v: nat, t: seq<Event>)
    requires v < |s| - 1 && t == Shifted(s, v)[1..] + [Shifted(s, v)[0]]
    ensures t[..|s| - 2] == Without(s[..|s| - 1], v)
  {
  }

  lemma RotatedUpdate(buf: seq<Event>, tail: nat, k: nat, e: Event)
    requires tail < |buf| && k < |buf|
    ensures Rotated(buf[Wrap(tail + k, |buf|) := e], tail) == Rotated(buf, tail)[k := e]
  {
    var b := buf[Wrap(tail + k, |buf|) := e];
    forall i | 0 <= i < |buf|
      ensures Rotated(b, tail)[i] == Rotated(buf, tail)[k := e][i]
    {
      assert Rotated(b, tail)[i] == b[Wrap(tail + i, |buf|)];
    }
  }

  lemma RotatedOnce(buf: seq<Event>, tail: nat)
    requires tail < |buf|
    ensures Rotated(buf, Wrap(tail + 1, |buf|)) == Rotated(buf, tail)[1..] + [Rotated(buf, tail)[0]]
  {
    var t := Wrap(tail + 1, |buf|);
    var s := Rotated(buf, tail);
    forall i | 0 <= i < |buf|
      ensures Rotated(buf, t)[i] == (s[1..] + [s[0]])[i]
    {
      assert Rotated(buf, t)[i] == buf[Wrap(t + i, |buf|)];
    }
  }
}
