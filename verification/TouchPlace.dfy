/** Where a raw point lands on the glass. */
module TouchPlace {

  const UINT16 := 0x1_0000

  /** One axis of `place`: mirrored in sixteen bits, then clamped to the panel. */
  function PlaceAxis(raw: nat, size: nat, mirror: bool): (p: nat)
    requires raw < UINT16 && size < UINT16
    ensures size > 0 ==> p < size
  {
    var m := if mirror && size > 0 then (size - 1 - raw) % UINT16 else raw;
    if size > 0 && m >= size then size - 1 else m
  }

  /** The point of the panel nearest to where the finger is. */
  function Nearest(raw: nat, size: nat, mirror: bool): int
    requires size > 0
  {
    var m := if mirror then size - 1 - raw else raw;
    if m < 0 then 0 else if m >= size then size - 1 else m
  }

  /** Clamping is to the nearest edge except for a mirrored axis: past the glass it is the opposite one. */
  lemma NearestUnlessMirroredOutside(raw: nat, size: nat, mirror: bool)
    requires raw < UINT16 && 0 < size < UINT16
    ensures PlaceAxis(raw, size, mirror) == Nearest(raw, size, mirror) <==> !(mirror && raw >= size && size > 1)
    ensures mirror && raw >= size ==> PlaceAxis(raw, size, mirror) == size - 1 && Nearest(raw, size, mirror) == 0
  {
    if mirror && raw >= size {
      assert (size - 1 - raw) % UINT16 == size - 1 - raw + UINT16;
    }
  }

  /**
   Where a raw value is to be on an axis: the place of the panel nearest to it,
   or as far from the other edge when the axis is turned round; and past the
   glass of such an axis, the far edge.
   */
  ghost predicate Seated(at: int, raw: nat, size: nat, mirror: bool) {
    if size == 0 then at == raw
    else if mirror && raw >= size then at == size - 1
    else if mirror then at == size - 1 - raw
    else 0 <= at < size && forall c | 0 <= c < size :: Distance(at, raw) <= Distance(c, raw)
  }

  function Distance(a: int, b: int): nat {
    if a < b then b - a else a - b
  }

  lemma PlaceIsSeat(raw: nat, size: nat, mirror: bool)
    requires raw < UINT16 && size < UINT16
    ensures Seated(PlaceAxis(raw, size, mirror), raw, size, mirror)
  {
    if size > 0 { NearestUnlessMirroredOutside(raw, size, mirror); }
    if mirror && raw < size { assert (size - 1 - raw) % UINT16 == size - 1 - raw; }
  }
}
