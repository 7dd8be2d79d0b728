/**
 The reference block device: a flat array of bytes read and written by whole sectors.

 `Sectors` and `Overwrite` say what one request means. The flash disk in
 FlashDisk.dfy has to be indistinguishable from them.
 */
module RamDisk {

  const SECTOR_SIZE := 512

  /** The bytes of `count` sectors starting at `lsn`. */
  function Sectors(disk: seq<bv8>, lsn: nat, count: nat): (r: seq<bv8>)
    requires (lsn + count) * SECTOR_SIZE <= |disk|
    ensures |r| == count * SECTOR_SIZE
  {
    disk[lsn * SECTOR_SIZE..(lsn + count) * SECTOR_SIZE]
  }

  /** The disk after `src` has been laid over it from sector `lsn`. */
  function Overwrite(disk: seq<bv8>, lsn: nat, src: seq<bv8>): (r: seq<bv8>)
    requires lsn * SECTOR_SIZE + |src| <= |disk|
    ensures |r| == |disk|
    ensures forall i | 0 <= i < |disk| ::
              r[i] == if lsn * SECTOR_SIZE <= i < lsn * SECTOR_SIZE + |src|
                      then src[i - lsn * SECTOR_SIZE] else disk[i]
  {
    disk[..lsn * SECTOR_SIZE] + src + disk[lsn * SECTOR_SIZE + |src|..]
  }

  /** Writing sector by sector is the same as writing everything at once. */
  lemma OverwriteSteps(disk: seq<bv8>, lsn: nat, src: seq<bv8>, done: nat)
    requires lsn * SECTOR_SIZE + |src| <= |disk|
    requires (done + 1) * SECTOR_SIZE <= |src|
    ensures Overwrite(Overwrite(disk, lsn, src[..done * SECTOR_SIZE]), lsn + done,
                      src[done * SECTOR_SIZE..(done + 1) * SECTOR_SIZE])
         == Overwrite(disk, lsn, src[..(done + 1) * SECTOR_SIZE])
  {
  }

  /** Reading run by run is the same as reading everything at once. */
  lemma SectorsSteps(disk: seq<bv8>, lsn: nat, done: nat, run: nat)
    requires (lsn + done + run) * SECTOR_SIZE <= |disk|
    ensures Sectors(disk, lsn, done) + Sectors(disk, lsn + done, run) == Sectors(disk, lsn, done + run)
  {
  }

  datatype Outcome = Ok | Invalid | Failed

  class Disk {
    const data: array<bv8>
    const sectors: nat

    ghost predicate Valid() {
      data.Length == sectors * SECTOR_SIZE
    }

    constructor (sectors: nat)
      ensures Valid() && this.sectors == sectors && fresh(data)
      ensures forall i | 0 <= i < data.Length :: data[i] == 0
    {
      this.sectors := sectors;
      data := new bv8[sectors * SECTOR_SIZE](_ => 0);
    }

    method Read(lsn: nat, count: nat, buf: array<bv8>) returns (err: Outcome)
      requires Valid() && buf != data && buf.Length >= count * SECTOR_SIZE
      modifies buf
      ensures err == if lsn + count > sectors then Invalid else Ok
      ensures err == Ok ==> buf[..count * SECTOR_SIZE] == Sectors(data[..], lsn, count)
      ensures err == Ok ==> buf[count * SECTOR_SIZE..] == old(buf[count * SECTOR_SIZE..])
      ensures err != Ok ==> buf[..] == old(buf[..])
    {
      if lsn + count > sectors { return Invalid; }
      forall i | 0 <= i < count * SECTOR_SIZE {
        buf[i] := data[lsn * SECTOR_SIZE + i];
      }
      return Ok;
    }

    method Write(lsn: nat, count: nat, buf: array<bv8>) returns (err: Outcome)
      requires Valid() && buf != data && buf.Length >= count * SECTOR_SIZE
      modifies data
      ensures err == if lsn + count > sectors then Invalid else Ok
      ensures err == Ok ==> data[..] == Overwrite(old(data[..]), lsn, buf[..count * SECTOR_SIZE])
      ensures err != Ok ==> data[..] == old(data[..])
    {
      if lsn + count > sectors { return Invalid; }
      forall i | 0 <= i < count * SECTOR_SIZE {
        data[lsn * SECTOR_SIZE + i] := buf[i];
      }
      return Ok;
    }
  }

  /** A write followed by a read of the same sectors gives back what was written. */
  lemma ReadBack(disk: seq<bv8>, lsn: nat, src: seq<bv8>, count: nat)
    requires |src| == count * SECTOR_SIZE && lsn * SECTOR_SIZE + |src| <= |disk|
    ensures Sectors(Overwrite(disk, lsn, src), lsn, count) == src
  {
    var r := Overwrite(disk, lsn, src);
    forall i | 0 <= i < |src| ensures Sectors(r, lsn, count)[i] == src[i] {
      assert r[lsn * SECTOR_SIZE + i] == src[i];
    }
  }
}
