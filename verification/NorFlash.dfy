/**
 The flash partition: reads, an erase that sets a range to all ones, and a
 program that can only clear bits. Any of them may fail, and a failed erase
 or program may leave the range it was working on holding anything.
 */
module NorFlash {
  import opened FlashCache

  class Partition {
    var bytes: seq<bv8>
    ghost var faults: nat   // operations that have failed so far

    constructor (size: nat)
      ensures |bytes| == size && faults == 0
    {
      bytes := Erased(size);
      faults := 0;
    }

    method Read(off: nat, n: nat) returns (ok: bool, got: seq<bv8>)
      requires off + n <= |bytes|
      modifies this`faults
      ensures |got| == n
      ensures ok ==> got == bytes[off..off + n]
      ensures faults == old(faults) + if ok then 0 else 1
    {
      ok, got := *, bytes[off..off + n];
      if !ok {
        got := Garbage(n);
        faults := faults + 1;
      }
    }

    method Erase(off: nat, n: nat) returns (ok: bool)
      requires off + n <= |bytes|
      modifies this
      ensures |bytes| == old(|bytes|)
      ensures ok ==> bytes[off..off + n] == Erased(n)
      ensures bytes[..off] == old(bytes[..off]) && bytes[off + n..] == old(bytes[off + n..])
      ensures faults == old(faults) + if ok then 0 else 1
    {
      ok := *;
      var now := Erased(n);
      if !ok {
        now := Garbage(n);
        faults := faults + 1;
      }
      bytes := bytes[..off] + now + bytes[off + n..];
    }

    method Write(off: nat, src: seq<bv8>) returns (ok: bool)
      requires off + |src| <= |bytes|
      modifies this
      ensures |bytes| == old(|bytes|)
      ensures ok ==> bytes[off..off + |src|] == Program(old(bytes[off..off + |src|]), src)
      ensures bytes[..off] == old(bytes[..off])
      ensures bytes[off + |src|..] == old(bytes[off + |src|..])
      ensures faults == old(faults) + if ok then 0 else 1
    {
      ok := *;
      var now := Program(bytes[off..off + |src|], src);
      if !ok {
        now := Garbage(|src|);
        faults := faults + 1;
      }
      bytes := bytes[..off] + now + bytes[off + |src|..];
    }
  }

  /** Whatever a failed operation happens to leave behind. */
  method Garbage(n: nat) returns (junk: seq<bv8>)
    ensures |junk| == n
  {
    junk := *;
    if |junk| != n { junk := Erased(n); }
  }
}
