/**
 Reference-counted prefixes (patricia.c:221-264 and 344-372).
 */
module Prefixes {
  import opened Bits

  class Prefix {
    const addr: seq<bv8>
    const bitlen: nat
    var refCount: int      // -1 marks a static prefix
    ghost var live: bool   // false once the storage has been released

    /** New_Prefix: a heap prefix owned by its creator; a negative length means "the whole address". */
    constructor New(addr: seq<bv8>, bitlen: int)
      ensures this.addr == addr
      ensures this.bitlen == if bitlen >= 0 then bitlen else OCTET * |addr|
      ensures refCount == 1 && live
    {
      this.addr := addr;
      this.bitlen := if bitlen >= 0 then bitlen else OCTET * |addr|;
      refCount := 1;
      live := true;
    }

    // The length is within the width, and the address is at least that wide.
    ghost predicate Fits(width: nat)
    {
      bitlen <= width <= OCTET * |addr|
    }

    // The bit string this prefix stands for.  Host bits play no part in it.
    ghost function Key(): Bits.Key
      requires bitlen <= OCTET * |addr|
    {
      KeyOf(addr, bitlen)
    }

    /** Ref_Prefix: share a heap prefix, copy a static one. */
    method Ref() returns (p: Prefix)
      modifies this`refCount
      ensures p.addr == addr && p.bitlen == bitlen
      ensures old(refCount) == -1 ==> fresh(p) && p.refCount == 1 && p.live && refCount == -1
      ensures old(refCount) != -1 ==> p == this && refCount == old(refCount) + 1
    {
      if refCount == -1 {
        p := new Prefix.New(addr, bitlen);
        return;
      }
      refCount := refCount + 1;
      p := this;
    }

    /** Deref_Prefix: drop one reference; the storage goes with the last one. */
    method Deref()
      requires live && refCount > 0
      modifies this
      ensures refCount == old(refCount) - 1
      ensures live <==> refCount > 0
    {
      refCount := refCount - 1;
      assert refCount >= 0;
      if refCount <= 0 {
        live := false;
      }
    }
  }
}
