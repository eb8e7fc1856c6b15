/** The stack of free UMEM chunks. */
module UmemStack {

  const U64_MAX: nat := 0xFFFF_FFFF_FFFF_FFFF

  // create_umem_stack: chunk i lies at i * size; the last one is on top.
  function ChunkAddrs(count: nat, size: nat): (r: seq<nat>)
    ensures |r| == count
    ensures forall i :: 0 <= i < count ==> r[i] == i * size
  {
    seq(count, i requires 0 <= i < count => i * size)
  }

  class UmemStack {
    const addrs: array<nat>
    var top: nat

    ghost predicate Valid()
      reads this
    {
      top <= addrs.Length
    }

    ghost function Contents(): seq<nat>
      requires Valid()
      reads this, addrs
    {
      addrs[..top]
    }

    function Cap(): nat { addrs.Length }

    constructor (numChunks: nat, chunkSize: nat)
      ensures Valid() && Cap() == numChunks && fresh(addrs)
      ensures Contents() == ChunkAddrs(numChunks, chunkSize)
    {
      addrs := new nat[numChunks];
      top := numChunks;
      new;
      for i := 0 to numChunks
        invariant addrs.Length == top == numChunks && fresh(addrs)
        invariant forall j :: 0 <= j < i ==> addrs[j] == j * chunkSize
      {
        addrs[i] := i * chunkSize;
      }
    }

    // (u64) -1 when nothing is left.
    method Pop() returns (addr: nat)
      requires Valid()
      modifies `top
      ensures Valid()
      ensures old(Contents()) == [] ==> addr == U64_MAX && Contents() == []
      ensures old(Contents()) != [] ==> old(Contents()) == Contents() + [addr]
    {
      if top == 0 {
        return U64_MAX;
      }
      top := top - 1;
      addr := addrs[top];
    }

    // A full stack drops the address.
    method Push(addr: nat)
      requires Valid()
      modifies `top, addrs
      ensures Valid()
      ensures Contents() == if |old(Contents())| == Cap() then old(Contents()) else old(Contents()) + [addr]
    {
      if top == addrs.Length {
        return;
      }
      addrs[top] := addr;
      top := top + 1;
    }
  }
}
