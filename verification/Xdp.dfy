/** The AF_XDP ring operations of the application side. */
module Xdp {
  import opened Constants
  import opened KernelRing
  import Stack = UmemStack

  datatype Desc = Desc(addr: nat, len: nat)

  // options carries XDP_PKT_CONTD exactly when contd.
  datatype TxDesc = TxDesc(addr: nat, len: nat, contd: bool)

  datatype Seg = Seg(addr: nat, len: nat)

  function Reverse<T>(s: seq<T>): (r: seq<T>)
    ensures |r| == |s|
  {
    seq(|s|, i requires 0 <= i < |s| => s[|s| - 1 - i])
  }

  function Min(a: nat, b: nat): nat { if a < b then a else b }

  // The loop of xdp_fill: up to n chunks go from the stack to the cells after the contents.
  method PopInto(ring: KernelRing<nat>, stack: Stack.UmemStack, want: nat) returns (n: nat)
    requires ring.Valid() && stack.Valid() && ring.cells != stack.addrs && want <= RING_SIZE - ring.Count()
    requires forall i :: 0 <= i < |stack.Contents()| ==> stack.Contents()[i] != Stack.U64_MAX
    modifies ring.cells, stack`top
    ensures ring.Valid() && stack.Valid()
    ensures ring.Contents() == old(ring.Contents()) && n == Min(want, |old(stack.Contents())|)
    ensures stack.Contents() == old(stack.Contents())[..|old(stack.Contents())| - n]
    ensures forall k :: 0 <= k < n ==> ring.Ahead(k) == old(stack.Contents())[|old(stack.Contents())| - 1 - k]
  {
    hide Index, Wrap, KernelRing.Ahead;
    n := want;
    ghost var pile, total := stack.Contents(), |stack.Contents()|;
    var i := 0;
    while i < n
      invariant 0 <= i <= n == want && i <= total
      invariant stack.Valid() && ring.Valid() && stack.Contents() == pile[..total - i]
      invariant ring.Contents() == old(ring.Contents())
      invariant forall k :: 0 <= k < i ==> ring.Ahead(k) == pile[total - 1 - k]
    {
      var addr := stack.Pop();
      if addr == Stack.U64_MAX {
        n := i;
        break;
      }
      assert addr == pile[total - 1 - i];
      ring.Put(i, addr);
      i := i + 1;
    }
  }

  // xdp_fill: as many chunks as the ring has room for, the caller wants and the stack has.
  method Fill(ring: KernelRing<nat>, stack: Stack.UmemStack, maxN: nat) returns (n: nat)
    requires ring.Valid() && stack.Valid() && ring.cells != stack.addrs
    requires forall i :: 0 <= i < |stack.Contents()| ==> stack.Contents()[i] != Stack.U64_MAX
    modifies ring`producer, ring.cells, stack`top
    ensures ring.Valid() && stack.Valid()
    ensures n == Min(Min(RING_SIZE - |old(ring.Contents())|, maxN), |old(stack.Contents())|)
    ensures stack.Contents() == old(stack.Contents())[..|old(stack.Contents())| - n]
    ensures ring.Contents() == old(ring.Contents()) + Reverse(old(stack.Contents())[|old(stack.Contents())| - n..])
  {
    hide Index, KernelRing.Ahead;
    var freeEntries: int := RING_SIZE - Wrap(ring.producer - ring.consumer);
    n := if freeEntries < maxN then freeEntries else maxN;
    if n == 0 {
      return;
    }
    n := PopInto(ring, stack, n);
    if n > 0 {
      ring.Publish(n, Reverse(old(stack.Contents())[|old(stack.Contents())| - n..]));
    }
  }

  // xdp_rx: the oldest received descriptors, at most maxN; n of them are copied out.
  method Rx(ring: KernelRing<Desc>, maxN: nat) returns (out: seq<nat>, outLens: seq<nat>)
    requires ring.Valid()
    modifies ring`consumer
    ensures ring.Valid()
    ensures |out| == |outLens| == if |old(ring.Contents())| < maxN then |old(ring.Contents())| else maxN
    ensures forall i :: 0 <= i < |out| ==> Desc(out[i], outLens[i]) == old(ring.Contents())[i]
    ensures ring.Contents() == old(ring.Contents())[|out|..]
  {
    var cons := ring.consumer;
    var n := Wrap(ring.producer - cons);
    out, outLens := [], [];
    if n == 0 {
      return;
    }
    if n > maxN {
      n := maxN;
    }
    for i := 0 to n
      invariant ring.Valid() && ring.Contents() == old(ring.Contents()) && ring.consumer == cons
      invariant |out| == |outLens| == i
      invariant forall k :: 0 <= k < i ==> Desc(out[k], outLens[k]) == ring.Contents()[k]
    {
      CellOf(cons, i);
      var desc := ring.cells[Index(Wrap(cons + i))];
      assert desc == ring.Contents()[i];
      out := out + [desc.addr];
      outLens := outLens + [desc.len];
    }
    ring.Release(n);
  }

  // xdp_complete_tx: the oldest completed addresses, at most maxN.
  method CompleteTx(ring: KernelRing<nat>, maxN: nat) returns (outAddrs: seq<nat>)
    requires ring.Valid()
    modifies ring`consumer
    ensures ring.Valid()
    ensures |outAddrs| == if |old(ring.Contents())| < maxN then |old(ring.Contents())| else maxN
    ensures outAddrs + ring.Contents() == old(ring.Contents())
  {
    var cons := ring.consumer;
    var n := Wrap(ring.producer - cons);
    outAddrs := [];
    if n == 0 {
      return;
    }
    if n > maxN {
      n := maxN;
    }
    for i := 0 to n
      invariant ring.Valid() && ring.Contents() == old(ring.Contents()) && ring.consumer == cons
      invariant outAddrs == ring.Contents()[..i]
    {
      CellOf(cons, i);
      assert ring.cells[Index(Wrap(cons + i))] == ring.Contents()[i];
      outAddrs := outAddrs + [ring.cells[Index(Wrap(cons + i))]];
    }
    ring.Release(n);
  }

  // The descriptors of one packet: every segment but the last is marked as continued.
  function Descs(segs: seq<Seg>): (r: seq<TxDesc>)
    ensures |r| == |segs|
  {
    seq(|segs|, i requires 0 <= i < |segs| => TxDesc(segs[i].addr, segs[i].len, i < |segs| - 1))
  }

  // xdp_tx without the system call: all segments are queued, or none.
  method Tx(ring: KernelRing<TxDesc>, segs: seq<Seg>) returns (n: nat)
    requires ring.Valid()
    modifies ring`producer, ring.cells
    ensures ring.Valid()
    ensures n == if 1 <= |segs| <= XDP_MAX_SEGS && |segs| <= RING_SIZE - |old(ring.Contents())| then |segs| else 0
    ensures n == 0 ==> ring.Contents() == old(ring.Contents())
    ensures n > 0 ==> ring.Contents() == old(ring.Contents()) + Descs(segs)
    ensures n > 0 ==> forall i :: 0 <= i < |segs| ==>
      ring.Contents()[|old(ring.Contents())| + i] == TxDesc(segs[i].addr, segs[i].len, i < |segs| - 1)
  {
    if |segs| == 0 || |segs| > XDP_MAX_SEGS {
      return 0;
    }
    var diff: int := RING_SIZE - Wrap(ring.producer - ring.consumer);
    if |segs| > diff {
      return 0;
    }
    for i := 0 to |segs|
      invariant ring.Valid() && ring.Contents() == old(ring.Contents())
      invariant ring.producer == old(ring.producer) && ring.consumer == old(ring.consumer)
      invariant forall k :: 0 <= k < i ==> ring.Ahead(k) == Descs(segs)[k]
    {
      ring.Put(i, TxDesc(segs[i].addr, segs[i].len, i < |segs| - 1));
    }
    ring.Publish(|segs|, Descs(segs));
    n := |segs|;
  }
}
