/** Packet framing of the transmit stream over any run of xdp_tx and kernel consumption. */
module XdpFraming {
  import opened Constants
  import opened KernelRing
  import opened Xdp

  // Splits a descriptor stream after each descriptor that is not continued; open collects
  // the segments of the packet under way.
  function Frames(open: seq<Seg>, ds: seq<TxDesc>): seq<seq<Seg>>
    decreases |ds|
  {
    if ds == [] then []
    else
      var now := open + [Seg(ds[0].addr, ds[0].len)];
      if ds[0].contd then Frames(now, ds[1..]) else [now] + Frames([], ds[1..])
  }

  function Stream(packets: seq<seq<Seg>>): seq<TxDesc> {
    if packets == [] then [] else Stream(packets[..|packets| - 1]) + Descs(packets[|packets| - 1])
  }

  lemma {:induction false} PacketFrames(segs: seq<Seg>, i: nat, rest: seq<TxDesc>)
    requires i < |segs|
    ensures Frames(segs[..i], Descs(segs)[i..] + rest) == [segs] + Frames([], rest)
    decreases |segs| - i
  {
    var ds := Descs(segs)[i..] + rest;
    assert ds[1..] == Descs(segs)[i + 1..] + rest;
    assert segs[..i] + [segs[i]] == segs[..i + 1];
    if i + 1 < |segs| {
      PacketFrames(segs, i + 1, rest);
    } else {
      assert segs[..i + 1] == segs && Descs(segs)[i + 1..] + rest == rest;
    }
  }

  lemma {:induction false} StreamFrames(packets: seq<seq<Seg>>, rest: seq<TxDesc>)
    requires forall i :: 0 <= i < |packets| ==> packets[i] != []
    ensures Frames([], Stream(packets) + rest) == packets + Frames([], rest)
    decreases |packets|
  {
    if packets == [] {
      assert Stream(packets) + rest == rest;
    } else {
      var n := |packets| - 1;
      var last := packets[n];
      StreamFrames(packets[..n], Descs(last) + rest);
      assert Stream(packets) + rest == Stream(packets[..n]) + (Descs(last) + rest);
      PacketFrames(last, 0, rest);
      assert Descs(last)[0..] == Descs(last) && last[..0] == [];
      assert packets == packets[..n] + [last];
    }
  }

  lemma WholeStream(packets: seq<seq<Seg>>)
    requires forall i :: 0 <= i < |packets| ==> packets[i] != []
    ensures Frames([], Stream(packets)) == packets
  {
    StreamFrames(packets, []);
    assert Stream(packets) + [] == Stream(packets);
  }

  datatype TxOp = Send(segs: seq<Seg>) | Consume(count: nat)

  // The packets a run accepts, and how many descriptors it leaves queued: a packet is
  // accepted when all its segments fit.
  function Accepted(ops: seq<TxOp>): (r: (seq<seq<Seg>>, nat)) {
    if ops == [] then ([], 0)
    else
      var before := Accepted(ops[..|ops| - 1]);
      match ops[|ops| - 1]
      case Send(segs) =>
        if 1 <= |segs| <= XDP_MAX_SEGS && before.1 + |segs| <= RING_SIZE then
          (before.0 + [segs], before.1 + |segs|)
        else before
      case Consume(count) => (before.0, if count < before.1 then before.1 - count else 0)
  }

  lemma Regroup(a: seq<TxDesc>, b: seq<TxDesc>, c: seq<TxDesc>)
    ensures a + (b + c) == (a + b) + c
  {
  }

  lemma RunStart()
    ensures Accepted([]) == ([], 0) && Stream([]) == []
  {
  }

  lemma StreamAppend(packets: seq<seq<Seg>>, segs: seq<Seg>)
    ensures Stream(packets + [segs]) == Stream(packets) + Descs(segs)
  {
    assert (packets + [segs])[..|packets|] == packets;
  }

  lemma AcceptedStep(ops: seq<TxOp>, i: nat)
    requires i < |ops|
    ensures var before := Accepted(ops[..i]);
      Accepted(ops[..i + 1]) ==
      match ops[i]
      case Send(segs) =>
        if 1 <= |segs| <= XDP_MAX_SEGS && before.1 + |segs| <= RING_SIZE then
          (before.0 + [segs], before.1 + |segs|)
        else before
      case Consume(count) => (before.0, if count < before.1 then before.1 - count else 0)
  {
    assert ops[..i + 1][..i] == ops[..i];
  }

  // Any run of sends and kernel consumption, from any counter value: what the kernel has
  // taken and what it will still find frame back to exactly the accepted packets, in order.
  method RunTx(ring: KernelRing<TxDesc>, ops: seq<TxOp>)
    returns (accepted: seq<seq<Seg>>, ghost consumed: seq<TxDesc>)
    requires ring.Valid() && ring.Contents() == []
    modifies ring, ring.cells
    ensures ring.Valid()
    ensures (accepted, |ring.Contents()|) == Accepted(ops)
    ensures consumed + ring.Contents() == Stream(accepted)
    ensures Frames([], consumed + ring.Contents()) == accepted
  {
    hide Frames, Stream, Accepted, Descs, KernelRing.Valid, KernelRing.Contents;
    assert Accepted([]) == ([], 0) && Stream([]) == [] by { RunStart(); }
    accepted, consumed := [], [];
    for i := 0 to |ops|
      invariant ring.Valid() && (accepted, |ring.Contents()|) == Accepted(ops[..i])
      invariant consumed + ring.Contents() == Stream(accepted)
      invariant forall k :: 0 <= k < |accepted| ==> accepted[k] != []
    {
      ghost var before := ring.Contents();
      AcceptedStep(ops, i);
      match ops[i]
      case Send(segs) =>
        var n := Tx(ring, segs);
        if n > 0 {
          StreamAppend(accepted, segs);
          accepted := accepted + [segs];
          Regroup(consumed, before, Descs(segs));
        }
      case Consume(count) =>
        var n := if count < ring.Count() then count else ring.Count();
        ring.Release(n);
        Regroup(consumed, before[..n], before[n..]);
        assert before == before[..n] + before[n..];
        consumed := consumed + before[..n];
    }
    assert ops[..|ops|] == ops;
    WholeStream(accepted);
  }
}
