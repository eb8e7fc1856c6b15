/** The segment list of one packet and the IP total length derived from the bytes left. */
module Segments {
  import opened Constants
  import opened Modular

  const PREFILLED: nat := MAC + IPV4 + SCTP_CMN   // the segment prefilled with all three headers
  const MTU: nat := 1500 - MAC - IPV4 - SCTP_CMN

  function Sum(lens: seq<nat>): (r: nat) {
    if lens == [] then 0 else Sum(lens[..|lens| - 1]) + lens[|lens| - 1]
  }

  lemma SumAppend(lens: seq<nat>, n: nat)
    ensures Sum(lens + [n]) == Sum(lens) + n
  {
    assert (lens + [n])[..|lens|] == lens;
  }

  class SegmentList {
    const lens: array<nat>
    var count: nat
    var remain: nat               // u32
    ghost var dropped: nat        // bytes whose segment did not fit in the list

    ghost predicate Valid()
      reads this, lens
    {
      && lens.Length == XDP_MAX_SEGS && 1 <= count <= XDP_MAX_SEGS
      && remain < U32
      && lens[0] == PREFILLED
      && (dropped > 0 ==> count == XDP_MAX_SEGS)
      && remain == (MTU + PREFILLED - Sum(lens[..count]) - dropped) % U32
    }

    // sctp_prepare_packet: the prefilled headers are the only segment, and the whole mtu is left.
    constructor ()
      ensures Valid() && lens[..count] == [PREFILLED] && dropped == 0 && fresh(lens)
      ensures lens[0] == 46 && remain == 1454
    {
      lens := new nat[XDP_MAX_SEGS];
      count := 1;
      remain := MTU;
      dropped := 0;
      new;
      lens[0] := PREFILLED;
      assert lens[..1] == [PREFILLED];
      SumAppend([], PREFILLED);
      assert [] + [PREFILLED] == [PREFILLED];
    }

    // A builder takes n bytes off what is left and pushes one segment; a full list drops the segment.
    method Append(n: nat) returns (ok: bool)
      requires Valid() && n < U32
      modifies this, lens
      ensures Valid()
      ensures ok <==> old(count) < XDP_MAX_SEGS
      ensures ok ==> lens[..count] == old(lens[..count]) + [n] && dropped == old(dropped)
      ensures !ok ==> lens[..count] == old(lens[..count]) && dropped == old(dropped) + n
    {
      ghost var was := lens[..count];
      ghost var total: int := MTU + PREFILLED - Sum(was) - dropped;
      ModSum(total, 0 - n, U32);
      remain := (remain - n) % U32;
      assert remain == (total - n) % U32;
      if count >= XDP_MAX_SEGS {
        dropped := dropped + n;
        return false;
      }
      lens[count] := n;
      count := count + 1;
      assert lens[..count] == was + [n];
      SumAppend(was, n);
      return true;
    }

    // eth_send_sctp: the length it writes is the segment lengths without the MAC header, as far
    // as a u16 can say, exactly when nothing (modulo 2^16) was dropped.
    method IpLen() returns (len: nat)
      requires Valid()
      ensures len < U16
      ensures len == (Sum(lens[..count]) + dropped - MAC) % U16
      ensures len == (Sum(lens[..count]) - MAC) % U16 <==> dropped % U16 == 0
    {
      len := (MTU - remain) % U32 % U16;
      len := (len + IPV4 + SCTP_CMN) % U16;
      ghost var used: int := Sum(lens[..count]) + dropped - PREFILLED;
      assert len == (used + IPV4 + SCTP_CMN) % U16 by {
        WrapTwice(used);
        ModSum(used, IPV4 + SCTP_CMN, U16);
      }
      SameIff(Sum(lens[..count]) - MAC, dropped);
    }
  }

  lemma WrapTwice(used: int)
    ensures (MTU - (MTU - used) % U32) % U32 % U16 == used % U16
  {
    var q := (MTU - used) / U32;
    assert MTU - (MTU - used) % U32 == used + q * U32;
    ModShift(used, q, U32);
    var p := used / U32;
    assert used == used % U32 + p * U16 * U16;
    ModShift(used % U32, p * U16, U16);
  }

  lemma SameIff(a: int, d: nat)
    ensures (a + d) % U16 == a % U16 <==> d % U16 == 0
  {
    if (a + d) % U16 == a % U16 {
      assert d == ((a + d) / U16 - a / U16) * U16;
      ModShift(0, (a + d) / U16 - a / U16, U16);
    }
    if d % U16 == 0 {
      assert d == d / U16 * U16;
      ModShift(a, d / U16, U16);
    }
  }

  // Prepare, then any appends: a packet of at most fifteen appended segments and fewer than
  // 2^16 bytes has the IP total length of all it carries.
  method Build(parts: seq<nat>) returns (packet: SegmentList, len: nat)
    requires |parts| < XDP_MAX_SEGS && Sum(parts) + IPV4 + SCTP_CMN < U16
    ensures packet.Valid() && packet.lens[..packet.count] == [PREFILLED] + parts
    ensures len == Sum([PREFILLED] + parts) - MAC == 32 + Sum(parts)
  {
    hide Sum;
    packet := new SegmentList();
    for i := 0 to |parts|
      invariant packet.Valid() && fresh(packet) && fresh(packet.lens) && packet.dropped == 0
      invariant packet.lens[..packet.count] == [PREFILLED] + parts[..i]
    {
      PartBound(parts, i);
      var ok := packet.Append(parts[i]);
      assert [PREFILLED] + parts[..i] + [parts[i]] == [PREFILLED] + parts[..i + 1];
    }
    assert [PREFILLED] + parts[..|parts|] == [PREFILLED] + parts;
    SumCons(PREFILLED, parts);
    len := packet.IpLen();
  }

  lemma {:induction false} SumCons(n: nat, lens: seq<nat>)
    ensures Sum([n] + lens) == n + Sum(lens)
  {
    if lens == [] {
      SumAppend([], n);
      assert [] + [n] == [n] + lens == [n];
    } else {
      var last := |lens| - 1;
      SumCons(n, lens[..last]);
      SumAppend([n] + lens[..last], lens[last]);
      assert [n] + lens == [n] + lens[..last] + [lens[last]];
    }
  }

  lemma {:induction false} PartBound(parts: seq<nat>, i: nat)
    requires i < |parts|
    ensures parts[i] <= Sum(parts)
  {
    if i < |parts| - 1 {
      PartBound(parts[..|parts| - 1], i);
    }
  }
}
