/** Cutting a message of a stream into DATA chunks, and putting the chunks together again. */
module Fragmentation {
  import opened Constants
  import opened Bytes
  import opened Packets
  import Crc32c
  import Layout

  const MAX_PACKET_LEN: nat := 1516
  const DATA_HDR: nat := 16                                                  // chunk and DATA headers
  const PPLEN: nat := MAX_PACKET_LEN - (HEADERS + DATA_HDR + 16)             // 1438

  const EBIT: bv8 := 0x01
  const BBIT: bv8 := 0x02
  const SCTP_DATA: bv8 := 0

  // --------------------------------------------- chunks

  datatype Chunk = Chunk(flags: bv8, tsn: seq<bv8>, stream: nat, sn: seq<bv8>, proto: seq<bv8>, payload: seq<bv8>)

  predicate Fits(c: Chunk) {
    |c.tsn| == 4 && c.stream < U16 && |c.sn| == 2 && |c.proto| == 4 && DATA_HDR + |c.payload| < U16
  }

  function PadLen(n: nat): (r: nat)
    ensures r < 4 && (n + r) % 4 == 0
  {
    (4 - n % 4) % 4
  }

  function DataHeader(c: Chunk): (r: seq<bv8>)
    requires Fits(c)
    ensures |r| == DATA_HDR
  {
    [SCTP_DATA, c.flags] + Net16(DATA_HDR + |c.payload|) + c.tsn + Net16(c.stream) + c.sn + c.proto
  }

  // A chunk as it lies in the packet; the length does not count the padding.
  function DataBytes(c: Chunk): (r: seq<bv8>)
    requires Fits(c)
    ensures |r| == DATA_HDR + |c.payload| + PadLen(DATA_HDR + |c.payload|)
  {
    DataHeader(c) + c.payload + seq(PadLen(DATA_HDR + |c.payload|), _ => 0)
  }

  // A DATA chunk whose length field covers the headers and stays inside the bytes there are.
  predicate Legible(s: seq<bv8>) {
    |s| >= DATA_HDR && s[0] == SCTP_DATA && DATA_HDR <= FromNet16(s[2..4]) <= |s|
  }

  // What a receiver takes from the bytes at the chunk: flags, stream and as many bytes as it says.
  function ReadChunk(s: seq<bv8>): Chunk
    requires Legible(s)
  {
    Chunk(s[1], s[4..8], FromNet16(s[8..10]), s[10..12], s[12..16], s[DATA_HDR..FromNet16(s[2..4])])
  }

  lemma ReadBack(c: Chunk, rest: seq<bv8>)
    requires Fits(c)
    ensures
      var s := DataBytes(c) + rest;
      FromNet16(s[2..4]) == DATA_HDR + |c.payload| && Legible(s) && ReadChunk(s) == c
  {
    hide Net16, FromNet16, DataHeader, PadLen;
    Net16RoundTrip(DATA_HDR + |c.payload|);
    Net16RoundTrip(c.stream);
    HeaderSlices(c);
    var s, h := DataBytes(c) + rest, DataHeader(c);
    assert s[..DATA_HDR] == h;
    SliceOfSlice(s, 0, DATA_HDR, 2, 4);
    SliceOfSlice(s, 0, DATA_HDR, 4, 8);
    SliceOfSlice(s, 0, DATA_HDR, 8, 10);
    SliceOfSlice(s, 0, DATA_HDR, 10, 12);
    SliceOfSlice(s, 0, DATA_HDR, 12, 16);
    assert s[DATA_HDR..DATA_HDR + |c.payload|] == c.payload;
    assert s[0] == h[0] && s[1] == h[1];
  }

  lemma HeaderSlices(c: Chunk)
    requires Fits(c)
    ensures
      var h := DataHeader(c);
      && h[0] == SCTP_DATA && h[1] == c.flags && h[2..4] == Net16(DATA_HDR + |c.payload|) && h[4..8] == c.tsn
      && h[8..10] == Net16(c.stream) && h[10..12] == c.sn && h[12..16] == c.proto
  {
    hide Net16;
  }

  // --------------------------------------------- the chunks of a message

  function Count(n: nat): nat { (n + PPLEN - 1) / PPLEN }

  function PieceEnd(n: nat, k: nat): nat {
    if (k + 1) * PPLEN <= n then (k + 1) * PPLEN else n
  }

  // The last chunk is the one that reaches the end of the message.
  lemma LastPiece(len: nat, k: nat)
    requires len > 0 && k < Count(len)
    ensures k * PPLEN < len
    ensures k == Count(len) - 1 <==> len <= (k + 1) * PPLEN
    ensures PieceEnd(len, k) == if k == Count(len) - 1 then len else (k + 1) * PPLEN
  {
  }

  predicate Begins(c: Chunk) { c.flags & BBIT != 0 }

  predicate Ends(c: Chunk) { c.flags & EBIT != 0 }

  function Mark(base: bv8, first: bool, last: bool): bv8 {
    base | (if first then BBIT else 0) | (if last then EBIT else 0)
  }

  lemma MarkBits(base: bv8, first: bool, last: bool)
    requires base & 3 == 0
    ensures
      var m := Mark(base, first, last);
      (m & BBIT != 0 <==> first) && (m & EBIT != 0 <==> last) && m & 0xFC == base
  {
    if first {
      if last {
      } else {
      }
    } else {
      if last {
      } else {
      }
    }
  }

  // The k-th chunk of a message.
  ghost predicate IsFragment(c: Chunk, base: bv8, msg: seq<bv8>, k: nat)
    requires k < Count(|msg|)
  {
    && (Begins(c) <==> k == 0)
    && (Ends(c) <==> k == Count(|msg|) - 1)
    && c.flags & 0xFC == base
    && k * PPLEN <= PieceEnd(|msg|, k) <= |msg|
    && c.payload == msg[k * PPLEN..PieceEnd(|msg|, k)]
  }

  ghost predicate AreFragments(cs: seq<Chunk>, base: bv8, msg: seq<bv8>, n: nat) {
    && |cs| == n <= Count(|msg|)
    && forall k :: 0 <= k < n ==> IsFragment(cs[k], base, msg, k)
  }

  function Payloads(cs: seq<Chunk>): seq<bv8> {
    if cs == [] then [] else Payloads(cs[..|cs| - 1]) + cs[|cs| - 1].payload
  }

  lemma {:induction false} PayloadsAre(cs: seq<Chunk>, base: bv8, msg: seq<bv8>, n: nat)
    requires |msg| >= 1 && AreFragments(cs, base, msg, n)
    ensures Payloads(cs) == if n == 0 then [] else msg[..PieceEnd(|msg|, n - 1)]
    decreases n
  {
    hide Count, PieceEnd, Begins, Ends;
    if n > 0 {
      var init, at := cs[..n - 1], (n - 1) * PPLEN;
      PayloadsAre(init, base, msg, n - 1);
      assert IsFragment(cs[n - 1], base, msg, n - 1);
      LastPiece(|msg|, n - 1);
      if n > 1 {
        LastPiece(|msg|, n - 2);
      }
      assert msg[..at] + msg[at..PieceEnd(|msg|, n - 1)] == msg[..PieceEnd(|msg|, n - 1)];
    }
  }

  // The payloads of all the chunks of a message are the message.
  lemma PayloadsAreMessage(cs: seq<Chunk>, base: bv8, msg: seq<bv8>)
    requires |msg| >= 1 && AreFragments(cs, base, msg, Count(|msg|))
    ensures Payloads(cs) == msg
  {
    var n := Count(|msg|);
    PayloadsAre(cs, base, msg, n);
    LastPiece(|msg|, n - 1);
    assert msg[..|msg|] == msg;
  }

  // --------------------------------------------- reassembly (RFC 9260, section 6.9)

  // Collect payloads from a B chunk up to an E chunk; open holds the message under way.
  function Reassemble(open: seq<bv8>, cs: seq<Chunk>): seq<seq<bv8>>
    decreases |cs|
  {
    if cs == [] then []
    else
      var now := (if Begins(cs[0]) then [] else open) + cs[0].payload;
      if Ends(cs[0]) then [now] + Reassemble([], cs[1..]) else Reassemble(now, cs[1..])
  }

  lemma {:induction false} ReassembleFrom(cs: seq<Chunk>, base: bv8, msg: seq<bv8>, k: nat, rest: seq<Chunk>)
    requires |msg| >= 1 && AreFragments(cs, base, msg, Count(|msg|)) && k < Count(|msg|)
    ensures k * PPLEN < |msg|
    ensures Reassemble(msg[..k * PPLEN], cs[k..] + rest) == [msg] + Reassemble([], rest)
    decreases |cs| - k
  {
    hide Begins, Ends, Count, PieceEnd;
    var n := Count(|msg|);
    LastPiece(|msg|, k);
    assert IsFragment(cs[k], base, msg, k);
    var now := msg[..k * PPLEN] + cs[k].payload;
    assert now == msg[..PieceEnd(|msg|, k)];
    assert (cs[k..] + rest)[1..] == cs[k + 1..] + rest;
    if k == n - 1 {
      assert PieceEnd(|msg|, k) == |msg| && msg[..|msg|] == msg;
      assert cs[k + 1..] + rest == rest;
    } else {
      assert PieceEnd(|msg|, k) == (k + 1) * PPLEN;
      ReassembleFrom(cs, base, msg, k + 1, rest);
    }
  }

  function Flatten(css: seq<seq<Chunk>>): seq<Chunk> {
    if css == [] then [] else css[0] + Flatten(css[1..])
  }

  // Whatever messages follow each other on a stream, a receiver gets them back.
  lemma {:induction false} MessagesSurvive(css: seq<seq<Chunk>>, base: bv8, msgs: seq<seq<bv8>>)
    requires |css| == |msgs|
    requires forall i :: 0 <= i < |msgs| ==>
      |msgs[i]| >= 1 && AreFragments(css[i], base, msgs[i], Count(|msgs[i]|))
    ensures Reassemble([], Flatten(css)) == msgs
  {
    hide AreFragments;
    if msgs != [] {
      MessagesSurvive(css[1..], base, msgs[1..]);
      ReassembleFrom(css[0], base, msgs[0], 0, Flatten(css[1..]));
      assert css[0][0..] == css[0] && msgs[0][..0] == [];
      assert msgs == [msgs[0]] + msgs[1..];
    }
  }

  // --------------------------------------------- the stream

  class Thread {
    const buffer: array<bv8>
    const flags: bv8             // no B and no E bit: threads start zeroed
    const ssn: seq<bv8>
    const proto: seq<bv8>
    const posLow: nat
    const posHigh: nat
    var posCurrent: nat

    ghost predicate Valid()
      reads this, buffer
    {
      && posLow <= posCurrent <= posHigh <= buffer.Length && posHigh < U32
      && flags & 3 == 0 && |ssn| == 2 && |proto| == 4
    }

    ghost function Message(): seq<bv8>
      requires posLow <= posHigh <= buffer.Length
      reads buffer
    {
      buffer[posLow..posHigh]
    }

    constructor (data: array<bv8>, low: nat, high: nat, base: bv8, number: seq<bv8>, protocol: seq<bv8>)
      requires low <= high <= data.Length && high < U32 && base & 3 == 0 && |number| == 2 && |protocol| == 4
      ensures Valid() && posCurrent == low && posLow == low && posHigh == high && buffer == data && flags == base
    {
      buffer, posLow, posHigh, posCurrent := data, low, high, low;
      flags, ssn, proto := base, number, protocol;
    }

    // The flags of the chunk that takes the next n bytes.
    method ChunkFlags(n: nat, ghost k: nat) returns (mark: bv8)
      requires Valid() && posHigh > posLow && k < Count(posHigh - posLow) && posCurrent == posLow + k * PPLEN
      requires n == if PPLEN <= posHigh - posCurrent then PPLEN else posHigh - posCurrent
      ensures mark == Mark(flags, k == 0, k == Count(posHigh - posLow) - 1)
      ensures PieceEnd(posHigh - posLow, k) == k * PPLEN + n <= posHigh - posLow
    {
      hide Mark, Count, PieceEnd;
      mark := flags;
      if posHigh - posLow <= PPLEN {
        mark := mark | (BBIT | EBIT);
      } else if posLow == posCurrent {
        mark := mark | BBIT;
      } else if posCurrent + n == posHigh {
        mark := mark | EBIT;
      }
      MarkIs(flags, mark, posHigh - posLow, k, n);
    }

    // The next piece of the message as a chunk; the cursor moves to its end.
    method TakePiece(stream: nat, tsn: seq<bv8>, ghost k: nat) returns (c: Chunk)
      requires Valid() && stream < U16 && |tsn| == 4
      requires posHigh > posLow && k < Count(posHigh - posLow) && posCurrent == posLow + k * PPLEN
      modifies `posCurrent
      ensures Valid() && posCurrent == posLow + PieceEnd(posHigh - posLow, k)
      ensures Fits(c) && IsFragment(c, flags, Message(), k)
      ensures c.tsn == tsn && c.stream == stream && c.sn == ssn && c.proto == proto
      ensures HEADERS + |DataBytes(c)| <= MAX_PACKET_LEN && (HEADERS + |DataBytes(c)|) % 4 == HEADERS % 4
    {
      hide DataBytes, IsFragment, Count, PieceEnd, PadLen, Mark;
      LastPiece(posHigh - posLow, k);
      var n := if PPLEN <= posHigh - posCurrent then PPLEN else posHigh - posCurrent;
      var mark := ChunkFlags(n, k);
      var payload := buffer[posCurrent..posCurrent + n];
      c := Chunk(mark, tsn, stream, ssn, proto, payload);
      PieceOf(buffer[..], posLow, posHigh, k, n);
      MakesFragment(c, flags, Message(), k);
      PadBound(n);
      posCurrent := posCurrent + n;
    }

    // build_prefilled_mac_ip_sctp_data_hdr, writing to a packet of its own: one chunk behind the
    // prefilled headers, then the IPv4 check, the tag and the SCTP check. The TSN is an input.
    method BuildData(packet: array<bv8>, verTag: seq<bv8>, stream: nat, tsn: seq<bv8>, ghost k: nat)
      returns (plen: nat, c: Chunk)
      requires Valid() && packet != buffer && packet.Length >= MAX_PACKET_LEN
      requires |verTag| == 4 && stream < U16 && |tsn| == 4
      requires posHigh > posLow && k < Count(posHigh - posLow) && posCurrent == posLow + k * PPLEN
      modifies packet, `posCurrent
      ensures Valid() && posCurrent == posLow + PieceEnd(posHigh - posLow, k)
      ensures Fits(c) && IsFragment(c, flags, Message(), k)
      ensures c.tsn == tsn && c.stream == stream && c.sn == ssn && c.proto == proto
      ensures plen == HEADERS + |DataBytes(c)| <= MAX_PACKET_LEN && plen % 4 == HEADERS % 4
      ensures packet[HEADERS..plen] == DataBytes(c)
      ensures DataReads(packet[..], verTag, c, k == 0, k == Count(posHigh - posLow) - 1)
      ensures |c.payload| <= 1438 && (k < Count(posHigh - posLow) - 1 ==> |c.payload| == 1438)
      ensures forall i :: 0 <= i < packet.Length && Untouched(i, plen) ==> packet[i] == old(packet[i])
      ensures Accepts(packet[..]) <==> IpLen(old(packet[..])) >= IPV4 + SCTP_CMN + SCTP_FLD && PadNeutral(packet[..], c)
    {
      hide DataBytes, IsFragment, Count, PieceEnd, PadLen, Mark, Accepts, IpLen, PadNeutral, Untouched, DataReads,
        Begins, Ends, Fits;
      c := TakePiece(stream, tsn, k);
      plen := WritePacket(packet, verTag, c);
      FragmentMarks(c, flags, Message(), k);
      DataIsRead(packet[..], verTag, c, k == 0, k == Count(posHigh - posLow) - 1);
      PieceSize(c, flags, Message(), k);
    }
  }

  // What a receiver reads of the packet of a piece: a DATA chunk (RFC 9260, section 3.3.1) of kind 0, the
  // B bit 0x02 and the E bit 0x01, and the chunk's fields at their offsets.
  predicate DataReads(p: seq<bv8>, verTag: seq<bv8>, c: Chunk, first: bool, last: bool) {
    var n := |c.payload|;
    && |p| >= 62 + n && p[38..42] == verTag && p[46] == 0
    && (p[47] & 0x02 != 0 <==> first) && (p[47] & 0x01 != 0 <==> last)
    && Layout.At16(p, 48) == 16 + n && p[50..54] == c.tsn && Layout.At16(p, 54) == c.stream
    && p[56..58] == c.sn && p[58..62] == c.proto && p[62..62 + n] == c.payload
  }

  lemma DataIsRead(p: seq<bv8>, verTag: seq<bv8>, c: Chunk, first: bool, last: bool)
    requires Fits(c) && HEADERS + |DataBytes(c)| <= |p| && p[SCTP + 4..SCTP + 8] == verTag
    requires p[HEADERS..HEADERS + |DataBytes(c)|] == DataBytes(c)
    requires (Begins(c) <==> first) && (Ends(c) <==> last)
    ensures DataReads(p, verTag, c, first, last)
  {
    hide FromNet16, Net16, DataHeader, PadLen, Layout.At16;
    var n, end := |c.payload|, HEADERS + |DataBytes(c)|;
    var part, h := p[46..end], DataHeader(c);
    HeaderSlices(c);
    assert part[..16] == h && part[16..16 + n] == c.payload;
    SliceOfSlice(p, 46, end, 0, 16);
    SliceOfSlice(p, 46, end, 16, 16 + n);
    assert p[46..62] == h;
    SliceOfSlice(p, 46, 62, 2, 4);
    SliceOfSlice(p, 46, 62, 4, 8);
    SliceOfSlice(p, 46, 62, 8, 10);
    SliceOfSlice(p, 46, 62, 10, 12);
    SliceOfSlice(p, 46, 62, 12, 16);
    assert p[46] == p[46..62][0] && p[47] == p[46..62][1];
    Net16RoundTrip(16 + n);
    Net16RoundTrip(c.stream);
    Layout.At16Is(p, 48);
    Layout.At16Is(p, 54);
  }

  lemma FragmentMarks(c: Chunk, base: bv8, msg: seq<bv8>, k: nat)
    requires k < Count(|msg|) && IsFragment(c, base, msg, k)
    ensures (Begins(c) <==> k == 0) && (Ends(c) <==> k == Count(|msg|) - 1)
  {
  }

  // A piece is 1438 bytes long, except the last.
  lemma PieceSize(c: Chunk, base: bv8, msg: seq<bv8>, k: nat)
    requires |msg| >= 1 && k < Count(|msg|) && IsFragment(c, base, msg, k)
    ensures |c.payload| <= 1438 && (k < Count(|msg|) - 1 ==> |c.payload| == 1438)
  {
    LastPiece(|msg|, k);
  }

  // Outside the IPv4 check, and everything from the tag to the end of the packet.
  predicate Untouched(i: nat, plen: nat) {
    i < MAC + 10 || MAC + 12 <= i < SCTP + 4 || i >= plen
  }

  // The sender's check covers the padding, the receiver's does not: they agree when there is none, or
  // when it happens to leave the checksum as it is.
  ghost predicate PadNeutral(p: seq<bv8>, c: Chunk) {
    Readable(p) && (PadLen(DATA_HDR + |c.payload|) == 0 || Crc32c.Unmoved(Crc32c.Checksum(Covered(p))))
  }

  method WritePacket(packet: array<bv8>, verTag: seq<bv8>, c: Chunk) returns (plen: nat)
    requires |verTag| == 4 && Fits(c) && HEADERS + |DataBytes(c)| <= packet.Length
    modifies packet
    ensures plen == HEADERS + |DataBytes(c)| && packet[HEADERS..plen] == DataBytes(c)
    ensures packet[SCTP + 4..SCTP + 8] == verTag
    ensures forall i :: 0 <= i < packet.Length && Untouched(i, plen) ==> packet[i] == old(packet[i])
    ensures Accepts(packet[..]) <==> IpLen(old(packet[..])) >= IPV4 + SCTP_CMN + SCTP_FLD && PadNeutral(packet[..], c)
  {
    hide DataBytes, Fits, FromNet16, FromHost16, FromHost32, IpCheckOf, SctpCheck, Crc32c.Checksum, PadNeutral, Covered;
    ghost var before := packet[..];
    plen := WriteData(packet, c);
    StampIp(packet);
    ghost var stamped := packet[..];
    Store(packet, SCTP + 4, verTag);
    ghost var tagged := packet[..];
    StampSctp(packet, plen);
    ghost var p := packet[..];
    assert Ip(p) == Ip(stamped) && p[MAC + 10..MAC + 12] == stamped[MAC + 10..MAC + 12];
    assert p[MAC + 2..MAC + 4] == before[MAC + 2..MAC + 4];
    assert p[HEADERS..plen] == tagged[HEADERS..plen];
    assert p[SCTP + 4..SCTP + 8] == tagged[SCTP + 4..SCTP + 8];
    PaddedCheck(p, c);
    assert IpCheck(p) == IpCheckOf(Ip(p));
    assert IpLen(p) == IpLen(before);
  }

  // What a receiver covers of a packet that carries the chunk, and what the sender does.
  lemma PaddedCover(p: seq<bv8>, c: Chunk)
    requires Fits(c) && HEADERS + |DataBytes(c)| <= |p|
    requires p[HEADERS..HEADERS + |DataBytes(c)|] == DataBytes(c)
    ensures Readable(p)
    ensures Put(p, SCTP + 8, [0, 0, 0, 0])[SCTP..HEADERS + |DataBytes(c)|]
         == Covered(p) + Crc32c.Zeros(PadLen(DATA_HDR + |c.payload|))
  {
    hide FromNet16, Put, PadLen, DataHeader, ReadChunk;
    var end, n := HEADERS + |DataBytes(c)|, PadLen(DATA_HDR + |c.payload|);
    ReadBack(c, []);
    assert DataBytes(c) + [] == DataBytes(c);
    SliceOfSlice(p, HEADERS, end, 2, 4);
    assert ChunkLen(p) == DATA_HDR + |c.payload|;
    var zeros := Crc32c.Zeros(n);
    var open := Put(p, SCTP + 8, [0, 0, 0, 0]);
    assert DataBytes(c)[|DataBytes(c)| - n..] == zeros;
    assert open[end - n..end] == zeros by {
      assert forall i :: end - n <= i < end ==> open[i] == p[i];
      assert p[end - n..end] == DataBytes(c)[|DataBytes(c)| - n..];
    }
    assert open[SCTP..end] == open[SCTP..end - n] + open[end - n..end];
  }

  // The sender's check, over chunk and padding, is the one the receiver computes over the chunk
  // exactly when the padding is neutral.
  lemma PaddedCheck(p: seq<bv8>, c: Chunk)
    requires Fits(c) && HEADERS + |DataBytes(c)| <= |p|
    requires p[HEADERS..HEADERS + |DataBytes(c)|] == DataBytes(c)
    ensures Readable(p)
    ensures Crc32c.Checksum(Put(p, SCTP + 8, [0, 0, 0, 0])[SCTP..HEADERS + |DataBytes(c)|]) == Crc32c.Checksum(Covered(p))
       <==> PadNeutral(p, c)
  {
    hide FromNet16, Put, DataBytes, Covered, Crc32c.Checksum, Crc32c.Unmoved, Readable;
    PaddedCover(p, c);
    var n := PadLen(DATA_HDR + |c.payload|);
    if n == 0 {
      assert Covered(p) + Crc32c.Zeros(n) == Covered(p);
    } else {
      Crc32c.PaddedChecksum(Covered(p), n);
    }
  }

  lemma PadBound(n: nat)
    requires n <= PPLEN
    ensures DATA_HDR + n + PadLen(DATA_HDR + n) <= MAX_PACKET_LEN - HEADERS
    ensures (HEADERS + DATA_HDR + n + PadLen(DATA_HDR + n)) % 4 == HEADERS % 4
  {
  }

  lemma PieceOf(data: seq<bv8>, low: nat, high: nat, k: nat, n: nat)
    requires low <= high <= |data| && low + k * PPLEN + n <= high
    ensures data[low + k * PPLEN..low + k * PPLEN + n] == data[low..high][k * PPLEN..k * PPLEN + n]
  {
    SliceOfSlice(data, low, high, k * PPLEN, k * PPLEN + n);
  }

  lemma MakesFragment(c: Chunk, base: bv8, msg: seq<bv8>, k: nat)
    requires |msg| >= 1 && k < Count(|msg|) && base & 3 == 0
    requires c.flags == Mark(base, k == 0, k == Count(|msg|) - 1)
    requires k * PPLEN <= PieceEnd(|msg|, k) <= |msg| && c.payload == msg[k * PPLEN..PieceEnd(|msg|, k)]
    ensures IsFragment(c, base, msg, k)
  {
    hide Mark;
    MarkBits(base, k == 0, k == Count(|msg|) - 1);
  }

  lemma MarkIs(base: bv8, mark: bv8, len: nat, k: nat, n: nat)
    requires len > 0 && k < Count(len) && k * PPLEN <= len
    requires n == if PPLEN <= len - k * PPLEN then PPLEN else len - k * PPLEN
    requires mark == if len <= PPLEN then base | (BBIT | EBIT) else if k == 0 then base | BBIT
                     else if k * PPLEN + n == len then base | EBIT else base
    ensures mark == Mark(base, k == 0, k == Count(len) - 1)
    ensures PieceEnd(len, k) == k * PPLEN + n <= len
  {
    LastPiece(len, k);
    OrBoth(base);
  }

  lemma OrBoth(base: bv8)
    ensures base | (BBIT | EBIT) == base | BBIT | EBIT
    ensures base | BBIT | 0 == base | BBIT && base | 0 | EBIT == base | EBIT && base | 0 | 0 == base
  {
  }

  method WriteData(packet: array<bv8>, c: Chunk) returns (plen: nat)
    requires Fits(c) && HEADERS + |DataBytes(c)| <= packet.Length
    modifies packet
    ensures plen == HEADERS + |DataBytes(c)| && packet[HEADERS..plen] == DataBytes(c)
    ensures forall i :: 0 <= i < packet.Length && !(HEADERS <= i < plen) ==> packet[i] == old(packet[i])
  {
    hide DataHeader, PadLen, Put;
    var n := |c.payload|;
    var pad := seq(PadLen(DATA_HDR + n), _ => 0);
    PutThree(packet[..], HEADERS, DataHeader(c), c.payload, pad);
    Store(packet, HEADERS + DATA_HDR + n, pad);
    Store(packet, HEADERS, DataHeader(c));
    Store(packet, HEADERS + DATA_HDR, c.payload);
    plen := HEADERS + DATA_HDR + n + |pad|;
  }

  // Three parts stored side by side, the last one first.
  lemma PutThree(s: seq<bv8>, at: nat, x: seq<bv8>, y: seq<bv8>, z: seq<bv8>)
    requires at + |x| + |y| + |z| <= |s|
    ensures
      var r := Put(Put(Put(s, at + |x| + |y|, z), at, x), at + |x|, y);
      var end := at + |x| + |y| + |z|;
      && r[at..end] == x + y + z
      && forall i :: 0 <= i < |s| && !(at <= i < end) ==> r[i] == s[i]
  {
    hide Put;
    var first := Put(s, at + |x| + |y|, z);
    var second := Put(first, at, x);
    var r := Put(second, at + |x|, y);
    var middle := at + |x| + |y|;
    var end := middle + |z|;
    assert r[at..at + |x|] == second[at..at + |x|] == x;
    assert r[middle..end] == second[middle..end] == first[middle..end] == z;
    assert r[at..end] == r[at..at + |x|] + r[at + |x|..middle] + r[middle..end];
  }

  // The chunks a receiver reads from the packets' chunk bytes.
  function ReadAll(wire: seq<seq<bv8>>): (r: seq<Chunk>)
    requires forall i :: 0 <= i < |wire| ==> Legible(wire[i])
    ensures |r| == |wire| && forall i :: 0 <= i < |r| ==> r[i] == ReadChunk(wire[i])
  {
    seq(|wire|, i requires 0 <= i < |wire| && Legible(wire[i]) => ReadChunk(wire[i]))
  }

  ghost predicate Written(wire: seq<seq<bv8>>, cs: seq<Chunk>) {
    |wire| == |cs| && forall i :: 0 <= i < |cs| ==> Fits(cs[i]) && wire[i] == DataBytes(cs[i])
  }

  lemma WrittenReads(wire: seq<seq<bv8>>, cs: seq<Chunk>)
    requires Written(wire, cs)
    ensures forall i :: 0 <= i < |wire| ==> Legible(wire[i])
    ensures ReadAll(wire) == cs
  {
    hide DataBytes, ReadChunk, Legible, Fits;
    forall i | 0 <= i < |wire|
      ensures Legible(wire[i]) && ReadChunk(wire[i]) == cs[i]
    {
      ReadBack(cs[i], []);
      assert DataBytes(cs[i]) + [] == wire[i];
    }
  }

  lemma WholeMessage(cs: seq<Chunk>, base: bv8, msg: seq<bv8>)
    requires |msg| >= 1 && AreFragments(cs, base, msg, Count(|msg|))
    ensures Reassemble([], cs) == [msg]
  {
    hide AreFragments, Begins, Ends;
    ReassembleFrom(cs, base, msg, 0, []);
    assert cs[0..] + [] == cs && msg[..0] == [];
  }

  // ceil(L / 1438) calls send a whole message. wire holds the bytes each call wrote behind the headers
  // of its packet: read by their lengths and collected from B to E, they are the message again.
  method SendMessage(thread: Thread, packet: array<bv8>, verTag: seq<bv8>, stream: nat, tsns: seq<seq<bv8>>)
    returns (cs: seq<Chunk>, wire: seq<seq<bv8>>)
    requires thread.Valid() && thread.posCurrent == thread.posLow < thread.posHigh
    requires packet != thread.buffer && packet.Length >= MAX_PACKET_LEN && |verTag| == 4 && stream < U16
    requires |tsns| == Count(thread.posHigh - thread.posLow) && forall i :: 0 <= i < |tsns| ==> |tsns[i]| == 4
    modifies packet, thread`posCurrent
    ensures thread.posCurrent == thread.posHigh
    ensures AreFragments(cs, thread.flags, thread.Message(), Count(thread.posHigh - thread.posLow))
    ensures Payloads(cs) == thread.Message()
    ensures Written(wire, cs)
    ensures forall i :: 0 <= i < |wire| ==> Legible(wire[i])
    ensures ReadAll(wire) == cs && Reassemble([], ReadAll(wire)) == [thread.Message()]
  {
    hide DataBytes, IsFragment, Fits, Legible, ReadAll, Reassemble, DataReads, PadNeutral, Untouched, Accepts, IpLen;
    var len := thread.posHigh - thread.posLow;
    cs, wire := [], [];
    for k := 0 to Count(len)
      invariant thread.Valid()
      invariant thread.posCurrent == thread.posLow + if k == Count(len) then len else k * PPLEN
      invariant AreFragments(cs, thread.flags, thread.Message(), k)
      invariant Written(wire, cs)
    {
      LastPiece(len, k);
      var plen, c := thread.BuildData(packet, verTag, stream, tsns[k], k);
      cs, wire := cs + [c], wire + [packet[HEADERS..plen]];
    }
    PayloadsAreMessage(cs, thread.flags, thread.Message());
    WrittenReads(wire, cs);
    WholeMessage(cs, thread.flags, thread.Message());
  }
}
