/** The back-to-front packet builders: every header is written before the packet pointer. */
module Builders {
  import opened Constants
  import opened Bytes
  import opened Modular
  import opened Packets
  import InternetChecksum
  import Crc32c
  import Layout
  import Md5
  import HmacMd5

  const TTL: bv8 := 181
  const PROTO_SCTP: bv8 := 132
  const ETHERTYPE_IP: nat := 0x0800

  const SCTP_INIT: bv8 := 1
  const SCTP_INIT_ACK: bv8 := 2
  const SCTP_COOKIE_ECHO: bv8 := 10
  const SCTP_COOKIE_ACK: bv8 := 11

  const KEY: seq<bv8> := [0xC9, 0xAB, 0x02, 0x9C, 0x92, 0xBF, 0x47, 0xF3,
                          0xC9, 0xAB, 0x02, 0x9C, 0x92, 0xBF, 0x47, 0xF3]

  // A 32-bit value in network order.
  function Net32(x: nat): (r: seq<bv8>)
    requires x < U32
    ensures |r| == 4
  {
    Net16(x / U16) + Net16(x % U16)
  }

  // --------------------------------------------- headers

  // The type of service is the low half of a byte-swapped 2, which is 0.
  function IpHeader(len: nat, indent: nat, proto: bv8, src: seq<bv8>, dst: seq<bv8>, check: nat): (r: seq<bv8>)
    requires len < U16 && indent < U16 && check < U16 && |src| == |dst| == 4
    ensures |r| == IPV4
  {
    [0x45, 0] + Net16(len) + Host16(indent) + [0, 0, TTL, proto] + Host16(check) + src + dst
  }

  function CmnHeader(srcPort: nat, dstPort: nat, tag: seq<bv8>, check: bv32): (r: seq<bv8>)
    requires srcPort < U16 && dstPort < U16 && |tag| == 4
    ensures |r| == SCTP_CMN
  {
    Net16(srcPort) + Net16(dstPort) + tag + Host32(check)
  }

  function FldHeader(kind: bv8, flags: bv8, len: nat): (r: seq<bv8>)
    requires len < U16
    ensures |r| == SCTP_FLD
  {
    [kind, flags] + Net16(len)
  }

  // The common header in front of a chunk, checked over its first n bytes.
  function SealSctp(srcPort: nat, dstPort: nat, tag: seq<bv8>, chunk: seq<bv8>, n: nat): (r: seq<bv8>)
    requires srcPort < U16 && dstPort < U16 && |tag| == 4 && n <= SCTP_CMN + |chunk|
    ensures |r| == SCTP_CMN + |chunk|
  {
    var open := CmnHeader(srcPort, dstPort, tag, 0) + chunk;
    CmnHeader(srcPort, dstPort, tag, Crc32c.Checksum(open[..n])) + chunk
  }

  function SealIp(len: nat, indent: nat, proto: bv8, src: seq<bv8>, dst: seq<bv8>): (r: seq<bv8>)
    requires len < U16 && indent < U16 && |src| == |dst| == 4
    ensures |r| == IPV4
  {
    IpHeader(len, indent, proto, src, dst,
             InternetChecksum.CheckOf(InternetChecksum.Words(IpHeader(len, indent, proto, src, dst, 0))))
  }

  lemma PutBefore(s: seq<bv8>, at: nat, v: seq<bv8>, end: nat)
    requires at + |v| <= end <= |s|
    ensures Put(s, at, v)[at..end] == v + s[at + |v|..end]
  {
    var r, w := Put(s, at, v)[at..end], v + s[at + |v|..end];
    forall k | 0 <= k < |w|
      ensures r[k] == w[k]
    {
      assert r[k] == Put(s, at, v)[at + k];
    }
  }

  lemma PutInside(s: seq<bv8>, a: nat, b: nat, i: nat, v: seq<bv8>)
    requires a <= b <= |s| && i + |v| <= b - a
    ensures Put(s, a + i, v)[a..b] == Put(s[a..b], i, v)
  {
    var r, w := Put(s, a + i, v)[a..b], Put(s[a..b], i, v);
    forall k | 0 <= k < |w|
      ensures r[k] == w[k]
    {
      assert r[k] == Put(s, a + i, v)[a + k];
      if i <= k < i + |v| {
        assert r[k] == Put(s, a + i, v)[a + i..a + i + |v|][k - i];
        assert w[k] == w[i..i + |v|][k - i];
      }
    }
  }

  // The check goes into its field and nothing else changes.
  lemma CmnFilled(srcPort: nat, dstPort: nat, tag: seq<bv8>, check: bv32, chunk: seq<bv8>)
    requires srcPort < U16 && dstPort < U16 && |tag| == 4
    ensures Put(CmnHeader(srcPort, dstPort, tag, 0) + chunk, 8, Host32(check))
         == CmnHeader(srcPort, dstPort, tag, check) + chunk
  {
    hide Host32, Net16;
    var front := Net16(srcPort) + Net16(dstPort) + tag;
    assert CmnHeader(srcPort, dstPort, tag, 0) + chunk == front + Host32(0) + chunk;
    assert CmnHeader(srcPort, dstPort, tag, check) + chunk == front + Host32(check) + chunk;
  }

  lemma IpFilled(len: nat, indent: nat, proto: bv8, src: seq<bv8>, dst: seq<bv8>, check: nat, rest: seq<bv8>)
    requires len < U16 && indent < U16 && |src| == |dst| == 4 && check < U16
    ensures Put(IpHeader(len, indent, proto, src, dst, 0) + rest, 10, Host16(check))
         == IpHeader(len, indent, proto, src, dst, check) + rest
  {
    hide Host16, Net16;
    var front: seq<bv8> := [0x45, 0] + Net16(len) + Host16(indent) + [0, 0, TTL, proto];
    assert IpHeader(len, indent, proto, src, dst, 0) + rest == front + Host16(0) + (src + dst + rest);
    assert IpHeader(len, indent, proto, src, dst, check) + rest == front + Host16(check) + (src + dst + rest);
  }

  // --------------------------------------------- what a receiver makes of them

  lemma IpSealed(p: seq<bv8>, len: nat, indent: nat, proto: bv8, src: seq<bv8>, dst: seq<bv8>)
    requires |p| >= HEADERS && len < U16 && indent < U16 && |src| == |dst| == 4
    requires p[MAC..SCTP] == SealIp(len, indent, proto, src, dst)
    ensures IpLen(p) == len && IpCheck(p) == IpCheckOf(Ip(p))
  {
    hide FromHost16, FromNet16, Host16, Net16, InternetChecksum.CheckOf, InternetChecksum.Words;
    var check := InternetChecksum.CheckOf(InternetChecksum.Words(IpHeader(len, indent, proto, src, dst, 0)));
    HeaderParts(len, indent, proto, src, dst, check);
    SliceOfSlice(p, MAC, SCTP, 2, 4);
    SliceOfSlice(p, MAC, SCTP, 10, 12);
    Net16RoundTrip(len);
    Host16RoundTrip(check);
  }

  lemma HeaderParts(len: nat, indent: nat, proto: bv8, src: seq<bv8>, dst: seq<bv8>, check: nat)
    requires len < U16 && indent < U16 && |src| == |dst| == 4 && check < U16
    ensures
      var ip := IpHeader(len, indent, proto, src, dst, check);
      ip[2..4] == Net16(len) && ip[10..12] == Host16(check)
      && Put(ip, 10, [0, 0]) == IpHeader(len, indent, proto, src, dst, 0)
  {
    hide Host16, Net16;
    ZeroHost16();
    var front := [0x45, 0] + Net16(len) + Host16(indent) + [0, 0, TTL, proto];
    var ip := IpHeader(len, indent, proto, src, dst, check);
    assert ip == front + Host16(check) + src + dst;
    assert front[2..4] == Net16(len);
    assert ip[2..4] == front[2..4];
  }

  lemma ZeroHost16()
    ensures Host16(0) == [0, 0]
  {
  }

  lemma ZeroHost32()
    ensures Host32(0) == [0, 0, 0, 0]
  {
  }

  lemma SctpSealed(p: seq<bv8>, srcPort: nat, dstPort: nat, tag: seq<bv8>, kind: bv8, flags: bv8, payload: seq<bv8>)
    requires srcPort < U16 && dstPort < U16 && |tag| == 4 && SCTP_FLD + |payload| < U16
    requires |p| == HEADERS + SCTP_FLD + |payload|
    requires
      var chunk := FldHeader(kind, flags, SCTP_FLD + |payload|) + payload;
      p[SCTP..] == SealSctp(srcPort, dstPort, tag, chunk, SCTP_CMN + |chunk|)
    ensures Readable(p) && SctpCheck(p) == Crc32c.Checksum(Covered(p))
  {
    hide FromHost32, FromNet16, Host32, Net16, Crc32c.Checksum, Covered;
    var len := SCTP_FLD + |payload|;
    var chunk := FldHeader(kind, flags, len) + payload;
    var open := CmnHeader(srcPort, dstPort, tag, 0) + chunk;
    assert open[..SCTP_CMN + |chunk|] == open;
    var check := Crc32c.Checksum(open);
    var sctp := p[SCTP..];
    assert p[SCTP..|p|] == sctp;
    SliceOfSlice(p, SCTP, |p|, 14, 16);
    SliceOfSlice(p, SCTP, |p|, 8, 12);
    var head, fld := CmnHeader(srcPort, dstPort, tag, check), FldHeader(kind, flags, len);
    assert sctp == head + (fld + payload);
    assert sctp[14..16] == fld[2..4] == Net16(len);
    assert sctp[8..12] == head[8..12] == Host32(check);
    Net16RoundTrip(len);
    Host32RoundTrip(check);
    ZeroHost32();
    assert open[8..12] == Host32(0);
    assert sctp[..8] == open[..8] && sctp[12..] == open[12..];
    assert ChunkLen(p) == len;
    CoveredBytes(p);
    forall j | 0 <= j < |open|
      ensures Covered(p)[j] == open[j]
    {
      if j < 8 {
        assert sctp[..8][j] == open[..8][j];
      } else if j < 12 {
        assert open[8..12][j - 8] == open[j];
      } else {
        assert sctp[12..][j - 12] == open[12..][j - 12];
      }
    }
    assert Covered(p) == open;
  }

  // --------------------------------------------- the frame

  class Frame {
    const mem: array<bv8>
    var packet: nat          // frame->packet, an offset
    var plen: nat            // u16
    ghost var end: nat       // where the packet being built ends

    ghost predicate Valid()
      reads this
    {
      packet <= end <= mem.Length && plen < U16 && plen <= end - packet
    }

    ghost function Content(): seq<bv8>
      requires Valid()
      reads this, mem
    {
      mem[packet..end]
    }

    constructor (size: nat)
      ensures Valid() && packet == plen == 0 && mem.Length == size && fresh(mem)
    {
      mem := new bv8[size];
      packet, plen, end := 0, 0, 0;
    }

    // memcpy before the packet pointer.
    method Prepend(v: seq<bv8>)
      requires Valid() && |v| <= packet
      modifies this, mem
      ensures Valid() && end == old(end) && packet == old(packet) - |v|
      ensures plen == (old(plen) + |v|) % U16
      ensures Content() == v + old(Content())
    {
      hide Put;
      packet := packet - |v|;
      plen := (plen + |v|) % U16;
      PutBefore(mem[..], packet, v, end);
      Store(mem, packet, v);
    }

    // A field of the packet is overwritten.
    method Patch(i: nat, v: seq<bv8>)
      requires Valid() && i + |v| <= end - packet
      modifies mem
      ensures Valid() && Content() == Put(old(Content()), i, v)
    {
      hide Put;
      PutInside(mem[..], packet, end, i, v);
      Store(mem, packet + i, v);
      assert Content() == mem[..][packet..end];
    }

    // build_sctp_fld_hdr_raw
    method BuildFld(kind: bv8, flags: bv8, len: nat)
      requires Valid() && SCTP_FLD <= packet && len < U16
      modifies this, mem
      ensures Valid() && end == old(end) && packet == old(packet) - SCTP_FLD
      ensures plen == (old(plen) + SCTP_FLD) % U16
      ensures Content() == FldHeader(kind, flags, len) + old(Content())
    {
      Prepend(FldHeader(kind, flags, len));
    }

    // build_sctp_cmn_hdr_raw
    method BuildCmn(srcPort: nat, dstPort: nat, tag: seq<bv8>)
      requires Valid() && SCTP_CMN <= packet && srcPort < U16 && dstPort < U16 && |tag| == 4
      modifies this, mem
      ensures Valid() && end == old(end) && packet == old(packet) - SCTP_CMN
      ensures plen == (old(plen) + SCTP_CMN) % U16
      ensures Content() == SealSctp(srcPort, dstPort, tag, old(Content()), plen)
    {
      hide Crc32c.Checksum, CmnHeader, Host32, Put;
      ghost var chunk := Content();
      Prepend(CmnHeader(srcPort, dstPort, tag, 0));
      ghost var open := Content();
      SliceOfSlice(mem[..], packet, end, 0, plen);
      var check := Crc32c.Generate(mem[packet..packet + plen]);
      Patch(8, Host32(check));
      CmnFilled(srcPort, dstPort, tag, check, chunk);
    }

    // build_ip_raw; the identification is random.
    method BuildIp(indent: nat, src: seq<bv8>, dst: seq<bv8>, proto: bv8)
      requires Valid() && IPV4 <= packet && indent < U16 && |src| == |dst| == 4
      modifies this, mem
      ensures Valid() && end == old(end) && packet == old(packet) - IPV4
      ensures plen == (old(plen) + IPV4) % U16
      ensures Content() == SealIp(plen, indent, proto, src, dst) + old(Content())
    {
      hide InternetChecksum.Words, InternetChecksum.CheckOf, InternetChecksum.Canonical, IpHeader, Host16, Put;
      ghost var rest := Content();
      var len := (plen + IPV4) % U16;
      var header := IpHeader(len, indent, proto, src, dst, 0);
      Prepend(header);
      ghost var open := Content();
      var sum := InternetChecksum.IpChecksum(header);
      assert header[..20] == header;
      CheckIs(header);
      var check := InternetChecksum.U16_MAX - sum;
      Patch(10, Host16(check));
      IpFilled(len, indent, proto, src, dst, check, rest);
    }

    // build_mac_raw
    method BuildMac(gateway: seq<bv8>, dev: seq<bv8>)
      requires Valid() && MAC <= packet && |gateway| == |dev| == 6
      modifies this, mem
      ensures Valid() && end == old(end) && packet == old(packet) - MAC
      ensures plen == (old(plen) + MAC) % U16
      ensures Content() == gateway + dev + Net16(ETHERTYPE_IP) + old(Content())
    {
      Prepend(gateway + dev + Net16(ETHERTYPE_IP));
    }
  }

  // The addresses of a packet.
  datatype Meta = Meta(srcPort: nat, dstPort: nat, src: seq<bv8>, dst: seq<bv8>, gateway: seq<bv8>, dev: seq<bv8>)

  predicate Addressed(m: Meta) {
    m.srcPort < U16 && m.dstPort < U16 && |m.src| == |m.dst| == 4 && |m.gateway| == |m.dev| == 6
  }

  // A whole packet with one chunk.
  function Packet(m: Meta, tag: seq<bv8>, indent: nat, kind: bv8, payload: seq<bv8>): (r: seq<bv8>)
    requires Addressed(m) && |tag| == 4 && indent < U16
    ensures |r| == HEADERS + SCTP_FLD + |payload|
  {
    var chunk := FldHeader(kind, 0, (SCTP_FLD + |payload|) % U16) + payload;
    m.gateway + m.dev + Net16(ETHERTYPE_IP)
    + (SealIp((IPV4 + SCTP_CMN + |chunk|) % U16, indent, PROTO_SCTP, m.src, m.dst)
       + SealSctp(m.srcPort, m.dstPort, tag, chunk, (SCTP_CMN + |chunk|) % U16))
  }

  // A built packet is accepted exactly when its lengths fit 16 bits.
  lemma PacketAccepted(m: Meta, tag: seq<bv8>, indent: nat, kind: bv8, payload: seq<bv8>)
    requires Addressed(m) && |tag| == 4 && indent < U16 && |payload| < U16
    ensures Accepts(Packet(m, tag, indent, kind, payload)) <==> IPV4 + SCTP_CMN + SCTP_FLD + |payload| < U16
  {
    hide SealIp, SealSctp, FldHeader, Net16, Covered, IpLen, IpCheck, IpCheckOf, SctpCheck, Readable, Crc32c.Checksum;
    var p := Packet(m, tag, indent, kind, payload);
    var n := SCTP_FLD + |payload|;
    var chunk := FldHeader(kind, 0, n % U16) + payload;
    assert p[MAC..SCTP] == SealIp((IPV4 + SCTP_CMN + n) % U16, indent, PROTO_SCTP, m.src, m.dst);
    IpSealed(p, (IPV4 + SCTP_CMN + n) % U16, indent, PROTO_SCTP, m.src, m.dst);
    if IPV4 + SCTP_CMN + n < U16 {
      assert p[SCTP..] == SealSctp(m.srcPort, m.dstPort, tag, chunk, SCTP_CMN + n);
      SctpSealed(p, m.srcPort, m.dstPort, tag, kind, 0, payload);
    }
  }

  // What a receiver reads of a frame for m, with a chunk of the given kind.
  function Expected(m: Meta, tag: seq<bv8>, kind: bv8, payload: seq<bv8>): Layout.Frame {
    Layout.Frame(m.gateway, m.dev, 0x0800, 0x45, (36 + |payload|) % 65536, 181, 132, m.src, m.dst,
               m.srcPort, m.dstPort, tag, kind, 0, (4 + |payload|) % 65536, payload)
  }

  lemma NetReads(x: nat)
    requires x < U16
    ensures Layout.At16(Net16(x), 0) == x
  {
    hide FromNet16, Net16, Layout.At16;
    Net16RoundTrip(x);
    Layout.At16Is(Net16(x), 0);
    assert Net16(x)[0..2] == Net16(x);
  }

  lemma FieldReads(p: seq<bv8>, i: nat, x: nat)
    requires i + 2 <= |p| && x < U16 && p[i..i + 2] == Net16(x)
    ensures Layout.At16(p, i) == x
  {
    hide Net16;
    NetReads(x);
    Layout.At16Part(p, i, i + 2, 0);
  }

  lemma FiveParts(a: seq<bv8>, b: seq<bv8>, c: seq<bv8>, d: seq<bv8>, e: seq<bv8>)
    requires |a| == |b| == 6 && |c| == 2 && |d| == 20
    ensures
      var p := a + b + c + (d + e);
      p[0..6] == a && p[6..12] == b && p[12..14] == c && p[14..34] == d && p[34..] == e
  {
  }

  lemma IpReads(len: nat, indent: nat, proto: bv8, src: seq<bv8>, dst: seq<bv8>)
    requires len < U16 && indent < U16 && |src| == |dst| == 4
    ensures
      var ip := SealIp(len, indent, proto, src, dst);
      ip[0] == 0x45 && ip[2..4] == Net16(len) && ip[8] == 181 && ip[9] == proto
      && ip[12..16] == src && ip[16..20] == dst
  {
    hide Net16, Host16, InternetChecksum.CheckOf, InternetChecksum.Words;
  }

  lemma SctpReads(srcPort: nat, dstPort: nat, tag: seq<bv8>, chunk: seq<bv8>, n: nat)
    requires srcPort < U16 && dstPort < U16 && |tag| == 4 && n <= SCTP_CMN + |chunk|
    ensures
      var s := SealSctp(srcPort, dstPort, tag, chunk, n);
      s[0..2] == Net16(srcPort) && s[2..4] == Net16(dstPort) && s[4..8] == tag && s[12..] == chunk
  {
    hide Net16, Host32, Crc32c.Checksum;
  }

  // Read by its offsets, a built packet gives back what it was built from.
  lemma PacketReads(m: Meta, tag: seq<bv8>, indent: nat, kind: bv8, payload: seq<bv8>)
    requires Addressed(m) && |tag| == 4 && indent < U16
    ensures Layout.Read(Packet(m, tag, indent, kind, payload)) == Expected(m, tag, kind, payload)
  {
    hide SealIp, SealSctp, Net16, Layout.At16;
    var p, n := Packet(m, tag, indent, kind, payload), SCTP_FLD + |payload|;
    var chunk := FldHeader(kind, 0, n % U16) + payload;
    FiveParts(m.gateway, m.dev, Net16(ETHERTYPE_IP),
              SealIp((IPV4 + SCTP_CMN + n) % U16, indent, PROTO_SCTP, m.src, m.dst),
              SealSctp(m.srcPort, m.dstPort, tag, chunk, (SCTP_CMN + n) % U16));
    IpReads((IPV4 + SCTP_CMN + n) % U16, indent, PROTO_SCTP, m.src, m.dst);
    SctpReads(m.srcPort, m.dstPort, tag, chunk, (SCTP_CMN + n) % U16);
    var ip, s := p[14..34], p[34..];
    IpSlices(p);
    SctpSlices(p);
    assert chunk[2..4] == Net16(n % U16) && chunk[4..] == payload;
    assert p[46] == s[12] == chunk[0] && p[47] == s[13] == chunk[1];
    assert p[48..50] == s[12..][2..4] && p[50..] == s[12..][4..];
    FieldReads(p, 12, 0x0800);
    FieldReads(p, 16, (36 + |payload|) % 65536);
    FieldReads(p, 34, m.srcPort);
    FieldReads(p, 36, m.dstPort);
    FieldReads(p, 48, (4 + |payload|) % 65536);
  }

  lemma IpSlices(p: seq<bv8>)
    requires |p| >= 50
    ensures
      var ip := p[14..34];
      p[14] == ip[0] && p[16..18] == ip[2..4] && p[22] == ip[8] && p[23] == ip[9]
      && p[26..30] == ip[12..16] && p[30..34] == ip[16..20]
  {
  }

  lemma SctpSlices(p: seq<bv8>)
    requires |p| >= 50
    ensures
      var s := p[34..];
      p[34..36] == s[0..2] && p[36..38] == s[2..4] && p[38..42] == s[4..8]
      && p[48..50] == s[12..][2..4] && p[50..] == s[12..][4..]
  {
  }

  // The headers every builder puts in front of a chunk's payload.
  method Finish(frame: Frame, m: Meta, tag: seq<bv8>, indent: nat, kind: bv8, ghost payload: seq<bv8>)
    requires Addressed(m) && |tag| == 4 && indent < U16
    requires frame.Valid() && frame.Content() == payload && frame.plen == |payload|
    requires frame.packet >= HEADERS + SCTP_FLD
    modifies frame, frame.mem
    ensures frame.Valid() && frame.packet == old(frame.packet) - HEADERS - SCTP_FLD
    ensures frame.Content() == Packet(m, tag, indent, kind, payload)
  {
    hide SealIp, SealSctp, FldHeader, Net16, Crc32c.Checksum, Frame.Content, Frame.Valid;
    ModSum(SCTP_FLD + |payload|, SCTP_CMN, U16);
    ModSum(SCTP_FLD + |payload| + SCTP_CMN, IPV4, U16);
    frame.BuildFld(kind, 0, (frame.plen + SCTP_FLD) % U16);
    ghost var chunk := frame.Content();
    frame.BuildCmn(m.srcPort, m.dstPort, tag);
    assert frame.plen == (SCTP_CMN + |chunk|) % U16;
    frame.BuildIp(indent, m.src, m.dst, PROTO_SCTP);
    assert frame.plen == (IPV4 + SCTP_CMN + |chunk|) % U16;
    frame.BuildMac(m.gateway, m.dev);
  }

  function InitBody(tag: nat, window: nat, os: nat, mis: nat, tsn: nat): (r: seq<bv8>)
    requires tag < U32 && window < U32 && os < U16 && mis < U16 && tsn < U32
    ensures |r| == 16
  {
    Net32(tag) + Net32(window) + Net16(os) + Net16(mis) + Net32(tsn)
  }

  lemma WideReads(s: seq<bv8>, i: nat, x: nat)
    requires i + 4 <= |s| && x < U32 && s[i..i + 4] == Net32(x)
    ensures Layout.At32(s, i) == x
  {
    hide Net16, Layout.At16;
    assert s[i..i + 2] == Net32(x)[0..2] == Net16(x / U16);
    assert s[i + 2..i + 4] == Net32(x)[2..4] == Net16(x % U16);
    FieldReads(s, i, x / U16);
    FieldReads(s, i + 2, x % U16);
  }

  // Read by its offsets, the fixed part gives back its five fields.
  lemma InitReads(tag: nat, window: nat, os: nat, mis: nat, tsn: nat, more: seq<bv8>)
    requires tag < U32 && window < U32 && os < U16 && mis < U16 && tsn < U32
    ensures Layout.ReadInit(InitBody(tag, window, os, mis, tsn) + more) == Layout.InitFields(tag, window, os, mis, tsn)
  {
    hide Net16, Net32, Layout.At16, Layout.At32;
    var s := InitBody(tag, window, os, mis, tsn) + more;
    assert s[0..4] == Net32(tag) && s[4..8] == Net32(window) && s[8..10] == Net16(os);
    assert s[10..12] == Net16(mis) && s[12..16] == Net32(tsn);
    WideReads(s, 0, tag);
    WideReads(s, 4, window);
    FieldReads(s, 8, os);
    FieldReads(s, 10, mis);
    WideReads(s, 12, tsn);
  }

  const NO_TAG: seq<bv8> := [0, 0, 0, 0]

  // build_sctp_init_hdr
  method BuildInit(frame: Frame, m: Meta, tag: nat, window: nat, os: nat, mis: nat, tsn: nat, indent: nat)
    requires frame.Valid() && frame.plen == 0 && frame.packet + 66 <= frame.mem.Length
    requires Addressed(m) && indent < U16
    requires tag < U32 && window < U32 && os < U16 && mis < U16 && tsn < U32
    modifies frame, frame.mem
    ensures frame.Valid() && frame.packet == old(frame.packet)
    ensures frame.Content() == Packet(m, NO_TAG, indent, SCTP_INIT, InitBody(tag, window, os, mis, tsn))
    ensures |frame.Content()| == 66 && Accepts(frame.Content())
    ensures Layout.Read(frame.Content()) == Expected(m, [0, 0, 0, 0], 1, frame.Content()[50..])
    ensures Layout.ReadInit(frame.Content()[50..]) == Layout.InitFields(tag, window, os, mis, tsn)
  {
    hide Packet, Accepts, InitBody;
    frame.packet := frame.packet + MAC + IPV4 + SCTP_CMN + SCTP_FLD + 16;
    frame.end := frame.packet;
    ghost var body := InitBody(tag, window, os, mis, tsn);
    frame.Prepend(InitBody(tag, window, os, mis, tsn));
    assert frame.Content() == body;
    Finish(frame, m, NO_TAG, indent, SCTP_INIT, body);
    PacketAccepted(m, NO_TAG, indent, SCTP_INIT, body);
    PacketReads(m, NO_TAG, indent, SCTP_INIT, body);
    InitReads(tag, window, os, mis, tsn, []);
    assert body + [] == body;
  }

  // The cookie parameter of an INIT ACK: type, length, cookie and its MAC.
  function CookieParam(f: Md5.Compress, cookie: seq<bv8>): (r: seq<bv8>)
    requires |cookie| == COOKIE
    ensures |r| == 4 + COOKIE + HMAC
  {
    Net16(7) + Net16(4 + COOKIE + HMAC) + cookie + HmacMd5.Hmac(f, KEY, cookie)
  }

  // What a receiver reads of an INIT ACK: kind 2, the fixed part, and a parameter of kind 7 and length 60
  // with the cookie and its digest.
  predicate AckReads(p: seq<bv8>, m: Meta, verTag: seq<bv8>, fields: Layout.InitFields, cookie: seq<bv8>, mac: seq<bv8>) {
    && |p| == 126 && Layout.Read(p) == Expected(m, verTag, 2, p[50..]) && Layout.ReadInit(p[50..]) == fields
    && p[66..70] == [0, 7, 0, 60] && p[70..110] == cookie && p[110..] == mac
  }

  // The parameter's parts in a frame that ends with it.
  lemma AckParts(f: Md5.Compress, tag: nat, window: nat, os: nat, mis: nat, tsn: nat, cookie: seq<bv8>, p: seq<bv8>)
    requires tag < U32 && window < U32 && os < U16 && mis < U16 && tsn < U32 && |cookie| == COOKIE
    requires |p| == 126 && p[50..] == InitBody(tag, window, os, mis, tsn) + CookieParam(f, cookie)
    ensures p[66..70] == [0, 7, 0, 60] && p[70..110] == cookie && p[110..] == HmacMd5.Hmac(f, KEY, cookie)
  {
    hide InitBody, HmacMd5.Hmac, Net16;
    var body, param := p[50..], CookieParam(f, cookie);
    ParamHeader();
    assert p[66..] == body[16..] == param;
    assert p[66..70] == p[66..][0..4] && p[70..110] == p[66..][4..44] && p[110..] == p[66..][44..];
    assert param[0..4] == Net16(7) + Net16(60) && param[4..44] == cookie && param[44..] == HmacMd5.Hmac(f, KEY, cookie);
  }

  lemma ParamHeader()
    ensures Net16(7) + Net16(60) == [0, 7, 0, 60]
  {
  }

  // build_sctp_init_ack_hdr; the cookie is the first forty bytes of the association's record.
  method BuildInitAck(frame: Frame, f: Md5.Compress, m: Meta, cookie: seq<bv8>, verTag: seq<bv8>,
                      tag: nat, window: nat, os: nat, mis: nat, tsn: nat, indent: nat)
    requires frame.Valid() && frame.plen == 0 && frame.packet + 126 <= frame.mem.Length
    requires Addressed(m) && indent < U16 && |cookie| == COOKIE && |verTag| == 4
    requires tag < U32 && window < U32 && os < U16 && mis < U16 && tsn < U32
    modifies frame, frame.mem
    ensures frame.Valid() && frame.packet == old(frame.packet)
    ensures frame.Content() == Packet(m, verTag, indent, SCTP_INIT_ACK,
                                      InitBody(tag, window, os, mis, tsn) + CookieParam(f, cookie))
    ensures Accepts(frame.Content())
    ensures AckReads(frame.Content(), m, verTag, Layout.InitFields(tag, window, os, mis, tsn), cookie,
                     HmacMd5.Hmac(f, KEY, cookie))
  {
    hide Packet, Accepts, InitBody, HmacMd5.Hmac, Net16;
    frame.packet := frame.packet + MAC + IPV4 + SCTP_CMN + SCTP_FLD + 16 + 4 + COOKIE + HMAC;
    frame.end := frame.packet;
    var mac := HmacMd5.HmacMd5(f, cookie, KEY);
    frame.Prepend(Net16(7) + Net16(4 + COOKIE + HMAC) + cookie + mac);
    assert frame.Content() == CookieParam(f, cookie);
    frame.Prepend(InitBody(tag, window, os, mis, tsn));
    ghost var body := InitBody(tag, window, os, mis, tsn) + CookieParam(f, cookie);
    Finish(frame, m, verTag, indent, SCTP_INIT_ACK, body);
    PacketAccepted(m, verTag, indent, SCTP_INIT_ACK, body);
    PacketReads(m, verTag, indent, SCTP_INIT_ACK, body);
    InitReads(tag, window, os, mis, tsn, CookieParam(f, cookie));
    AckParts(f, tag, window, os, mis, tsn, cookie, frame.Content());
  }

  // build_sctp_cookie_echo_hdr makes room for four bytes it does not use, so the packet starts four
  // bytes in. A receiver accepts it exactly when the cookie is at most 65499 bytes long.
  method BuildCookieEcho(frame: Frame, m: Meta, initTag: seq<bv8>, cookie: seq<bv8>, indent: nat)
    requires frame.Valid() && frame.plen == 0 && |cookie| < U16 && frame.packet + 54 + |cookie| <= frame.mem.Length
    requires Addressed(m) && indent < U16 && |initTag| == 4
    modifies frame, frame.mem
    ensures frame.Valid() && frame.packet == old(frame.packet) + 4
    ensures frame.Content() == Packet(m, initTag, indent, SCTP_COOKIE_ECHO, cookie)
    ensures |frame.Content()| == 50 + |cookie| && Layout.Read(frame.Content()) == Expected(m, initTag, 10, cookie)
    ensures Accepts(frame.Content()) <==> |cookie| <= 65499
  {
    hide Packet, Accepts;
    frame.packet := frame.packet + MAC + IPV4 + SCTP_CMN + SCTP_FLD + 4 + |cookie|;
    frame.end := frame.packet;
    frame.Prepend(cookie);
    assert frame.Content() == cookie;
    Finish(frame, m, initTag, indent, SCTP_COOKIE_ECHO, cookie);
    PacketAccepted(m, initTag, indent, SCTP_COOKIE_ECHO, cookie);
    PacketReads(m, initTag, indent, SCTP_COOKIE_ECHO, cookie);
  }

  // build_sctp_cookie_ack_hdr
  method BuildCookieAck(frame: Frame, m: Meta, verTag: seq<bv8>, indent: nat)
    requires frame.Valid() && frame.plen == 0 && frame.packet + 50 <= frame.mem.Length
    requires Addressed(m) && indent < U16 && |verTag| == 4
    modifies frame, frame.mem
    ensures frame.Valid() && frame.packet == old(frame.packet)
    ensures frame.Content() == Packet(m, verTag, indent, SCTP_COOKIE_ACK, [])
    ensures |frame.Content()| == 50 && Layout.Read(frame.Content()) == Expected(m, verTag, 11, [])
    ensures Accepts(frame.Content())
  {
    hide Packet, Accepts;
    frame.packet := frame.packet + MAC + IPV4 + SCTP_CMN + SCTP_FLD;
    frame.end := frame.packet;
    Finish(frame, m, verTag, indent, SCTP_COOKIE_ACK, []);
    PacketAccepted(m, verTag, indent, SCTP_COOKIE_ACK, []);
    PacketReads(m, verTag, indent, SCTP_COOKIE_ACK, []);
  }
}
