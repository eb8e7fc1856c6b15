/** The COOKIE ECHO written into a packet whose MAC, IPv4 and common headers are already there. */
module PrefilledEcho {
  import opened Constants
  import opened Bytes
  import opened Packets
  import Builders
  import InternetChecksum
  import Crc32c
  import Layout

  // A prefilled header: length zero, and the check computed for it.
  predicate Prefilled(p: seq<bv8>) {
    |p| >= HEADERS && p[MAC + 2..MAC + 4] == Net16(0) && IpCheck(p) == IpCheckOf(Ip(p))
  }

  lemma ZeroNet16()
    ensures Net16(0) == [0, 0] && FromHost16([0, 0]) == 0
  {
  }

  // The check of the header with a length in it is the update of the check of the prefilled header.
  lemma LengthChecked(ip: seq<bv8>, len: nat)
    requires |ip| == IPV4 && len < U16 && ip[2..4] == Net16(0)
    ensures IpCheckOf(Put(ip, 2, Net16(len))) == InternetChecksum.Updated(IpCheckOf(ip), FromHost16(Net16(len)))
  {
    hide FromHost16, Net16, InternetChecksum.Words, InternetChecksum.CheckOf, InternetChecksum.Updated, Put;
    ZeroNet16();
    var bare := Put(ip, 10, [0, 0]);
    SwapPuts(ip, Net16(len));
    WordsPut(bare, 1, Net16(len));
    assert bare[2..4] == [0, 0] by {
      assert forall j :: 2 <= j < 4 ==> bare[j] == ip[j];
    }
    InternetChecksum.UpdateIsRecompute(InternetChecksum.Words(bare), 1, FromHost16(Net16(len)));
  }

  lemma SwapPuts(ip: seq<bv8>, v: seq<bv8>)
    requires |ip| == IPV4 && |v| == 2
    ensures Put(Put(ip, 2, v), 10, [0, 0]) == Put(Put(ip, 10, [0, 0]), 2, v)
  {
  }

  // The IPv4 header after its length and its check have been stored.
  lemma HeaderUpdated(p: seq<bv8>, len: nat, q: seq<bv8>)
    requires Prefilled(p) && len < U16
    requires q == Put(Put(p, MAC + 2, Net16(len)), MAC + 10,
                      Host16(InternetChecksum.Updated(IpCheck(p), FromHost16(Net16(len)))))
    ensures IpLen(q) == len && IpCheck(q) == IpCheckOf(Ip(q))
  {
    hide FromHost16, FromNet16, Host16, Net16, InternetChecksum.Updated, IpCheckOf;
    var check := InternetChecksum.Updated(IpCheck(p), FromHost16(Net16(len)));
    var ip := Ip(p);
    assert ip[2..4] == Net16(0) by {
      SliceOfSlice(p, MAC, SCTP, 2, 4);
    }
    assert q[MAC + 2..MAC + 4] == Net16(len) by {
      assert forall j :: MAC + 2 <= j < MAC + 4 ==> q[j] == Put(p, MAC + 2, Net16(len))[j];
    }
    Net16RoundTrip(len);
    Host16RoundTrip(check);
    var wide := Put(ip, 2, Net16(len));
    assert Ip(q) == Put(wide, 10, Host16(check));
    CheckIgnored(wide, Host16(check));
    LengthChecked(ip, len);
  }

  // Store the length and update the check for it.
  method SetLength(packet: array<bv8>, len: nat)
    requires Prefilled(packet[..]) && len < U16
    modifies packet
    ensures IpLen(packet[..]) == len && IpCheck(packet[..]) == IpCheckOf(Ip(packet[..]))
    ensures forall i :: 0 <= i < packet.Length && !(MAC + 2 <= i < MAC + 4) && !(MAC + 10 <= i < MAC + 12) ==>
              packet[i] == old(packet[i])
  {
    hide FromHost16, FromNet16, Host16, Net16, InternetChecksum.Updated, IpCheckOf;
    ghost var p := packet[..];
    Store(packet, MAC + 2, Net16(len));
    ghost var wide := packet[..];
    assert wide[MAC + 10..MAC + 12] == p[MAC + 10..MAC + 12];
    var check := FromHost16(packet[MAC + 10..MAC + 12]);
    var stored := FromHost16(packet[MAC + 2..MAC + 4]);
    assert packet[MAC + 2..MAC + 4] == wide[MAC + 2..MAC + 4] == Net16(len);
    Store(packet, MAC + 10, Host16(InternetChecksum.Updated(check, stored)));
    HeaderUpdated(p, len, packet[..]);
  }

  // The bytes of the IPv4 header are all the receiver's header check looks at.
  lemma SameHeader(p: seq<bv8>, q: seq<bv8>)
    requires |p| == |q| >= HEADERS && forall i :: MAC <= i < SCTP ==> p[i] == q[i]
    ensures Ip(p) == Ip(q) && IpLen(p) == IpLen(q) && IpCheck(p) == IpCheck(q)
  {
    hide FromHost16, FromNet16;
    assert p[MAC..SCTP] == q[MAC..SCTP];
    assert p[MAC + 2..MAC + 4] == q[MAC + 2..MAC + 4];
    assert p[MAC + 10..MAC + 12] == q[MAC + 10..MAC + 12];
  }

  lemma ChunkRead(p: seq<bv8>, kind: bv8, len: nat, cookie: seq<bv8>)
    requires |p| >= HEADERS + SCTP_FLD + |cookie| && len < U16 && len <= SCTP_FLD + |cookie|
    requires p[HEADERS..HEADERS + SCTP_FLD + |cookie|] == Builders.FldHeader(kind, 0, len) + cookie
    ensures Readable(p) && ChunkLen(p) == len
  {
    hide FromNet16, Net16;
    Net16RoundTrip(len);
    var chunk := Builders.FldHeader(kind, 0, len) + cookie;
    SliceOfSlice(p, HEADERS, HEADERS + SCTP_FLD + |cookie|, 2, 4);
    assert chunk[2..4] == Net16(len);
  }

  // Outside the length, the IPv4 check, and everything from the tag to the end of the packet.
  predicate Untouched(i: nat, plen: nat) {
    i < MAC + 2 || MAC + 4 <= i < MAC + 10 || MAC + 12 <= i < SCTP + 4 || i >= plen
  }

  // What a receiver reads of the packet: kind 10, no flags, the cookie, and the lengths modulo 2^16.
  predicate EchoReads(p: seq<bv8>, verTag: seq<bv8>, cookie: seq<bv8>) {
    && |p| >= 50 + |cookie| && p[38..42] == verTag && p[46] == 10 && p[47] == 0 && p[50..50 + |cookie|] == cookie
    && Layout.At16(p, 48) == (4 + |cookie|) % 65536 && Layout.At16(p, 16) == (36 + |cookie|) % 65536
  }

  lemma EchoIsRead(p: seq<bv8>, verTag: seq<bv8>, cookie: seq<bv8>)
    requires |p| >= HEADERS + SCTP_FLD + |cookie| && p[SCTP + 4..SCTP + 8] == verTag
    requires p[HEADERS..HEADERS + SCTP_FLD + |cookie|]
          == Builders.FldHeader(Builders.SCTP_COOKIE_ECHO, 0, (SCTP_FLD + |cookie|) % U16) + cookie
    requires IpLen(p) == (IPV4 + SCTP_CMN + SCTP_FLD + |cookie|) % U16
    ensures EchoReads(p, verTag, cookie)
  {
    hide FromNet16, Net16, Layout.At16;
    var n := (SCTP_FLD + |cookie|) % U16;
    var part := p[46..50 + |cookie|];
    assert part == Builders.FldHeader(10, 0, n) + cookie;
    assert p[46] == part[0] && p[47] == part[1] && p[48..50] == part[2..4] && p[50..50 + |cookie|] == part[4..];
    Builders.FieldReads(p, 48, n);
    Layout.At16Is(p, 16);
  }

  // build_prefilled_mac_ip_sctp_cookie_echo_hdr: a receiver accepts the packet exactly when its
  // length fits 16 bits, although the check was only updated.
  method BuildPrefilledCookieEcho(packet: array<bv8>, verTag: seq<bv8>, cookie: seq<bv8>) returns (plen: nat)
    requires Prefilled(packet[..]) && |verTag| == 4 && |cookie| < U16
    requires packet.Length >= HEADERS + SCTP_FLD + |cookie|
    modifies packet
    ensures plen == HEADERS + SCTP_FLD + |cookie|
    ensures packet[SCTP + 4..SCTP + 8] == verTag
    ensures packet[HEADERS..plen]
         == Builders.FldHeader(Builders.SCTP_COOKIE_ECHO, 0, (SCTP_FLD + |cookie|) % U16) + cookie
    ensures EchoReads(packet[..], verTag, cookie)
    ensures Accepts(packet[..]) <==> IPV4 + SCTP_CMN + SCTP_FLD + |cookie| < U16
    ensures forall i :: 0 <= i < packet.Length && Untouched(i, plen) ==> packet[i] == old(packet[i])
  {
    hide IpLen, IpCheck, IpCheckOf, Ip, Readable, ChunkLen, SctpCheck, Covered, Crc32c.Checksum, Builders.FldHeader,
      EchoReads;
    var n := SCTP_FLD + |cookie|;
    plen := HEADERS + n;
    SetLength(packet, (plen - MAC) % U16);
    ghost var headed := packet[..];
    WriteChunk(packet, Builders.FldHeader(Builders.SCTP_COOKIE_ECHO, 0, n % U16), cookie, verTag);
    ghost var filled := packet[..];
    ChunkRead(filled, Builders.SCTP_COOKIE_ECHO, n % U16, cookie);
    Seal(packet, n % U16);
    SameHeader(headed, packet[..]);
    assert packet[SCTP + 4..SCTP + 8] == filled[SCTP + 4..SCTP + 8];
    assert packet[HEADERS..plen] == filled[HEADERS..plen];
    EchoIsRead(packet[..], verTag, cookie);
  }

  method WriteChunk(packet: array<bv8>, fld: seq<bv8>, cookie: seq<bv8>, verTag: seq<bv8>)
    requires |fld| == SCTP_FLD && |verTag| == 4 && packet.Length >= HEADERS + SCTP_FLD + |cookie|
    modifies packet
    ensures packet[HEADERS..HEADERS + SCTP_FLD + |cookie|] == fld + cookie
    ensures packet[SCTP + 4..SCTP + 8] == verTag
    ensures forall i :: 0 <= i < packet.Length && (i < SCTP + 4 || i >= HEADERS + SCTP_FLD + |cookie|) ==>
              packet[i] == old(packet[i])
  {
    Store(packet, HEADERS, fld);
    Store(packet, HEADERS + SCTP_FLD, cookie);
    Store(packet, SCTP + 4, verTag);
  }

  // Seal over the common header and the chunk.
  method Seal(packet: array<bv8>, chunkLen: nat)
    requires Readable(packet[..]) && ChunkLen(packet[..]) == chunkLen
    modifies packet
    ensures Readable(packet[..]) && SctpCheck(packet[..]) == Crc32c.Checksum(Covered(packet[..]))
    ensures forall i :: 0 <= i < packet.Length && !(SCTP + 8 <= i < SCTP + 12) ==> packet[i] == old(packet[i])
  {
    hide FromNet16, FromHost32, Crc32c.Checksum;
    ghost var p := packet[..];
    StampSctp(packet, HEADERS + chunkLen);
    assert packet[HEADERS + 2..HEADERS + 4] == p[HEADERS + 2..HEADERS + 4];
  }
}
