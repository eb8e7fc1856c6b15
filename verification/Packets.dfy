/** Frames of MAC, IPv4 and SCTP, and the receiver's check of their checksums. */
module Packets {
  import opened Constants
  import opened Bytes
  import InternetChecksum
  import Crc32c
  import Layout

  const SCTP: nat := MAC + IPV4          // where the common header starts
  const HEADERS: nat := SCTP + SCTP_CMN  // where the chunk starts

  // s with the bytes from i on replaced.
  function Put(s: seq<bv8>, i: nat, v: seq<bv8>): (r: seq<bv8>)
    requires i + |v| <= |s|
    ensures |r| == |s| && r[i..i + |v|] == v
    ensures forall j :: 0 <= j < |s| && !(i <= j < i + |v|) ==> r[j] == s[j]
  {
    s[..i] + v + s[i + |v|..]
  }

  // --------------------------------------------- what a receiver reads

  function Ip(p: seq<bv8>): (r: seq<bv8>)
    requires |p| >= HEADERS
    ensures |r| == IPV4
  {
    p[MAC..SCTP]
  }

  function IpCheck(p: seq<bv8>): nat
    requires |p| >= HEADERS
  {
    FromHost16(p[MAC + 10..MAC + 12])
  }

  function IpLen(p: seq<bv8>): nat
    requires |p| >= HEADERS
  {
    FromNet16(p[MAC + 2..MAC + 4])
  }

  function ChunkLen(p: seq<bv8>): nat
    requires |p| >= HEADERS + SCTP_FLD
  {
    FromNet16(p[HEADERS + 2..HEADERS + 4])
  }

  function SctpCheck(p: seq<bv8>): bv32
    requires |p| >= HEADERS
  {
    FromHost32(p[SCTP + 8..SCTP + 12])
  }

  // The buffer holds the chunk header and as many bytes as the chunk header says.
  predicate Readable(p: seq<bv8>) {
    |p| >= HEADERS + SCTP_FLD && HEADERS + ChunkLen(p) <= |p|
  }

  // The check an IPv4 header should carry: computed with the field itself zero.
  function IpCheckOf(ip: seq<bv8>): nat
    requires |ip| == IPV4
  {
    InternetChecksum.CheckOf(InternetChecksum.Words(Put(ip, 10, [0, 0])))
  }

  // The bytes the SCTP check covers: the common header, its check zero, and one chunk.
  function Covered(p: seq<bv8>): (r: seq<bv8>)
    requires Readable(p)
    ensures |r| == SCTP_CMN + ChunkLen(p)
  {
    Put(p, SCTP + 8, [0, 0, 0, 0])[SCTP..HEADERS + ChunkLen(p)]
  }

  predicate IpOk(p: seq<bv8>)
    requires |p| >= HEADERS
  {
    IpCheck(p) == IpCheckOf(Ip(p)) && IpLen(p) >= IPV4 + SCTP_CMN + SCTP_FLD
  }

  // What a receiver accepts.
  predicate Accepts(p: seq<bv8>) {
    Readable(p) && IpOk(p) && SctpCheck(p) == Crc32c.Checksum(Covered(p))
  }

  // --------------------------------------------- the receiver

  method Store(packet: array<bv8>, i: nat, v: seq<bv8>)
    requires i + |v| <= packet.Length
    modifies packet
    ensures packet[..] == Put(old(packet[..]), i, v)
  {
    hide Put;
    for k := 0 to |v|
      invariant forall j :: 0 <= j < packet.Length ==>
        packet[j] == if i <= j < i + k then v[j - i] else old(packet[j])
    {
      packet[i + k] := v[k];
    }
    PutIs(old(packet[..]), i, v, packet[..]);
  }

  lemma PutIs(s: seq<bv8>, i: nat, v: seq<bv8>, r: seq<bv8>)
    requires i + |v| <= |s| == |r|
    requires forall j :: 0 <= j < |s| ==> r[j] == if i <= j < i + |v| then v[j - i] else s[j]
    ensures r == Put(s, i, v)
  {
  }

  lemma PutBack(p: seq<bv8>, i: nat, zeros: seq<bv8>)
    requires i + |zeros| <= |p|
    ensures Put(Put(p, i, zeros), i, p[i..i + |zeros|]) == p
  {
  }

  lemma PutPart(p: seq<bv8>)
    requires |p| >= HEADERS
    ensures Put(p, MAC + 10, [0, 0])[MAC..SCTP] == Put(Ip(p), 10, [0, 0])
  {
  }

  // What the receiver leaves of a packet: a check that does not match stays zero.
  function Left(p: seq<bv8>): seq<bv8>
    requires Readable(p)
  {
    if IpCheck(p) != IpCheckOf(Ip(p)) then Put(p, 24, [0, 0])
    else if IpLen(p) >= 36 && SctpCheck(p) != Crc32c.Checksum(Covered(p)) then Put(p, 42, [0, 0, 0, 0])
    else p
  }

  // sctp_check_checksums.
  method CheckChecksums(packet: array<bv8>, plen: nat) returns (r: int)
    requires plen >= HEADERS ==> Readable(packet[..])
    modifies packet
    ensures r == 0 || r == -1
    ensures r == 0 <==> plen >= HEADERS && Accepts(old(packet[..]))
    ensures plen < 46 ==> r == -1
    ensures packet[..] == if plen < 46 then old(packet[..]) else Left(old(packet[..]))
  {
    hide FromHost16, FromHost32, FromNet16, Host32, InternetChecksum.CheckOf, InternetChecksum.Words, Put, Covered,
      Crc32c.Crc, Crc32c.Checksum;
    if plen < HEADERS {
      return -1;
    }
    r := CheckIp(packet);
    if r == 0 {
      r := CheckSctp(packet);
    }
  }

  method CheckIp(packet: array<bv8>) returns (r: int)
    requires packet.Length >= HEADERS
    modifies packet
    ensures r == 0 || r == -1
    ensures r == 0 <==> IpOk(old(packet[..]))
    ensures packet[..] == if IpCheck(old(packet[..])) == IpCheckOf(Ip(old(packet[..]))) then old(packet[..])
                          else Put(old(packet[..]), 24, [0, 0])
  {
    hide FromHost16, Host16, FromNet16, InternetChecksum.Words, InternetChecksum.CheckOf, InternetChecksum.Canonical;
    ghost var p := packet[..];
    var field := packet[MAC + 10..MAC + 12];
    var checkIp := FromHost16(field);
    Store(packet, MAC + 10, [0, 0]);
    PutPart(p);
    var ip := packet[MAC..SCTP];
    assert ip == Put(Ip(p), 10, [0, 0]);
    var sum := InternetChecksum.IpChecksum(ip);
    assert ip[..20] == ip;
    if checkIp != InternetChecksum.U16_MAX - sum {
      CheckIs(ip);
      return -1;
    }
    CheckIs(ip);
    Host16Bytes(field);
    Store(packet, MAC + 10, Host16(checkIp));
    PutBack(p, MAC + 10, [0, 0]);
    var len := FromNet16(packet[MAC + 2..MAC + 4]);
    r := if len < IPV4 + SCTP_CMN + SCTP_FLD then -1 else 0;
  }

  lemma CheckIs(ip: seq<bv8>)
    requires |ip| == IPV4
    ensures InternetChecksum.CheckOf(InternetChecksum.Words(ip))
         == InternetChecksum.U16_MAX - InternetChecksum.Canonical(InternetChecksum.Total(InternetChecksum.Words(ip)))
  {
  }

  method CheckSctp(packet: array<bv8>) returns (r: int)
    requires Readable(packet[..])
    modifies packet
    ensures r == 0 || r == -1
    ensures r == 0 <==> SctpCheck(old(packet[..])) == Crc32c.Checksum(Covered(old(packet[..])))
    ensures packet[..] == if r == 0 then old(packet[..]) else Put(old(packet[..]), 42, [0, 0, 0, 0])
  {
    hide FromHost32, Host32, FromNet16, Crc32c.Checksum;
    ghost var p := packet[..];
    var end := HEADERS + FromNet16(packet[HEADERS + 2..HEADERS + 4]);
    var field := packet[SCTP + 8..SCTP + 12];
    var check := FromHost32(field);
    Store(packet, SCTP + 8, [0, 0, 0, 0]);
    assert packet[SCTP..end] == Covered(p);
    var crc := Crc32c.Generate(packet[SCTP..end]);
    if check != crc {
      return -1;
    }
    Host32Bytes(field);
    Store(packet, SCTP + 8, Host32(check));
    PutBack(p, SCTP + 8, [0, 0, 0, 0]);
    r := 0;
  }

  // Bytes behind the packet, as in a larger receive buffer, do not matter.
  lemma TrailingIgnored(p: seq<bv8>, rest: seq<bv8>)
    requires Readable(p)
    ensures Accepts(p + rest) <==> Accepts(p)
  {
    hide FromHost16, FromHost32, FromNet16, Crc32c.Checksum, InternetChecksum.CheckOf, InternetChecksum.Words, Put;
    var q := p + rest;
    assert q[MAC..SCTP] == p[MAC..SCTP];
    assert q[MAC + 2..MAC + 4] == p[MAC + 2..MAC + 4];
    assert q[MAC + 10..MAC + 12] == p[MAC + 10..MAC + 12];
    assert q[HEADERS + 2..HEADERS + 4] == p[HEADERS + 2..HEADERS + 4];
    assert q[SCTP + 8..SCTP + 12] == p[SCTP + 8..SCTP + 12];
    CoveredBytes(p);
    CoveredBytes(q);
    assert Covered(q) == Covered(p);
  }

  // --------------------------------------------- what acceptance means

  lemma WordsPut(ip: seq<bv8>, k: nat, v: seq<bv8>)
    requires |ip| == IPV4 && 2 * k + 2 <= IPV4 && |v| == 2
    ensures InternetChecksum.Words(Put(ip, 2 * k, v)) == InternetChecksum.Words(ip)[k := FromHost16(v)]
  {
    hide FromHost16;
    var r, w := Put(ip, 2 * k, v), InternetChecksum.Words(ip);
    forall i | 0 <= i < |w|
      ensures InternetChecksum.Words(r)[i] == w[k := FromHost16(v)][i]
    {
      if i != k {
        assert r[2 * i..2 * i + 2] == ip[2 * i..2 * i + 2];
      }
    }
  }

  // Bytes 10 and 11 do not matter to the check.
  lemma CheckIgnored(ip: seq<bv8>, v: seq<bv8>)
    requires |ip| == IPV4 && |v| == 2
    ensures IpCheckOf(Put(ip, 10, v)) == IpCheckOf(ip)
  {
    assert Put(Put(ip, 10, v), 10, [0, 0]) == Put(ip, 10, [0, 0]);
  }

  // A check is the complement of the sum of the other words exactly when all words together sum to
  // 0xFFFF, but for the check 0xFFFF, which only an otherwise zero header has.
  lemma CheckSums(words: seq<nat>, k: nat)
    requires k < |words| && InternetChecksum.Are16(words)
    ensures words[k] == InternetChecksum.CheckOf(words[k := 0])
       <==> InternetChecksum.Canonical(InternetChecksum.Total(words)) == 0xFFFF
            && (words[k] == 0xFFFF ==> InternetChecksum.Total(words[k := 0]) == 0)
  {
    hide InternetChecksum.Canonical;
    InternetChecksum.TotalUpdate(words, k, 0);
    var rest, check := InternetChecksum.Total(words[k := 0]), words[k];
    assert InternetChecksum.Total(words) == rest + check;
    InternetChecksum.CanonicalAdd(rest, check);
    InternetChecksum.CanonicalStep(InternetChecksum.Canonical(rest), check);
  }

  // The ten words of the IPv4 header sum to 0xFFFF in one's complement (RFC 1071), and the check is not
  // 0xFFFF unless all the others are zero.
  ghost predicate HeaderSums(p: seq<bv8>)
    requires |p| >= 50
  {
    var words := InternetChecksum.Words(p[14..34]);
    && InternetChecksum.Canonical(InternetChecksum.Total(words)) == 0xFFFF
    && (words[5] == 0xFFFF ==> InternetChecksum.Total(words[5 := 0]) == 0)
  }

  lemma HeaderSumsIff(p: seq<bv8>)
    requires |p| >= 50
    ensures HeaderSums(p) <==> IpCheck(p) == IpCheckOf(Ip(p))
  {
    hide FromHost16, InternetChecksum.Canonical, InternetChecksum.CheckOf;
    var ip := Ip(p);
    var words := InternetChecksum.Words(ip);
    assert MAC == 14 && SCTP == 34;
    SliceOfSlice(p, 14, 34, 10, 12);
    ZeroWord();
    WordsPut(ip, 5, [0, 0]);
    CheckSums(words, 5);
  }

  lemma ZeroWord()
    ensures FromHost16([0, 0]) == 0
  {
  }

  // A frame is accepted exactly when its chunk lies in the buffer, its header sums, its IPv4 length is at
  // least 36, and its SCTP check is, low octet first, the CRC32C of the SCTP part with a zero check.
  lemma AcceptsIff(p: seq<bv8>)
    requires |p| >= 50
    ensures Accepts(p) <==>
      && 46 + Layout.At16(p, 48) <= |p| && HeaderSums(p) && Layout.At16(p, 16) >= 36
      && p[42..46] == Layout.CheckBytes(Crc32c.Checksum(Layout.Checked(p)))
  {
    hide FromHost16, FromNet16, FromHost32, Host32, Crc32c.Checksum, HeaderSums, IpCheckOf, Layout.At16, Layout.CheckBytes;
    HeaderSumsIff(p);
    Layout.At16Is(p, 16);
    Layout.At16Is(p, 48);
    if Readable(p) {
      CoveredBytes(p);
      var n := Layout.At16(p, 48);
      assert Covered(p) == Layout.Checked(p) by {
        assert |Covered(p)| == 12 + n == |Layout.Checked(p)|;
      }
      var c := Crc32c.Checksum(Covered(p));
      Layout.CheckBytesIs(c);
      Host32RoundTrip(c);
      Host32Bytes(p[42..46]);
    }
  }

  // Two 16-bit words that differ, and are not 0x0000 and 0xFFFF.
  predicate Changes(a: seq<bv8>, b: seq<bv8>)
    requires |a| == |b| == 2
  {
    a != b && !(a == [0, 0] && b == [0xFF, 0xFF]) && !(a == [0xFF, 0xFF] && b == [0, 0])
  }

  lemma ResiduesDiffer(a: nat, b: nat)
    requires InternetChecksum.Canonical(a) == InternetChecksum.Canonical(b)
    ensures (a - b) % 65535 == 0
  {
    var c := InternetChecksum.Canonical(a);
    assert a - b == (a - c) - (b - c);
  }

  lemma EndWords()
    ensures Host16(0) == [0, 0] && Host16(0xFFFF) == [0xFF, 0xFF]
  {
  }

  lemma ChangesResidue(a: seq<bv8>, b: seq<bv8>)
    requires |a| == |b| == 2 && Changes(a, b)
    ensures (FromHost16(a) - FromHost16(b)) % 65535 != 0
  {
    hide FromHost16, Host16;
    Host16Bytes(a);
    Host16Bytes(b);
    EndWords();
    SmallDifference(FromHost16(a), FromHost16(b));
  }

  lemma SmallDifference(x: int, y: int)
    requires 0 <= x < U16 && 0 <= y < U16 && x != y
    requires !(x == 0 && y == 0xFFFF) && !(x == 0xFFFF && y == 0)
    ensures (x - y) % 65535 != 0
  {
    if x < y {
      assert (x - y) % 65535 == x - y + 65535;
    }
  }

  // A frame whose bytes from i on are replaced, seen through a part of it.
  lemma PartPut(p: seq<bv8>, q: seq<bv8>, a: nat, b: nat, i: nat)
    requires |p| == |q| && a <= b <= |p| && i + 2 <= b - a
    requires forall k :: 0 <= k < |p| && !(a + i <= k < a + i + 2) ==> q[k] == p[k]
    ensures q[a..b] == Put(p[a..b], i, q[a + i..a + i + 2])
    ensures p[a..b][i..i + 2] == p[a + i..a + i + 2]
  {
    SliceOfSlice(p, a, b, i, i + 2);
  }

  lemma OneWordOff(p: seq<bv8>, q: seq<bv8>, at: nat)
    requires |p| == |q| >= 50 && HeaderSums(p)
    requires 14 <= at < 34 && at % 2 == 0
    requires forall i :: 0 <= i < |p| && i != at && i != at + 1 ==> q[i] == p[i]
    requires Changes(p[at..at + 2], q[at..at + 2])
    ensures !HeaderSums(q)
  {
    hide FromHost16, Put, Changes, InternetChecksum.Canonical, InternetChecksum.Total;
    var ip, j := p[14..34], (at - 14) / 2;
    var u, v := p[at..at + 2], q[at..at + 2];
    PartPut(p, q, 14, 34, 2 * j);
    WordsPut(ip, j, v);
    var words := InternetChecksum.Words(ip);
    InternetChecksum.TotalUpdate(words, j, FromHost16(v));
    ChangesResidue(u, v);
    if HeaderSums(q) {
      ResiduesDiffer(InternetChecksum.Total(words), InternetChecksum.Total(words[j := FromHost16(v)]));
    }
  }

  // Changing one word of the header makes an accepted frame unacceptable, except from 0x0000 to 0xFFFF or
  // back, which are the same to the sum.
  lemma HeaderWordRejected(p: seq<bv8>, q: seq<bv8>, at: nat)
    requires |p| == |q| >= 50 && Accepts(p)
    requires 14 <= at < 34 && at % 2 == 0
    requires forall i :: 0 <= i < |p| && i != at && i != at + 1 ==> q[i] == p[i]
    requires Changes(p[at..at + 2], q[at..at + 2])
    ensures !Accepts(q)
  {
    hide Accepts, Changes, HeaderSums, Layout.Checked, Layout.CheckBytes;
    AcceptsIff(p);
    AcceptsIff(q);
    OneWordOff(p, q, at);
  }

  lemma PartDiffers(p: seq<bv8>, q: seq<bv8>, a: nat, b: nat)
    requires |p| == |q| && a <= b <= |p| && p != q
    requires forall i :: 0 <= i < |p| && !(a <= i < b) ==> q[i] == p[i]
    ensures p[a..b] != q[a..b]
  {
    var i :| 0 <= i < |p| && p[i] != q[i];
    assert p[a..b][i - a] != q[a..b][i - a];
  }

  // Changing only the IPv4 check makes an accepted frame unacceptable.
  lemma IpCheckRejected(p: seq<bv8>, q: seq<bv8>)
    requires |p| == |q| >= 50 && Accepts(p) && p != q
    requires forall i :: 0 <= i < |p| && !(24 <= i < 26) ==> q[i] == p[i]
    ensures !Accepts(q)
  {
    hide FromHost16, FromNet16, FromHost32, IpCheckOf, Put, Crc32c.Checksum;
    PartDiffers(p, q, 24, 26);
    PartPut(p, q, 14, 34, 10);
    CheckIgnored(Ip(p), q[24..26]);
    Host16Bytes(p[24..26]);
    Host16Bytes(q[24..26]);
  }

  lemma SameChecked(p: seq<bv8>, q: seq<bv8>)
    requires |p| == |q| >= 50 && p[..42] == q[..42] && p[46..] == q[46..]
    ensures Layout.At16(q, 48) == Layout.At16(p, 48)
    ensures 46 + Layout.At16(p, 48) <= |p| ==> Layout.Checked(q) == Layout.Checked(p)
  {
    hide Layout.At16;
    assert p[46..|p|] == p[46..] && q[46..|q|] == q[46..];
    SliceOfSlice(p, 46, |p|, 2, 4);
    SliceOfSlice(q, 46, |q|, 2, 4);
    assert p[48..50] == q[48..50];
    Layout.At16Is(p, 48);
    Layout.At16Is(q, 48);
    var n := Layout.At16(p, 48);
    if 46 + n <= |p| {
      SliceOfSlice(p, 0, 42, 34, 42);
      SliceOfSlice(q, 0, 42, 34, 42);
      SliceOfSlice(p, 46, |p|, 0, n);
      SliceOfSlice(q, 46, |q|, 0, n);
    }
  }

  // So does changing only the SCTP check.
  lemma SctpCheckRejected(p: seq<bv8>, q: seq<bv8>)
    requires |p| == |q| >= 50 && Accepts(p) && p != q
    requires forall i :: 0 <= i < |p| && !(42 <= i < 46) ==> q[i] == p[i]
    ensures !Accepts(q)
  {
    hide Accepts, HeaderSums, Crc32c.Checksum, Layout.CheckBytes, Layout.At16, Layout.Checked;
    AcceptsIff(p);
    AcceptsIff(q);
    PartDiffers(p, q, 42, 46);
    SameChecked(p, q);
  }

  // --------------------------------------------- stamping checks

  // Zero the IPv4 check, compute it over the header, store it.
  method StampIp(packet: array<bv8>)
    requires packet.Length >= HEADERS
    modifies packet
    ensures IpCheck(packet[..]) == IpCheckOf(Ip(packet[..]))
    ensures forall i :: 0 <= i < packet.Length && !(MAC + 10 <= i < MAC + 12) ==> packet[i] == old(packet[i])
  {
    hide FromHost16, Host16, InternetChecksum.Words, InternetChecksum.CheckOf, InternetChecksum.Canonical;
    Store(packet, MAC + 10, [0, 0]);
    ghost var open := packet[..];
    var ip := packet[MAC..SCTP];
    assert InternetChecksum.Padded(ip) == ip;
    var sum := InternetChecksum.TcpChecksum(ip);
    CheckIs(ip);
    Store(packet, MAC + 10, Host16(sum));
    ghost var q := packet[..];
    Host16RoundTrip(sum);
    assert Put(Ip(q), 10, [0, 0]) == ip;
  }

  // Zero the SCTP check, compute it over the bytes up to end, store it.
  method StampSctp(packet: array<bv8>, end: nat)
    requires HEADERS <= end <= packet.Length
    modifies packet
    ensures SctpCheck(packet[..]) == Crc32c.Checksum(Put(packet[..], SCTP + 8, [0, 0, 0, 0])[SCTP..end])
    ensures forall i :: 0 <= i < packet.Length && !(SCTP + 8 <= i < SCTP + 12) ==> packet[i] == old(packet[i])
  {
    hide FromHost32, Host32, Crc32c.Checksum;
    Store(packet, SCTP + 8, [0, 0, 0, 0]);
    ghost var open := packet[..];
    var crc := Crc32c.Generate(packet[SCTP..end]);
    Store(packet, SCTP + 8, Host32(crc));
    Host32RoundTrip(crc);
    assert Put(packet[..], SCTP + 8, [0, 0, 0, 0]) == open;
  }

  // --------------------------------------------- corruption

  // q differs from p, and only in covered bytes other than the check and the chunk length.
  ghost predicate Corrupts(p: seq<bv8>, q: seq<bv8>)
    requires Readable(p)
  {
    && |q| == |p| && q != p
    && forall i :: 0 <= i < |p| && q[i] != p[i] ==>
         && SCTP <= i < HEADERS + ChunkLen(p)
         && !(SCTP + 8 <= i < SCTP + 12) && !(HEADERS + 2 <= i < HEADERS + 4)
  }

  // Flipping any bits within 32 consecutive ones of an accepted packet makes the receiver reject it.
  lemma BitBurstRejected(p: seq<bv8>, q: seq<bv8>, at: nat)
    requires Accepts(p) && Corrupts(p, q)
    requires forall j :: 0 <= j < 8 * |p| && !(at <= j < at + 32) ==>
      Crc32c.MessageBits(q)[j] == Crc32c.MessageBits(p)[j]
    ensures !Accepts(q)
  {
    hide FromHost16, FromHost32, FromNet16, Crc32c.Checksum, InternetChecksum.CheckOf, InternetChecksum.Words,
      Covered, Put, Crc32c.MessageBits;
    assert q[MAC..SCTP] == p[MAC..SCTP];
    assert q[HEADERS + 2..HEADERS + 4] == p[HEADERS + 2..HEADERS + 4];
    assert q[SCTP + 8..SCTP + 12] == p[SCTP + 8..SCTP + 12];
    CoveredBytes(p);
    CoveredBytes(q);
    var x, y := Covered(p), Covered(q);
    var i :| 0 <= i < |p| && q[i] != p[i];
    assert x[i - SCTP] != y[i - SCTP];
    var from := if at < 8 * SCTP then 0 else at - 8 * SCTP;
    forall j | 0 <= j < |Crc32c.MessageBits(x)| && !(from <= j < from + 32)
      ensures Crc32c.MessageBits(x)[j] == Crc32c.MessageBits(y)[j]
    {
      CoveredBits(p, j);
      CoveredBits(q, j);
    }
    Crc32c.BitBurstDetected(x, y, from);
  }

  // A bit of the covered bytes is zero or the packet's.
  lemma CoveredBits(p: seq<bv8>, j: nat)
    requires Readable(p) && j < 8 * |Covered(p)|
    ensures 8 * SCTP + j < 8 * |p|
    ensures 8 <= j / 8 < 12 ==>
      Crc32c.MessageBits(Covered(p))[j] == Crc32c.BitsOf(Crc32c.Extend(0), 8)[j % 8]
    ensures !(8 <= j / 8 < 12) ==>
      Crc32c.MessageBits(Covered(p))[j] == Crc32c.MessageBits(p)[8 * SCTP + j]
  {
    hide FromNet16, Covered, Crc32c.MessageBits, Crc32c.BitsOf, Crc32c.Extend;
    CoveredBytes(p);
    Crc32c.MessageBitsAt(Covered(p), j);
    Crc32c.MessageBitsAt(p, 8 * SCTP + j);
    assert (8 * SCTP + j) / 8 == SCTP + j / 8 && (8 * SCTP + j) % 8 == j % 8;
  }

  // In particular within four consecutive bytes.
  lemma BurstRejected(p: seq<bv8>, q: seq<bv8>, at: nat)
    requires Accepts(p) && Corrupts(p, q)
    requires forall i :: 0 <= i < |p| && q[i] != p[i] ==> at <= i < at + 4
    ensures !Accepts(q)
  {
    hide Accepts, Readable, Crc32c.MessageBits, Crc32c.BitsOf, Crc32c.Extend;
    forall j | 0 <= j < 8 * |p| && !(8 * at <= j < 8 * at + 32)
      ensures Crc32c.MessageBits(q)[j] == Crc32c.MessageBits(p)[j]
    {
      Crc32c.MessageBitsAt(p, j);
      Crc32c.MessageBitsAt(q, j);
      assert q[j / 8] == p[j / 8];
    }
    BitBurstRejected(p, q, 8 * at);
  }

  lemma CoveredBytes(p: seq<bv8>)
    requires Readable(p)
    ensures forall j :: 0 <= j < |Covered(p)| ==> Covered(p)[j] == if 8 <= j < 12 then 0 else p[SCTP + j]
  {
    hide FromNet16;
  }
}
