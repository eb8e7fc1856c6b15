/**
 The layout of a frame as a receiver reads it, with every offset written out: 14 octets of Ethernet, 20 of
 IPv4 (RFC 791, section 3.1), 12 of SCTP common header and 4 of chunk header (RFC 9260, sections 3.1 and 3.2).
 */
module Layout {
  import opened Bytes

  // A 16-bit field, high octet first.
  function At16(s: seq<bv8>, i: nat): nat
    requires i + 2 <= |s|
  {
    256 * Val(s[i]) + Val(s[i + 1])
  }

  // A 32-bit field, high octet first.
  function At32(s: seq<bv8>, i: nat): nat
    requires i + 4 <= |s|
  {
    65536 * At16(s, i) + At16(s, i + 2)
  }

  // A 16-bit and a 32-bit field, low octet first.
  function Le16(s: seq<bv8>, i: nat): nat
    requires i + 2 <= |s|
  {
    Val(s[i]) + 256 * Val(s[i + 1])
  }

  function Le32(s: seq<bv8>, i: nat): nat
    requires i + 4 <= |s|
  {
    Le16(s, i) + 65536 * Le16(s, i + 2)
  }

  datatype Frame = Frame(
    gateway: seq<bv8>, dev: seq<bv8>, etherType: nat,
    version: bv8, ipLen: nat, ttl: bv8, proto: bv8, src: seq<bv8>, dst: seq<bv8>,
    srcPort: nat, dstPort: nat, tag: seq<bv8>,
    kind: bv8, flags: bv8, len: nat, payload: seq<bv8>)

  function Read(p: seq<bv8>): Frame
    requires |p| >= 50
  {
    Frame(p[0..6], p[6..12], At16(p, 12),
          p[14], At16(p, 16), p[22], p[23], p[26..30], p[30..34],
          At16(p, 34), At16(p, 36), p[38..42],
          p[46], p[47], At16(p, 48), p[50..])
  }

  // The fixed part of an INIT or INIT ACK chunk (RFC 9260, sections 3.3.2 and 3.3.3).
  datatype InitFields = InitFields(tag: nat, window: nat, os: nat, mis: nat, tsn: nat)

  function ReadInit(s: seq<bv8>): InitFields
    requires |s| >= 16
  {
    InitFields(At32(s, 0), At32(s, 4), At16(s, 8), At16(s, 10), At32(s, 12))
  }

  // The octets of a 32-bit check, low octet first.
  function CheckBytes(c: bv32): (r: seq<bv8>)
    ensures |r| == 4
  {
    [(c & 0xFF) as bv8, ((c >> 8) & 0xFF) as bv8, ((c >> 16) & 0xFF) as bv8, ((c >> 24) & 0xFF) as bv8]
  }

  // The SCTP part up to the end of the chunk, with a zero check.
  function Checked(p: seq<bv8>): seq<bv8>
    requires |p| >= 50 && 46 + At16(p, 48) <= |p|
  {
    p[34..42] + [0, 0, 0, 0] + p[46..46 + At16(p, 48)]
  }

  lemma At16Is(s: seq<bv8>, i: nat)
    requires i + 2 <= |s|
    ensures FromNet16(s[i..i + 2]) == At16(s, i)
  {
    assert s[i..i + 2][0] == s[i] && s[i..i + 2][1] == s[i + 1];
  }

  lemma CheckBytesIs(c: bv32)
    ensures Host32(c) == CheckBytes(c)
  {
  }

  // A field read inside a part.
  lemma At16Part(s: seq<bv8>, a: nat, b: nat, i: nat)
    requires a <= b <= |s| && i + 2 <= b - a
    ensures At16(s[a..b], i) == At16(s, a + i)
  {
  }

  lemma Le16Is(s: seq<bv8>, i: nat)
    requires i + 2 <= |s|
    ensures FromLe(s[i..i + 2]) == Le16(s, i)
  {
    var t := s[i..i + 2];
    assert t[1..][0] == s[i + 1] && t[1..][1..] == [];
    assert FromLe(t[1..]) == Val(s[i + 1]);
  }

  lemma Le32Is(s: seq<bv8>, i: nat)
    requires i + 4 <= |s|
    ensures FromLe(s[i..i + 4]) == Le32(s, i)
  {
    var t := s[i..i + 4];
    assert t[1..][1..] == s[i + 2..i + 4];
    assert t[0] == s[i] && t[1..][0] == s[i + 1];
    Le16Is(s, i + 2);
    assert FromLe(t[1..]) == Val(s[i + 1]) + 256 * FromLe(s[i + 2..i + 4]);
  }

  // htons and htonl reverse the octets.
  lemma Swap16Octets(a: nat, b: nat)
    requires a < 256 && b < 256
    ensures Swap16(256 * a + b) == 256 * b + a
  {
  }

  lemma Halves(x: nat, y: nat)
    requires y < 65536
    ensures (65536 * x + y) / 65536 == x && (65536 * x + y) % 65536 == y
  {
  }

  lemma Swap32Octets(a: nat, b: nat, c: nat, d: nat)
    requires a < 256 && b < 256 && c < 256 && d < 256
    ensures Swap32(65536 * (256 * a + b) + (256 * c + d)) == 65536 * (256 * d + c) + (256 * b + a)
  {
    hide Swap16;
    Halves(256 * a + b, 256 * c + d);
    Swap16Octets(a, b);
    Swap16Octets(c, d);
  }
}
