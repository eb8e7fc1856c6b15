/** Octets in memory and the byte orders of a little-endian host. */
module Bytes {
  import opened Constants

  lemma SliceOfSlice(s: seq<bv8>, a: nat, b: nat, i: nat, j: nat)
    requires a <= b <= |s| && i <= j <= b - a
    ensures s[a..b][i..j] == s[a + i..a + j]
  {
    var r, w := s[a..b][i..j], s[a + i..a + j];
    forall k | 0 <= k < |w|
      ensures r[k] == w[k]
    {
      assert r[k] == s[a..b][i + k];
    }
  }

  function Byte(x: nat): bv8
    requires x < U8
  {
    x as bv8
  }

  function Val(b: bv8): (r: nat)
    ensures r < U8
  {
    b as nat
  }

  lemma NextVal(b: bv8)
    requires b < 255
    ensures Val(b + 1) == Val(b) + 1
  {
  }

  // Every small number is the value of an octet.
  lemma {:induction false} SomeByte(x: nat) returns (b: bv8)
    requires x < U8
    ensures Val(b) == x
  {
    if x == 0 {
      b := 0;
    } else {
      b := SomeByte(x - 1);
      NextVal(b);
      b := b + 1;
    }
  }

  lemma ValByte(x: nat)
    requires x < U8
    ensures Val(Byte(x)) == x
  {
    var b := SomeByte(x);
    ByteVal(b);
  }

  lemma ByteVal(b: bv8)
    ensures Byte(Val(b)) == b
  {
  }

  // A 16-bit value in network order, and in the order of the host.
  function Net16(x: nat): (r: seq<bv8>)
    requires x < U16
    ensures |r| == 2
  {
    [Byte(x / U8), Byte(x % U8)]
  }

  function Host16(x: nat): (r: seq<bv8>)
    requires x < U16
    ensures |r| == 2
  {
    [Byte(x % U8), Byte(x / U8)]
  }

  function FromNet16(s: seq<bv8>): (r: nat)
    requires |s| == 2
    ensures r < U16
  {
    U8 * Val(s[0]) + Val(s[1])
  }

  function FromHost16(s: seq<bv8>): (r: nat)
    requires |s| == 2
    ensures r < U16
  {
    Val(s[0]) + U8 * Val(s[1])
  }

  lemma Net16RoundTrip(x: nat)
    requires x < U16
    ensures FromNet16(Net16(x)) == x
  {
    hide Byte, Val;
    ValByte(x / U8);
    ValByte(x % U8);
  }

  lemma Host16RoundTrip(x: nat)
    requires x < U16
    ensures FromHost16(Host16(x)) == x
  {
    hide Byte, Val;
    ValByte(x / U8);
    ValByte(x % U8);
  }

  lemma Host16Bytes(s: seq<bv8>)
    requires |s| == 2
    ensures Host16(FromHost16(s)) == s
  {
    hide Byte, Val;
    ByteVal(s[0]);
    ByteVal(s[1]);
  }

  // What the host reads from a value stored in network order, and back: htons and ntohs.
  function Swap16(x: nat): (r: nat)
    requires x < U16
    ensures r < U16
  {
    x / U8 + U8 * (x % U8)
  }

  // htonl and ntohl.
  function Swap32(x: nat): (r: nat)
    requires x < U32
    ensures r < U32
  {
    U16 * Swap16(x % U16) + Swap16(x / U16)
  }

  // A 32-bit value in the order of the host.
  function Octet0(c: bv32): bv8 { (c & 0xFF) as bv8 }

  function Octet1(c: bv32): bv8 { ((c >> 8) & 0xFF) as bv8 }

  function Octet2(c: bv32): bv8 { ((c >> 16) & 0xFF) as bv8 }

  function Octet3(c: bv32): bv8 { ((c >> 24) & 0xFF) as bv8 }

  function Pack(s0: bv8, s1: bv8, s2: bv8, s3: bv8): bv32 {
    (s0 as bv32) | ((s1 as bv32) << 8) | ((s2 as bv32) << 16) | ((s3 as bv32) << 24)
  }

  function Host32(c: bv32): (r: seq<bv8>)
    ensures |r| == 4
  {
    [Octet0(c), Octet1(c), Octet2(c), Octet3(c)]
  }

  function FromHost32(s: seq<bv8>): bv32
    requires |s| == 4
  {
    Pack(s[0], s[1], s[2], s[3])
  }

  lemma PackOctets(c: bv32)
    ensures Pack(Octet0(c), Octet1(c), Octet2(c), Octet3(c)) == c
  {
  }

  lemma OctetsOfPack(s0: bv8, s1: bv8, s2: bv8, s3: bv8)
    ensures
      var c := Pack(s0, s1, s2, s3);
      Octet0(c) == s0 && Octet1(c) == s1 && Octet2(c) == s2 && Octet3(c) == s3
  {
  }

  lemma Host32RoundTrip(c: bv32)
    ensures FromHost32(Host32(c)) == c
  {
    hide Pack, Octet0, Octet1, Octet2, Octet3;
    PackOctets(c);
  }

  lemma Host32Bytes(s: seq<bv8>)
    requires |s| == 4
    ensures Host32(FromHost32(s)) == s
  {
    hide Pack, Octet0, Octet1, Octet2, Octet3;
    OctetsOfPack(s[0], s[1], s[2], s[3]);
  }

  // --------------------------------------------- values of n octets

  // x in n octets, low order first.
  function LeBytes(x: nat, n: nat): (r: seq<bv8>)
    ensures |r| == n
    decreases n
  {
    if n == 0 then [] else [Byte(x % U8)] + LeBytes(x / U8, n - 1)
  }

  function Pow256(n: nat): nat
    decreases n
  {
    if n == 0 then 1 else U8 * Pow256(n - 1)
  }

  lemma Pow256Four()
    ensures Pow256(4) == U32
  {
    assert Pow256(2) == 0x1_0000;
  }

  function FromLe(s: seq<bv8>): nat
    decreases |s|
  {
    if |s| == 0 then 0 else Val(s[0]) + U8 * FromLe(s[1..])
  }

  lemma {:induction false} LeRoundTrip(x: nat, n: nat)
    requires x < Pow256(n)
    ensures FromLe(LeBytes(x, n)) == x
    decreases n
  {
    hide Byte, Val;
    if n > 0 {
      assert x / U8 < Pow256(n - 1);
      LeRoundTrip(x / U8, n - 1);
      ValByte(x % U8);
      assert LeBytes(x, n)[1..] == LeBytes(x / U8, n - 1);
    }
  }
}
