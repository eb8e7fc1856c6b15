/** HMAC over the MD5 model. */
module HmacMd5 {
  import opened Md5

  const IPAD: bv8 := 0x36
  const OPAD: bv8 := 0x5C

  function Xor(data: seq<bv8>, pad: bv8): (r: seq<bv8>)
    ensures |r| == |data|
  {
    seq(|data|, i requires 0 <= i < |data| => data[i] ^ pad)
  }

  // RFC 2104, section 2: a longer key is hashed first, then zeros are appended up to a block.
  function BlockKey(f: Compress, key: seq<bv8>): (r: seq<bv8>)
    ensures |r| == BLOCK
  {
    var k := if |key| > BLOCK then Digest(f, key) else key;
    k + seq(BLOCK - |k|, _ => 0)
  }

  function Hmac(f: Compress, key: seq<bv8>, text: seq<bv8>): (r: seq<bv8>)
    ensures |r| == 16
  {
    var k := BlockKey(f, key);
    Digest(f, Xor(k, OPAD) + Digest(f, Xor(k, IPAD) + text))
  }

  // Section 2 of RFC 2104 with the octets written out: k is the key, or its digest when it is longer than 64
  // octets, i and o are k and zeros up to 64 octets under 0x36 and 0x5C.
  lemma Rfc2104(f: Compress, key: seq<bv8>, text: seq<bv8>, k: seq<bv8>, i: seq<bv8>, o: seq<bv8>)
    requires k == if |key| <= 64 then key else Digest(f, key)
    requires |i| == |o| == 64
    requires forall j :: 0 <= j < 64 ==> i[j] == (if j < |k| then k[j] else 0) ^ 0x36
    requires forall j :: 0 <= j < 64 ==> o[j] == (if j < |k| then k[j] else 0) ^ 0x5C
    ensures Hmac(f, key, text) == Digest(f, o + Digest(f, i + text))
  {
    hide Digest;
    var b := BlockKey(f, key);
    assert forall j :: 0 <= j < 64 ==> b[j] == if j < |k| then k[j] else 0;
    assert Xor(b, IPAD) == i;
    assert Xor(b, OPAD) == o;
  }

  // Zero the 65-octet pad, copy the key over it, then xor the first 64 octets.
  method Pad(key: seq<bv8>, with: bv8) returns (pad: array<bv8>)
    requires |key| <= BLOCK
    ensures fresh(pad) && pad.Length == 65
    ensures pad[..BLOCK] == Xor(key + seq(BLOCK - |key|, _ => 0), with)
  {
    pad := new bv8[65](_ => 0);
    for i := 0 to |key|
      invariant forall j :: 0 <= j < 65 ==> pad[j] == if j < i then key[j] else 0
    {
      pad[i] := key[i];
    }
    ghost var k := key + seq(BLOCK - |key|, _ => 0);
    assert pad[..BLOCK] == k;
    for i := 0 to BLOCK
      invariant forall j :: 0 <= j < BLOCK ==> pad[j] == if j < i then k[j] ^ with else k[j]
    {
      pad[i] := pad[i] ^ with;
    }
  }

  method OneShot(f: Compress, first: seq<bv8>, second: seq<bv8>) returns (digest: seq<bv8>)
    requires |first| % BLOCK == 0 && |first| < U31 && |second| < U31
    ensures digest == Digest(f, first + second)
  {
    hide Digest, Fold, Whole, Part, Context.Valid;
    var context := new Context(f);
    context.Update(first);
    assert context.msg == first;
    context.Update(second);
    digest := context.Final();
  }

  const U31: nat := 0x8000_0000

  // hmac_md5: the lengths are C ints.
  method HmacMd5(f: Compress, text: seq<bv8>, key: seq<bv8>) returns (digest: seq<bv8>)
    requires |text| < U31 && |key| < U31
    ensures digest == Hmac(f, key, text)
  {
    hide Digest, Fold, Whole, Part, Context.Valid;
    var k := key;
    if |key| > BLOCK {
      var context := new Context(f);
      context.Update(key);
      assert context.msg == key;
      k := context.Final();
    }
    var ipad := Pad(k, IPAD);
    var opad := Pad(k, OPAD);
    digest := OneShot(f, ipad[..BLOCK], text);
    digest := OneShot(f, opad[..BLOCK], digest);
  }
}
