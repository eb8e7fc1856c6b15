/** MD5 over a stream of updates; the compression function is a parameter. */
module Md5 {
  import opened Constants
  import opened Bytes
  import opened Modular
  import opened RingIndex

  const BLOCK: nat := 64

  datatype State = State(a: bv32, b: bv32, c: bv32, d: bv32)

  type Compress = (State, seq<bv8>) -> State

  const INITIAL: State := State(0x6745_2301, 0xefcd_ab89, 0x98ba_dcfe, 0x1032_5476)

  // --------------------------------------------- the one-shot digest (RFC 1321, section 3)

  // A one bit, then zero bits up to 56 modulo 64.
  function Padding(len: nat): (r: seq<bv8>)
    ensures 1 <= |r| <= BLOCK && (len + |r|) % BLOCK == 56 && (len + |r| + 8) % BLOCK == 0
    ensures r[0] == 0x80 && forall i :: 1 <= i < |r| ==> r[i] == 0
  {
    var n := if len % BLOCK < 56 then 56 - len % BLOCK else 120 - len % BLOCK;
    [0x80] + seq(n - 1, i => 0)
  }

  function Padded(msg: seq<bv8>): (r: seq<bv8>)
    ensures |r| % BLOCK == 0
  {
    msg + Padding(|msg|) + LeBytes(8 * |msg| % U64, 8)
  }

  // Compress block after block; an incomplete last block is not looked at.
  function Fold(f: Compress, s: State, data: seq<bv8>): State
    decreases |data|
  {
    if |data| < BLOCK then s else Fold(f, f(s, data[..BLOCK]), data[BLOCK..])
  }

  function Encode(s: State): (r: seq<bv8>)
    ensures |r| == 16
  {
    Host32(s.a) + Host32(s.b) + Host32(s.c) + Host32(s.d)
  }

  function Digest(f: Compress, msg: seq<bv8>): (r: seq<bv8>)
    ensures |r| == 16
  {
    Encode(Fold(f, INITIAL, Padded(msg)))
  }

  // --------------------------------------------- blocks

  // The bytes of a message in whole blocks, and the bytes behind them.
  function Whole(n: nat): (r: nat)
    ensures r <= n && r % BLOCK == 0 && r + Part(n) == n
  {
    n / BLOCK * BLOCK
  }

  function Part(n: nat): (r: nat)
    ensures r < BLOCK
  {
    n % BLOCK
  }

  lemma {:induction false} FoldTwo(f: Compress, s: State, a: seq<bv8>, b: seq<bv8>)
    requires |a| % BLOCK == 0
    ensures Fold(f, s, a + b) == Fold(f, Fold(f, s, a), b)
    decreases |a|
  {
    if a == [] {
      assert a + b == b;
    } else {
      assert (a + b)[..BLOCK] == a[..BLOCK];
      assert (a + b)[BLOCK..] == a[BLOCK..] + b;
      FoldTwo(f, f(s, a[..BLOCK]), a[BLOCK..], b);
    }
  }

  lemma FoldBlock(f: Compress, s: State, block: seq<bv8>)
    requires |block| == BLOCK
    ensures Fold(f, s, block) == f(s, block)
  {
    assert block[..BLOCK] == block;
    assert Fold(f, f(s, block), block[BLOCK..]) == f(s, block);
  }

  // The state before the first block, written as Encode writes it (RFC 1321, section 3.3).
  lemma StartBytes()
    ensures Encode(INITIAL) == [0x01, 0x23, 0x45, 0x67, 0x89, 0xab, 0xcd, 0xef,
                                0xfe, 0xdc, 0xba, 0x98, 0x76, 0x54, 0x32, 0x10]
  {
  }

  lemma {:induction false} ZeroLe(n: nat)
    ensures LeBytes(0, n) == seq(n, _ => 0)
  {
    hide Byte;
    if n > 0 {
      ZeroByte();
      ZeroLe(n - 1);
    }
  }

  lemma LeNext(x: nat, n: nat)
    ensures LeBytes(x, n + 1) == [Byte(x % 256)] + LeBytes(x / 256, n)
  {
    hide Byte;
  }

  lemma SmallLe(x: nat)
    requires x < 0x1_0000
    ensures LeBytes(x, 8) == [Byte(x % 256), Byte(x / 256), 0, 0, 0, 0, 0, 0]
  {
    hide Byte, LeBytes;
    LeNext(x, 7);
    LeNext(x / 256, 6);
    ZeroLe(6);
  }

  lemma ZeroByte()
    ensures Byte(0) == 0
  {
  }

  // The digest of a message of at most 55 octets: one block holds it, the octet 0x80, zeros, and its length in
  // bits, low octet first (RFC 1321, sections 3.1 and 3.2).
  lemma ShortDigest(f: Compress, msg: seq<bv8>, block: seq<bv8>)
    requires |msg| <= 55 && |block| == 64
    requires block[..|msg|] == msg && block[|msg|] == 0x80
    requires forall i :: |msg| < i < 64 && i != 56 && i != 57 ==> block[i] == 0
    requires block[56] == Byte(8 * |msg| % 256) && block[57] == Byte(8 * |msg| / 256)
    ensures Digest(f, msg) == Encode(f(State(0x67452301, 0xefcdab89, 0x98badcfe, 0x10325476), block))
  {
    hide Byte, Encode, LeBytes, Fold;
    var n := |msg|;
    SmallLe(8 * n);
    assert 8 * n % U64 == 8 * n;
    var padding, length := Padding(n), LeBytes(8 * n, 8);
    assert |padding| == 56 - n;
    assert block == msg + padding + length by {
      forall i | 0 <= i < 64
        ensures block[i] == (msg + padding + length)[i]
      {
        if i < n {
          assert block[..n][i] == msg[i];
        }
      }
    }
    FoldBlock(f, INITIAL, block);
  }

  // --------------------------------------------- the bit count

  // Two u32 words counting 8 * n bits modulo 2^64.
  ghost predicate Counts(lo: nat, hi: nat, n: nat) {
    lo < U32 && hi < U32 && lo + U32 * hi == 8 * n % U64
  }

  // MD5Update's count: add the bits to the low word, carry when it wraps, add the high bits.
  function CountLo(lo: nat, len: nat): (r: nat)
    ensures r < U32
  {
    (lo + 8 * len % U32) % U32
  }

  function CountHi(lo: nat, hi: nat, len: nat): (r: nat)
    ensures r < U32
  {
    var carry := if CountLo(lo, len) < 8 * len % U32 then 1 else 0;
    (hi + carry + len / 0x2000_0000) % U32
  }

  lemma CarryOut(lo: nat, low: nat)
    requires lo < U32 && low < U32
    ensures (lo + low) % U32 == if lo + low >= U32 then lo + low - U32 else lo + low
    ensures (lo + low) % U32 < low <==> lo + low >= U32
  {
  }

  lemma BitsOfLength(len: nat)
    requires len < U32
    ensures 8 * len == 8 * len % U32 + U32 * (len / 0x2000_0000)
  {
  }

  lemma Wraps(top: nat)
    ensures top % U32 == top - U32 * (top / U32)
  {
  }

  lemma CountAdds(lo: nat, hi: nat, n: nat, len: nat)
    requires Counts(lo, hi, n) && len < U32
    ensures Counts(CountLo(lo, len), CountHi(lo, hi, len), n + len)
  {
    var low, high := 8 * len % U32, len / 0x2000_0000;
    var carry := if lo + low >= U32 then 1 else 0;
    var top := hi + carry + high;
    CarryOut(lo, low);
    BitsOfLength(len);
    Wraps(top);
    var count := CountLo(lo, len) + U32 * CountHi(lo, hi, len);
    SameCount(lo + U32 * hi, n, len, count, top / U32);
  }

  lemma SameCount(was: nat, n: nat, len: nat, count: nat, wraps: nat)
    requires was == 8 * n % U64 && count < U64 && count + U64 * wraps == was + 8 * len
    ensures count == 8 * (n + len) % U64
  {
    ModSum(8 * n, 8 * len, U64);
    ModShift(count, wraps, U64);
  }

  // The index of the next free octet of the buffer.
  lemma CountIndex(lo: nat, hi: nat, n: nat)
    requires Counts(lo, hi, n)
    ensures lo / 8 % BLOCK == Part(n)
  {
    var q := 8 * n / U64;
    var k := 0x80_0000 * hi + 0x80_0000_0000_0000 * q;
    assert 8 * n == lo + 8 * BLOCK * k;
    assert lo == 8 * (n - BLOCK * k);
    ModShift(n, -k, BLOCK);
  }

  // Encode on the two count words.
  lemma CountBytes(lo: nat, hi: nat, n: nat)
    requires Counts(lo, hi, n)
    ensures LeBytes(lo, 4) + LeBytes(hi, 4) == LeBytes(8 * n % U64, 8)
  {
    hide LeBytes, Pow256;
    Pow256Four();
    LeSplit(lo, hi, 4);
  }

  lemma ProductAssociates(a: int, b: int, c: int)
    ensures (a * b) * c == a * (b * c)
  {
  }

  // The low octet of lo + 256^n * hi, and what is left without it.
  lemma LowOctet(lo: nat, hi: nat, n: nat)
    requires n > 0 && lo < Pow256(n)
    ensures (lo + Pow256(n) * hi) % U8 == lo % U8
    ensures (lo + Pow256(n) * hi) / U8 == lo / U8 + Pow256(n - 1) * hi
    ensures lo / U8 < Pow256(n - 1)
  {
    var p := Pow256(n - 1);
    var rest := p * hi;
    assert Pow256(n) == U8 * p;
    ProductAssociates(U8, p, hi);
    ModUnique(lo + U8 * rest, U8, lo / U8 + rest, lo % U8);
  }

  lemma Pow256Zero()
    ensures Pow256(0) == 1
  {
  }

  lemma {:induction false} LeSplit(lo: nat, hi: nat, n: nat)
    requires lo < Pow256(n)
    ensures LeBytes(lo + Pow256(n) * hi, n + 4) == LeBytes(lo, n) + LeBytes(hi, 4)
    decreases n
  {
    hide Byte, Pow256;
    if n == 0 {
      Pow256Zero();
    } else {
      LowOctet(lo, hi, n);
      LeSplit(lo / U8, hi, n - 1);
    }
  }

  // --------------------------------------------- the loop guard

  // After the last whole block i is the length less the bytes left over; the guard i + 63 < len is
  // evaluated in 32 bits.
  lemma GuardStops(index: nat, len: nat)
    requires index < BLOCK && len < U32 && index + len >= BLOCK
    ensures
      var i := len - (index + len) % BLOCK;
      (i + 63) % U32 >= len <==> index + len < U32
  {
  }

  // Whole blocks straight from the input.
  method Blocks(f: Compress, start: State, input: seq<bv8>, from: nat) returns (s: State, i: nat)
    requires from <= |input| < U32
    ensures from <= i <= |input| < i + BLOCK && (i - from) % BLOCK == 0
    ensures s == Fold(f, start, input[from..i])
  {
    hide Fold;
    s, i := start, from;
    FoldNone(f, s, input[from..i]);
    while i + 63 < |input|
      invariant from <= i <= |input| && (i - from) % BLOCK == 0
      invariant s == Fold(f, start, input[from..i])
    {
      var block := input[i..i + BLOCK];
      assert input[from..i] + block == input[from..i + BLOCK];
      FoldTwo(f, start, input[from..i], block);
      FoldBlock(f, s, block);
      s := f(s, block);
      i := i + BLOCK;
    }
  }

  lemma FoldNone(f: Compress, s: State, data: seq<bv8>)
    requires data == []
    ensures Fold(f, s, data) == s
  {
  }

  lemma NextWhole(n: nat, from: nat, to: nat, len: nat)
    requires from == BLOCK - Part(n) <= to <= len < to + BLOCK && (to - from) % BLOCK == 0
    ensures Whole(n + len) == n + to && Part(n + len) == len - to
  {
    assert n + to == Whole(n) + BLOCK + (to - from);
    assert (n + to) % BLOCK == 0;
  }

  // The whole blocks of the old message, the completed block and the blocks from the input make up
  // the whole blocks of the new message.
  lemma FoldUpdate(f: Compress, msg: seq<bv8>, input: seq<bv8>, s: State, block: seq<bv8>, from: nat, to: nat)
    requires from == BLOCK - Part(|msg|) <= to <= |input| < to + BLOCK && (to - from) % BLOCK == 0
    requires s == Fold(f, INITIAL, msg[..Whole(|msg|)])
    requires block == msg[Whole(|msg|)..] + input[..from]
    ensures
      var whole := Whole(|msg + input|);
      Fold(f, f(s, block), input[from..to]) == Fold(f, INITIAL, (msg + input)[..whole])
      && (msg + input)[whole..] == input[to..] && Part(|msg + input|) == |input| - to
  {
    hide Fold, Whole, Part;
    var all, before := msg + input, msg[..Whole(|msg|)];
    var whole := |msg| + to;
    NextWhole(|msg|, from, to, |input|);
    FoldBlock(f, s, block);
    FoldTwo(f, INITIAL, before, block);
    FoldTwo(f, INITIAL, before + block, input[from..to]);
    assert before + block + input[from..to] == all[..whole];
  }

  lemma NoBlock(msg: seq<bv8>, input: seq<bv8>)
    requires Part(|msg|) + |input| < BLOCK
    ensures
      var whole := Whole(|msg|);
      Whole(|msg + input|) == whole && Part(|msg + input|) == Part(|msg|) + |input|
      && (msg + input)[..whole] == msg[..whole] && (msg + input)[whole..] == msg[whole..] + input
  {
  }

  // --------------------------------------------- the context

  class Context {
    const compress: Compress
    const buffer: array<bv8>
    var lo: nat
    var hi: nat
    var state: State
    ghost var msg: seq<bv8>      // everything put in so far

    // The whole blocks are in the state, the bytes behind them in the buffer.
    ghost predicate Buffered()
      reads `state, `msg, buffer
    {
      var whole := Whole(|msg|);
      && buffer.Length == BLOCK
      && state == Fold(compress, INITIAL, msg[..whole])
      && buffer[..Part(|msg|)] == msg[whole..]
    }

    ghost predicate Valid()
      reads this, buffer
    {
      Counts(lo, hi, |msg|) && Buffered()
    }

    // MD5Init
    constructor (f: Compress)
      ensures Valid() && msg == [] && compress == f && fresh(buffer)
    {
      compress := f;
      buffer := new bv8[BLOCK];
      lo, hi := 0, 0;
      state := INITIAL;
      msg := [];
    }

    method Copy(at: nat, input: seq<bv8>)
      requires buffer.Length == BLOCK && at + |input| <= BLOCK
      modifies buffer
      ensures buffer[..at + |input|] == old(buffer[..at]) + input
    {
      for i := 0 to |input|
        invariant buffer[..at + i] == old(buffer[..at]) + input[..i]
      {
        buffer[at + i] := input[i];
      }
    }

    // The buffer is completed and compressed, then the whole blocks of the input.
    method TakeBlocks(index: nat, input: seq<bv8>) returns (s: State, i: nat)
      requires Buffered() && index == Part(|msg|) && BLOCK - index <= |input| < U32
      modifies buffer
      ensures
        var all := msg + input;
        i <= |input| && s == Fold(compress, INITIAL, all[..Whole(|all|)])
        && input[i..] == all[Whole(|all|)..] && Part(|all|) == |input| - i
    {
      hide Fold, Whole, Part;
      var partLen := BLOCK - index;
      Copy(index, input[..partLen]);
      assert buffer[..] == buffer[..index + partLen];
      var first := compress(state, buffer[..]);
      s, i := Blocks(compress, first, input, partLen);
      FoldUpdate(compress, msg, input, state, buffer[..], partLen, i);
    }

    method Absorb(index: nat, input: seq<bv8>)
      requires Buffered() && index == Part(|msg|) && |input| < U32
      modifies `state, `msg, buffer
      ensures Buffered() && msg == old(msg) + input
    {
      hide Fold, Whole, Part;
      var at, i := index, 0;
      if |input| >= BLOCK - index {
        state, i := TakeBlocks(index, input);
        at := 0;
      } else {
        NoBlock(msg, input);
      }
      Copy(at, input[i..]);
      msg := msg + input;
    }

    // MD5Update. For longer inputs the guard i + 63 < len wraps and the loop runs past the input.
    method Update(input: seq<bv8>)
      requires Valid() && Part(|msg|) + |input| < U32
      modifies `lo, `hi, `state, `msg, buffer
      ensures Valid() && msg == old(msg) + input
    {
      hide Counts, CountLo, CountHi, Part, Context.Buffered;
      var index := lo / 8 % BLOCK;
      CountIndex(lo, hi, |msg|);
      CountAdds(lo, hi, |msg|, |input|);
      lo, hi := CountLo(lo, |input|), CountHi(lo, hi, |input|);
      Absorb(index, input);
    }

    // MD5Final: the padding and the count taken before it; then the context is cleared.
    method Final() returns (digest: seq<bv8>)
      requires Valid()
      modifies this, buffer
      ensures digest == Digest(compress, old(msg))
    {
      hide Counts, Fold, Encode, LeBytes;
      ghost var whole := msg;
      var bits := LeBytes(lo, 4) + LeBytes(hi, 4);
      CountBytes(lo, hi, |msg|);
      var index := lo / 8 % BLOCK;
      CountIndex(lo, hi, |msg|);
      var padLen := if index < 56 then 56 - index else 120 - index;
      var padding := [0x80] + seq(63, i => 0);
      assert padding[..padLen] == Padding(|msg|);
      Update(padding[..padLen]);
      Update(bits);
      assert msg == Padded(whole);
      assert msg[..|msg|] == msg;
      digest := Encode(state);
      lo, hi, state, msg := 0, 0, State(0, 0, 0, 0), [];
      for i := 0 to BLOCK
        modifies buffer
      {
        buffer[i] := 0;
      }
    }
  }

  // --------------------------------------------- any sequence of updates

  function Concat(parts: seq<seq<bv8>>): seq<bv8> {
    if parts == [] then [] else Concat(parts[..|parts| - 1]) + parts[|parts| - 1]
  }

  method Stream(f: Compress, parts: seq<seq<bv8>>) returns (digest: seq<bv8>)
    requires forall i :: 0 <= i < |parts| ==> Part(|Concat(parts[..i])|) + |parts[i]| < U32
    ensures digest == Digest(f, Concat(parts))
  {
    hide Part, Whole, Fold, Digest, Context.Valid;
    var context := new Context(f);
    for i := 0 to |parts|
      invariant fresh(context) && fresh(context.buffer) && context.compress == f
      invariant context.Valid() && context.msg == Concat(parts[..i])
    {
      assert parts[..i + 1][..i] == parts[..i];
      context.Update(parts[i]);
    }
    assert parts[..|parts|] == parts;
    digest := context.Final();
  }
}
