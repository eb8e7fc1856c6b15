/** Any run of allocations, frees of held blocks and writes inside held blocks. */
module SlabRuns {
  import opened Constants
  import opened Slab

  datatype Op = Alloc | Free(i: nat) | Write(i: nat, w: nat, value: int)

  // A block in a client's hands: its address and the words the client believes it holds.
  datatype Held = Held(ptr: int, words: seq<int>)

  function Without<T>(s: seq<T>, n: nat): (r: seq<T>)
    requires n < |s|
    ensures |r| == |s| - 1
    ensures forall i :: 0 <= i < n ==> r[i] == s[i]
    ensures forall i :: n <= i < |r| ==> r[i] == s[i + 1]
  {
    s[..n] + s[n + 1..]
  }

  // The client holds every live block once, and knows its contents.
  ghost predicate Agree(held: seq<Held>, keys: seq<nat>, live: map<nat, seq<int>>, base: nat) {
    && |keys| == |held|
    && (forall i :: 0 <= i < |held| ==>
          keys[i] in live && held[i].ptr == Ptr(base, keys[i]) && held[i].words == live[keys[i]])
    && (forall i, j :: 0 <= i < j < |keys| ==> keys[i] != keys[j])
    && (forall k :: k in live ==> k in keys)
  }

  lemma AgreeAlloc(held: seq<Held>, keys: seq<nat>, live: map<nat, seq<int>>, base: nat, h: Held, k: nat)
    requires Agree(held, keys, live, base) && k !in live && h.ptr == Ptr(base, k)
    ensures Agree(held + [h], keys + [k], live[k := h.words], base)
  {
  }

  lemma AgreeFree(held: seq<Held>, keys: seq<nat>, live: map<nat, seq<int>>, base: nat, n: nat)
    requires Agree(held, keys, live, base) && n < |held|
    ensures Agree(Without(held, n), Without(keys, n), live - {keys[n]}, base)
  {
    hide Without;
    var rest := Without(keys, n);
    forall k | k in live - {keys[n]}
      ensures k in rest
    {
      var i :| 0 <= i < |keys| && keys[i] == k;
      assert rest[if i < n then i else i - 1] == k;
    }
  }

  lemma AgreeWrite(held: seq<Held>, keys: seq<nat>, live: map<nat, seq<int>>, base: nat, n: nat, words: seq<int>)
    requires Agree(held, keys, live, base) && n < |held|
    ensures Agree(held[n := held[n].(words := words)], keys, live[keys[n] := words], base)
  {
  }

  // Blocks are 64-byte aligned from the base, at least 64 bytes apart, and lie in chunks the slab took.
  ghost predicate Placed(held: seq<Held>, base: nat, chunks: set<nat>) {
    && (forall i :: 0 <= i < |held| ==>
          && held[i].ptr >= base && (held[i].ptr - base) % L1_CACHE_BYTES == 0
          && (held[i].ptr - base) / UMEM_CHUNK_SIZE in chunks
          && (held[i].ptr + L1_CACHE_BYTES - 1 - base) / UMEM_CHUNK_SIZE in chunks)
    && (forall i, j :: 0 <= i < j < |held| ==>
          held[i].ptr + L1_CACHE_BYTES <= held[j].ptr || held[j].ptr + L1_CACHE_BYTES <= held[i].ptr)
  }

  lemma HeldPlaced(held: seq<Held>, keys: seq<nat>, live: map<nat, seq<int>>, base: nat,
                   free: seq<nat>, lo: nat, hi: nat, chunks: set<nat>)
    requires Agree(held, keys, live, base) && Partition(live.Keys, free, lo, hi, chunks)
    ensures Placed(held, base, chunks)
  {
    forall i | 0 <= i < |held|
      ensures held[i].ptr >= base && (held[i].ptr - base) % L1_CACHE_BYTES == 0
      ensures (held[i].ptr - base) / UMEM_CHUNK_SIZE in chunks
      ensures (held[i].ptr + L1_CACHE_BYTES - 1 - base) / UMEM_CHUNK_SIZE in chunks
    {
      var k := keys[i];
      assert k in live.Keys && k / PER_CHUNK in chunks;
      assert L1_CACHE_BYTES * k / UMEM_CHUNK_SIZE == k / PER_CHUNK;
      assert (L1_CACHE_BYTES * k + L1_CACHE_BYTES - 1) / UMEM_CHUNK_SIZE == k / PER_CHUNK;
    }
  }

  // --------------------------------------------- what one operation does

  // The number of the block a client holds.
  function BlockOf(h: Held, base: nat): int { (h.ptr - base) / L1_CACHE_BYTES }

  // The words of all blocks.
  ghost function Memory(mem: array2<int>): (r: seq<seq<int>>)
    requires mem.Length1 == WORDS
    reads mem
    ensures |r| == mem.Length0 && forall k :: 0 <= k < |r| ==> r[k] == Block(mem, k)
  {
    seq(mem.Length0, k requires 0 <= k < mem.Length0 && mem.Length1 == WORDS reads mem => Block(mem, k))
  }

  // What the client holds, what is in memory, which chunks the slab has taken and which are on the stack.
  datatype Snap = Snap(held: seq<Held>, memory: seq<seq<int>>, chunks: set<nat>, offsets: seq<nat>)

  // Every held block is well placed, and memory holds the words the client believes it holds.
  ghost predicate Intact(s: Snap, base: nat) {
    && Placed(s.held, base, s.chunks)
    && forall i :: 0 <= i < |s.held| ==>
         0 <= BlockOf(s.held[i], base) < |s.memory| && s.held[i].words == s.memory[BlockOf(s.held[i], base)]
  }

  // Only word w of block k may differ.
  ghost predicate OnlyWord(m: seq<seq<int>>, m': seq<seq<int>>, k: int, w: nat) {
    && |m| == |m'|
    && forall j :: 0 <= j < |m| ==>
         |m[j]| == |m'[j]| && forall v :: 0 <= v < |m[j]| && !(j == k && v == w) ==> m'[j][v] == m[j][v]
  }

  // The effect of one operation. An allocation fails exactly when the client holds all the blocks
  // there are; otherwise it appends one block with the words found in memory, and writes nothing.
  // It takes the top chunk of the stack exactly when the client holds all the blocks not on the stack.
  ghost predicate Follows(s: Snap, op: Op, s': Snap, base: nat, capacity: nat) {
    match op
    case Alloc =>
      if |s.held| >= capacity then s' == s
      else
        && |s'.held| == |s.held| + 1 && s'.held[..|s.held|] == s.held
        && s'.memory == s.memory
        && TookTop(s.offsets, s.chunks, s'.offsets, s'.chunks, |s.held| + PER_CHUNK * |s.offsets| >= capacity)
        && var h := s'.held[|s.held|];
           0 <= BlockOf(h, base) < |s.memory| && h.words == s.memory[BlockOf(h, base)]
    case Free(i) =>
      if i >= |s.held| then s' == s
      else
        && s'.held == Without(s.held, i) && s'.chunks == s.chunks && s'.offsets == s.offsets
        && OnlyWord(s.memory, s'.memory, BlockOf(s.held[i], base), 0)
    case Write(i, w, value) =>
      if i >= |s.held| || w >= WORDS then s' == s
      else
        && |s.held[i].words| == WORDS && s'.chunks == s.chunks && s'.offsets == s.offsets
        && s'.held == s.held[i := s.held[i].(words := s.held[i].words[w := value])]
        && OnlyWord(s.memory, s'.memory, BlockOf(s.held[i], base), w)
  }

  function ChunksAt(offsets: seq<nat>): set<nat> {
    set i | 0 <= i < |offsets| :: offsets[i] / UMEM_CHUNK_SIZE
  }

  // From s0 to s exactly the chunks gone from the top of the stack were taken.
  ghost predicate Supplied(s0: Snap, s: Snap) {
    s.offsets <= s0.offsets && s.chunks == s0.chunks + ChunksAt(s0.offsets[|s.offsets|..])
  }

  lemma SuppliedStep(s0: Snap, s: Snap, op: Op, s': Snap, base: nat, capacity: nat)
    requires Supplied(s0, s) && Follows(s, op, s', base, capacity)
    ensures Supplied(s0, s')
  {
    if s'.offsets != s.offsets {
      var n := |s'.offsets|;
      assert s.offsets[n] == s0.offsets[n];
      assert s0.offsets[n..] == [s0.offsets[n]] + s0.offsets[n + 1..];
      TopChunk(s0.offsets[n], s0.offsets[n + 1..]);
    }
  }

  lemma TopChunk(offset: nat, offsets: seq<nat>)
    ensures ChunksAt([offset] + offsets) == {offset / UMEM_CHUNK_SIZE} + ChunksAt(offsets)
  {
    var all := [offset] + offsets;
    assert all[0] == offset;
    forall c | c in ChunksAt(offsets)
      ensures c in ChunksAt(all)
    {
      var i :| 0 <= i < |offsets| && offsets[i] / UMEM_CHUNK_SIZE == c;
      assert all[i + 1] == offsets[i];
    }
  }

  lemma BlockOfPtr(h: Held, base: nat, k: nat)
    requires h.ptr == Ptr(base, k)
    ensures BlockOf(h, base) == k
  {
  }

  // A client that holds what the slab records is intact.
  lemma AgreeIntact(held: seq<Held>, keys: seq<nat>, live: map<nat, seq<int>>, mem: array2<int>, base: nat,
                    free: seq<nat>, lo: nat, hi: nat, chunks: set<nat>, offsets: seq<nat>)
    requires Agree(held, keys, live, base) && Partition(live.Keys, free, lo, hi, chunks)
    requires mem.Length1 == WORDS && Holds(mem, live)
    ensures Intact(Snap(held, Memory(mem), chunks, offsets), base)
  {
    hide Placed, Partition;
    HeldPlaced(held, keys, live, base, free, lo, hi, chunks);
    var m := Memory(mem);
    forall i | 0 <= i < |held|
      ensures 0 <= BlockOf(held[i], base) < |m| && held[i].words == m[BlockOf(held[i], base)]
    {
      BlockOfPtr(held[i], base, keys[i]);
      assert keys[i] in live;
    }
  }

  method Read(slab: Slab, ptr: int, ghost k: nat) returns (words: seq<int>)
    requires slab.mem.Length1 == WORDS && k < slab.mem.Length0 && ptr == Ptr(slab.base, k)
    ensures words == Block(slab.mem, k)
  {
    words := [];
    for w := 0 to WORDS
      invariant words == Block(slab.mem, k)[..w]
    {
      words := words + [slab.mem[(ptr - slab.base) / L1_CACHE_BYTES, w]];
    }
  }

  ghost function SnapOf(slab: Slab, held: seq<Held>): Snap
    requires slab.mem.Length1 == WORDS && slab.stack.Valid()
    reads slab, slab.mem, slab.stack, slab.stack.addrs
  {
    Snap(held, Memory(slab.mem), slab.chunks, slab.stack.Contents())
  }

  // What the client holds and what the slab can still give add up to the capacity.
  ghost predicate Serves(slab: Slab, held: seq<Held>, keys: seq<nat>, capacity: nat)
    reads slab, slab.mem, slab.stack, slab.stack.addrs
  {
    slab.Valid() && Agree(held, keys, slab.live, slab.base) && |held| + slab.Room() == capacity
  }

  // The client holds every block that is not on the stack exactly when none is freed or unused.
  lemma FullExactly(slab: Slab, held: seq<Held>, keys: seq<nat>, capacity: nat)
    requires Serves(slab, held, keys, capacity)
    ensures |held| + PER_CHUNK * |slab.stack.Contents()| >= capacity <==> slab.free == [] && slab.lo == slab.hi
    ensures |held| >= capacity <==> slab.free == [] && slab.lo == slab.hi && slab.stack.Contents() == []
  {
  }

  method DoAlloc(slab: Slab, held: seq<Held>, ghost keys: seq<nat>, ghost capacity: nat)
    returns (next: seq<Held>, ghost nextKeys: seq<nat>)
    requires Serves(slab, held, keys, capacity)
    modifies slab, slab.mem, slab.stack`top
    ensures Serves(slab, next, nextKeys, capacity)
    ensures Follows(old(SnapOf(slab, held)), Op.Alloc, SnapOf(slab, next), slab.base, capacity)
  {
    hide Partition, Chained, Slab.BumpOk, Slab.StackOk;
    next, nextKeys := held, keys;
    ghost var live := slab.live;
    FullExactly(slab, held, keys, capacity);
    var ptr, k := slab.Alloc();
    assert Memory(slab.mem) == old(Memory(slab.mem));
    if ptr != 0 {
      var words := Read(slab, ptr, k);
      var h := Held(ptr, words);
      AgreeAlloc(held, keys, live, slab.base, h, k);
      BlockOfPtr(h, slab.base, k);
      next, nextKeys := held + [h], keys + [k];
    }
  }

  method DoFree(slab: Slab, i: nat, held: seq<Held>, ghost keys: seq<nat>, ghost capacity: nat)
    returns (next: seq<Held>, ghost nextKeys: seq<nat>)
    requires Serves(slab, held, keys, capacity)
    modifies slab, slab.mem
    ensures Serves(slab, next, nextKeys, capacity)
    ensures Follows(old(SnapOf(slab, held)), Op.Free(i), SnapOf(slab, next), slab.base, capacity)
  {
    hide Partition, Chained, Slab.BumpOk, Slab.StackOk;
    next, nextKeys := held, keys;
    if i < |held| {
      AgreeFree(held, keys, slab.live, slab.base, i);
      BlockOfPtr(held[i], slab.base, keys[i]);
      slab.Free(held[i].ptr, keys[i]);
      next, nextKeys := Without(held, i), Without(keys, i);
    }
  }

  method DoWrite(slab: Slab, i: nat, w: nat, value: int, held: seq<Held>, ghost keys: seq<nat>, ghost capacity: nat)
    returns (next: seq<Held>)
    requires Serves(slab, held, keys, capacity)
    modifies slab, slab.mem
    ensures Serves(slab, next, keys, capacity)
    ensures Follows(old(SnapOf(slab, held)), Op.Write(i, w, value), SnapOf(slab, next), slab.base, capacity)
  {
    hide Partition, Chained, Slab.BumpOk, Slab.StackOk;
    next := held;
    if i < |held| && w < WORDS {
      AgreeWrite(held, keys, slab.live, slab.base, i, held[i].words[w := value]);
      BlockOfPtr(held[i], slab.base, keys[i]);
      slab.Write(held[i].ptr, keys[i], w, value);
      next := held[i := held[i].(words := held[i].words[w := value])];
    }
  }

  method Step(slab: Slab, op: Op, held: seq<Held>, ghost keys: seq<nat>, ghost capacity: nat)
    returns (next: seq<Held>, ghost nextKeys: seq<nat>)
    requires Serves(slab, held, keys, capacity)
    modifies slab, slab.mem, slab.stack`top
    ensures Serves(slab, next, nextKeys, capacity)
    ensures Follows(old(SnapOf(slab, held)), op, SnapOf(slab, next), slab.base, capacity)
  {
    hide Follows, Serves;
    match op
    case Alloc => next, nextKeys := DoAlloc(slab, held, keys, capacity);
    case Free(i) => next, nextKeys := DoFree(slab, i, held, keys, capacity);
    case Write(i, w, value) =>
      next := DoWrite(slab, i, w, value, held, keys, capacity);
      nextKeys := keys;
  }

  lemma SnapIntact(slab: Slab, held: seq<Held>, keys: seq<nat>, capacity: nat)
    requires Serves(slab, held, keys, capacity)
    ensures Intact(SnapOf(slab, held), slab.base)
  {
    hide Intact;
    AgreeIntact(held, keys, slab.live, slab.mem, slab.base, slab.free, slab.lo, slab.hi, slab.chunks,
                slab.stack.Contents());
  }

  lemma NothingTaken(s: Snap)
    ensures Supplied(s, s)
  {
    assert ChunksAt(s.offsets[|s.offsets|..]) == {};
  }

  // Any run, as the states it goes through: from holding nothing, each operation has its effect and
  // no other. In every state the taken chunks are the initial ones and those gone from the stack, and
  // the held blocks are apart, aligned, inside taken chunks, and hold in memory what the client last
  // put or found there, although the free list lies in the freed blocks.
  method Run(slab: Slab, ops: seq<Op>) returns (held: seq<Held>, ghost trace: seq<Snap>)
    requires slab.Valid() && slab.live == map[]
    modifies slab, slab.mem, slab.stack`top
    ensures slab.Valid()
    ensures |trace| == |ops| + 1 && trace[0] == old(SnapOf(slab, [])) && trace[|ops|] == SnapOf(slab, held)
    ensures forall n :: 0 <= n < |ops| ==> Follows(trace[n], ops[n], trace[n + 1], slab.base, old(slab.Room()))
    ensures forall n :: 0 <= n <= |ops| ==> Intact(trace[n], slab.base) && Supplied(trace[0], trace[n])
  {
    hide Follows, Intact, Supplied, Partition, Chained, Holds;
    ghost var capacity := slab.Room();
    ghost var keys: seq<nat> := [];
    held := [];
    SnapIntact(slab, held, keys, capacity);
    NothingTaken(SnapOf(slab, held));
    trace := [SnapOf(slab, held)];
    for n := 0 to |ops|
      invariant Serves(slab, held, keys, capacity)
      invariant |trace| == n + 1 && trace[0] == old(SnapOf(slab, [])) && trace[n] == SnapOf(slab, held)
      invariant forall m :: 0 <= m < n ==> Follows(trace[m], ops[m], trace[m + 1], slab.base, capacity)
      invariant forall m :: 0 <= m <= n ==> Intact(trace[m], slab.base) && Supplied(trace[0], trace[m])
    {
      held, keys := Step(slab, ops[n], held, keys, capacity);
      SnapIntact(slab, held, keys, capacity);
      SuppliedStep(trace[0], trace[n], ops[n], SnapOf(slab, held), slab.base, capacity);
      trace := trace + [SnapOf(slab, held)];
    }
  }
}
