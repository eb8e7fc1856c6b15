/** The 64-byte block allocator over UMEM chunks; its free list lives inside the freed blocks. */
module Slab {
  import opened Constants
  import ChunkStack = UmemStack

  const L1_CACHE_BYTES: nat := 64
  const WORDS: nat := 8        // 8-byte words in a block
  const PER_CHUNK: nat := 64   // blocks in a chunk

  // Live, free and unused blocks are disjoint, and together they are the taken chunks.
  ghost predicate Partition(live: set<nat>, free: seq<nat>, lo: nat, hi: nat, chunks: set<nat>) {
    && (forall k: nat :: k in live ==> k !in free && !(lo <= k < hi))
    && (forall k: nat :: k in free ==> !(lo <= k < hi))
    && (forall k: nat :: k / PER_CHUNK in chunks <==> k in live || k in free || lo <= k < hi)
    && (forall i, j :: 0 <= i < j < |free| ==> free[i] != free[j])
  }

  lemma TakeFree(live: set<nat>, free: seq<nat>, lo: nat, hi: nat, chunks: set<nat>)
    requires Partition(live, free, lo, hi, chunks) && free != []
    ensures Partition(live + {free[0]}, free[1..], lo, hi, chunks) && free[0] !in live
  {
    assert forall k :: k in free <==> k == free[0] || k in free[1..];
  }

  lemma TakeUnused(live: set<nat>, free: seq<nat>, lo: nat, hi: nat, chunks: set<nat>)
    requires Partition(live, free, lo, hi, chunks) && lo < hi
    ensures Partition(live + {lo}, free, lo + 1, hi, chunks) && lo !in live
  {
  }

  lemma TakeChunk(live: set<nat>, free: seq<nat>, lo: nat, hi: nat, chunks: set<nat>, c: nat)
    requires Partition(live, free, lo, hi, chunks) && lo == hi && c !in chunks
    ensures Partition(live, free, PER_CHUNK * c, PER_CHUNK * (c + 1), chunks + {c})
  {
  }

  lemma GiveBlock(live: set<nat>, free: seq<nat>, lo: nat, hi: nat, chunks: set<nat>, k: nat)
    requires Partition(live, free, lo, hi, chunks) && k in live
    ensures Partition(live - {k}, [k] + free, lo, hi, chunks)
  {
    assert forall j :: j in [k] + free <==> j == k || j in free;
  }

  // The words of block k.
  ghost function Block(mem: array2<int>, k: nat): (r: seq<int>)
    requires mem.Length1 == WORDS && k < mem.Length0
    reads mem
    ensures |r| == WORDS && forall w :: 0 <= w < WORDS ==> r[w] == mem[k, w]
  {
    seq(WORDS, w requires 0 <= w < WORDS && mem.Length1 == WORDS && k < mem.Length0 reads mem => mem[k, w])
  }

  function Ptr(base: nat, k: nat): int { base + L1_CACHE_BYTES * k }

  // What the first word of the i-th free block (or, for i = 0, the allocator) points to.
  function Link(base: nat, free: seq<nat>, i: nat): int {
    if i < |free| then Ptr(base, free[i]) else 0
  }

  ghost predicate Chained(mem: array2<int>, base: nat, free: seq<nat>)
    requires mem.Length1 == WORDS
    reads mem
  {
    forall i :: 0 <= i < |free| ==> free[i] < mem.Length0 && mem[free[i], 0] == Link(base, free, i + 1)
  }

  // The clients' blocks hold what the clients wrote.
  ghost predicate Holds(mem: array2<int>, live: map<nat, seq<int>>)
    requires mem.Length1 == WORDS
    reads mem
  {
    forall k: nat :: k in live ==> k < mem.Length0 && live[k] == Block(mem, k)
  }

  // A stack of distinct chunk offsets inside a UMEM of n blocks, none of them taken.
  ghost predicate Available(offsets: seq<nat>, chunks: set<nat>, n: nat) {
    && (forall i, j :: 0 <= i < j < |offsets| ==> offsets[i] != offsets[j])
    && (forall a :: a in offsets ==>
          && a % UMEM_CHUNK_SIZE == 0 && a / UMEM_CHUNK_SIZE !in chunks
          && a + UMEM_CHUNK_SIZE <= L1_CACHE_BYTES * n && a != ChunkStack.U64_MAX)
  }

  lemma TakeOffset(offsets: seq<nat>, rest: seq<nat>, a: nat, chunks: set<nat>, n: nat)
    requires Available(offsets, chunks, n) && offsets == rest + [a]
    ensures Available(rest, chunks + {a / UMEM_CHUNK_SIZE}, n)
    ensures a % UMEM_CHUNK_SIZE == 0 && a / UMEM_CHUNK_SIZE !in chunks
    ensures a + UMEM_CHUNK_SIZE <= L1_CACHE_BYTES * n && a != ChunkStack.U64_MAX
  {
    assert offsets[|rest|] == a;
    forall b | b in rest
      ensures b in offsets && b != a
    {
      var i :| 0 <= i < |rest| && rest[i] == b;
      assert offsets[i] == b;
    }
    assert forall i :: 0 <= i < |rest| ==> rest[i] == offsets[i];
  }

  // Nothing is taken from the stack, or exactly its top chunk.
  ghost predicate TookTop(offsets: seq<nat>, chunks: set<nat>, offsets': seq<nat>, chunks': set<nat>, taken: bool) {
    if taken then
      && offsets != [] && offsets' == offsets[..|offsets| - 1]
      && chunks' == chunks + {offsets[|offsets| - 1] / UMEM_CHUNK_SIZE}
    else offsets' == offsets && chunks' == chunks
  }

  ghost predicate Taken(chunks: set<nat>, n: nat) {
    forall c :: c in chunks ==> PER_CHUNK * (c + 1) <= n
  }

  class Slab {
    // UMEM as blocks of eight words; block k starts at base + 64 * k, and 0 is NULL.
    const mem: array2<int>
    const base: nat
    const stack: ChunkStack.UmemStack
    var freeList: int
    var curPos: int
    var curEnd: int
    ghost var free: seq<nat>               // the chain of free blocks
    ghost var live: map<nat, seq<int>>     // the blocks clients hold, with their contents
    ghost var lo: nat                      // blocks lo..hi of the current chunk are unused
    ghost var hi: nat
    ghost var chunks: set<nat>             // chunks taken from the stack

    ghost predicate BumpOk()
      reads `curPos, `curEnd, `lo, `hi, `chunks
    {
      && lo <= hi <= mem.Length0
      && (if chunks == {} then curPos == curEnd == 0 && lo == hi
          else curPos == Ptr(base, lo) && curEnd == Ptr(base, hi))
    }

    ghost predicate StackOk()
      reads `chunks, stack, stack.addrs
    {
      stack.Valid() && Available(stack.Contents(), chunks, mem.Length0)
    }

    // Blocks that can still be handed out: freed, unused in the current chunk, in chunks on the stack.
    ghost function Room(): nat
      requires stack.Valid() && lo <= hi
      reads this, stack, stack.addrs
    {
      |free| + (hi - lo) + PER_CHUNK * |stack.Contents()|
    }

    ghost predicate Valid()
      reads this, mem, stack, stack.addrs
    {
      && base > 0 && mem.Length1 == WORDS
      && freeList == Link(base, free, 0)
      && Chained(mem, base, free)
      && BumpOk()
      && Partition(live.Keys, free, lo, hi, chunks)
      && Taken(chunks, mem.Length0)
      && StackOk()
      && Holds(mem, live)
    }

    constructor (umem: array2<int>, umemBase: nat, chunkStack: ChunkStack.UmemStack)
      requires umem.Length1 == WORDS && umemBase > 0
      requires chunkStack.Valid() && Available(chunkStack.Contents(), {}, umem.Length0)
      ensures Valid() && live == map[] && mem == umem && base == umemBase && stack == chunkStack
      ensures free == [] && chunks == {} && Room() == PER_CHUNK * |chunkStack.Contents()|
    {
      mem := umem;
      base := umemBase;
      stack := chunkStack;
      freeList, curPos, curEnd := 0, 0, 0;
      free, live, lo, hi, chunks := [], map[], 0, 0, {};
    }

    // The chunk on top of the stack becomes the allocator's current chunk, all its blocks unused.
    method Refill() returns (ok: bool)
      requires Valid() && curPos >= curEnd
      modifies `curPos, `curEnd, `lo, `hi, `chunks, stack`top
      ensures Valid() && Room() == old(Room())
      ensures ok <==> old(stack.Contents()) != []
      ensures !ok ==> stack.Contents() == [] && lo == old(lo) && hi == old(hi) && chunks == old(chunks)
      ensures ok ==> hi == lo + PER_CHUNK && lo / PER_CHUNK !in old(chunks) && chunks == old(chunks) + {lo / PER_CHUNK}
      ensures ok ==> old(stack.Contents()) == stack.Contents() + [L1_CACHE_BYTES * lo]
    {
      hide Chained, Holds, Partition, Available;
      ghost var was := stack.Contents();
      var offset := stack.Pop();
      if was != [] {
        TakeOffset(was, stack.Contents(), offset, chunks, mem.Length0);
      }
      if offset == ChunkStack.U64_MAX {
        return false;
      }
      ghost var c := offset / UMEM_CHUNK_SIZE;
      curPos := base + offset;
      curEnd := curPos + UMEM_CHUNK_SIZE;
      TakeChunk(live.Keys, free, lo, hi, chunks, c);
      chunks := chunks + {c};
      lo, hi := PER_CHUNK * c, PER_CHUNK * (c + 1);
      ok := true;
    }

    // slab_alloc_64b: NULL only when there is no freed block, no unused block and no chunk.
    // The allocator writes no memory, and the block it hands out was not live.
    method Alloc() returns (ptr: int, ghost k: nat)
      requires Valid()
      modifies `freeList, `curPos, `curEnd, `free, `live, `lo, `hi, `chunks, stack`top
      ensures Valid()
      ensures ptr == 0 <==> old(free) == [] && old(lo) == old(hi) && old(stack.Contents()) == []
      ensures ptr == 0 ==> live == old(live) && free == old(free) && Room() == old(Room())
      ensures ptr != 0 ==> ptr == Ptr(base, k) && k < mem.Length0 && k !in old(live)
      ensures ptr != 0 ==> live == old(live)[k := Block(mem, k)] && Room() == old(Room()) - 1
      ensures old(free) != [] ==> k == old(free)[0] && free == old(free)[1..]
      ensures old(free) == [] && old(lo) < old(hi) ==> k == old(lo)
      ensures old(free) == [] && old(lo) == old(hi) && ptr != 0 ==>
                L1_CACHE_BYTES * k == old(stack.Contents())[|old(stack.Contents())| - 1]
      ensures TookTop(old(stack.Contents()), old(chunks), stack.Contents(), chunks,
                      old(free) == [] && old(lo) == old(hi) && ptr != 0)
    {
      hide StackOk, Partition, BumpOk, Chained, Holds;
      if freeList != 0 {
        ptr, k := TakeFreeBlock();
      } else {
        ptr, k := TakeNext();
      }
    }

    // The block at the head of the free list; its first word is the next link.
    method TakeFreeBlock() returns (ptr: int, ghost k: nat)
      requires Valid() && free != []
      modifies `freeList, `free, `live
      ensures Valid() && free == old(free)[1..]
      ensures k == old(free)[0] < mem.Length0 && ptr == Ptr(base, k) && k !in old(live)
      ensures live == old(live)[k := Block(mem, k)]
    {
      hide StackOk, Partition, BumpOk;
      k := free[0];
      ptr := freeList;
      TakeFree(live.Keys, free, lo, hi, chunks);
      freeList := mem[(ptr - base) / L1_CACHE_BYTES, 0];
      free := free[1..];
      live := live[k := Block(mem, k)];
      assert live.Keys == old(live.Keys) + {k};
    }

    // The next unused block, from a new chunk when the current one is used up.
    method TakeNext() returns (ptr: int, ghost k: nat)
      requires Valid() && free == []
      modifies `curPos, `curEnd, `live, `lo, `hi, `chunks, stack`top
      ensures Valid()
      ensures ptr == 0 <==> old(lo) == old(hi) && old(stack.Contents()) == []
      ensures ptr == 0 ==> live == old(live) && Room() == old(Room())
      ensures ptr != 0 ==> ptr == Ptr(base, k) && k < mem.Length0 && k !in old(live)
      ensures ptr != 0 ==> live == old(live)[k := Block(mem, k)] && Room() == old(Room()) - 1
      ensures old(lo) < old(hi) ==> k == old(lo)
      ensures old(lo) == old(hi) && ptr != 0 ==>
                L1_CACHE_BYTES * k == old(stack.Contents())[|old(stack.Contents())| - 1]
      ensures TookTop(old(stack.Contents()), old(chunks), stack.Contents(), chunks, old(lo) == old(hi) && ptr != 0)
    {
      hide StackOk, Chained, Holds, Partition, ChunkStack.UmemStack.Valid;
      if curPos >= curEnd {
        var ok := Refill();
        if !ok {
          return 0, 0;
        }
      }
      ptr, k := TakeUnusedBlock();
    }

    method TakeUnusedBlock() returns (ptr: int, ghost k: nat)
      requires Valid() && lo < hi
      modifies `curPos, `live, `lo
      ensures Valid() && lo == old(lo) + 1
      ensures k == old(lo) < mem.Length0 && ptr == Ptr(base, k) && k !in old(live)
      ensures live == old(live)[k := Block(mem, k)]
    {
      hide StackOk, Chained, Partition;
      k := lo;
      ptr := curPos;
      curPos := curPos + L1_CACHE_BYTES;
      TakeUnused(live.Keys, free, lo, hi, chunks);
      lo := lo + 1;
      live := live[k := Block(mem, k)];
      assert live.Keys == old(live.Keys) + {k};
    }

    // slab_free_64b: the block's first word becomes the link; no other word changes.
    method Free(ptr: int, ghost k: nat)
      requires Valid() && k in live && ptr == Ptr(base, k)
      modifies `freeList, `free, `live, mem
      ensures Valid() && live == old(live) - {k} && free == [k] + old(free) && Room() == old(Room()) + 1
      ensures forall j, w :: 0 <= j < mem.Length0 && 0 <= w < WORDS && !(j == k && w == 0) ==>
                mem[j, w] == old(mem[j, w])
    {
      hide StackOk, BumpOk, Partition;
      mem[(ptr - base) / L1_CACHE_BYTES, 0] := freeList;
      freeList := ptr;
      GiveBlock(live.Keys, free, lo, hi, chunks, k);
      free := [k] + free;
      live := live - {k};
      assert live.Keys == old(live.Keys) - {k};
    }

    // A client writes one word of a block it holds.
    method Write(ptr: int, ghost k: nat, w: nat, value: int)
      requires Valid() && k in live && ptr == Ptr(base, k) && w < WORDS
      modifies mem, `live
      ensures Valid() && live == old(live)[k := old(live)[k][w := value]] && Room() == old(Room())
      ensures forall j, v :: 0 <= j < mem.Length0 && 0 <= v < WORDS ==>
                mem[j, v] == if j == k && v == w then value else old(mem[j, v])
    {
      hide StackOk, BumpOk, Available;
      mem[(ptr - base) / L1_CACHE_BYTES, w] := value;
      live := live[k := live[k][w := value]];
      assert live.Keys == old(live.Keys);
    }
  }
}
