/**
 The UMEM as a whole: the chunk stack, the four rings, the application that follows the rules
 of ownership, and a kernel that moves descriptors on in any order.
 */
module UmemSystem {
  import opened Constants
  import opened KernelRing
  import opened Xdp
  import opened UmemOwners
  import ChunkStack = UmemStack

  const UMEM_CHUNK_COUNT: nat := 4096

  function RxAddrs(ds: seq<Desc>): (r: seq<nat>)
    ensures |r| == |ds|
  {
    seq(|ds|, i requires 0 <= i < |ds| => ds[i].addr)
  }

  function TxAddrs(ds: seq<TxDesc>): (r: seq<nat>)
    ensures |r| == |ds|
  {
    seq(|ds|, i requires 0 <= i < |ds| => ds[i].addr)
  }

  function SegAddrs(segs: seq<Seg>): (r: seq<nat>)
    ensures |r| == |segs|
  {
    seq(|segs|, i requires 0 <= i < |segs| => segs[i].addr)
  }

  lemma {:induction false} ReverseBag(s: seq<nat>)
    ensures multiset(Reverse(s)) == multiset(s)
  {
    if s != [] {
      var n := |s| - 1;
      ReverseBag(s[..n]);
      assert Reverse(s) == [s[n]] + Reverse(s[..n]);
      assert s == s[..n] + [s[n]];
    }
  }

  lemma Joined(s: seq<nat>, a: seq<nat>, b: seq<nat>)
    requires s == a + b
    ensures multiset(s) == multiset(a) + multiset(b)
  {
  }

  lemma RxAppend(ds: seq<Desc>, d: Desc)
    ensures multiset(RxAddrs(ds + [d])) == multiset(RxAddrs(ds)) + multiset{d.addr}
  {
    Joined(RxAddrs(ds + [d]), RxAddrs(ds), [d.addr]);
  }

  lemma RxSplit(ds: seq<Desc>, out: seq<nat>, lens: seq<nat>)
    requires |out| == |lens| <= |ds| && forall i :: 0 <= i < |out| ==> Desc(out[i], lens[i]) == ds[i]
    ensures multiset(RxAddrs(ds)) == multiset(out) + multiset(RxAddrs(ds[|out|..]))
  {
    Joined(RxAddrs(ds), out, RxAddrs(ds[|out|..]));
  }

  lemma TxAppend(ds: seq<TxDesc>, segs: seq<Seg>)
    ensures multiset(TxAddrs(ds + Descs(segs))) == multiset(TxAddrs(ds)) + multiset(SegAddrs(segs))
  {
    Joined(TxAddrs(ds + Descs(segs)), TxAddrs(ds), SegAddrs(segs));
  }

  lemma TxFirst(ds: seq<TxDesc>)
    requires ds != []
    ensures multiset(TxAddrs(ds)) == multiset{ds[0].addr} + multiset(TxAddrs(ds[1..]))
    ensures ds[0].addr in multiset(TxAddrs(ds))
  {
    Joined(TxAddrs(ds), [ds[0].addr], TxAddrs(ds[1..]));
  }

  // xdp_rx and xdp_tx as movements of addresses.
  method RxMoves(ring: KernelRing<Desc>, maxN: nat) returns (out: seq<nat>)
    requires ring.Valid()
    modifies ring`consumer
    ensures ring.Valid()
    ensures multiset(RxAddrs(old(ring.Contents()))) == multiset(out) + multiset(RxAddrs(ring.Contents()))
    ensures |out| == Min(|old(ring.Contents())|, maxN)
  {
    var lens;
    out, lens := Xdp.Rx(ring, maxN);
    RxSplit(old(ring.Contents()), out, lens);
  }

  // xdp_fill as a movement of addresses.
  method FillMoves(ring: KernelRing<nat>, stack: ChunkStack.UmemStack, maxN: nat) returns (n: nat, ghost moved: Bag)
    requires ring.Valid() && stack.Valid() && ring.cells != stack.addrs
    requires forall i :: 0 <= i < |stack.Contents()| ==> stack.Contents()[i] != ChunkStack.U64_MAX
    modifies ring`producer, ring.cells, stack`top
    ensures ring.Valid() && stack.Valid()
    ensures |moved| == n == Min(Min(RING_SIZE - |old(ring.Contents())|, maxN), |old(stack.Contents())|)
    ensures multiset(old(stack.Contents())) == multiset(stack.Contents()) + moved
    ensures multiset(ring.Contents()) == multiset(old(ring.Contents())) + moved
  {
    hide KernelRing.Contents, KernelRing.Valid, ChunkStack.UmemStack.Contents, ChunkStack.UmemStack.Valid;
    ghost var pile := stack.Contents();
    n := Xdp.Fill(ring, stack, maxN);
    ghost var top := pile[|pile| - n..];
    moved := multiset(top);
    ReverseBag(top);
    Joined(pile, pile[..|pile| - n], top);
    Joined(ring.Contents(), old(ring.Contents()), Reverse(top));
  }

  method TxMoves(ring: KernelRing<TxDesc>, segs: seq<Seg>) returns (n: nat)
    requires ring.Valid()
    modifies ring`producer, ring.cells
    ensures ring.Valid()
    ensures n == if 1 <= |segs| <= XDP_MAX_SEGS && |segs| <= RING_SIZE - |old(ring.Contents())| then |segs| else 0
    ensures n == 0 ==> ring.Contents() == old(ring.Contents())
    ensures n > 0 ==>
      multiset(TxAddrs(ring.Contents())) == multiset(TxAddrs(old(ring.Contents()))) + multiset(SegAddrs(segs))
  {
    hide TxAddrs, SegAddrs, Descs, KernelRing.Contents, KernelRing.Valid;
    n := Xdp.Tx(ring, segs);
    TxAppend(old(ring.Contents()), segs);
  }

  lemma Removed(b: Bag, m: Bag)
    requires m <= b
    ensures (b - m) + m == b
  {
  }

  ghost function OnStack(all: Bag): (o: Owners)
    ensures o.All() == all
  {
    Owners(all, multiset{}, multiset{}, multiset{}, multiset{}, multiset{}, multiset{}, multiset{}, multiset{})
  }

  class UmemSystem {
    const stack: ChunkStack.UmemStack
    const fill: KernelRing<nat>
    const rx: KernelRing<Desc>
    const tx: KernelRing<TxDesc>
    const completion: KernelRing<nat>
    ghost var who: Owners

    ghost predicate Parts()
      reads stack, fill, rx, tx, completion
    {
      && fill != completion
      && stack.addrs != fill.cells && stack.addrs != completion.cells && fill.cells != completion.cells
      && stack.Valid() && fill.Valid() && rx.Valid() && tx.Valid() && completion.Valid()
      && stack.Cap() == UMEM_CHUNK_COUNT
    }

    // What is in the structures is what the owners are said to hold.
    ghost predicate Tracked(o: Owners)
      requires Parts()
      reads stack, stack.addrs, fill, fill.cells, rx, rx.cells, tx, tx.cells, completion, completion.cells
    {
      && multiset(stack.Contents()) == o.stack
      && multiset(fill.Contents()) == o.fill
      && multiset(RxAddrs(rx.Contents())) == o.rx
      && multiset(TxAddrs(tx.Contents())) == o.tx
      && multiset(completion.Contents()) == o.completion
    }

    // The other places are in nobody's memory but the owner's.
    lemma TrackedSame(o: Owners, o': Owners)
      requires Parts() && Tracked(o)
      requires o'.stack == o.stack && o'.fill == o.fill && o'.rx == o.rx && o'.tx == o.tx && o'.completion == o.completion
      ensures Tracked(o')
    {
    }

    // All chunks are accounted for, each once.
    ghost predicate Valid()
      reads this, stack, stack.addrs, fill, fill.cells, rx, rx.cells, tx, tx.cells, completion, completion.cells
    {
      Parts() && Tracked(who) && who.All() == multiset(ChunkList())
    }

    static ghost function ChunkList(): (r: seq<nat>)
      ensures |r| == UMEM_CHUNK_COUNT
    {
      ChunkStack.ChunkAddrs(UMEM_CHUNK_COUNT, UMEM_CHUNK_SIZE)
    }

    // All chunks on the stack, all rings empty at any counter values.
    constructor (fillStart: nat, rxStart: nat, txStart: nat, completionStart: nat)
      requires fillStart < U32 && rxStart < U32 && txStart < U32 && completionStart < U32
      ensures Valid() && who.At(Place.Stack) == multiset(ChunkList())
      ensures fresh(stack) && fresh(stack.addrs) && fresh(fill) && fresh(fill.cells) && fresh(rx) && fresh(rx.cells)
      ensures fresh(tx) && fresh(tx.cells) && fresh(completion) && fresh(completion.cells)
    {
      stack := new ChunkStack.UmemStack(UMEM_CHUNK_COUNT, UMEM_CHUNK_SIZE);
      fill := new KernelRing<nat>(0, fillStart);
      rx := new KernelRing<Desc>(Desc(0, 0), rxStart);
      tx := new KernelRing<TxDesc>(TxDesc(0, 0, false), txStart);
      completion := new KernelRing<nat>(0, completionStart);
      who := OnStack(multiset(ChunkList()));
      new;
    }

    method FillParts(maxN: nat, ghost o: Owners) returns (n: nat, ghost rest: Bag, ghost moved: Bag)
      requires Parts() && Tracked(o) && o.All() == multiset(ChunkList())
      modifies fill`producer, fill.cells, stack`top
      ensures Parts() && |moved| == n == Min(Min(RING_SIZE - |o.fill|, maxN), |o.stack|)
      ensures o.stack == rest + moved && Tracked(o.(stack := rest, fill := o.fill + moved))
    {
      hide Owners.All, UmemSystem.ChunkList, KernelRing.Contents, KernelRing.Valid, RxAddrs, TxAddrs;
      hide ChunkStack.UmemStack.Contents, ChunkStack.UmemStack.Valid;
      NoSentinel(o);
      assert |o.fill| == |fill.Contents()| && |o.stack| == |stack.Contents()|;
      n, moved := FillMoves(fill, stack, maxN);
      rest := multiset(stack.Contents());
    }

    // xdp_fill
    method FillRing(maxN: nat) returns (n: nat, ghost moved: multiset<nat>)
      requires Valid()
      modifies fill`producer, fill.cells, stack`top, this`who
      ensures Valid() && |moved| == n == Min(Min(RING_SIZE - |old(who).fill|, maxN), |old(who).stack|)
      ensures Moved(old(who), who, Place.Stack, Place.Fill, moved)
    {
      hide Owners.All, UmemSystem.ChunkList, Moved, UmemSystem.Parts, UmemSystem.Tracked;
      ghost var rest;
      n, rest, moved := FillParts(maxN, who);
      HandOver(who, Place.Stack, rest, Place.Fill, moved);
      who := who.(stack := rest, fill := who.fill + moved);
    }

    method TakeFillParts(ghost o: Owners) returns (addr: nat, ghost rest: Bag)
      requires Parts() && Tracked(o) && fill.Contents() != []
      modifies fill`consumer
      ensures Parts() && addr == old(fill.Contents())[0] && fill.Contents() == old(fill.Contents())[1..]
      ensures o.fill == rest + multiset{addr} && Tracked(o.(fill := rest))
    {
      hide KernelRing.Contents, KernelRing.Valid, RxAddrs, TxAddrs;
      hide ChunkStack.UmemStack.Contents, ChunkStack.UmemStack.Valid;
      ghost var before := fill.Contents();
      addr := fill.Oldest();
      Joined(before, [addr], before[1..]);
      fill.Release(1);
      rest := multiset(fill.Contents());
    }

    // The kernel takes the oldest chunk offered for receiving.
    method KernelTakeFill() returns (addr: nat)
      requires Valid() && fill.Contents() != []
      modifies fill`consumer, this`who
      ensures Valid()
      ensures addr == old(fill.Contents())[0] && fill.Contents() == old(fill.Contents())[1..]
      ensures Moved(old(who), who, Place.Fill, Place.KernelRx, multiset{addr})
    {
      hide Owners.All, UmemSystem.ChunkList, Moved, UmemSystem.Parts, UmemSystem.Tracked;
      hide KernelRing.Contents, KernelRing.Valid;
      ghost var rest;
      addr, rest := TakeFillParts(who);
      HandOver(who, Place.Fill, rest, Place.KernelRx, multiset{addr});
      ghost var next := who.(fill := rest, kernelRx := who.kernelRx + multiset{addr});
      TrackedSame(who.(fill := rest), next);
      who := next;
    }

    method DeliverParts(addr: nat, len: nat, ghost o: Owners)
      requires Parts() && Tracked(o) && |o.rx| < UMEM_CHUNK_COUNT
      modifies rx`producer, rx.cells
      ensures Parts() && Tracked(o.(rx := o.rx + multiset{addr}))
    {
      hide KernelRing.Contents, KernelRing.Valid, RxAddrs, TxAddrs;
      hide ChunkStack.UmemStack.Contents, ChunkStack.UmemStack.Valid;
      ghost var before := rx.Contents();
      assert |o.rx| == |RxAddrs(before)|;
      rx.Put(0, Desc(addr, len));
      rx.Publish(1, [Desc(addr, len)]);
      RxAppend(before, Desc(addr, len));
    }

    // The kernel delivers any chunk it holds; the ring always has room.
    method KernelReceive(addr: nat, len: nat)
      requires Valid() && addr in who.kernelRx
      modifies rx`producer, rx.cells, this`who
      ensures Valid() && Moved(old(who), who, Place.KernelRx, Place.Rx, multiset{addr})
    {
      hide Owners.All, UmemSystem.ChunkList, Moved, UmemSystem.Parts, UmemSystem.Tracked;
      Room(who, Place.KernelRx, Place.Rx, addr);
      DeliverParts(addr, len, who);
      ghost var rest := who.kernelRx - multiset{addr};
      Removed(who.kernelRx, multiset{addr});
      HandOver(who, Place.KernelRx, rest, Place.Rx, multiset{addr});
      ghost var next := who.(kernelRx := rest, rx := who.rx + multiset{addr});
      TrackedSame(who.(rx := who.rx + multiset{addr}), next);
      who := next;
    }

    method ReceiveParts(maxN: nat, ghost o: Owners) returns (out: seq<nat>, ghost rest: Bag)
      requires Parts() && Tracked(o)
      modifies rx`consumer
      ensures Parts() && |out| == Min(|o.rx|, maxN)
      ensures o.rx == rest + multiset(out) && Tracked(o.(rx := rest))
    {
      hide KernelRing.Contents, KernelRing.Valid, RxAddrs, TxAddrs;
      hide ChunkStack.UmemStack.Contents, ChunkStack.UmemStack.Valid;
      assert |o.rx| == |RxAddrs(rx.Contents())|;
      out := RxMoves(rx, maxN);
      rest := multiset(RxAddrs(rx.Contents()));
    }

    // xdp_rx
    method Receive(maxN: nat) returns (out: seq<nat>)
      requires Valid()
      modifies rx`consumer, this`who
      ensures Valid() && |out| == Min(|old(who).rx|, maxN)
      ensures Moved(old(who), who, Place.Rx, Place.App, multiset(out))
    {
      hide Owners.All, UmemSystem.ChunkList, Moved, UmemSystem.Parts, UmemSystem.Tracked;
      ghost var rest;
      out, rest := ReceiveParts(maxN, who);
      HandOver(who, Place.Rx, rest, Place.App, multiset(out));
      ghost var next := who.(rx := rest, app := who.app + multiset(out));
      TrackedSame(who.(rx := rest), next);
      who := next;
    }

    method SendParts(segs: seq<Seg>, ghost o: Owners) returns (n: nat)
      requires Parts() && Tracked(o)
      modifies tx`producer, tx.cells
      ensures Parts()
      ensures n == if 1 <= |segs| <= XDP_MAX_SEGS && |segs| <= RING_SIZE - |o.tx| then |segs| else 0
      ensures Tracked(if n == 0 then o else o.(tx := o.tx + multiset(SegAddrs(segs))))
    {
      hide KernelRing.Contents, KernelRing.Valid, RxAddrs, TxAddrs, SegAddrs;
      hide ChunkStack.UmemStack.Contents, ChunkStack.UmemStack.Valid;
      assert |o.tx| == |tx.Contents()|;
      n := TxMoves(tx, segs);
    }

    // xdp_tx of chunks the application holds, each once.
    method Send(segs: seq<Seg>) returns (n: nat)
      requires Valid() && multiset(SegAddrs(segs)) <= who.app
      modifies tx`producer, tx.cells, this`who
      ensures Valid()
      ensures n == if 1 <= |segs| <= XDP_MAX_SEGS && |segs| <= RING_SIZE - |old(who).tx| then |segs| else 0
      ensures n == 0 ==> who == old(who)
      ensures n > 0 ==> Moved(old(who), who, Place.App, Place.Tx, multiset(SegAddrs(segs)))
    {
      hide Owners.All, UmemSystem.ChunkList, Moved, UmemSystem.Parts, UmemSystem.Tracked, SegAddrs;
      ghost var moved := multiset(SegAddrs(segs));
      n := SendParts(segs, who);
      if n == 0 {
        return;
      }
      ghost var rest := who.app - moved;
      Removed(who.app, moved);
      HandOver(who, Place.App, rest, Place.Tx, moved);
      TrackedSame(who.(tx := who.tx + moved), who.(app := rest, tx := who.tx + moved));
      who := who.(app := rest, tx := who.tx + moved);
    }

    method TakeTxParts(ghost o: Owners) returns (addr: nat, ghost rest: Bag)
      requires Parts() && Tracked(o) && tx.Contents() != []
      modifies tx`consumer
      ensures Parts() && addr == old(tx.Contents())[0].addr && tx.Contents() == old(tx.Contents())[1..]
      ensures o.tx == rest + multiset{addr} && Tracked(o.(tx := rest))
    {
      hide KernelRing.Contents, KernelRing.Valid, RxAddrs, TxAddrs;
      hide ChunkStack.UmemStack.Contents, ChunkStack.UmemStack.Valid;
      ghost var before := tx.Contents();
      var desc := tx.Oldest();
      addr := desc.addr;
      tx.Release(1);
      TxFirst(before);
      rest := multiset(TxAddrs(tx.Contents()));
    }

    // The kernel takes the oldest descriptor queued for sending.
    method KernelTakeTx() returns (addr: nat)
      requires Valid() && tx.Contents() != []
      modifies tx`consumer, this`who
      ensures Valid()
      ensures addr == old(tx.Contents())[0].addr && tx.Contents() == old(tx.Contents())[1..]
      ensures Moved(old(who), who, Place.Tx, Place.KernelTx, multiset{addr})
    {
      hide Owners.All, UmemSystem.ChunkList, Moved, UmemSystem.Parts, UmemSystem.Tracked;
      hide KernelRing.Contents, KernelRing.Valid;
      ghost var rest;
      addr, rest := TakeTxParts(who);
      HandOver(who, Place.Tx, rest, Place.KernelTx, multiset{addr});
      ghost var next := who.(tx := rest, kernelTx := who.kernelTx + multiset{addr});
      TrackedSame(who.(tx := rest), next);
      who := next;
    }

    method CompleteParts(addr: nat, ghost o: Owners)
      requires Parts() && Tracked(o) && |o.completion| < UMEM_CHUNK_COUNT
      modifies completion`producer, completion.cells
      ensures Parts() && Tracked(o.(completion := o.completion + multiset{addr}))
    {
      hide KernelRing.Contents, KernelRing.Valid, RxAddrs, TxAddrs;
      hide ChunkStack.UmemStack.Contents, ChunkStack.UmemStack.Valid;
      assert |o.completion| == |completion.Contents()|;
      completion.Put(0, addr);
      completion.Publish(1, [addr]);
      Joined(completion.Contents(), old(completion.Contents()), [addr]);
    }

    // The kernel completes any chunk it is sending; the ring always has room.
    method KernelComplete(addr: nat)
      requires Valid() && addr in who.kernelTx
      modifies completion`producer, completion.cells, this`who
      ensures Valid() && Moved(old(who), who, Place.KernelTx, Place.Completion, multiset{addr})
    {
      hide Owners.All, UmemSystem.ChunkList, Moved, UmemSystem.Parts, UmemSystem.Tracked;
      Room(who, Place.KernelTx, Place.Completion, addr);
      CompleteParts(addr, who);
      ghost var rest := who.kernelTx - multiset{addr};
      Removed(who.kernelTx, multiset{addr});
      HandOver(who, Place.KernelTx, rest, Place.Completion, multiset{addr});
      ghost var next := who.(kernelTx := rest, completion := who.completion + multiset{addr});
      TrackedSame(who.(completion := who.completion + multiset{addr}), next);
      who := next;
    }

    method ReapParts(maxN: nat, ghost o: Owners) returns (out: seq<nat>, ghost rest: Bag)
      requires Parts() && Tracked(o)
      modifies completion`consumer
      ensures Parts() && |out| == Min(|o.completion|, maxN)
      ensures o.completion == rest + multiset(out) && Tracked(o.(completion := rest))
    {
      hide KernelRing.Contents, KernelRing.Valid, RxAddrs, TxAddrs;
      hide ChunkStack.UmemStack.Contents, ChunkStack.UmemStack.Valid;
      ghost var before := completion.Contents();
      assert |o.completion| == |before|;
      out := Xdp.CompleteTx(completion, maxN);
      Joined(before, out, completion.Contents());
      rest := multiset(completion.Contents());
    }

    // xdp_complete_tx
    method Reap(maxN: nat) returns (out: seq<nat>)
      requires Valid()
      modifies completion`consumer, this`who
      ensures Valid() && |out| == Min(|old(who).completion|, maxN)
      ensures Moved(old(who), who, Place.Completion, Place.App, multiset(out))
    {
      hide Owners.All, UmemSystem.ChunkList, Moved, UmemSystem.Parts, UmemSystem.Tracked;
      ghost var rest;
      out, rest := ReapParts(maxN, who);
      HandOver(who, Place.Completion, rest, Place.App, multiset(out));
      ghost var next := who.(completion := rest, app := who.app + multiset(out));
      TrackedSame(who.(completion := rest), next);
      who := next;
    }

    method PushParts(addr: nat, ghost o: Owners)
      requires Parts() && Tracked(o) && |o.stack| < UMEM_CHUNK_COUNT
      modifies stack`top, stack.addrs
      ensures Parts() && stack.Contents() == old(stack.Contents()) + [addr]
      ensures Tracked(o.(stack := o.stack + multiset{addr}))
    {
      hide KernelRing.Contents, KernelRing.Valid, RxAddrs, TxAddrs;
      hide ChunkStack.UmemStack.Contents, ChunkStack.UmemStack.Valid;
      assert |o.stack| == |stack.Contents()|;
      stack.Push(addr);
      Joined(stack.Contents(), old(stack.Contents()), [addr]);
    }

    // umem_stack_push of a chunk the application holds is never dropped.
    method GiveBack(addr: nat)
      requires Valid() && addr in who.app
      modifies stack`top, stack.addrs, this`who
      ensures Valid() && stack.Contents() == old(stack.Contents()) + [addr]
      ensures Moved(old(who), who, Place.App, Place.Stack, multiset{addr})
    {
      hide Owners.All, UmemSystem.ChunkList, Moved, UmemSystem.Parts, UmemSystem.Tracked;
      Room(who, Place.App, Place.Stack, addr);
      PushParts(addr, who);
      ghost var rest := who.app - multiset{addr};
      Removed(who.app, multiset{addr});
      HandOver(who, Place.App, rest, Place.Stack, multiset{addr});
      ghost var next := who.(app := rest, stack := who.stack + multiset{addr});
      TrackedSame(who.(stack := who.stack + multiset{addr}), next);
      who := next;
    }

    method PopParts(ghost o: Owners) returns (addr: nat, ghost rest: Bag)
      requires Parts() && Tracked(o) && o.All() == multiset(ChunkList())
      modifies stack`top
      ensures Parts() && (addr == ChunkStack.U64_MAX <==> old(stack.Contents()) == [])
      ensures addr == ChunkStack.U64_MAX ==> Tracked(o)
      ensures addr != ChunkStack.U64_MAX ==> o.stack == rest + multiset{addr} && Tracked(o.(stack := rest))
    {
      hide Owners.All, UmemSystem.ChunkList;
      hide KernelRing.Contents, KernelRing.Valid, RxAddrs, TxAddrs;
      hide ChunkStack.UmemStack.Contents, ChunkStack.UmemStack.Valid;
      ghost var before := stack.Contents();
      NoSentinel(o);
      addr := stack.Pop();
      rest := multiset(stack.Contents());
      assert before != [] ==> before[|before| - 1] == addr;
      if addr == ChunkStack.U64_MAX {
        return;
      }
      assert before == stack.Contents() + [addr];
      Joined(before, stack.Contents(), [addr]);
    }

    // umem_stack_pop for the application or for the slab allocator.
    method Take(forSlab: bool) returns (addr: nat)
      requires Valid()
      modifies stack`top, this`who
      ensures Valid()
      ensures addr == ChunkStack.U64_MAX <==> old(stack.Contents()) == []
      ensures addr == ChunkStack.U64_MAX ==> who == old(who)
      ensures addr != ChunkStack.U64_MAX ==>
                Moved(old(who), who, Place.Stack, if forSlab then Place.Slab else Place.App, multiset{addr})
    {
      hide Owners.All, UmemSystem.ChunkList, Moved, UmemSystem.Parts, UmemSystem.Tracked;
      hide ChunkStack.UmemStack.Contents, ChunkStack.UmemStack.Valid;
      ghost var rest;
      addr, rest := PopParts(who);
      if addr == ChunkStack.U64_MAX {
        return;
      }
      HandOver(who, Place.Stack, rest, if forSlab then Place.Slab else Place.App, multiset{addr});
      ghost var next := if forSlab then who.(stack := rest, slab := who.slab + multiset{addr})
                        else who.(stack := rest, app := who.app + multiset{addr});
      TrackedSame(who.(stack := rest), next);
      who := next;
    }

    // No stack entry is the empty-stack sentinel.
    lemma NoSentinel(o: Owners)
      requires Parts() && Tracked(o) && o.All() == multiset(ChunkList())
      ensures forall i :: 0 <= i < |stack.Contents()| ==> stack.Contents()[i] != ChunkStack.U64_MAX
    {
      forall i | 0 <= i < |stack.Contents()| ensures stack.Contents()[i] != ChunkStack.U64_MAX {
        var a := stack.Contents()[i];
        WithCount(o, Place.Stack, multiset{}, a);
        assert a in multiset(stack.Contents());
        assert a in multiset(ChunkList());
      }
    }

    // While a chunk is elsewhere, a place holds fewer than all chunks.
    lemma Room(o: Owners, p: Place, q: Place, a: nat)
      requires o.All() == multiset(ChunkList()) && a in o.At(p) && p != q
      ensures |o.At(q)| < UMEM_CHUNK_COUNT
    {
      TwoPlaces(o, p, q);
    }
  }

  lemma {:induction false} ChunksDistinct(n: nat, a: nat)
    ensures multiset(ChunkStack.ChunkAddrs(n, UMEM_CHUNK_SIZE))[a] ==
            if a % UMEM_CHUNK_SIZE == 0 && a / UMEM_CHUNK_SIZE < n then 1 else 0
  {
    if n > 0 {
      ChunksDistinct(n - 1, a);
      assert ChunkStack.ChunkAddrs(n, UMEM_CHUNK_SIZE) ==
             ChunkStack.ChunkAddrs(n - 1, UMEM_CHUNK_SIZE) + [(n - 1) * UMEM_CHUNK_SIZE];
    }
  }

  // In every reachable state every chunk of the UMEM is in exactly one place.
  lemma ExactlyOneOwner(u: UmemSystem, a: nat)
    requires u.Valid()
    requires a % UMEM_CHUNK_SIZE == 0 && a / UMEM_CHUNK_SIZE < UMEM_CHUNK_COUNT
    ensures exists p :: u.who.At(p)[a] == 1 && forall q :: q != p ==> a !in u.who.At(q)
  {
    ChunksDistinct(UMEM_CHUNK_COUNT, a);
    var o := u.who;
    assert a in o.All();
    SomeOwner(o, a);
    var p :| a in o.At(p);
    OneOwner(o, a, p);
  }
}
