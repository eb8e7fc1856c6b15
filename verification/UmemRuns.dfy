/** Any run of the ring operations, the stack operations and the kernel's moves. */
module UmemRuns {
  import opened Constants
  import opened KernelRing
  import opened Xdp
  import opened UmemOwners
  import opened UmemSystem
  import ChunkStack = UmemStack

  datatype Op =
    | FillOp(maxN: nat)
    | KernelTakeFillOp
    | KernelReceiveOp(addr: nat, len: nat)
    | ReceiveOp(maxN: nat)
    | SendOp(segs: seq<Seg>)
    | KernelTakeTxOp
    | KernelCompleteOp(addr: nat)
    | ReapOp(maxN: nat)
    | GiveBackOp(addr: nat)
    | TakeOp(forSlab: bool)

  function Vacant(used: nat): nat { if used <= RING_SIZE then RING_SIZE - used else 0 }

  // Some n chunks go from one place to another.
  ghost predicate Transfer(o: Owners, o': Owners, from: Place, to: Place, n: nat) {
    exists moved: Bag :: |moved| == n && Moved(o, o', from, to, moved)
  }

  // One given chunk does, or, when it is not there, nothing happens.
  ghost predicate One(o: Owners, o': Owners, from: Place, to: Place, addr: nat) {
    if addr in o.At(from) then Moved(o, o', from, to, multiset{addr}) else o' == o
  }

  // The effect of each operation on who owns what. A step the rules of ownership do not allow is
  // not taken: the kernel and the application pass on only chunks they hold.
  ghost predicate Effect(o: Owners, op: Op, o': Owners) {
    match op
    case FillOp(maxN) => Transfer(o, o', Stack, Fill, Min(Min(Vacant(|o.fill|), maxN), |o.stack|))
    case KernelTakeFillOp => if |o.fill| == 0 then o' == o else Transfer(o, o', Fill, KernelRx, 1)
    case KernelReceiveOp(addr, _) => One(o, o', KernelRx, Rx, addr)
    case ReceiveOp(maxN) => Transfer(o, o', Rx, App, Min(|o.rx|, maxN))
    case SendOp(segs) =>
      if multiset(SegAddrs(segs)) <= o.app && 1 <= |segs| <= XDP_MAX_SEGS && |segs| + |o.tx| <= RING_SIZE then
        Moved(o, o', App, Tx, multiset(SegAddrs(segs)))
      else o' == o
    case KernelTakeTxOp => if |o.tx| == 0 then o' == o else Transfer(o, o', Tx, KernelTx, 1)
    case KernelCompleteOp(addr) => One(o, o', KernelTx, Completion, addr)
    case ReapOp(maxN) => Transfer(o, o', Completion, App, Min(|o.completion|, maxN))
    case GiveBackOp(addr) => One(o, o', App, Stack, addr)
    case TakeOp(forSlab) =>
      if |o.stack| == 0 then o' == o else Transfer(o, o', Stack, if forSlab then Slab else App, 1)
  }

  // What is in nobody's ring or stack: the chunks in the kernel's and the application's hands.
  datatype Hands = Hands(kernelRx: Bag, app: Bag, kernelTx: Bag)

  ghost predicate Holding(o: Owners, h: Hands) {
    o.kernelRx == h.kernelRx && o.app == h.app && o.kernelTx == h.kernelTx
  }

  lemma TransferOf(o: Owners, o': Owners, from: Place, to: Place, moved: Bag)
    requires Moved(o, o', from, to, moved)
    ensures Transfer(o, o', from, to, |moved|)
  {
  }

  function After(before: Bag, p: Place, from: Place, to: Place, moved: Bag): Bag {
    if p == to then before + moved else if p == from then before - moved else before
  }

  // What a transfer does to the hands.
  lemma HandsAfter(o: Owners, o': Owners, from: Place, to: Place, moved: Bag)
    requires Moved(o, o', from, to, moved) && from != to
    ensures o'.kernelRx == After(o.kernelRx, KernelRx, from, to, moved)
    ensures o'.app == After(o.app, App, from, to, moved)
    ensures o'.kernelTx == After(o.kernelTx, KernelTx, from, to, moved)
  {
    AfterAt(o, o', from, to, moved, KernelRx);
    AfterAt(o, o', from, to, moved, App);
    AfterAt(o, o', from, to, moved, KernelTx);
  }

  lemma AfterAt(o: Owners, o': Owners, from: Place, to: Place, moved: Bag, p: Place)
    requires Moved(o, o', from, to, moved) && from != to
    ensures o'.At(p) == After(o.At(p), p, from, to, moved)
  {
  }

  // The sizes of the rings and the stack are those of their shares.
  lemma Sizes(u: UmemSystem)
    requires u.Valid()
    ensures u.fill.Valid() && u.tx.Valid() && u.stack.Valid()
    ensures |u.who.fill| == |u.fill.Contents()| == u.fill.Count() <= RING_SIZE
    ensures |u.who.tx| == |u.tx.Contents()| == u.tx.Count() <= RING_SIZE
    ensures |u.who.stack| == |u.stack.Contents()|
  {
    hide Owners.All;
    assert |u.who.fill| == |multiset(u.fill.Contents())|;
    assert |u.who.tx| == |multiset(TxAddrs(u.tx.Contents()))|;
    assert |u.who.stack| == |multiset(u.stack.Contents())|;
  }

  // The application offers chunks to the kernel.
  method FillStep(u: UmemSystem, maxN: nat, h: Hands) returns (next: Hands)
    requires u.Valid() && Holding(u.who, h)
    modifies u, u.stack, u.fill, u.fill.cells
    ensures u.Valid() && Holding(u.who, next) && Effect(old(u.who), FillOp(maxN), u.who)
  {
    hide UmemSystem.Valid, Moved, Owners.All, SegAddrs, KernelRing.Contents, KernelRing.Valid;
    hide ChunkStack.UmemStack.Contents, ChunkStack.UmemStack.Valid;
    next := h;
    ghost var o := u.who;
    Sizes(u);
    var n;
    ghost var moved;
    n, moved := u.FillRing(maxN);
    TransferOf(o, u.who, Stack, Fill, moved);
    HandsAfter(o, u.who, Stack, Fill, moved);
  }

  // The application or the slab takes a chunk off the stack.
  method TakeStep(u: UmemSystem, forSlab: bool, h: Hands) returns (next: Hands)
    requires u.Valid() && Holding(u.who, h)
    modifies u, u.stack
    ensures u.Valid() && Holding(u.who, next) && Effect(old(u.who), TakeOp(forSlab), u.who)
  {
    hide UmemSystem.Valid, Moved, Owners.All, SegAddrs, KernelRing.Contents, KernelRing.Valid;
    hide ChunkStack.UmemStack.Contents, ChunkStack.UmemStack.Valid;
    next := h;
    ghost var o := u.who;
    Sizes(u);
    ghost var to := if forSlab then Slab else App;
    var addr := u.Take(forSlab);
    if addr != ChunkStack.U64_MAX {
      TransferOf(o, u.who, Stack, to, multiset{addr});
      HandsAfter(o, u.who, Stack, to, multiset{addr});
      next := if forSlab then h else h.(app := h.app + multiset{addr});
    }
  }

  // The application picks up received chunks.
  method ReceiveStep(u: UmemSystem, maxN: nat, h: Hands) returns (next: Hands)
    requires u.Valid() && Holding(u.who, h)
    modifies u, u.rx
    ensures u.Valid() && Holding(u.who, next) && Effect(old(u.who), ReceiveOp(maxN), u.who)
  {
    hide UmemSystem.Valid, Moved, Owners.All, SegAddrs, KernelRing.Contents, KernelRing.Valid;
    hide ChunkStack.UmemStack.Contents, ChunkStack.UmemStack.Valid;
    next := h;
    ghost var o := u.who;
    Sizes(u);
    var out := u.Receive(maxN);
    TransferOf(o, u.who, Rx, App, multiset(out));
    HandsAfter(o, u.who, Rx, App, multiset(out));
    next := h.(app := h.app + multiset(out));
  }

  // The application picks up completed chunks.
  method ReapStep(u: UmemSystem, maxN: nat, h: Hands) returns (next: Hands)
    requires u.Valid() && Holding(u.who, h)
    modifies u, u.completion
    ensures u.Valid() && Holding(u.who, next) && Effect(old(u.who), ReapOp(maxN), u.who)
  {
    hide UmemSystem.Valid, Moved, Owners.All, SegAddrs, KernelRing.Contents, KernelRing.Valid;
    hide ChunkStack.UmemStack.Contents, ChunkStack.UmemStack.Valid;
    next := h;
    ghost var o := u.who;
    Sizes(u);
    var out := u.Reap(maxN);
    TransferOf(o, u.who, Completion, App, multiset(out));
    HandsAfter(o, u.who, Completion, App, multiset(out));
    next := h.(app := h.app + multiset(out));
  }

  // The application sends chunks it holds.
  method SendStep(u: UmemSystem, segs: seq<Seg>, h: Hands) returns (next: Hands)
    requires u.Valid() && Holding(u.who, h)
    modifies u, u.tx, u.tx.cells
    ensures u.Valid() && Holding(u.who, next) && Effect(old(u.who), SendOp(segs), u.who)
  {
    hide UmemSystem.Valid, Moved, Owners.All, SegAddrs, KernelRing.Contents, KernelRing.Valid;
    hide ChunkStack.UmemStack.Contents, ChunkStack.UmemStack.Valid;
    next := h;
    ghost var o := u.who;
    Sizes(u);
    if multiset(SegAddrs(segs)) <= h.app {
      var n := u.Send(segs);
      if n > 0 {
        HandsAfter(o, u.who, App, Tx, multiset(SegAddrs(segs)));
        next := h.(app := h.app - multiset(SegAddrs(segs)));
      }
    }
  }

  // The application gives back a chunk it holds.
  method GiveBackStep(u: UmemSystem, addr: nat, h: Hands) returns (next: Hands)
    requires u.Valid() && Holding(u.who, h)
    modifies u, u.stack, u.stack.addrs
    ensures u.Valid() && Holding(u.who, next) && Effect(old(u.who), GiveBackOp(addr), u.who)
  {
    hide UmemSystem.Valid, Moved, Owners.All, SegAddrs, KernelRing.Contents, KernelRing.Valid;
    hide ChunkStack.UmemStack.Contents, ChunkStack.UmemStack.Valid;
    next := h;
    ghost var o := u.who;
    Sizes(u);
    if addr in h.app {
      u.GiveBack(addr);
      HandsAfter(o, u.who, App, Stack, multiset{addr});
      next := h.(app := h.app - multiset{addr});
    }
  }

  // The kernel takes a chunk offered for receiving.
  method KernelTakeFillStep(u: UmemSystem, h: Hands) returns (next: Hands)
    requires u.Valid() && Holding(u.who, h)
    modifies u, u.fill
    ensures u.Valid() && Holding(u.who, next) && Effect(old(u.who), KernelTakeFillOp, u.who)
  {
    hide UmemSystem.Valid, Moved, Owners.All, SegAddrs, KernelRing.Contents, KernelRing.Valid;
    hide ChunkStack.UmemStack.Contents, ChunkStack.UmemStack.Valid;
    next := h;
    ghost var o := u.who;
    Sizes(u);
    if u.fill.Count() > 0 {
      var addr := u.KernelTakeFill();
      TransferOf(o, u.who, Fill, KernelRx, multiset{addr});
      HandsAfter(o, u.who, Fill, KernelRx, multiset{addr});
      next := h.(kernelRx := h.kernelRx + multiset{addr});
    }
  }

  // The kernel takes a chunk queued for sending.
  method KernelTakeTxStep(u: UmemSystem, h: Hands) returns (next: Hands)
    requires u.Valid() && Holding(u.who, h)
    modifies u, u.tx
    ensures u.Valid() && Holding(u.who, next) && Effect(old(u.who), KernelTakeTxOp, u.who)
  {
    hide UmemSystem.Valid, Moved, Owners.All, SegAddrs, KernelRing.Contents, KernelRing.Valid;
    hide ChunkStack.UmemStack.Contents, ChunkStack.UmemStack.Valid;
    next := h;
    ghost var o := u.who;
    Sizes(u);
    if u.tx.Count() > 0 {
      var addr := u.KernelTakeTx();
      TransferOf(o, u.who, Tx, KernelTx, multiset{addr});
      HandsAfter(o, u.who, Tx, KernelTx, multiset{addr});
      next := h.(kernelTx := h.kernelTx + multiset{addr});
    }
  }

  // The kernel delivers a chunk it holds.
  method KernelReceiveStep(u: UmemSystem, addr: nat, len: nat, h: Hands) returns (next: Hands)
    requires u.Valid() && Holding(u.who, h)
    modifies u, u.rx, u.rx.cells
    ensures u.Valid() && Holding(u.who, next) && Effect(old(u.who), KernelReceiveOp(addr, len), u.who)
  {
    hide UmemSystem.Valid, Moved, Owners.All, SegAddrs, KernelRing.Contents, KernelRing.Valid;
    hide ChunkStack.UmemStack.Contents, ChunkStack.UmemStack.Valid;
    next := h;
    ghost var o := u.who;
    Sizes(u);
    if addr in h.kernelRx {
      u.KernelReceive(addr, len);
      HandsAfter(o, u.who, KernelRx, Rx, multiset{addr});
      next := h.(kernelRx := h.kernelRx - multiset{addr});
    }
  }

  // The kernel completes a chunk it holds.
  method KernelCompleteStep(u: UmemSystem, addr: nat, h: Hands) returns (next: Hands)
    requires u.Valid() && Holding(u.who, h)
    modifies u, u.completion, u.completion.cells
    ensures u.Valid() && Holding(u.who, next) && Effect(old(u.who), KernelCompleteOp(addr), u.who)
  {
    hide UmemSystem.Valid, Moved, Owners.All, SegAddrs, KernelRing.Contents, KernelRing.Valid;
    hide ChunkStack.UmemStack.Contents, ChunkStack.UmemStack.Valid;
    next := h;
    ghost var o := u.who;
    Sizes(u);
    if addr in h.kernelTx {
      u.KernelComplete(addr);
      HandsAfter(o, u.who, KernelTx, Completion, multiset{addr});
      next := h.(kernelTx := h.kernelTx - multiset{addr});
    }
  }

  method Step(u: UmemSystem, op: Op, h: Hands) returns (next: Hands)
    requires u.Valid() && Holding(u.who, h)
    modifies u, u.stack, u.stack.addrs, u.fill, u.fill.cells, u.rx, u.rx.cells, u.tx, u.tx.cells
    modifies u.completion, u.completion.cells
    ensures u.Valid() && Holding(u.who, next) && Effect(old(u.who), op, u.who)
  {
    hide UmemSystem.Valid, Effect, Holding;
    match op
    case FillOp(maxN) => next := FillStep(u, maxN, h);
    case TakeOp(forSlab) => next := TakeStep(u, forSlab, h);
    case ReceiveOp(maxN) => next := ReceiveStep(u, maxN, h);
    case ReapOp(maxN) => next := ReapStep(u, maxN, h);
    case SendOp(segs) => next := SendStep(u, segs, h);
    case GiveBackOp(addr) => next := GiveBackStep(u, addr, h);
    case KernelTakeFillOp => next := KernelTakeFillStep(u, h);
    case KernelTakeTxOp => next := KernelTakeTxStep(u, h);
    case KernelReceiveOp(addr, len) => next := KernelReceiveStep(u, addr, len, h);
    case KernelCompleteOp(addr) => next := KernelCompleteStep(u, addr, h);
  }

  // Every chunk of the UMEM is in exactly one place.
  ghost predicate OneOwnerEach(o: Owners) {
    forall i: nat :: i < UMEM_CHUNK_COUNT ==> InOnePlace(o, i * UMEM_CHUNK_SIZE)
  }

  ghost predicate InOnePlace(o: Owners, a: nat) {
    exists p :: o.At(p)[a] == 1 && forall q :: q != p ==> a !in o.At(q)
  }

  lemma EachInOnePlace(u: UmemSystem)
    requires u.Valid()
    ensures OneOwnerEach(u.who)
  {
    hide UmemSystem.Valid;
    forall i: nat | i < UMEM_CHUNK_COUNT
      ensures InOnePlace(u.who, i * UMEM_CHUNK_SIZE)
    {
      ExactlyOneOwner(u, i * UMEM_CHUNK_SIZE);
    }
  }

  // Any run, as the ownership it goes through: each operation has its effect and no other, and in every
  // state each chunk has exactly one owner.
  method Run(u: UmemSystem, ops: seq<Op>) returns (ghost trace: seq<Owners>)
    requires u.Valid() && u.who.stack == multiset(UmemSystem.ChunkList())
    modifies u, u.stack, u.stack.addrs, u.fill, u.fill.cells, u.rx, u.rx.cells, u.tx, u.tx.cells
    modifies u.completion, u.completion.cells
    ensures u.Valid()
    ensures |trace| == |ops| + 1 && trace[0] == old(u.who) && trace[|ops|] == u.who
    ensures forall n :: 0 <= n < |ops| ==> Effect(trace[n], ops[n], trace[n + 1])
    ensures forall n :: 0 <= n <= |ops| ==> OneOwnerEach(trace[n])
  {
    hide UmemSystem.Valid, Effect, OneOwnerEach;
    StartHands(u);
    var h := Hands(multiset{}, multiset{}, multiset{});
    trace := [u.who];
    EachInOnePlace(u);
    for n := 0 to |ops|
      invariant u.Valid() && Holding(u.who, h)
      invariant |trace| == n + 1 && trace[0] == old(u.who) && trace[n] == u.who
      invariant forall m :: 0 <= m < n ==> Effect(trace[m], ops[m], trace[m + 1])
      invariant forall m :: 0 <= m <= n ==> OneOwnerEach(trace[m])
    {
      h := Step(u, ops[n], h);
      EachInOnePlace(u);
      trace := trace + [u.who];
    }
  }

  // With all chunks on the stack the hands are empty.
  lemma StartHands(u: UmemSystem)
    requires u.Valid() && u.who.stack == multiset(UmemSystem.ChunkList())
    ensures Holding(u.who, Hands(multiset{}, multiset{}, multiset{}))
  {
    hide Owners.All, UmemSystem.ChunkList, UmemSystem.Parts, UmemSystem.Tracked;
    var o := u.who;
    forall x: nat
      ensures o.kernelRx[x] == 0 && o.app[x] == 0 && o.kernelTx[x] == 0
    {
      AllCount(o, x);
    }
  }
}
