/** Who owns the chunks of the UMEM: one multiset of chunk addresses for each place. */
module UmemOwners {

  datatype Place =
    | Stack       // free, on the chunk stack
    | Slab        // carved into 64-byte blocks
    | Fill        // offered to the kernel for receiving
    | KernelRx    // taken by the kernel, being filled
    | Rx          // received, not yet picked up
    | App         // held by the application
    | Tx          // queued for sending
    | KernelTx    // taken by the kernel, being sent
    | Completion  // sent, not yet picked up

  type Bag = multiset<nat>

  datatype Owners = Owners(stack: Bag, slab: Bag, fill: Bag, kernelRx: Bag, rx: Bag, app: Bag, tx: Bag,
                           kernelTx: Bag, completion: Bag)
  {
    function At(p: Place): Bag {
      match p
      case Stack => stack
      case Slab => slab
      case Fill => fill
      case KernelRx => kernelRx
      case Rx => rx
      case App => app
      case Tx => tx
      case KernelTx => kernelTx
      case Completion => completion
    }

    function With(p: Place, m: Bag): Owners {
      match p
      case Stack => this.(stack := m)
      case Slab => this.(slab := m)
      case Fill => this.(fill := m)
      case KernelRx => this.(kernelRx := m)
      case Rx => this.(rx := m)
      case App => this.(app := m)
      case Tx => this.(tx := m)
      case KernelTx => this.(kernelTx := m)
      case Completion => this.(completion := m)
    }

    function All(): Bag {
      stack + slab + fill + kernelRx + rx + app + tx + kernelTx + completion
    }
  }

  // The chunks in moved have changed hands, and nothing else has happened.
  ghost predicate Moved(o: Owners, o': Owners, from: Place, to: Place, moved: Bag) {
    && o.At(from) == o'.At(from) + moved
    && o'.At(to) == o.At(to) + moved
    && forall p :: p != from && p != to ==> o'.At(p) == o.At(p)
  }

  lemma WithCount(o: Owners, p: Place, m: Bag, x: nat)
    ensures o.With(p, m).All()[x] + o.At(p)[x] == o.All()[x] + m[x]
    ensures o.At(p)[x] <= o.All()[x]
    ensures o.With(p, m).At(p) == m
    ensures forall q :: q != p ==> o.With(p, m).At(q) == o.At(q)
  {
    hide Owners.All;
    AllCount(o, x);
    AllCount(o.With(p, m), x);
  }

  lemma AllCount(o: Owners, x: nat)
    ensures o.All()[x] == o.stack[x] + o.slab[x] + o.fill[x] + o.kernelRx[x] + o.rx[x] + o.app[x] + o.tx[x]
                          + o.kernelTx[x] + o.completion[x]
  {
  }

  // The owners after moved has gone from one place, where rest remains, to another.
  function Hand(o: Owners, from: Place, rest: Bag, to: Place, moved: Bag): Owners {
    o.With(from, rest).With(to, o.At(to) + moved)
  }

  // A handover loses and duplicates nothing.
  lemma HandOver(o: Owners, from: Place, rest: Bag, to: Place, moved: Bag)
    requires from != to && o.At(from) == rest + moved
    ensures Moved(o, Hand(o, from, rest, to, moved), from, to, moved)
    ensures Hand(o, from, rest, to, moved).All() == o.All()
  {
    hide Owners.All, Owners.At, Owners.With;
    var o1 := o.With(from, rest);
    var o2 := Hand(o, from, rest, to, moved);
    forall x ensures o2.All()[x] == o.All()[x] {
      WithCount(o, from, rest, x);
      WithCount(o1, to, o.At(to) + moved, x);
      assert (rest + moved)[x] == o.At(from)[x];
    }
    WithCount(o, from, rest, 0);
    WithCount(o1, to, o.At(to) + moved, 0);
  }

  // With every chunk counted once in all, a chunk held in one place is in no other.
  lemma OneOwner(o: Owners, a: nat, p: Place)
    requires o.All()[a] == 1 && a in o.At(p)
    ensures o.At(p)[a] == 1 && forall q :: a in o.At(q) ==> q == p
  {
    hide Owners.All, Owners.At, Owners.With;
    WithCount(o, p, multiset{}, a);
    forall q | a in o.At(q) ensures q == p {
      if q != p {
        WithCount(o.With(p, multiset{}), q, multiset{}, a);
      }
    }
  }

  lemma SomeOwner(o: Owners, a: nat)
    requires a in o.All()
    ensures exists p :: a in o.At(p)
  {
    assert a in o.At(Stack) || a in o.At(Slab) || a in o.At(Fill) || a in o.At(KernelRx) || a in o.At(Rx)
        || a in o.At(App) || a in o.At(Tx) || a in o.At(KernelTx) || a in o.At(Completion);
  }

  lemma TwoPlaces(o: Owners, p: Place, q: Place)
    requires p != q
    ensures |o.At(p)| + |o.At(q)| <= |o.All()|
  {
    assert |o.All()| == |o.stack| + |o.slab| + |o.fill| + |o.kernelRx| + |o.rx| + |o.app| + |o.tx|
                        + |o.kernelTx| + |o.completion|;
  }
}
