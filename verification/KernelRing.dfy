/**
 The descriptor rings shared with the kernel: 4096 cells and two free-running 32-bit counters
 that wrap.
 */
module KernelRing {
  import opened Constants
  import opened RingIndex

  const RING_SIZE: nat := 4096

  function Wrap(x: int): (r: nat)
    ensures r < U32
  {
    x % U32
  }

  lemma WrapIs(x: int)
    ensures Wrap(x) == x % 0x1_0000_0000
  {
  }

  // counter & RING_MASK
  function Index(counter: nat): (r: nat)
    ensures r == counter % RING_SIZE
  {
    RingSizeIsPower();
    SlotIsRemainder(counter, RING_SIZE);
    Slot(counter, RING_SIZE)
  }

  lemma RingSizeIsPower()
    ensures IsPowerOfTwo(RING_SIZE)
  {
    assert IsPowerOfTwo(1) && IsPowerOfTwo(2) && IsPowerOfTwo(4) && IsPowerOfTwo(8) && IsPowerOfTwo(16);
    assert IsPowerOfTwo(32) && IsPowerOfTwo(64) && IsPowerOfTwo(128) && IsPowerOfTwo(256);
    assert IsPowerOfTwo(512) && IsPowerOfTwo(1024) && IsPowerOfTwo(2048);
  }

  // Wrapping a counter does not move the cells after it.
  lemma WrapCell(counter: int, i: nat)
    ensures (Wrap(counter) + i) % RING_SIZE == (counter + i) % RING_SIZE
  {
  }

  // The cell of the i-th entry after a counter, however the counter wraps.
  lemma CellOf(counter: nat, i: nat)
    ensures Index(Wrap(counter + i)) == (counter + i) % RING_SIZE
  {
    hide Wrap, Index;
    WrapCell(counter + i, 0);
  }

  lemma CellsDiffer(counter: nat, i: nat, j: nat)
    requires i < j < i + RING_SIZE
    ensures (counter + i) % RING_SIZE != (counter + j) % RING_SIZE
  {
  }

  lemma WrapCount(producer: nat, consumer: nat, n: nat)
    requires n <= Wrap(producer - consumer)
    ensures Wrap(producer - Wrap(consumer + n)) == Wrap(producer - consumer) - n
  {
  }

  // The i-th cell after the contents is the (count + i)-th after the consumer.
  lemma ProducerCell(producer: nat, consumer: nat, i: nat)
    ensures (consumer + Wrap(producer - consumer) + i) % RING_SIZE == (producer + i) % RING_SIZE
  {
  }

  lemma CountCell(producer: nat, consumer: nat, i: nat, k: nat)
    requires k < Wrap(producer - consumer) && Wrap(producer - consumer) + i < RING_SIZE
    ensures (consumer + k) % RING_SIZE != (producer + i) % RING_SIZE
  {
    ProducerCell(producer, consumer, i);
    CellsDiffer(consumer, k, Wrap(producer - consumer) + i);
  }

  lemma PublishCount(producer: nat, consumer: nat, n: nat)
    requires Wrap(producer - consumer) + n <= RING_SIZE
    ensures Wrap(Wrap(producer + n) - consumer) == Wrap(producer - consumer) + n
  {
  }

  class KernelRing<T(0)> {
    const cells: array<T>
    var producer: nat
    var consumer: nat

    ghost predicate Valid()
      reads this
    {
      cells.Length == RING_SIZE && producer < U32 && consumer < U32 && Count() <= RING_SIZE
    }

    // prod - cons in 32-bit arithmetic.
    function Count(): nat
      reads this
    {
      Wrap(producer - consumer)
    }

    ghost function Contents(): (r: seq<T>)
      requires Valid()
      reads this, cells
      ensures |r| == Count()
    {
      seq(Count(), i requires 0 <= i < Count() && Valid() reads this, cells =>
        cells[(consumer + i) % RING_SIZE])
    }

    constructor (filler: T, start: nat)
      requires start < U32
      ensures Valid() && Contents() == [] && fresh(cells)
    {
      cells := new T[RING_SIZE](_ => filler);
      producer := start;
      consumer := start;
    }

    // The i-th cell after the contents.
    function Ahead(i: nat): T
      requires Valid()
      reads this, cells
    {
      cells[(producer + i) % RING_SIZE]
    }

    // Write the i-th cell after the contents: nothing queued is touched.
    method Put(i: nat, x: T)
      requires Valid() && Count() + i < RING_SIZE
      modifies cells
      ensures Valid() && Contents() == old(Contents())
      ensures Ahead(i) == x && cells[(producer + i) % 4096] == x
      ensures forall k :: 0 <= k < RING_SIZE - Count() && k != i ==> Ahead(k) == old(Ahead(k))
    {
      hide Index, Wrap;
      var idx := Index(Wrap(producer + i));
      CellOf(producer, i);
      cells[idx] := x;
      forall k | 0 <= k < Count() ensures Contents()[k] == old(Contents()[k]) {
        CountCell(producer, consumer, i, k);
      }
      forall k | 0 <= k < RING_SIZE - Count() && k != i ensures Ahead(k) == old(Ahead(k)) {
        if k < i { CellsDiffer(producer, k, i); } else { CellsDiffer(producer, i, k); }
      }
    }

    // The producer counter passes n cells already written after the contents.
    method Publish(n: nat, ghost added: seq<T>)
      requires Valid() && Count() + n <= RING_SIZE && |added| == n
      requires forall i :: 0 <= i < n ==> Ahead(i) == added[i]
      modifies `producer
      ensures Valid() && Contents() == old(Contents()) + added
      ensures producer == (old(producer) + n) % 0x1_0000_0000
    {
      hide Wrap;
      ghost var count := Count();
      PublishCount(producer, consumer, n);
      WrapIs(producer + n);
      producer := Wrap(producer + n);
      forall i | 0 <= i < n ensures Contents()[count + i] == added[i] {
        assert old(Ahead(i)) == added[i];
        ProducerCell(old(producer), consumer, i);
      }
    }

    // The entry at the consumer counter.
    method Oldest() returns (x: T)
      requires Valid() && Contents() != []
      ensures x == Contents()[0] == cells[consumer % 4096]
    {
      CellOf(consumer, 0);
      x := cells[Index(consumer)];
    }

    // The consumer counter passes the first n entries.
    method Release(n: nat)
      requires Valid() && n <= Count()
      modifies `consumer
      ensures Valid() && Contents() == old(Contents())[n..]
      ensures consumer == (old(consumer) + n) % 0x1_0000_0000
    {
      hide Wrap;
      WrapCount(producer, consumer, n);
      WrapIs(consumer + n);
      consumer := Wrap(consumer + n);
      forall i | 0 <= i < Count() ensures Contents()[i] == old(Contents())[n + i] {
        WrapCell(old(consumer) + n, i);
      }
    }
  }
}
