/** The ring as one thread uses it: a bounded FIFO over an array of stamped cells. */
module RingBuffer {
  import opened RingIndex

  class RingBuffer<T(0)> {
    const size: nat
    var head: nat
    var tail: nat
    const stamps: array<nat>    // sequence number of each cell
    const packets: array<T>
    const plens: array<nat>

    ghost predicate Shaped()
      reads this
    {
      && size >= 2 && IsPowerOfTwo(size)
      && stamps.Length == packets.Length == plens.Length == size
      && stamps != plens && packets as object != stamps && packets as object != plens
      && (forall p: nat :: Slot(p, size) < size)
    }

    ghost predicate Valid()
      reads this, stamps
    {
      && Shaped()
      && tail <= head <= tail + size
      && (forall p: nat :: tail <= p < head ==> stamps[Slot(p, size)] == p + 1)
      && (forall p: nat :: head <= p < tail + size ==> stamps[Slot(p, size)] == p)
    }

    // What is queued, oldest first.
    ghost function Contents(): (r: seq<(T, nat)>)
      requires Valid()
      reads this, stamps, packets, plens
      ensures |r| == head - tail
    {
      seq(head - tail, i requires 0 <= i < head - tail && Valid() reads this, stamps, packets, plens =>
        (packets[Slot(tail + i, size)], plens[Slot(tail + i, size)]))
    }

    ghost function Footprint(): set<object>
      reads this
    {
      {this, stamps, packets, plens}
    }

    constructor (n: nat, filler: T)
      requires n >= 2 && IsPowerOfTwo(n)
      ensures Valid() && Contents() == [] && size == n
      ensures fresh(Footprint())
    {
      size := n;
      head, tail := 0, 0;
      stamps := new nat[n];
      packets := new T[n];
      plens := new nat[n];
      new;
      for i := 0 to n
        invariant size == n && head == tail == 0
        invariant stamps.Length == packets.Length == plens.Length == n
        invariant stamps != plens && packets as object != stamps && packets as object != plens
        invariant fresh(Footprint())
        invariant forall j :: 0 <= j < i ==> stamps[j] == j
      {
        stamps[i] := i;
        packets[i] := filler;
      }
      forall p: nat ensures Slot(p, size) < size && (p < size ==> Slot(p, size) == p) {
        SlotInRange(p, size);
        if p < size { SlotSmall(p, size); }
      }
    }

    // The stamp of the next cell to fill tells a full ring from one with room.
    lemma HeadStamp()
      requires Valid()
      ensures head < tail + size ==> stamps[Slot(head, size)] == head
      ensures head == tail + size ==> stamps[Slot(head, size)] < head
    {
      if head == tail + size {
        SlotPeriodic(tail, size);
      }
    }

    lemma TailStamp()
      requires Valid()
      ensures tail < head ==> stamps[Slot(tail, size)] == tail + 1
      ensures tail == head ==> stamps[Slot(tail, size)] == tail
    {
    }

    // The retry loop of a producer: the claimed position, or -1.  Spurious failures of the
    // weak compare-and-swap are counted down by `spurious`.
    method ClaimHead(spurious: nat) returns (pos: int)
      requires Valid()
      modifies `head
      ensures pos == if old(head) < tail + size then old(head) else -1
      ensures head == if pos == -1 then old(head) else pos + 1
    {
      pos := head;
      var failures := spurious;
      HeadStamp();
      while true
        invariant pos == head == old(head)
        decreases failures
      {
        var diff := stamps[Slot(pos, size)] - pos;
        if diff == 0 && failures == 0 {
          head := pos + 1;
          break;
        }
        if diff < 0 {
          return -1;
        }
        pos := head;
        failures := failures - 1;
      }
    }

    method Push(packet: T, plen: nat, spurious: nat) returns (code: int)
      requires Valid()
      modifies `head, stamps, packets, plens
      ensures Valid()
      ensures code == if |old(Contents())| < size then 0 else -1
      ensures Contents() == if code == 0 then old(Contents()) + [(packet, plen)] else old(Contents())
    {
      hide Slot, IsPowerOfTwo;
      var pos := ClaimHead(spurious);
      if pos == -1 {
        return -1;
      }
      LapDistinct(tail, pos, size);
      var cell := Slot(pos, size);
      packets[cell] := packet;
      plens[cell] := plen;
      stamps[cell] := pos + 1;
      code := 0;
      assert Valid();
      assert Contents()[..pos - tail] == old(Contents());
      assert Contents() == old(Contents()) + [(packet, plen)];
    }

    // The retry loop of a consumer.
    method ClaimTail(spurious: nat) returns (pos: int)
      requires Valid()
      modifies `tail
      ensures pos == if old(tail) < head then old(tail) else -1
      ensures tail == if pos == -1 then old(tail) else pos + 1
    {
      pos := tail;
      var failures := spurious;
      TailStamp();
      while true
        invariant pos == tail == old(tail)
        decreases failures
      {
        var diff := stamps[Slot(pos, size)] - (pos + 1);
        if diff == 0 && failures == 0 {
          tail := pos + 1;
          break;
        }
        if diff < 0 {
          return -1;
        }
        pos := tail;
        failures := failures - 1;
      }
    }

    // Returns the index of the popped cell, or -1 when the ring is empty; the cell is already
    // released, but its payload is still in place.
    method Pop(spurious: nat) returns (cell: int)
      requires Valid()
      modifies `tail, stamps
      ensures Valid()
      ensures cell == -1 <==> old(Contents()) == []
      ensures cell == -1 ==> Contents() == old(Contents())
      ensures cell != -1 ==>
        0 <= cell < size && (packets[cell], plens[cell]) == old(Contents())[0]
        && Contents() == old(Contents())[1..]
    {
      hide Slot, IsPowerOfTwo;
      var pos := ClaimTail(spurious);
      if pos == -1 {
        return -1;
      }
      LapDistinct(pos, pos, size);
      SlotPeriodic(pos, size);
      cell := Slot(pos, size);
      stamps[cell] := pos + size;
      assert Shaped();
      assert Valid() by {
        assert forall p: nat :: head <= p < tail + size && p != pos + size ==> Slot(p, size) != cell;
      }
      assert Contents() == old(Contents())[1..];
    }
  }
}
