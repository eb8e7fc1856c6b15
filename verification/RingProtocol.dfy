/**
 The lock-free multi-producer multi-consumer ring as a transition system.  Every thread has
 its own program counter; one action is one atomic access of shared memory, so any
 interleaving of any number of threads is a sequence of (thread, action) pairs.

 Positions are unbounded naturals: the 64-bit counters are taken not to overflow, so the
 signed difference of a sequence number and a position is their difference.

 Three components of State are history variables that no action reads: the lap of a cell
 (the position whose turn it is there) and the two logs of successful claims.
 */
module RingProtocol {
  import opened RingIndex

  datatype Item = Item(packet: int, plen: nat)

  type Thread = nat

  datatype Pc =
    | Idle
      // push_ringbuf
    | PushLoadHead(item: Item)
    | PushLoadSeq(item: Item, pos: nat)
    | PushCompare(item: Item, pos: nat, stamp: nat)
    | PushWritePacket(item: Item, pos: nat)
    | PushWritePlen(item: Item, pos: nat)
    | PushPublish(item: Item, pos: nat)
    | PushFull
      // pop_ringbuf
    | PopLoadTail
    | PopLoadSeq(pos: nat)
    | PopCompare(pos: nat, stamp: nat)
    | PopRelease(pos: nat)
    | PopReturned(pos: nat)  // the caller holds the cell and may still read it
    | PopEmpty

  datatype Cell = Cell(stamp: nat, item: Item, lap: nat)

  datatype PushClaim = PushClaim(thread: Thread, pos: nat, item: Item)
  // item: what the cell held when its consumer claimed it
  datatype PopClaim = PopClaim(thread: Thread, pos: nat, item: Item)

  datatype State = State(
    size: nat,
    head: nat,
    tail: nat,
    cells: seq<Cell>,
    pcs: map<Thread, Pc>,
    pushes: seq<PushClaim>,
    pops: seq<PopClaim>)

  datatype Action =
    | StartPush(item: Item)
    | StartPop
    | Advance   // the next atomic access; at a comparison, the exchange succeeds if it can
    | FailExchange  // the weak exchange fails spuriously
    | Finish    // return to the caller, or drop the returned cell

  function PcOf(s: State, t: Thread): Pc {
    if t in s.pcs then s.pcs[t] else Idle
  }

  ghost predicate WellSized(s: State) {
    s.size >= 1 && IsPowerOfTwo(s.size) && |s.cells| == s.size
  }

  function CellIndex(s: State, pos: nat): (i: nat)
    requires WellSized(s)
    ensures i < |s.cells|
  {
    SlotInRange(pos, s.size);
    Slot(pos, s.size)
  }

  function CellAt(s: State, pos: nat): Cell
    requires WellSized(s)
  {
    s.cells[CellIndex(s, pos)]
  }

  // create_ringbuf: cell i expects position i; packets are null.
  ghost predicate Init(s: State) {
    && WellSized(s)
    && s.head == s.tail == 0
    && (forall i :: 0 <= i < s.size ==> s.cells[i].stamp == i && s.cells[i].lap == i)
    && s.pcs == map[] && s.pushes == [] && s.pops == []
  }

  predicate Enabled(s: State, t: Thread, a: Action) {
    match a
    case StartPush(_) => PcOf(s, t).Idle?
    case StartPop => PcOf(s, t).Idle?
    case Advance => !(PcOf(s, t).Idle? || PcOf(s, t).PushFull? || PcOf(s, t).PopReturned? || PcOf(s, t).PopEmpty?)
    case FailExchange =>
      (match PcOf(s, t)
       case PushCompare(_, pos, stamp) => stamp == pos
       case PopCompare(pos, stamp) => stamp == pos + 1
       case _ => false)
    case Finish => PcOf(s, t).PushFull? || PcOf(s, t).PopReturned? || PcOf(s, t).PopEmpty?
  }

  function Goto(s: State, t: Thread, pc: Pc): State {
    s.(pcs := s.pcs[t := pc])
  }

  function SetCell(s: State, pos: nat, c: Cell): State
    requires WellSized(s)
  {
    s.(cells := s.cells[CellIndex(s, pos) := c])
  }

  function Apply(s: State, t: Thread, a: Action): State
    requires WellSized(s) && Enabled(s, t, a)
  {
    match a
    case StartPush(item) => Goto(s, t, PushLoadHead(item))
    case StartPop => Goto(s, t, PopLoadTail)
    case Finish => Goto(s, t, Idle)
    case FailExchange =>
      if PcOf(s, t).PushCompare? then Goto(s, t, PushLoadHead(PcOf(s, t).item)) else Goto(s, t, PopLoadTail)
    case Advance =>
      match PcOf(s, t)
      case PushLoadHead(item) => Goto(s, t, PushLoadSeq(item, s.head))
      case PushLoadSeq(item, pos) => Goto(s, t, PushCompare(item, pos, CellAt(s, pos).stamp))
      case PushCompare(item, pos, stamp) =>
        if stamp == pos && s.head == pos then
          Goto(s.(head := pos + 1, pushes := s.pushes + [PushClaim(t, pos, item)]), t, PushWritePacket(item, pos))
        else if stamp < pos then Goto(s, t, PushFull)
        else Goto(s, t, PushLoadHead(item))
      case PushWritePacket(item, pos) =>
        var c := CellAt(s, pos);
        Goto(SetCell(s, pos, c.(item := c.item.(packet := item.packet))), t, PushWritePlen(item, pos))
      case PushWritePlen(item, pos) =>
        var c := CellAt(s, pos);
        Goto(SetCell(s, pos, c.(item := c.item.(plen := item.plen))), t, PushPublish(item, pos))
      case PushPublish(item, pos) =>
        Goto(SetCell(s, pos, CellAt(s, pos).(stamp := pos + 1)), t, Idle)
      case PopLoadTail => Goto(s, t, PopLoadSeq(s.tail))
      case PopLoadSeq(pos) => Goto(s, t, PopCompare(pos, CellAt(s, pos).stamp))
      case PopCompare(pos, stamp) =>
        if stamp == pos + 1 && s.tail == pos then
          Goto(s.(tail := pos + 1, pops := s.pops + [PopClaim(t, pos, CellAt(s, pos).item)]), t, PopRelease(pos))
        else if stamp < pos + 1 then Goto(s, t, PopEmpty)
        else Goto(s, t, PopLoadTail)
      case PopRelease(pos) =>
        Goto(SetCell(s, pos, CellAt(s, pos).(stamp := pos + s.size, lap := pos + s.size)), t, PopReturned(pos))
      case _ => s
  }

  // ---------- the inductive invariant ----------

  // The writer of position pos: between its successful exchange and its release store.
  predicate IsWriter(pc: Pc) {
    pc.PushWritePacket? || pc.PushWritePlen? || pc.PushPublish?
  }

  predicate Writes(pc: Pc, pos: nat) {
    IsWriter(pc) && pc.pos == pos
  }

  ghost predicate LogsOk(s: State) {
    && |s.pushes| == s.head && |s.pops| == s.tail
    && s.tail <= s.head <= s.tail + s.size
    && (forall p :: 0 <= p < s.head ==> s.pushes[p].pos == p)
    && (forall p :: 0 <= p < s.tail ==> s.pops[p].pos == p && s.pops[p].item == s.pushes[p].item)
  }

  ghost predicate CellOk(s: State, i: nat)
    requires i < |s.cells| && LogsOk(s) && s.size > 0
  {
    var c := s.cells[i];
    && Slot(c.lap, s.size) == i
    && (c.lap >= s.size ==> c.lap - s.size < s.tail)
    && (c.stamp == c.lap || c.stamp == c.lap + 1)
    // its producer is writing
    && (c.stamp == c.lap < s.head ==>
          c.lap >= s.tail && Writes(PcOf(s, s.pushes[c.lap].thread), c.lap))
    // free, and still holding the item of the previous lap
    && (c.stamp == c.lap >= s.head && c.lap >= s.size ==>
          c.lap - s.size < s.head && c.item == s.pushes[c.lap - s.size].item)
    // published, or taken and not yet released
    && (c.stamp == c.lap + 1 ==>
          c.lap < s.head && c.item == s.pushes[c.lap].item
          && (c.lap < s.tail ==> PcOf(s, s.pops[c.lap].thread) == PopRelease(c.lap)))
  }

  predicate HasPosition(pc: Pc) {
    pc.PushLoadSeq? || pc.PushCompare? || IsWriter(pc)
    || pc.PopLoadSeq? || pc.PopCompare? || pc.PopRelease? || pc.PopReturned?
  }

  // What a thread at pc knows about the cell c of its position.
  ghost predicate Knows(s: State, t: Thread, pc: Pc, c: Cell)
    requires LogsOk(s)
  {
    match pc
    case PushLoadSeq(_, pos) => pos <= s.head
    case PushCompare(_, pos, stamp) =>
      pos <= s.head && (stamp == pos ==> s.head > pos || c.lap == c.stamp == pos)
    case PushWritePacket(item, pos) =>
      pos < s.head && s.pushes[pos] == PushClaim(t, pos, item) && c.lap == c.stamp == pos
      && (pos >= s.size ==> c.item == s.pushes[pos - s.size].item)
    case PushWritePlen(item, pos) =>
      pos < s.head && s.pushes[pos] == PushClaim(t, pos, item) && c.lap == c.stamp == pos
      && c.item.packet == item.packet
    case PushPublish(item, pos) =>
      pos < s.head && s.pushes[pos] == PushClaim(t, pos, item) && c.lap == c.stamp == pos
      && c.item == item
    case PopLoadSeq(pos) => pos <= s.tail
    case PopCompare(pos, stamp) =>
      pos <= s.tail && (stamp == pos + 1 ==> s.tail > pos || (c.lap == pos && c.stamp == pos + 1))
    case PopRelease(pos) =>
      pos < s.tail && s.pops[pos].thread == t && c.lap == pos && c.stamp == pos + 1
    case PopReturned(pos) =>
      pos < s.tail && s.pops[pos].thread == t && c.lap >= pos + s.size
    case _ => true
  }

  ghost predicate PcOk(s: State, t: Thread)
    requires WellSized(s) && LogsOk(s)
  {
    HasPosition(PcOf(s, t)) ==> Knows(s, t, PcOf(s, t), CellAt(s, PcOf(s, t).pos))
  }

  ghost predicate Inv(s: State) {
    && WellSized(s) && s.size >= 2
    && LogsOk(s)
    && (forall i :: 0 <= i < s.size ==> CellOk(s, i))
    && (forall t :: PcOk(s, t))
    // a cell never falls behind a position claimed on it
    && (forall p :: 0 <= p < s.head ==> CellAt(s, p).lap >= p)
  }

  lemma InitInv(s: State)
    requires Init(s) && s.size >= 2
    ensures Inv(s)
  {
    forall i | 0 <= i < s.size ensures CellOk(s, i) {
      SlotSmall(i, s.size);
    }
  }

  // Facts about the cell of a position, wherever its lap stands.
  lemma CellFacts(s: State, pos: nat)
    requires Inv(s)
    ensures CellOk(s, CellIndex(s, pos))
    ensures CellAt(s, pos).lap != pos + 1
    ensures CellAt(s, pos).lap + 1 != pos
    ensures CellAt(s, pos).lap < pos ==> CellAt(s, pos).lap + s.size <= pos
    ensures CellAt(s, pos).lap > pos ==> pos + s.size <= CellAt(s, pos).lap
  {
    var lap := CellAt(s, pos).lap;
    assert CellOk(s, CellIndex(s, pos));
    if lap < pos < lap + s.size {
      SlotDistinct(lap, pos, s.size);
    }
    if pos < lap < pos + s.size {
      SlotDistinct(pos, lap, s.size);
    }
  }

  // Steps that only move a program counter to a state with nothing to hold.
  lemma PcOnly(s: State, t: Thread, pc: Pc)
    requires Inv(s)
    requires !PcOf(s, t).PopRelease? && (forall p :: !Writes(PcOf(s, t), p))
    requires PcOk(Goto(s, t, pc), t)
    ensures Inv(Goto(s, t, pc))
  {
    hide Slot, IsPowerOfTwo;
    var s' := Goto(s, t, pc);
    forall i | 0 <= i < s'.size ensures CellOk(s', i) {
      assert CellOk(s, i);
    }
    forall u ensures PcOk(s', u) {
      assert PcOk(s, u);
      if u != t { assert PcOf(s', u) == PcOf(s, u); }
    }
    forall p | 0 <= p < s'.head ensures CellAt(s', p).lap >= p {
      assert CellAt(s, p).lap >= p;
    }
  }

  lemma PushClaimKeepsOthers(s: State, t: Thread, u: Thread)
    requires Inv(s) && u != t
    requires PcOf(s, t).PushCompare? && PcOf(s, t).stamp == PcOf(s, t).pos == s.head
    ensures LogsOk(Apply(s, t, Advance)) ==> PcOk(Apply(s, t, Advance), u)
  {
    var s' := Apply(s, t, Advance);
    assert PcOk(s, u);
    var up := PcOf(s, u);
    assert PcOf(s', u) == up;
    if HasPosition(up) {
      assert CellAt(s', up.pos) == CellAt(s, up.pos);
      assert Knows(s, u, up, CellAt(s, up.pos));
    }
  }

  lemma PushClaimSelf(s: State, t: Thread)
    requires Inv(s)
    requires PcOf(s, t).PushCompare? && PcOf(s, t).stamp == PcOf(s, t).pos == s.head
    ensures LogsOk(Apply(s, t, Advance)) && PcOk(Apply(s, t, Advance), t)
    ensures CellAt(s, s.head).lap == CellAt(s, s.head).stamp == s.head
  {
    var s' := Apply(s, t, Advance);
    assert PcOk(s, t);
    CellFacts(s, s.head);
    assert Knows(s', t, PcOf(s', t), CellAt(s', s.head));
  }

  lemma PushClaimInv(s: State, t: Thread)
    requires Inv(s)
    requires PcOf(s, t).PushCompare? && PcOf(s, t).stamp == PcOf(s, t).pos == s.head
    ensures Inv(Apply(s, t, Advance))
  {
    hide Knows, PcOk;
    var s' := Apply(s, t, Advance);
    PushClaimSelf(s, t);
    forall i | 0 <= i < s'.size ensures CellOk(s', i) {
      assert CellOk(s, i);
    }
    forall u ensures PcOk(s', u) {
      if u != t { PushClaimKeepsOthers(s, t, u); }
    }
    forall p | 0 <= p < s'.head ensures CellAt(s', p).lap >= p {
      if p < s.head { assert CellAt(s, p).lap >= p; }
    }
  }

  // A store to the cell of position pos by thread t, which moves on to pc.
  function Store(s: State, t: Thread, pos: nat, c: Cell, pc: Pc): State
    requires WellSized(s)
  {
    Goto(SetCell(s, pos, c), t, pc)
  }

  // What a store by the thread that owns pos must respect for the other threads.
  lemma StoreKeepsOthers(s: State, t: Thread, pos: nat, c: Cell, pc: Pc, u: Thread)
    requires Inv(s) && u != t
    requires Writes(PcOf(s, t), pos) || PcOf(s, t) == PopRelease(pos)
    requires c.lap >= CellAt(s, pos).lap
    ensures PcOk(Store(s, t, pos, c, pc), u)
  {
    hide CellOk, Slot, IsPowerOfTwo;
    var s' := Store(s, t, pos, c, pc);
    assert PcOk(s, t) && PcOk(s, u);
    assert LogsOk(s');
    var up := PcOf(s, u);
    assert PcOf(s', u) == up;
    if HasPosition(up) {
      var old' := CellAt(s, up.pos);
      assert Knows(s, u, up, old');
      if CellIndex(s, up.pos) != CellIndex(s, pos) {
        assert CellAt(s', up.pos) == old';
      } else {
        assert old' == CellAt(s, pos) && CellAt(s', up.pos) == c;
        assert old'.lap == pos && pos < s.head;
        assert Knows(s, u, up, c);
      }
      assert Knows(s', u, up, CellAt(s', up.pos));
    }
  }

  lemma StoreInv(s: State, t: Thread, pos: nat, c: Cell, pc: Pc)
    requires Inv(s)
    requires Writes(PcOf(s, t), pos) || PcOf(s, t) == PopRelease(pos)
    requires c.lap >= CellAt(s, pos).lap
    requires LogsOk(Store(s, t, pos, c, pc))
    requires CellOk(Store(s, t, pos, c, pc), CellIndex(s, pos))
    requires PcOk(Store(s, t, pos, c, pc), t)
    ensures Inv(Store(s, t, pos, c, pc))
  {
    hide Knows, Slot, IsPowerOfTwo;
    var s' := Store(s, t, pos, c, pc);
    assert PcOk(s, t);
    forall i | 0 <= i < s'.size ensures CellOk(s', i) {
      assert CellOk(s, i);
    }
    forall u ensures PcOk(s', u) {
      if u != t { StoreKeepsOthers(s, t, pos, c, pc, u); }
    }
    forall p | 0 <= p < s'.head ensures CellAt(s', p).lap >= p {
      assert CellAt(s, p).lap >= p;
    }
  }

  // The payload stores and the release store of a producer.
  lemma PushStoreInv(s: State, t: Thread)
    requires Inv(s) && IsWriter(PcOf(s, t))
    ensures Inv(Apply(s, t, Advance))
  {
    var s' := Apply(s, t, Advance);
    var pos := PcOf(s, t).pos;
    assert PcOk(s, t);
    assert CellOk(s, CellIndex(s, pos));
    StoreInv(s, t, pos, CellAt(s', pos), PcOf(s', t));
  }

  lemma PopReleaseInv(s: State, t: Thread)
    requires Inv(s) && PcOf(s, t).PopRelease?
    ensures Inv(Apply(s, t, Advance))
  {
    var s' := Apply(s, t, Advance);
    var pos := PcOf(s, t).pos;
    assert PcOk(s, t);
    assert CellOk(s, CellIndex(s, pos));
    SlotPeriodic(pos, s.size);
    // the next lap has not been claimed: its cell is still at this one
    assert !(pos + s.size < s.head && CellAt(s, pos + s.size).lap >= pos + s.size);
    StoreInv(s, t, pos, CellAt(s', pos), PcOf(s', t));
  }

  lemma PopClaimPcs(s: State, t: Thread, u: Thread)
    requires Inv(s)
    requires PcOf(s, t).PopCompare? && PcOf(s, t).stamp == PcOf(s, t).pos + 1 && s.tail == PcOf(s, t).pos
    ensures CellAt(s, s.tail).lap == s.tail && CellAt(s, s.tail).stamp == s.tail + 1 && s.tail < s.head
    ensures LogsOk(Apply(s, t, Advance)) && PcOk(Apply(s, t, Advance), u)
  {
    hide Slot, IsPowerOfTwo;
    assert PcOk(s, t) && PcOk(s, u);
    CellFacts(s, s.tail);
    var s', up := Apply(s, t, Advance), PcOf(s, u);
    if u != t && HasPosition(up) {
      assert CellAt(s', up.pos) == CellAt(s, up.pos);
    }
  }

  lemma PopClaimInv(s: State, t: Thread)
    requires Inv(s)
    requires PcOf(s, t).PopCompare? && PcOf(s, t).stamp == PcOf(s, t).pos + 1 && s.tail == PcOf(s, t).pos
    ensures Inv(Apply(s, t, Advance))
  {
    hide Knows, PcOk;
    var s' := Apply(s, t, Advance);
    PopClaimPcs(s, t, t);
    forall i | 0 <= i < s'.size ensures CellOk(s', i) {
      assert CellOk(s, i);
    }
    forall u ensures PcOk(s', u) {
      PopClaimPcs(s, t, u);
    }
    forall p | 0 <= p < s'.head ensures CellAt(s', p).lap >= p {
      assert CellAt(s, p).lap >= p;
    }
  }

  // A step that only loads, or gives up, is a move of the program counter.
  lemma QuietStepInv(s: State, t: Thread)
    requires Inv(s) && Enabled(s, t, Advance)
    requires Apply(s, t, Advance).cells == s.cells
    requires Apply(s, t, Advance).pushes == s.pushes && Apply(s, t, Advance).pops == s.pops
    requires Apply(s, t, Advance).head == s.head && Apply(s, t, Advance).tail == s.tail
    requires !IsWriter(PcOf(s, t)) && !PcOf(s, t).PopRelease?
    ensures Inv(Apply(s, t, Advance))
  {
    var pc := PcOf(s, t);
    assert PcOk(s, t);
    if pc.PushLoadSeq? || pc.PopLoadSeq? { CellFacts(s, pc.pos); }
    PcOnly(s, t, PcOf(Apply(s, t, Advance), t));
  }

  // Every atomic step of every thread keeps the invariant.
  lemma StepInv(s: State, t: Thread, a: Action)
    requires Inv(s) && Enabled(s, t, a)
    ensures Inv(Apply(s, t, a))
  {
    if !a.Advance? {
      PcOnly(s, t, PcOf(Apply(s, t, a), t));
    } else {
      match PcOf(s, t)
      case PushCompare(_, pos, stamp) =>
        if stamp == pos && s.head == pos { PushClaimInv(s, t); } else { QuietStepInv(s, t); }
      case PushWritePacket(_, _) => PushStoreInv(s, t);
      case PushWritePlen(_, _) => PushStoreInv(s, t);
      case PushPublish(_, _) => PushStoreInv(s, t);
      case PopCompare(pos, stamp) =>
        if stamp == pos + 1 && s.tail == pos { PopClaimInv(s, t); } else { QuietStepInv(s, t); }
      case PopRelease(_) => PopReleaseInv(s, t);
      case _ => QuietStepInv(s, t);
    }
  }
}
