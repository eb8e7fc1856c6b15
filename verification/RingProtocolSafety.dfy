/** What the lock-free ring guarantees over every interleaving of every number of threads. */
module RingProtocolSafety {
  import opened RingIndex
  import opened RingProtocol

  type Schedule = seq<(Thread, Action)>

  ghost predicate CanRun(s: State, run: Schedule)
    requires WellSized(s)
    decreases |run|
  {
    run == [] || (Enabled(s, run[0].0, run[0].1) && CanRun(Apply(s, run[0].0, run[0].1), run[1..]))
  }

  ghost function Exec(s: State, run: Schedule): State
    requires WellSized(s) && CanRun(s, run)
    decreases |run|
  {
    if run == [] then s else Exec(Apply(s, run[0].0, run[0].1), run[1..])
  }

  lemma {:induction false} RunInv(s: State, run: Schedule)
    requires Inv(s) && CanRun(s, run)
    ensures Inv(Exec(s, run))
    ensures s.pushes <= Exec(s, run).pushes && s.pops <= Exec(s, run).pops
    ensures Exec(s, run).size == s.size
    decreases |run|
  {
    hide CellOk, PcOk, LogsOk, Slot, IsPowerOfTwo;
    if run != [] {
      StepInv(s, run[0].0, run[0].1);
      RunInv(Apply(s, run[0].0, run[0].1), run[1..]);
    }
  }

  ghost predicate Reachable(s: State) {
    exists s0, run :: Init(s0) && s0.size >= 2 && CanRun(s0, run) && s == Exec(s0, run)
  }

  lemma ReachableInv(s: State)
    requires Reachable(s)
    ensures Inv(s)
  {
    var s0, run :| Init(s0) && s0.size >= 2 && CanRun(s0, run) && s == Exec(s0, run);
    InitInv(s0);
    RunInv(s0, run);
  }

  // ---------- claims ----------

  // Claims come in position order, one producer and one consumer for each position, and never
  // two threads at work on the same position on the same side.
  lemma ClaimedOnce(s: State, t: Thread, u: Thread, p: nat)
    requires Reachable(s)
    ensures |s.pushes| == s.head && forall i :: 0 <= i < s.head ==> s.pushes[i].pos == i
    ensures |s.pops| == s.tail && forall i :: 0 <= i < s.tail ==> s.pops[i].pos == i
    ensures Writes(PcOf(s, t), p) && Writes(PcOf(s, u), p) ==> t == u
    ensures PcOf(s, t) == PopRelease(p) && PcOf(s, u) == PopRelease(p) ==> t == u
  {
    ReachableInv(s);
    assert PcOk(s, t) && PcOk(s, u);
  }

  // From its claim to its release the consumer of position p sees exactly what the producer
  // of p pushed, however late the stores of other producers are.
  lemma ConsumerSeesItsItem(s: State, t: Thread, p: nat)
    requires Reachable(s) && PcOf(s, t) == PopRelease(p)
    ensures Inv(s)
    ensures p < s.head && CellAt(s, p).item == s.pushes[p].item
    ensures p < s.tail && s.pops[p].item == s.pushes[p].item && s.pops[p].thread == t
    ensures forall u :: !Writes(PcOf(s, u), p + s.size)
  {
    ReachableInv(s);
    assert PcOk(s, t);
    assert CellOk(s, CellIndex(s, p));
    SlotPeriodic(p, s.size);
    forall u ensures !Writes(PcOf(s, u), p + s.size) {
      assert PcOk(s, u);
    }
  }

  // ---------- refinement of a bounded FIFO ----------

  function PushedItems(claims: seq<PushClaim>): (r: seq<Item>)
    ensures |r| == |claims|
  {
    seq(|claims|, i requires 0 <= i < |claims| => claims[i].item)
  }

  function PoppedItems(claims: seq<PopClaim>): (r: seq<Item>)
    ensures |r| == |claims|
  {
    seq(|claims|, i requires 0 <= i < |claims| => claims[i].item)
  }

  // The abstract queue: claimed by a producer, not yet by a consumer.
  ghost function Queue(s: State): seq<Item>
    requires LogsOk(s)
  {
    PushedItems(s.pushes[s.tail..])
  }

  datatype FifoStep = Stutter | Enqueue(item: Item) | Dequeue(item: Item)

  ghost predicate FifoNext(q: seq<Item>, q': seq<Item>, size: nat, step: FifoStep) {
    match step
    case Stutter => q' == q
    case Enqueue(item) => |q| < size && q' == q + [item]
    case Dequeue(item) => |q| > 0 && q[0] == item && q' == q[1..]
  }

  // Which abstract step an atomic action takes.
  ghost function StepOf(s: State, t: Thread, a: Action): FifoStep
    requires Inv(s) && Enabled(s, t, a)
  {
    if a.Advance? && PcOf(s, t).PushCompare? && PcOf(s, t).stamp == PcOf(s, t).pos == s.head then
      Enqueue(PcOf(s, t).item)
    else if a.Advance? && PcOf(s, t).PopCompare? && PcOf(s, t).stamp == PcOf(s, t).pos + 1
            && s.tail == PcOf(s, t).pos then
      Dequeue(CellAt(s, s.tail).item)
    else Stutter
  }

  // Every atomic step is a step of a FIFO bounded by the ring size: the only steps that
  // change the queue are the two successful exchanges.
  lemma StepRefinesFifo(s: State, t: Thread, a: Action)
    requires Inv(s) && Enabled(s, t, a)
    ensures Inv(Apply(s, t, a))
    ensures FifoNext(Queue(s), Queue(Apply(s, t, a)), s.size, StepOf(s, t, a))
  {
    hide Slot, IsPowerOfTwo;
    StepInv(s, t, a);
    assert PcOk(s, t);
    var s' := Apply(s, t, a);
    match StepOf(s, t, a)
    case Enqueue(item) =>
      assert s'.pushes[s.tail..] == s.pushes[s.tail..] + [s'.pushes[s.head]];
      assert Queue(s') == Queue(s) + [item];
    case Dequeue(item) =>
      assert CellOk(s, CellIndex(s, s.tail));
      assert Queue(s') == Queue(s)[1..];
    case Stutter =>
      assert s'.pushes == s.pushes && s'.tail == s.tail;
  }

  // Nothing is lost, duplicated or reordered: what consumers read, followed by what is
  // still queued, is what producers pushed.
  lemma NothingLost(s: State)
    requires Reachable(s)
    ensures LogsOk(s)
    ensures PoppedItems(s.pops) + Queue(s) == PushedItems(s.pushes)
    ensures |Queue(s)| <= s.size
  {
    ReachableInv(s);
  }

  // ---------- exact meaning of "full" and "empty" ----------

  // The cell's sequence number is below a position that push may be trying exactly when the consumer of the
  // position one lap earlier has not released the cell.
  lemma StampIsEarlier(s: State, pos: nat)
    requires Inv(s) && pos <= s.head
    ensures CellAt(s, pos).stamp < pos <==>
      pos >= s.size
      && (s.tail <= pos - s.size || PcOf(s, s.pops[pos - s.size].thread) == PopRelease(pos - s.size))
  {
    hide Slot, IsPowerOfTwo;
    CellFacts(s, pos);
    if pos >= s.size {
      SlotPeriodic(pos - s.size, s.size);
      assert CellAt(s, pos - s.size).lap >= pos - s.size;
      if s.tail > pos - s.size { assert PcOk(s, s.pops[pos - s.size].thread); }
    }
  }

  // push returns -1 exactly when, at its load of the cell's sequence number, the position one lap earlier
  // has not been released by its consumer, whatever happens between the load and the comparison.
  lemma PushSeesFull(s: State, t: Thread, later: State)
    requires Reachable(s) && PcOf(s, t).PushLoadSeq?
    requires WellSized(later) && WellSized(s) && PcOf(later, t) == PcOf(Apply(s, t, Advance), t)
    ensures Inv(s)
    ensures Enabled(later, t, Advance)
    ensures var pos := PcOf(s, t).pos;
      PcOf(Apply(later, t, Advance), t) == PushFull <==>
      pos >= s.size
      && (s.tail <= pos - s.size || PcOf(s, s.pops[pos - s.size].thread) == PopRelease(pos - s.size))
  {
    hide Reachable, Slot, IsPowerOfTwo, CellOk;
    ReachableInv(s);
    assert PcOk(s, t);
    StampIsEarlier(s, PcOf(s, t).pos);
  }

  // pop returns NULL exactly when, at its load of the cell's sequence number, its position is not claimed
  // by a producer, or that producer has not published yet.
  lemma PopSeesEmpty(s: State, t: Thread, later: State)
    requires Reachable(s) && PcOf(s, t).PopLoadSeq?
    requires WellSized(later) && WellSized(s) && PcOf(later, t) == PcOf(Apply(s, t, Advance), t)
    ensures Inv(s)
    ensures Enabled(later, t, Advance)
    ensures var pos := PcOf(s, t).pos;
      PcOf(Apply(later, t, Advance), t) == PopEmpty <==>
      pos >= s.head || Writes(PcOf(s, s.pushes[pos].thread), pos)
  {
    hide Reachable, Slot, IsPowerOfTwo;
    ReachableInv(s);
    var pos := PcOf(s, t).pos;
    assert PcOk(s, t);
    CellFacts(s, pos);
    if pos < s.head {
      assert CellAt(s, pos).lap >= pos;
      assert PcOk(s, s.pushes[pos].thread);
    }
  }

  // An exchange that is tried fails only spuriously, or because another thread has claimed the position
  // since this one loaded the counter: some thread always gets on.
  lemma ExchangeFails(s: State, t: Thread)
    requires Reachable(s)
    ensures WellSized(s) && LogsOk(s)
    ensures PcOf(s, t).PushCompare? && PcOf(s, t).stamp == PcOf(s, t).pos ==>
      && Enabled(s, t, Advance) && Enabled(s, t, FailExchange) && PcOf(s, t).pos <= s.head
      && (if PcOf(s, t).pos == s.head then Writes(PcOf(Apply(s, t, Advance), t), s.head)
          else PcOf(Apply(s, t, Advance), t).PushLoadHead? && s.pushes[PcOf(s, t).pos].pos == PcOf(s, t).pos)
    ensures PcOf(s, t).PopCompare? && PcOf(s, t).stamp == PcOf(s, t).pos + 1 ==>
      && Enabled(s, t, Advance) && Enabled(s, t, FailExchange) && PcOf(s, t).pos <= s.tail
      && (if PcOf(s, t).pos == s.tail then PcOf(Apply(s, t, Advance), t) == PopRelease(s.tail)
          else PcOf(Apply(s, t, Advance), t).PopLoadTail? && s.pops[PcOf(s, t).pos].pos == PcOf(s, t).pos)
  {
    hide Reachable, Slot, IsPowerOfTwo, CellOk;
    ReachableInv(s);
    assert PcOk(s, t);
  }

  // ---------- the window after pop returns ----------

  // A popped cell keeps its contents until a producer claims its next lap.
  lemma PoppedCellIntact(s: State, p: nat)
    requires Reachable(s) && p < s.tail && s.head <= p + s.size
    ensures Inv(s)
    ensures p < s.head && CellAt(s, p).item == s.pushes[p].item == s.pops[p].item
  {
    hide Reachable, IsPowerOfTwo;
    ReachableInv(s);
    CellFacts(s, p);
    SlotPeriodic(p, s.size);
    CellFacts(s, p + s.size);
    assert CellAt(s, p).lap >= p;
  }

  // If k items were queued when position p was claimed, counting the claimed one, then no run
  // with at most size - k further push claims changes the cell.
  lemma PoppedCellIntactFor(s: State, t: Thread, run: Schedule)
    requires Reachable(s) && Inv(s)
    requires PcOf(s, t).PopCompare? && PcOf(s, t).stamp == PcOf(s, t).pos + 1 && s.tail == PcOf(s, t).pos
    requires CanRun(Apply(s, t, Advance), run)
    requires var k := s.head - s.tail;
      |Exec(Apply(s, t, Advance), run).pushes| - s.head <= s.size - k
    ensures s.head > s.tail && LogsOk(s)
    ensures WellSized(Exec(Apply(s, t, Advance), run))
    ensures CellAt(Exec(Apply(s, t, Advance), run), s.tail).item == s.pushes[s.tail].item
  {
    ReachableInv(s);
    assert PcOk(s, t);
    assert CellOk(s, CellIndex(s, s.tail));
    StepInv(s, t, Advance);
    var s1 := Apply(s, t, Advance);
    RunInv(s1, run);
    var e := Exec(s1, run);
    assert s1.pops[s.tail].pos == s.tail;
    ReachExtends(s, t, Advance, run);
    PoppedCellIntact(e, s.tail);
  }

  // The window is tight: once the producer of the next lap has stored its payload, the popped
  // cell holds the new item.
  lemma PoppedCellOverwritten(s: State, u: Thread, p: nat)
    requires Reachable(s) && PcOf(s, u).PushPublish? && PcOf(s, u).pos == p + s.size
    ensures WellSized(s)
    ensures CellAt(s, p).item == PcOf(s, u).item
  {
    ReachableInv(s);
    assert PcOk(s, u);
    SlotPeriodic(p, s.size);
  }

  lemma {:induction false} ExecAppend(s: State, r1: Schedule, r2: Schedule)
    requires WellSized(s) && CanRun(s, r1) && WellSized(Exec(s, r1)) && CanRun(Exec(s, r1), r2)
    ensures CanRun(s, r1 + r2) && Exec(s, r1 + r2) == Exec(Exec(s, r1), r2)
    decreases |r1|
  {
    hide Enabled, Slot, IsPowerOfTwo;
    if r1 == [] {
      assert r1 + r2 == r2;
    } else {
      ExecAppend(Apply(s, r1[0].0, r1[0].1), r1[1..], r2);
      assert (r1 + r2)[1..] == r1[1..] + r2;
    }
  }

  lemma ReachExtends(s: State, t: Thread, a: Action, run: Schedule)
    requires Reachable(s) && WellSized(s) && Enabled(s, t, a)
    requires CanRun(Apply(s, t, a), run)
    ensures Reachable(Exec(Apply(s, t, a), run))
  {
    hide Enabled, Slot, IsPowerOfTwo, CanRun, Exec, Apply;
    var s0, r0 :| Init(s0) && s0.size >= 2 && CanRun(s0, r0) && s == Exec(s0, r0);
    ExecOne(s, t, a, run);
    ExecAppend(s0, r0, [(t, a)] + run);
    ReachedBy(s0, r0 + ([(t, a)] + run));
  }

  lemma ReachedBy(s0: State, run: Schedule)
    requires Init(s0) && s0.size >= 2 && CanRun(s0, run)
    ensures Reachable(Exec(s0, run))
  {
    hide CanRun, Exec;
  }

  // ---------- why the ring needs at least two cells ----------

  function OnePush(item: Item): Schedule {
    ClaimSchedule(item) + [(0, Advance), (0, Advance), (0, Advance)]
  }

  // The three payload and release stores of thread 0.
  lemma StoresRun(s: State, pos: nat, item: Item)
    requires WellSized(s) && PcOf(s, 0) == PushWritePacket(item, pos)
    ensures CanRun(s, [(0, Advance), (0, Advance), (0, Advance)])
    ensures var e := Exec(s, [(0, Advance), (0, Advance), (0, Advance)]);
      && e.size == s.size && e.head == s.head && e.tail == s.tail && WellSized(e)
      && e.pcs == s.pcs[0 := Idle]
      && e.cells == s.cells[CellIndex(s, pos) := Cell(pos + 1, item, CellAt(s, pos).lap)]
  {
    var s1 := Apply(s, 0, Advance);
    var s2 := Apply(s1, 0, Advance);
    ExecOne(s2, 0, Advance, []);
    ExecOne(s1, 0, Advance, [(0, Advance)]);
    ExecOne(s, 0, Advance, [(0, Advance), (0, Advance)]);
  }

  // Thread 0 loads the head and the cell's sequence number, and its exchange succeeds.
  lemma ClaimRuns(s: State, item: Item)
    requires WellSized(s) && PcOf(s, 0).Idle? && CellAt(s, s.head).stamp == s.head
    ensures CanRun(s, ClaimSchedule(item))
    ensures var e := Exec(s, ClaimSchedule(item));
      && e.size == s.size && e.head == s.head + 1 && e.tail == s.tail && WellSized(e)
      && e.cells == s.cells && e.pcs == s.pcs[0 := PushWritePacket(item, s.head)]
  {
    hide Slot, IsPowerOfTwo;
    var r := ClaimSchedule(item);
    var s1 := Apply(s, 0, StartPush(item));
    var s2 := Apply(s1, 0, Advance);
    assert PcOf(s2, 0) == PushLoadSeq(item, s.head);
    var s3 := Apply(s2, 0, Advance);
    ExecOne(s3, 0, Advance, []);
    ExecOne(s2, 0, Advance, [(0, Advance)]);
    ExecOne(s1, 0, Advance, [(0, Advance), (0, Advance)]);
    ExecOne(s, 0, StartPush(item), r[1..]);
  }

  function ClaimSchedule(item: Item): Schedule {
    [(0, StartPush(item)), (0, Advance), (0, Advance), (0, Advance)]
  }

  // One push of the only thread, when the exchange will succeed.
  lemma OnePushRuns(s: State, item: Item)
    requires WellSized(s) && PcOf(s, 0).Idle? && CellAt(s, s.head).stamp == s.head
    ensures CanRun(s, OnePush(item))
    ensures var e := Exec(s, OnePush(item));
      && e.size == s.size && e.head == s.head + 1 && e.tail == s.tail && WellSized(e)
      && PcOf(e, 0).Idle? && CellAt(e, s.head) == Cell(s.head + 1, item, CellAt(s, s.head).lap)
      && e.pcs == s.pcs[0 := Idle]
      && e.cells == s.cells[CellIndex(s, s.head) := Cell(s.head + 1, item, CellAt(s, s.head).lap)]
  {
    hide CanRun, Exec, Slot, IsPowerOfTwo;
    ClaimRuns(s, item);
    StoresRun(Exec(s, ClaimSchedule(item)), s.head, item);
    ExecAppend(s, ClaimSchedule(item), [(0, Advance), (0, Advance), (0, Advance)]);
  }

  lemma ExecOne(s: State, t: Thread, a: Action, rest: Schedule)
    requires WellSized(s) && Enabled(s, t, a) && CanRun(Apply(s, t, a), rest)
    ensures CanRun(s, [(t, a)] + rest) && Exec(s, [(t, a)] + rest) == Exec(Apply(s, t, a), rest)
  {
    assert ([(t, a)] + rest)[1..] == rest;
  }

  // With a single cell a second push succeeds on the full ring and overwrites the first item.
  lemma SizeOneOverwrites(s: State, a: Item, b: Item)
    requires Init(s) && s.size == 1
    ensures CanRun(s, OnePush(a) + OnePush(b))
    ensures var e := Exec(s, OnePush(a) + OnePush(b));
      e.head == 2 && e.tail == 0 && WellSized(e) && CellAt(e, 0).item == b
  {
    OnePushRuns(s, a);
    var e1 := Exec(s, OnePush(a));
    SlotInRange(1, 1);
    OnePushRuns(e1, b);
    ExecAppend(s, OnePush(a), OnePush(b));
  }

  // ---------- why the window is no longer ----------

  // The next n positions are free to be claimed.
  ghost predicate Open(s: State, n: nat) {
    && WellSized(s) && n <= s.size && PcOf(s, 0).Idle?
    && forall pos :: s.head <= pos < s.head + n ==> CellAt(s, pos).stamp == pos
  }

  function Pushes(n: nat, item: Item): Schedule
    decreases n
  {
    if n == 0 then [] else OnePush(item) + Pushes(n - 1, item)
  }

  // One push leaves the other open positions and the other threads alone.
  lemma OnePushOpen(s: State, n: nat, item: Item)
    requires n > 0 && Open(s, n)
    ensures CanRun(s, OnePush(item))
    ensures var e := Exec(s, OnePush(item));
      && Open(e, n - 1) && e.size == s.size && e.head == s.head + 1 && e.tail == s.tail
      && (forall t :: t != 0 ==> PcOf(e, t) == PcOf(s, t))
      && CellAt(e, s.head).stamp == s.head + 1 && CellAt(e, s.head).item == item
      && (forall pos :: s.head < pos < s.head + s.size ==> CellAt(e, pos) == CellAt(s, pos))
  {
    OnePushRuns(s, item);
    var e := Exec(s, OnePush(item));
    forall pos | s.head < pos < s.head + s.size
      ensures CellAt(e, pos) == CellAt(s, pos)
    {
      SlotDistinct(s.head, pos, s.size);
    }
  }

  lemma {:induction false} PushesRun(s: State, n: nat, m: nat, item: Item)
    requires n <= m && Open(s, m)
    ensures CanRun(s, Pushes(n, item))
    ensures var e := Exec(s, Pushes(n, item));
      && Open(e, m - n) && e.size == s.size && e.head == s.head + n && e.tail == s.tail
      && (forall t :: t != 0 ==> PcOf(e, t) == PcOf(s, t))
      && (n > 0 ==> CellAt(e, s.head).stamp == s.head + 1)
      && (forall pos :: s.head + n <= pos < s.head + s.size ==> CellAt(e, pos) == CellAt(s, pos))
    decreases n
  {
    if n > 0 {
      OnePushOpen(s, m, item);
      var s1 := Exec(s, OnePush(item));
      PushesRun(s1, n - 1, m - 1, item);
      ExecAppend(s, OnePush(item), Pushes(n - 1, item));
      var e := Exec(s, Pushes(n, item));
      FirstKept(s, s1, e, n);
    }
  }

  // The first of fewer than a lap of pushed cells is not touched by the others.
  lemma FirstKept(s: State, s1: State, e: State, n: nat)
    requires WellSized(s) && WellSized(s1) && WellSized(e) && s1.size == e.size == s.size && 0 < n <= s.size
    requires s1.head == s.head + 1 && CellAt(s1, s.head).stamp == s.head + 1
    requires forall pos :: s1.head + (n - 1) <= pos < s1.head + s1.size ==> CellAt(e, pos) == CellAt(s1, pos)
    ensures CellAt(e, s.head).stamp == s.head + 1
  {
    SlotPeriodic(s.head, s.size);
    assert CellAt(e, s.head + s.size) == CellAt(s1, s.head + s.size);
  }

  const ONE_POP: Schedule := [(1, StartPop), (1, Advance), (1, Advance), (1, Advance), (1, Advance)]

  // Thread 1 pops the oldest item and still holds its cell.
  lemma OnePopRuns(s: State)
    requires WellSized(s) && PcOf(s, 1).Idle? && CellAt(s, s.tail).stamp == s.tail + 1
    ensures CanRun(s, ONE_POP)
    ensures var e := Exec(s, ONE_POP);
      && e.size == s.size && e.head == s.head && e.tail == s.tail + 1 && WellSized(e)
      && PcOf(e, 1) == PopReturned(s.tail) && (forall t :: t != 1 ==> PcOf(e, t) == PcOf(s, t))
      && e.cells == s.cells[CellIndex(s, s.tail) :=
                              CellAt(s, s.tail).(stamp := s.tail + s.size, lap := s.tail + s.size)]
  {
    hide CanRun, Exec, Slot, IsPowerOfTwo;
    PopLoadsRun(s);
    var s3 := Exec(s, POP_LOADS);
    PopClaimRuns(s3, s.tail);
    ExecAppend(s, POP_LOADS, [(1, Advance), (1, Advance)]);
    assert POP_LOADS + [(1, Advance), (1, Advance)] == ONE_POP;
  }

  const POP_LOADS: Schedule := [(1, StartPop), (1, Advance), (1, Advance)]

  lemma PopLoadsRun(s: State)
    requires WellSized(s) && PcOf(s, 1).Idle? && CellAt(s, s.tail).stamp == s.tail + 1
    ensures CanRun(s, POP_LOADS)
    ensures Exec(s, POP_LOADS) == s.(pcs := s.pcs[1 := PopCompare(s.tail, s.tail + 1)])
  {
    var s1 := Apply(s, 1, StartPop);
    var s2 := Apply(s1, 1, Advance);
    ExecOne(s2, 1, Advance, []);
    ExecOne(s1, 1, Advance, [(1, Advance)]);
    ExecOne(s, 1, StartPop, POP_LOADS[1..]);
    assert s.pcs[1 := PopLoadTail][1 := PopLoadSeq(s.tail)][1 := PopCompare(s.tail, s.tail + 1)]
        == s.pcs[1 := PopCompare(s.tail, s.tail + 1)];
  }

  lemma PopClaimRuns(s: State, p: nat)
    requires WellSized(s) && PcOf(s, 1) == PopCompare(p, p + 1) && s.tail == p
    ensures CanRun(s, [(1, Advance), (1, Advance)])
    ensures var e := Exec(s, [(1, Advance), (1, Advance)]);
      && e.size == s.size && e.head == s.head && e.tail == p + 1 && WellSized(e)
      && PcOf(e, 1) == PopReturned(p) && (forall t :: t != 1 ==> PcOf(e, t) == PcOf(s, t))
      && e.cells == s.cells[CellIndex(s, p) := CellAt(s, p).(stamp := p + s.size, lap := p + s.size)]
  {
    var s1 := Apply(s, 1, Advance);
    ExecOne(s1, 1, Advance, []);
    ExecOne(s, 1, Advance, [(1, Advance)]);
  }

  lemma InitOpen(s: State)
    requires Init(s)
    ensures Open(s, s.size)
  {
    forall pos: nat | pos < s.size ensures CellAt(s, pos).stamp == pos {
      SlotSmall(pos, s.size);
    }
  }

  // After k pushes and a pop, all the cells from the head to the popped one are open.
  lemma PopOpens(s: State, k: nat)
    requires 1 <= k <= s.size && Open(s, s.size - k) && s.head == k && s.tail == 0
    requires PcOf(s, 1).Idle? && CellAt(s, 0).stamp == 1
    ensures CanRun(s, ONE_POP) && Open(Exec(s, ONE_POP), s.size - k + 1)
    ensures var e := Exec(s, ONE_POP);
      e.head == k && e.tail == 1 && e.size == s.size && PcOf(e, 1) == PopReturned(0)
  {
    hide CanRun, Exec, IsPowerOfTwo;
    OnePopRuns(s);
    var e := Exec(s, ONE_POP);
    assert CellAt(e, 0).stamp == s.size;
    forall pos: nat | k <= pos < s.size + 1
      ensures CellAt(e, pos).stamp == pos
    {
      if pos < s.size {
        SlotDistinct(0, pos, s.size);
        assert CellAt(s, pos).stamp == pos;
      } else {
        SlotPeriodic(0, s.size);
        assert CellAt(e, pos) == CellAt(e, 0);
      }
    }
  }

  // The bound on further claims cannot be raised: for every ring of two cells or more and every k, there
  // is a run that queues k items, pops one, and with size - k + 1 further pushes overwrites the cell
  // while its caller still holds it.
  lemma WindowIsTight(s: State, k: nat, a: Item, b: Item)
    requires Init(s) && s.size >= 2 && 1 <= k <= s.size
    ensures CanRun(s, Pushes(k, a))
    ensures var queued := Exec(s, Pushes(k, a));
      && WellSized(queued) && queued.head - queued.tail == k
      && CanRun(queued, ONE_POP + (Pushes(s.size - k, a) + OnePush(b)))
      && var e := Exec(queued, ONE_POP + (Pushes(s.size - k, a) + OnePush(b)));
         && e.head - queued.head == s.size - k + 1 && e.tail == 1
         && PcOf(e, 1) == PopReturned(0) && WellSized(e) && CellAt(e, 0).item == b
  {
    hide Pushes, OnePush, CanRun, Exec;
    InitOpen(s);
    PushesRun(s, k, s.size, a);
    var s1 := Exec(s, Pushes(k, a));
    PopOpens(s1, k);
    var s2 := Exec(s1, ONE_POP);
    PushesRun(s2, s.size - k, s.size - k + 1, a);
    var s3 := Exec(s2, Pushes(s.size - k, a));
    OnePushOpen(s3, 1, b);
    SlotPeriodic(0, s.size);
    ExecAppend(s2, Pushes(s.size - k, a), OnePush(b));
    ExecAppend(s1, ONE_POP, Pushes(s.size - k, a) + OnePush(b));
  }
}
