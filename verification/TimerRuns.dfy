/** Runs of inserts and ticks: conservation of timers, and when a timer fires. */
module TimerRuns {
  import opened RingIndex
  import opened TimerSpec
  import opened Bags

  datatype Op = InsertOp(signal: nat, time: nat) | TickOp

  datatype Option<T> = None | Some(value: T)

  ghost predicate CanDo(w: Wheel, op: Op) {
    Formed(w) && (op.InsertOp? ==> CanInsert(w, op.time))
  }

  ghost function Do(w: Wheel, op: Op): (r: Wheel)
    requires CanDo(w, op)
    ensures Formed(r) && r.max == w.max
  {
    match op
    case InsertOp(signal, time) => Insert(w, signal, time)
    case TickOp => Tick(w)
  }

  ghost predicate CanRun(w: Wheel, ops: seq<Op>)
    decreases |ops|
  {
    Formed(w) && (ops == [] || (CanDo(w, ops[0]) && CanRun(Do(w, ops[0]), ops[1..])))
  }

  ghost function Run(w: Wheel, ops: seq<Op>): (r: Wheel)
    requires CanRun(w, ops)
    ensures Formed(r) && r.max == w.max
    decreases |ops|
  {
    if ops == [] then w else Run(Do(w, ops[0]), ops[1..])
  }

  // What a run shows: the timers fired by each tick, in order.
  datatype Event = Inserted | Ticked(shots: seq<Shot>)

  ghost function EventOf(w: Wheel, op: Op): Event
    requires CanDo(w, op)
  {
    if op.TickOp? then Ticked(TickShots(w)) else Inserted
  }

  ghost function History(w: Wheel, ops: seq<Op>): seq<Event>
    requires CanRun(w, ops)
    decreases |ops|
  {
    if ops == [] then [] else [EventOf(w, ops[0])] + History(Do(w, ops[0]), ops[1..])
  }

  function ShotsOf(e: Event): seq<Shot> { if e.Ticked? then e.shots else [] }

  function TicksIn(h: seq<Event>): nat {
    if h == [] then 0 else (if h[0].Ticked? then 1 else 0) + TicksIn(h[1..])
  }

  // The number of the tick (counted from 1) at which x first fires.
  function FireTick(h: seq<Event>, x: Shot): Option<nat> {
    if h == [] then None
    else if x in ShotsOf(h[0]) then Some(1)
    else
      var rest := FireTick(h[1..], x);
      if rest.Some? && h[0].Ticked? then Some(rest.value + 1) else rest
  }

  // How often x fires.
  function TimesFired(h: seq<Event>, x: Shot): nat {
    if h == [] then 0 else multiset(ShotsOf(h[0]))[x] + TimesFired(h[1..], x)
  }

  function AllFired(h: seq<Event>): multiset<Shot> {
    if h == [] then multiset{} else multiset(ShotsOf(h[0])) + AllFired(h[1..])
  }

  // ---------- conservation ----------

  ghost function AllShots(bs: seq<seq<Entry>>): (r: seq<seq<Shot>>)
    ensures |r| == |bs|
    ensures forall i :: 0 <= i < |bs| ==> r[i] == Shots(bs[i])
  {
    seq(|bs|, i requires 0 <= i < |bs| => Shots(bs[i]))
  }

  ghost function Pending(w: Wheel): multiset<Shot> { Sum(AllShots(w.buckets)) }

  lemma PendingUpdate(bs: seq<seq<Entry>>, j: nat, b: seq<Entry>)
    requires j < |bs|
    ensures Sum(AllShots(bs[j := b])) + multiset(Shots(bs[j])) == Sum(AllShots(bs)) + multiset(Shots(b))
    ensures multiset(Shots(bs[j])) <= Sum(AllShots(bs))
  {
    assert AllShots(bs[j := b]) == AllShots(bs)[j := Shots(b)];
    SumUpdate(AllShots(bs), j, Shots(b));
  }

  ghost function InsertedBy(w: Wheel, op: Op): multiset<Shot> {
    if op.InsertOp? then multiset{Shot(w.nextId, op.signal)} else multiset{}
  }

  lemma StepConserves(w: Wheel, op: Op)
    requires CanDo(w, op)
    ensures Pending(Do(w, op)) + multiset(ShotsOf(EventOf(w, op))) == Pending(w) + InsertedBy(w, op)
  {
    match op
    case InsertOp(signal, time) =>
      var j, e := BucketOf(w, time), Entry(w.nextId, signal, RoundsOf(w, time));
      var b := w.buckets[j];
      PendingUpdate(w.buckets, j, b + [e]);
      assert Shots(b + [e]) == Shots(b) + [ShotOf(e)];
      Cancel(Pending(Do(w, op)), Pending(w), multiset{}, multiset{ShotOf(e)},
             multiset(Shots(b + [e])), multiset(Shots(b)));
    case TickOp =>
      var b := w.buckets[w.current];
      PendingUpdate(w.buckets, w.current, Left(b));
      FiredOrLeft(b);
      Cancel(Pending(Tick(w)), Pending(w), multiset(Fired(b)), multiset{},
             multiset(Shots(Left(b))), multiset(Shots(b)));
  }

  ghost function InsertedDuring(w: Wheel, ops: seq<Op>): multiset<Shot>
    requires CanRun(w, ops)
    decreases |ops|
  {
    if ops == [] then multiset{} else InsertedBy(w, ops[0]) + InsertedDuring(Do(w, ops[0]), ops[1..])
  }

  // Over any run: what was pending or inserted has fired or is still pending, each exactly once.
  lemma {:induction false} RunConserves(w: Wheel, ops: seq<Op>)
    requires CanRun(w, ops)
    ensures Pending(Run(w, ops)) + AllFired(History(w, ops)) == Pending(w) + InsertedDuring(w, ops)
    decreases |ops|
  {
    if ops != [] {
      StepConserves(w, ops[0]);
      var w', ops' := Do(w, ops[0]), ops[1..];
      RunConserves(w', ops');
      Chain(Pending(w), Pending(w'), Pending(Run(w', ops')), multiset(ShotsOf(EventOf(w, ops[0]))),
            AllFired(History(w', ops')), InsertedBy(w, ops[0]), InsertedDuring(w', ops'));
      assert History(w, ops)[1..] == History(w', ops');
    }
  }

  // ---------- deadlines ----------

  ghost predicate IdsBelow(w: Wheel) {
    forall x :: x in Pending(w) ==> x.id < w.nextId
  }

  lemma StepIdsBelow(w: Wheel, op: Op)
    requires CanDo(w, op) && IdsBelow(w)
    ensures IdsBelow(Do(w, op)) && Do(w, op).nextId >= w.nextId
  {
    StepConserves(w, op);
    forall x | x in Pending(Do(w, op)) ensures x.id < Do(w, op).nextId {
      assert x in Pending(w) + InsertedBy(w, op);
    }
  }

  ghost predicate Holds(b: seq<Entry>, x: Shot, rounds: nat) {
    Entry(x.id, x.signal, rounds) in b
  }

  lemma HoldsShot(b: seq<Entry>, x: Shot, rounds: nat)
    requires Holds(b, x, rounds)
    ensures x in Shots(b)
  {
    var i :| 0 <= i < |b| && b[i] == Entry(x.id, x.signal, rounds);
    assert Shots(b)[i] == x;
  }

  lemma {:induction false} HoldsDue(b: seq<Entry>, x: Shot)
    requires Holds(b, x, 0)
    ensures x in Due(b)
  {
    if b[0] != Entry(x.id, x.signal, 0) { HoldsDue(b[1..], x); }
  }

  lemma {:induction false} HoldsLater(b: seq<Entry>, x: Shot, rounds: nat)
    requires Holds(b, x, rounds + 1)
    ensures Holds(Later(b), x, rounds)
  {
    if b[0] != Entry(x.id, x.signal, rounds + 1) { HoldsLater(b[1..], x, rounds); }
  }

  // A timer that a tick of its bucket does not fire comes exactly one turn closer.
  lemma NotFired(b: seq<Entry>, x: Shot, rounds: nat)
    requires Holds(b, x, rounds) && x !in Fired(b)
    ensures rounds > 0 && Holds(Left(b), x, rounds - 1)
  {
    hide Drain, Due, Later, Shots;
    HoldsShot(b, x, rounds);
    DrainAll(b);
    assert x in multiset(Shots(b));
    assert !(b[0].rounds == 0 && x in multiset(Drain(b)));
    if rounds == 0 {
      HoldsDue(b, x);
    } else {
      HoldsLater(b, x, rounds - 1);
    }
  }

  // Ticks until the wheel next visits bucket j, not counting that visit.
  function Distance(w: Wheel, j: nat): nat
    requires w.current < w.max && j < w.max
  {
    if j >= w.current then j - w.current else j - w.current + w.max
  }

  // After k ticks, x waits alone in bucket j for at most n more whole turns, and its last
  // possible tick is number last.
  ghost predicate Tracked(w: Wheel, x: Shot, j: nat, n: nat, k: nat, last: nat) {
    && Formed(w) && IdsBelow(w) && j < w.max
    && Pending(w)[x] == 1
    && (exists rounds: nat :: rounds <= n && Holds(w.buckets[j], x, rounds))
    && k + Distance(w, j) + 1 + n * w.max == last
  }

  lemma TrackedOnlyThere(w: Wheel, x: Shot, j: nat, n: nat, k: nat, last: nat, i: nat)
    requires Tracked(w, x, j, n, k, last) && i < w.max
    ensures multiset(Shots(w.buckets[i]))[x] == if i == j then 1 else 0
  {
    var rounds: nat :| rounds <= n && Holds(w.buckets[j], x, rounds);
    HoldsShot(w.buckets[j], x, rounds);
    PendingUpdate(w.buckets, j, []);
    assert multiset(Shots(w.buckets[j]))[x] <= Pending(w)[x];
    if i < j {
      SumTwo(AllShots(w.buckets), i, j);
      assert multiset(Shots(w.buckets[i]))[x] + multiset(Shots(w.buckets[j]))[x] <= Pending(w)[x];
    } else if j < i {
      SumTwo(AllShots(w.buckets), j, i);
      assert multiset(Shots(w.buckets[i]))[x] + multiset(Shots(w.buckets[j]))[x] <= Pending(w)[x];
    }
  }

  lemma FiredCount(b: seq<Entry>, x: Shot)
    ensures multiset(Fired(b))[x] + multiset(Shots(Left(b)))[x] == multiset(Shots(b))[x]
  {
    FiredOrLeft(b);
    assert (multiset(Fired(b)) + multiset(Shots(Left(b))))[x] == multiset(Shots(b))[x];
  }

  lemma NextPosition(current: nat, max: nat)
    requires current < max
    ensures (current + 1) % max == if current + 1 == max then 0 else current + 1
  {
    if current + 1 == max { ModUnique(max, max, 1, 0); } else { ModUnique(current + 1, max, 0, current + 1); }
  }

  // What a tick leaves of the pending count of x, which is somewhere once.
  lemma TickCount(w: Wheel, x: Shot, j: nat, n: nat, k: nat, last: nat)
    requires Tracked(w, x, j, n, k, last)
    ensures x in TickShots(w) ==> j == w.current
    ensures x !in TickShots(w) ==> Pending(Tick(w))[x] == 1
    ensures IdsBelow(Tick(w))
  {
    hide IdsBelow, Fired, Left, Pending, Shots, AllShots, Sum, Holds;
    var b := w.buckets[w.current];
    TrackedOnlyThere(w, x, j, n, k, last, w.current);
    FiredCount(b, x);
    StepIdsBelow(w, TickOp);
    StepCount(w, TickOp, x);
    assert x in TickShots(w) <==> multiset(TickShots(w))[x] > 0;
  }

  // Where the tick leaves x when it does not fire it.
  lemma TickPlace(w: Wheel, x: Shot, j: nat, n: nat, rounds: nat)
    requires Formed(w) && j < w.max && rounds <= n && Holds(w.buckets[j], x, rounds) && x !in TickShots(w)
    ensures j == w.current ==> rounds > 0 && Holds(Tick(w).buckets[j], x, rounds - 1)
    ensures j != w.current ==> Holds(Tick(w).buckets[j], x, rounds)
  {
    hide Fired, Left, Holds;
    if j == w.current {
      NotFired(w.buckets[j], x, rounds);
    }
  }

  lemma NextDistance(w: Wheel, j: nat)
    requires Formed(w) && j < w.max
    ensures Distance(Tick(w), j) == if j == w.current then w.max - 1 else Distance(w, j) - 1
    ensures j == w.current ==> Distance(w, j) == 0
  {
    NextPosition(w.current, w.max);
  }

  // One tick: either x fires, on a tick whole turns before its last, or it is still tracked.
  lemma TrackedTick(w: Wheel, x: Shot, j: nat, n: nat, k: nat, last: nat)
    requires Tracked(w, x, j, n, k, last)
    ensures x in TickShots(w) ==> k + 1 + n * w.max == last
    ensures x !in TickShots(w) && j == w.current ==> n >= 1 && Tracked(Tick(w), x, j, n - 1, k + 1, last)
    ensures x !in TickShots(w) && j != w.current ==> Tracked(Tick(w), x, j, n, k + 1, last)
  {
    hide IdsBelow, TickShots, Pending, Holds, Distance;
    TickCount(w, x, j, n, k, last);
    NextDistance(w, j);
    if x !in TickShots(w) {
      var rounds: nat :| rounds <= n && Holds(w.buckets[j], x, rounds);
      TickPlace(w, x, j, n, rounds);
      if j == w.current {
        assert (n - 1) * w.max == n * w.max - w.max;
        assert Holds(Tick(w).buckets[j], x, rounds - 1);
      }
    }
  }

  // Inserting another timer does not move x.
  lemma TrackedInsert(w: Wheel, x: Shot, j: nat, n: nat, k: nat, last: nat, signal: nat, time: nat)
    requires Tracked(w, x, j, n, k, last) && CanInsert(w, time)
    ensures Tracked(Insert(w, signal, time), x, j, n, k, last)
  {
    var op := InsertOp(signal, time);
    StepCount(w, op, x);
    StepIdsBelow(w, op);
    assert x in Pending(w);
    var rounds: nat :| rounds <= n && Holds(w.buckets[j], x, rounds);
    assert Holds(Insert(w, signal, time).buckets[j], x, rounds);
  }

  lemma {:induction false} GoneForGood(w: Wheel, x: Shot, ops: seq<Op>)
    requires CanRun(w, ops) && IdsBelow(w) && x !in Pending(w) && x.id < w.nextId
    ensures TimesFired(History(w, ops), x) == 0
    decreases |ops|
  {
    if ops != [] {
      StepCount(w, ops[0], x);
      StepIdsBelow(w, ops[0]);
      GoneForGood(Do(w, ops[0]), x, ops[1..]);
      assert History(w, ops)[1..] == History(Do(w, ops[0]), ops[1..]);
    }
  }

  lemma TurnsApart(a: nat, n: nat, max: nat, last: nat)
    requires max > 0 && a + n * max == last
    ensures a <= last && a % max == last % max
  {
    ModUnique(last, max, a / max + n, a % max);
  }

  // One step, as counts of x.
  lemma StepCount(w: Wheel, op: Op, x: Shot)
    requires CanDo(w, op)
    ensures Pending(Do(w, op))[x] + multiset(ShotsOf(EventOf(w, op)))[x] == Pending(w)[x] + InsertedBy(w, op)[x]
  {
    StepConserves(w, op);
    assert (Pending(Do(w, op)) + multiset(ShotsOf(EventOf(w, op))))[x] == (Pending(w) + InsertedBy(w, op))[x];
  }

  // f, counted after k ticks, is no later than last and whole turns before it.
  ghost predicate Timely(f: Option<nat>, k: nat, max: nat, last: nat)
    requires max > 0
  {
    f.Some? ==> 1 <= f.value && k + f.value <= last && (k + f.value) % max == last % max
  }

  // The outcome of a history for x: when it fires, that it fires by its last tick, how often.
  ghost predicate Outcome(h: seq<Event>, x: Shot, k: nat, max: nat, last: nat)
    requires max > 0
  {
    && Timely(FireTick(h, x), k, max, last)
    && (k + TicksIn(h) >= last ==> FireTick(h, x).Some?)
    && TimesFired(h, x) == (if FireTick(h, x).Some? then 1 else 0)
  }

  // An event that does not fire x passes the outcome of the rest on.
  lemma OutcomeStep(e: Event, h: seq<Event>, x: Shot, k: nat, max: nat, last: nat)
    requires max > 0 && x !in ShotsOf(e)
    requires Outcome(h, x, if e.Ticked? then k + 1 else k, max, last)
    ensures Outcome([e] + h, x, k, max, last)
  {
    assert ([e] + h)[1..] == h;
    var rest := FireTick(h, x);
    assert rest.Some? ==> k + (rest.value + 1) == (k + 1) + rest.value;
  }

  // A tick that fires x, once, after which it never fires again.
  lemma OutcomeFired(e: Event, h: seq<Event>, x: Shot, k: nat, n: nat, max: nat, last: nat)
    requires max > 0 && e.Ticked? && multiset(e.shots)[x] == 1 && TimesFired(h, x) == 0
    requires k + 1 + n * max == last
    ensures Outcome([e] + h, x, k, max, last)
  {
    assert ([e] + h)[1..] == h;
    TurnsApart(k + 1, n, max, last);
  }

  // A step either fires x, or leaves it tracked with the same last tick.
  lemma TrackedStep(w: Wheel, x: Shot, j: nat, n: nat, k: nat, last: nat, op: Op) returns (n': nat)
    requires Tracked(w, x, j, n, k, last) && CanDo(w, op)
    ensures x in ShotsOf(EventOf(w, op)) ==> op.TickOp? && k + 1 + n * w.max == last
    ensures x !in ShotsOf(EventOf(w, op)) ==>
      Tracked(Do(w, op), x, j, n', if op.TickOp? then k + 1 else k, last)
  {
    hide Tracked, Tick, TickShots, Insert;
    n' := n;
    if op.InsertOp? {
      TrackedInsert(w, x, j, n, k, last, op.signal, op.time);
    } else {
      TrackedTick(w, x, j, n, k, last);
      if x !in TickShots(w) && j == w.current {
        n' := n - 1;
      }
    }
  }

  // Once x, pending once, has fired, the rest of the run never fires it again.
  lemma FiredEnds(w: Wheel, x: Shot, ops: seq<Op>)
    requires Formed(w) && IdsBelow(w) && Pending(w)[x] == 1 && x in TickShots(w)
    requires CanRun(Tick(w), ops)
    ensures multiset(TickShots(w))[x] == 1 && TimesFired(History(Tick(w), ops), x) == 0
  {
    StepCount(w, TickOp, x);
    StepIdsBelow(w, TickOp);
    assert x in Pending(w);
    assert multiset(TickShots(w))[x] > 0;
    GoneForGood(Tick(w), x, ops);
  }

  // A step that fires x settles the outcome.
  lemma TrackedFires(w: Wheel, x: Shot, j: nat, n: nat, k: nat, last: nat, op: Op, rest: seq<Op>)
    requires Tracked(w, x, j, n, k, last) && CanDo(w, op) && CanRun(Do(w, op), rest)
    requires x in ShotsOf(EventOf(w, op)) && op.TickOp? && k + 1 + n * w.max == last
    ensures Outcome([EventOf(w, op)] + History(Do(w, op), rest), x, k, w.max, last)
  {
    hide IdsBelow, Pending, Tick, TickShots, History, CanRun, Outcome, TimesFired, Holds;
    FiredEnds(w, x, rest);
    OutcomeFired(EventOf(w, op), History(Tick(w), rest), x, k, n, w.max, last);
  }

  lemma HistoryStep(w: Wheel, ops: seq<Op>)
    requires ops != [] && CanRun(w, ops)
    ensures CanDo(w, ops[0]) && CanRun(Do(w, ops[0]), ops[1..])
    ensures History(w, ops) == [EventOf(w, ops[0])] + History(Do(w, ops[0]), ops[1..])
  {
  }

  lemma {:induction false} TrackedRun(w: Wheel, x: Shot, j: nat, n: nat, k: nat, last: nat, ops: seq<Op>)
    requires Tracked(w, x, j, n, k, last) && CanRun(w, ops)
    ensures Outcome(History(w, ops), x, k, w.max, last)
    decreases |ops|
  {
    hide Tracked, Outcome, CanRun, History, CanDo, Do, EventOf;
    TrackedStart(w, x, j, n, k, last);
    if ops == [] {
      NothingRun(w, ops);
    } else {
      HistoryStep(w, ops);
      var op, rest := ops[0], ops[1..];
      var n' := TrackedStep(w, x, j, n, k, last, op);
      if x in ShotsOf(EventOf(w, op)) {
        TrackedFires(w, x, j, n, k, last, op, rest);
      } else {
        var next := if op.TickOp? then k + 1 else k;
        EventKind(w, op);
        TrackedRun(Do(w, op), x, j, n', next, last, rest);
        OutcomeStep(EventOf(w, op), History(Do(w, op), rest), x, k, w.max, last);
      }
    }
  }

  lemma TrackedStart(w: Wheel, x: Shot, j: nat, n: nat, k: nat, last: nat)
    requires Tracked(w, x, j, n, k, last)
    ensures w.max > 0 && k < last && Outcome([], x, k, w.max, last)
  {
    assert n * w.max >= 0;
  }

  lemma NothingRun(w: Wheel, ops: seq<Op>)
    requires ops == [] && CanRun(w, ops)
    ensures History(w, ops) == []
  {
  }

  lemma EventKind(w: Wheel, op: Op)
    requires CanDo(w, op)
    ensures EventOf(w, op).Ticked? <==> op.TickOp?
  {
  }

  // The last tick at which a timer inserted with delay t at slot c can fire.
  function LastTick(c: nat, t: nat, max: nat): nat
    requires max > 0 && t >= 1
  {
    if c + (t - 1) % max < max then t else t + max
  }

  // Slot and round arithmetic of an insert.
  lemma SlotArithmetic(c: nat, t: nat, max: nat)
    requires c < max && t >= 1
    ensures var slot := c + t - 1; var j := slot % max;
      (if j >= c then j - c else j - c + max) + 1 + (slot / max) * max == LastTick(c, t, max)
  {
    var q, r := (t - 1) / max, (t - 1) % max;
    assert t - 1 == q * max + r;
    if c + r < max {
      ModUnique(c + t - 1, max, q, c + r);
    } else {
      assert (q + 1) * max == q * max + max;
      ModUnique(c + t - 1, max, q + 1, c + r - max);
    }
  }

  lemma InsertTracked(w: Wheel, signal: nat, t: nat)
    requires Formed(w) && IdsBelow(w) && CanInsert(w, t)
    ensures Tracked(Insert(w, signal, t), Shot(w.nextId, signal), BucketOf(w, t),
                    RoundsOf(w, t), 0, LastTick(w.current, t, w.max))
  {
    var op, x := InsertOp(signal, t), Shot(w.nextId, signal);
    StepCount(w, op, x);
    StepIdsBelow(w, op);
    assert x !in Pending(w);
    SlotArithmetic(w.current, t, w.max);
    assert Holds(Insert(w, signal, t).buckets[BucketOf(w, t)], x, RoundsOf(w, t)) by {
      assert Insert(w, signal, t).buckets[BucketOf(w, t)][|w.buckets[BucketOf(w, t)]|]
          == Entry(w.nextId, signal, RoundsOf(w, t));
    }
  }

  // A timer inserted with delay t at slot c, followed by any inserts and ticks: it fires at
  // most once, on a tick congruent to t modulo the wheel size, never later than tick t, or
  // t + max when the insert crosses the wheel's end, and by then it has fired.
  lemma FiresOnTime(w: Wheel, signal: nat, t: nat, ops: seq<Op>)
    requires Formed(w) && IdsBelow(w) && CanInsert(w, t)
    requires CanRun(Insert(w, signal, t), ops)
    ensures
      var h, x := History(Insert(w, signal, t), ops), Shot(w.nextId, signal);
      var f, last := FireTick(h, x), LastTick(w.current, t, w.max);
      && (f.Some? ==> 1 <= f.value <= last && f.value % w.max == t % w.max)
      && (TicksIn(h) >= last ==> f.Some?)
      && TimesFired(h, x) == (if f.Some? then 1 else 0)
  {
    InsertTracked(w, signal, t);
    TrackedRun(Insert(w, signal, t), Shot(w.nextId, signal), BucketOf(w, t),
               RoundsOf(w, t), 0, LastTick(w.current, t, w.max), ops);
    LastTickCongruent(w.current, t, w.max);
    var f := FireTick(History(Insert(w, signal, t), ops), Shot(w.nextId, signal));
    assert f.Some? ==> 0 + f.value == f.value;
  }

  lemma LastTickCongruent(c: nat, t: nat, max: nat)
    requires max > 0 && t >= 1
    ensures LastTick(c, t, max) % max == t % max
  {
    TurnsApart(t, 1, max, t + max);
  }

  // A timer that does not reach the wheel's end fires on exactly its tick, whatever else runs.
  lemma FiresExactly(w: Wheel, signal: nat, t: nat, ops: seq<Op>)
    requires Formed(w) && IdsBelow(w) && CanInsert(w, t)
    requires w.current + t <= w.max
    requires CanRun(Insert(w, signal, t), ops)
    ensures var h := History(Insert(w, signal, t), ops);
      FireTick(h, Shot(w.nextId, signal)) == if TicksIn(h) >= t then Some(t) else None
  {
    hide History, CanRun, IdsBelow, FireTick, TicksIn, TimesFired, Insert;
    FiresOnTime(w, signal, t, ops);
    var h := History(Insert(w, signal, t), ops);
    var f := FireTick(h, Shot(w.nextId, signal));
    ModUnique(t - 1, w.max, 0, t - 1);
    if f.Some? {
      SameRemainder(f.value, t, w.max);
      FireTickBound(h, Shot(w.nextId, signal));
    }
  }

  lemma {:induction false} FireTickBound(h: seq<Event>, x: Shot)
    ensures FireTick(h, x).Some? ==> FireTick(h, x).value <= TicksIn(h)
  {
    if h != [] { FireTickBound(h[1..], x); }
  }
}
