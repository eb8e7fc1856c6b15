/** The T1-init retransmission loop of the client, driven by polls of a millisecond clock. */
module T1Loop {
  import opened Constants
  import opened RingIndex
  import opened TimerSpec
  import opened TimerRuns
  import opened TimerVisit
  import RingBuffer
  import RingTimer

  const SCTP_T1_INIT_EXPIRE := 1
  const SCTP_RTO_MAX := 60000
  const SCTP_TIMER_STEP := 1000
  const SCTP_ASSOC_MAX_RETRANS := 10
  const TIMERS := 300          // slots of the client's wheel
  const NODES := 256           // timers its allocator holds

  // ---------- the schedule, stated without the wheel ----------

  function Pow2(k: nat): nat { if k == 0 then 1 else 2 * Pow2(k - 1) }

  // The k-th wait, in timer steps: doubled each time up to RTO_MAX.
  function Delay(k: nat): nat { if Pow2(k) < 60 then Pow2(k) else 60 }

  // The tick of the k-th expiry of a loop that starts at slot c.
  function Expiry(c: nat, max: nat, k: nat): nat
    requires max > 0
    decreases k, 0
  {
    if k == 0 then 0
    else Expiry(c, max, k - 1) + Wait(c, max, k - 1)
  }

  // The wait that starts at the k-th expiry: Delay(k) ticks, and a full turn of the wheel more
  // exactly when the insert crosses the wheel's end.
  function Wait(c: nat, max: nat, k: nat): (r: nat)
    requires max > 0
    ensures r >= 1
    decreases k, 1
  {
    Pow2Positive(k);
    LastTick((c + Expiry(c, max, k)) % max, Delay(k), max)
  }

  lemma {:induction false} Pow2Positive(k: nat)
    ensures Pow2(k) >= 1 && 1 <= Delay(k) <= 60
  {
    if k > 0 { Pow2Positive(k - 1); }
  }

  // ---------- a wheel with a single timer ----------

  ghost predicate Empty(w: Wheel) {
    Formed(w) && forall i :: 0 <= i < w.max ==> w.buckets[i] == []
  }

  // The only pending timer sits in bucket j with n turns left.
  ghost predicate Alone(w: Wheel, j: nat, n: nat) {
    && Formed(w) && j < w.max
    && (forall i :: 0 <= i < w.max && i != j ==> w.buckets[i] == [])
    && |w.buckets[j]| == 1 && w.buckets[j][0].signal == SCTP_T1_INIT_EXPIRE && w.buckets[j][0].rounds == n
  }

  function Remaining(w: Wheel, j: nat, n: nat): nat
    requires w.current < w.max && j < w.max
  {
    Distance(w, j) + 1 + n * w.max
  }

  lemma OneEntry(e: Entry)
    ensures e.rounds > 0 ==> Due([e]) == [] && Later([e]) == [e.(rounds := e.rounds - 1)]
    ensures e.rounds == 0 ==> Fired([e]) == [ShotOf(e)] && Left([e]) == []
  {
    var b := [e];
    assert b[1..] == [] && Due([]) == [] && Later([]) == [] && Drain([]) == [];
    assert e.rounds == 0 ==> Due(b) == [ShotOf(e)] && Later(b) == [];
  }

  // The only timer fires exactly when its last tick comes.
  lemma AloneTick(w: Wheel, j: nat, n: nat)
    requires Alone(w, j, n)
    ensures Tick(w).current == (w.current + 1) % w.max && Tick(w).max == w.max
    ensures Remaining(w, j, n) == 1 ==> SignalsOf(TickShots(w)) == [SCTP_T1_INIT_EXPIRE] && Empty(Tick(w))
    ensures Remaining(w, j, n) > 1 && w.current == j ==>
      n >= 1 && TickShots(w) == [] && Alone(Tick(w), j, n - 1) && Remaining(Tick(w), j, n - 1) == Remaining(w, j, n) - 1
    ensures w.current != j ==>
      Remaining(w, j, n) > 1 && TickShots(w) == [] && Alone(Tick(w), j, n) && Remaining(Tick(w), j, n) == Remaining(w, j, n) - 1
  {
    NextPosition(w.current, w.max);
    var b := w.buckets[w.current];
    if w.current == j {
      assert b == [b[0]];
      OneEntry(b[0]);
      if n > 0 { assert n * w.max == (n - 1) * w.max + w.max; }
    } else {
      assert n * w.max >= 0;
    }
  }

  lemma AloneInsert(w: Wheel, t: nat)
    requires Empty(w) && CanInsert(w, t)
    ensures var w' := Insert(w, SCTP_T1_INIT_EXPIRE, t);
      Alone(w', BucketOf(w, t), RoundsOf(w, t))
      && Remaining(w', BucketOf(w, t), RoundsOf(w, t)) == LastTick(w.current, t, w.max)
  {
    SlotArithmetic(w.current, t, w.max);
  }

  // Where the loop stands: after `ticks` ticks and `k` expiries.
  ghost predicate Standing(w: Wheel, c: nat, ticks: nat, k: nat, j: nat, n: nat) {
    && Alone(w, j, n)
    && w.current == (c + ticks) % w.max
    && Expiry(c, w.max, k) <= ticks
    && ticks + Remaining(w, j, n) == Expiry(c, w.max, k + 1)
  }

  lemma AloneFormed(w: Wheel, j: nat, n: nat)
    requires Alone(w, j, n)
    ensures Formed(w) && j < w.max
  {
  }

  lemma NextSlot(a: nat, max: nat)
    requires max > 0
    ensures (a % max + 1) % max == (a + 1) % max
  {
    var q, r := a / max, a % max;
    NextPosition(r, max);
    if r + 1 == max {
      assert (q + 1) * max == q * max + max;
      ModUnique(a + 1, max, q + 1, 0);
    } else {
      ModUnique(a + 1, max, q, r + 1);
    }
  }

  lemma {:induction false} ExpiryGrows(c: nat, max: nat, k: nat, m: nat)
    requires max > 0 && k < m
    ensures Expiry(c, max, k) < Expiry(c, max, m)
    decreases m
  {
    if k < m - 1 { ExpiryGrows(c, max, k, m - 1); }
  }

  // The tick count tells the number of expiries.
  lemma ExpiriesBy(c: nat, max: nat, ticks: nat, k: nat, m: nat)
    requires max > 0 && Expiry(c, max, k) <= ticks < Expiry(c, max, k + 1)
    ensures k >= m <==> ticks >= Expiry(c, max, m)
  {
    if m < k { ExpiryGrows(c, max, m, k); }
    if k + 1 < m { ExpiryGrows(c, max, k + 1, m); }
  }

  // ---------- the loop ----------

  ghost predicate Ready(ring: RingTimer.RingTimer)
    reads ring, ring.timers, ring.nodes
    reads ring.allocator, ring.allocator.stamps, ring.allocator.packets, ring.allocator.plens
  {
    ring.Valid() && null !in ring.pool && ring.max + 59 < U32
  }

  // Insert on a wheel with nothing pending.
  method InsertT1(ring: RingTimer.RingTimer, t: nat)
    requires Ready(ring) && Empty(ring.wheel) && 1 <= t <= 60
    modifies ring.Footprint()
    ensures Ready(ring) && ring.wheel == Insert(old(ring.wheel), SCTP_T1_INIT_EXPIRE, t)
  {
    ring.AllFree();
    var first := ring.allocator.Contents()[0].0;
    assert RingTimer.Packets(ring.allocator.Contents())[0] == first;
    assert first in ring.pool;
    var ok := ring.Insert(SCTP_T1_INIT_EXPIRE, t);
  }

  // A tick before the next expiry fires nothing.
  lemma StandingQuiet(w: Wheel, c: nat, ticks: nat, k: nat, j: nat, n: nat) returns (n': nat)
    requires Standing(w, c, ticks, k, j, n) && Remaining(w, j, n) > 1
    ensures TickShots(w) == [] && Standing(Tick(w), c, ticks + 1, k, j, n')
    ensures Tick(w).max == w.max
  {
    AloneTick(w, j, n);
    NextSlot(c + ticks, w.max);
    n' := if w.current == j then n - 1 else n;
  }

  // The tick of the next expiry fires the timer; inserting the next one continues the schedule.
  lemma StandingFires(w: Wheel, c: nat, ticks: nat, k: nat, j: nat, n: nat)
    requires Standing(w, c, ticks, k, j, n) && Remaining(w, j, n) == 1 && w.max + 59 < U32
    ensures SignalsOf(TickShots(w)) == [SCTP_T1_INIT_EXPIRE] && Empty(Tick(w))
    ensures CanInsert(Tick(w), Delay(k + 1)) && 1 <= Delay(k + 1) <= 60
    ensures Tick(w).max == Insert(Tick(w), SCTP_T1_INIT_EXPIRE, Delay(k + 1)).max == w.max
    ensures var w', t := Tick(w), Delay(k + 1);
      Standing(Insert(w', SCTP_T1_INIT_EXPIRE, t), c, ticks + 1, k + 1, BucketOf(w', t), RoundsOf(w', t))
  {
    hide Alone, Remaining, Delay, Expiry, Tick, Insert, SignalsOf, TickShots;
    AloneFormed(w, j, n);
    AloneTick(w, j, n);
    NextSlot(c + ticks, w.max);
    Pow2Positive(k + 1);
    var w', t := Tick(w), Delay(k + 1);
    AloneInsert(w', t);
    SameSlot(w', SCTP_T1_INIT_EXPIRE, t);
    ExpiryNext(c, w.max, k + 1);
  }

  lemma SameSlot(w: Wheel, signal: nat, t: nat)
    requires Formed(w) && CanInsert(w, t)
    ensures Insert(w, signal, t).current == w.current && Insert(w, signal, t).max == w.max
  {
  }

  lemma ExpiryNext(c: nat, max: nat, k: nat)
    requires max > 0 && Delay(k) >= 1
    ensures Expiry(c, max, k + 1) == Expiry(c, max, k) + LastTick((c + Expiry(c, max, k)) % max, Delay(k), max)
  {
    hide Delay, LastTick;
    assert Expiry(c, max, k + 1) == Expiry(c, max, k) + Wait(c, max, k);
  }

  method OneTick(ring: RingTimer.RingTimer, t1: nat, retrans: nat, ghost c: nat, ghost ticks: nat,
                 ghost j: nat, ghost n: nat)
    returns (t1': nat, retrans': nat, ghost j': nat, ghost n': nat)
    requires Ready(ring) && Standing(ring.wheel, c, ticks, retrans, j, n) && t1 == Delay(retrans)
    modifies ring.Footprint()
    ensures Ready(ring) && Standing(ring.wheel, c, ticks + 1, retrans', j', n') && t1' == Delay(retrans')
    ensures ring.wheel.max == old(ring.wheel.max)
  {
    hide Standing, Remaining, Tick, Insert, TickShots, Empty, Expiry, Delay, SignalsOf;
    hide RingTimer.RingTimer.Valid, Formed;
    ghost var w := ring.wheel;
    StandingFacts(ring, w, c, ticks, retrans, j, n);
    ghost var fires := Remaining(w, j, n) == 1;
    t1', retrans', j', n' := t1, retrans, j, n;
    if fires {
      StandingFires(w, c, ticks, retrans, j, n);
    } else {
      n' := StandingQuiet(w, c, ticks, retrans, j, n);
    }
    var results := ring.Tick();
    var count := |results|;
    while count > 0
      invariant Ready(ring) && ring.max == w.max && count <= |results|
      invariant count == |results| ==> t1' == t1 && retrans' == retrans && ring.wheel == Tick(w)
      invariant count < |results| ==> fires && t1' == Delay(retrans + 1) && retrans' == retrans + 1
      invariant count < |results| ==> ring.wheel == Insert(Tick(w), SCTP_T1_INIT_EXPIRE, Delay(retrans + 1))
    {
      count := count - 1;
      if results[count] == SCTP_T1_INIT_EXPIRE {
        t1' := if t1' * 2 < SCTP_RTO_MAX / SCTP_TIMER_STEP then t1' * 2 else SCTP_RTO_MAX / SCTP_TIMER_STEP;
        InsertT1(ring, t1');
        retrans' := retrans' + 1;
      }
    }
    if fires {
      j', n' := BucketOf(Tick(w), Delay(retrans + 1)), RoundsOf(Tick(w), Delay(retrans + 1));
    }
  }

  lemma StandingFacts(ring: RingTimer.RingTimer, w: Wheel, c: nat, ticks: nat, k: nat, j: nat, n: nat)
    requires Ready(ring) && ring.wheel == w && Standing(w, c, ticks, k, j, n)
    ensures j < w.max && w.current < w.max == ring.max && Formed(w) && w.current == ring.current
    ensures Remaining(w, j, n) >= 1
    ensures |ring.lists[ring.current]| <= MAX_TICK_TIME
    ensures SignalsOf([]) == []
    ensures Delay(k + 1) == if Delay(k) * 2 < 60 then Delay(k) * 2 else 60
  {
    assert n * w.max >= 0;
    RepresentsFacts(ring.timers[ring.current], ring.lists[ring.current], w.buckets[ring.current], 0);
  }

  predicate Monotone(g0: nat, polls: seq<nat>) {
    && (polls != [] ==> g0 <= polls[0])
    && (forall i :: 0 <= i < |polls| - 1 ==> polls[i] <= polls[i + 1])
  }

  // The clock is polled at least once in every timer step.
  predicate Prompt(g0: nat, polls: seq<nat>) {
    && (polls != [] ==> polls[0] <= g0 + SCTP_TIMER_STEP)
    && (forall i :: 0 <= i < |polls| - 1 ==> polls[i + 1] <= polls[i] + SCTP_TIMER_STEP)
  }

  // Whole timer steps elapsed at the u-th poll, rounded down.
  function TicksAt(g0: nat, polls: seq<nat>, u: nat): nat
    requires u <= |polls| && Monotone(g0, polls)
  {
    if u == 0 then 0 else MonotoneFrom(g0, polls, u - 1); (polls[u - 1] - g0) / SCTP_TIMER_STEP
  }

  lemma {:induction false} MonotoneFrom(g0: nat, polls: seq<nat>, i: nat)
    requires Monotone(g0, polls) && i < |polls|
    ensures g0 <= polls[i]
  {
    if i > 0 { MonotoneFrom(g0, polls, i - 1); }
  }

  lemma PromptTicks(g0: nat, polls: seq<nat>, u: nat)
    requires Monotone(g0, polls) && Prompt(g0, polls) && u < |polls|
    ensures TicksAt(g0, polls, u + 1) <= TicksAt(g0, polls, u) + 1
  {
    MonotoneFrom(g0, polls, u);
    if u > 0 { MonotoneFrom(g0, polls, u - 1); }
  }

  // What holds when the retransmission count is found to be over the limit.
  lemma GivingUp(g0: nat, polls: seq<nat>, used: nat, c: nat, max: nat, retrans: nat)
    requires Monotone(g0, polls) && used <= |polls| && max > 0 && retrans > SCTP_ASSOC_MAX_RETRANS
    requires Expiry(c, max, retrans) <= TicksAt(g0, polls, used) < Expiry(c, max, retrans + 1)
    requires forall u :: 0 <= u < used ==> TicksAt(g0, polls, u) < Expiry(c, max, SCTP_ASSOC_MAX_RETRANS + 1)
    ensures TicksAt(g0, polls, used) >= Expiry(c, max, SCTP_ASSOC_MAX_RETRANS + 1)
    ensures Prompt(g0, polls) ==>
      retrans == SCTP_ASSOC_MAX_RETRANS + 1 && TicksAt(g0, polls, used) == Expiry(c, max, retrans)
  {
    hide Expiry, TicksAt;
    var ticks := TicksAt(g0, polls, used);
    ExpiriesBy(c, max, ticks, retrans, SCTP_ASSOC_MAX_RETRANS + 1);
    if Prompt(g0, polls) {
      ExpiryStart(c, max, g0, polls);
      ExpiryGrows(c, max, 0, SCTP_ASSOC_MAX_RETRANS + 1);
      assert used > 0;
      PromptTicks(g0, polls, used - 1);
      if retrans > SCTP_ASSOC_MAX_RETRANS + 1 {
        ExpiryGrows(c, max, SCTP_ASSOC_MAX_RETRANS + 1, retrans);
      }
    }
  }

  lemma ExpiryStart(c: nat, max: nat, g0: nat, polls: seq<nat>)
    requires max > 0 && Monotone(g0, polls)
    ensures Expiry(c, max, 0) == 0 && TicksAt(g0, polls, 0) == 0
  {
  }

  lemma StandingBounds(w: Wheel, c: nat, ticks: nat, k: nat, j: nat, n: nat)
    requires Standing(w, c, ticks, k, j, n)
    ensures w.max > 0 && Expiry(c, w.max, k) <= ticks < Expiry(c, w.max, k + 1)
  {
    hide Expiry;
    assert n * w.max >= 0;
  }

  // Within the poll at time `now` the ticks delivered are the whole steps elapsed.
  lemma TicksDelivered(g0: nat, polls: seq<nat>, u: nat, ticks: nat)
    requires Monotone(g0, polls) && u < |polls|
    requires g0 + ticks * SCTP_TIMER_STEP <= polls[u] < g0 + (ticks + 1) * SCTP_TIMER_STEP
    ensures ticks == TicksAt(g0, polls, u + 1)
  {
  }

  // The previous poll's ticks do not exceed the time of the next poll.
  lemma TicksBefore(g0: nat, polls: seq<nat>, u: nat)
    requires Monotone(g0, polls) && u < |polls|
    ensures g0 + TicksAt(g0, polls, u) * SCTP_TIMER_STEP <= polls[u]
  {
    MonotoneFrom(g0, polls, u);
    if u > 0 { MonotoneFrom(g0, polls, u - 1); }
  }

  // The loop of create_client from an empty wheel at any slot: `used` polls are handled, and
  // the loop gives up at the first poll check after the eleventh expiry.
  method Run(ring: RingTimer.RingTimer, g0: nat, polls: seq<nat>)
    returns (gaveUp: bool, retrans: nat, used: nat, ghost ticks: nat, ghost j: nat, ghost n: nat)
    requires Ready(ring) && Empty(ring.wheel) && Monotone(g0, polls)
    modifies ring.Footprint()
    ensures Ready(ring) && used <= |polls| && (!gaveUp ==> used == |polls|)
    ensures ticks == TicksAt(g0, polls, used)
    ensures Standing(ring.wheel, old(ring.wheel.current), ticks, retrans, j, n)
    ensures ring.max > 0 && forall u :: 0 <= u < used ==>
      TicksAt(g0, polls, u) < Expiry(old(ring.wheel.current), ring.max, SCTP_ASSOC_MAX_RETRANS + 1)
    ensures gaveUp ==> ticks >= Expiry(old(ring.wheel.current), ring.max, SCTP_ASSOC_MAX_RETRANS + 1)
    ensures gaveUp && Prompt(g0, polls) ==>
      retrans == SCTP_ASSOC_MAX_RETRANS + 1 && ticks == Expiry(old(ring.wheel.current), ring.max, retrans)
  {
    hide Standing, Expiry, TicksAt, Empty, Insert, Delay;
    hide RingTimer.RingTimer.Valid, Formed;
    ghost var c := ring.wheel.current;
    var t1 := SCTP_RTO_MIN / SCTP_TIMER_STEP;
    ReadyFacts(ring);
    StartFacts(ring.wheel, t1);
    ExpiryStart(c, ring.max, g0, polls);
    InsertT1(ring, t1);
    j, n := BucketOf(old(ring.wheel), t1), RoundsOf(old(ring.wheel), t1);
    var global := g0;
    gaveUp, retrans, used, ticks := false, 0, 0, 0;
    while used < |polls|
      invariant Ready(ring) && used <= |polls| && !gaveUp && ring.wheel.max == ring.max
      invariant Standing(ring.wheel, c, ticks, retrans, j, n) && t1 == Delay(retrans)
      invariant ticks == TicksAt(g0, polls, used) && global == g0 + ticks * SCTP_TIMER_STEP
      invariant forall u :: 0 <= u < used ==> TicksAt(g0, polls, u) < Expiry(c, ring.max, SCTP_ASSOC_MAX_RETRANS + 1)
      decreases |polls| - used
    {
      StandingBounds(ring.wheel, c, ticks, retrans, j, n);
      if retrans > SCTP_ASSOC_MAX_RETRANS {
        GivingUp(g0, polls, used, c, ring.max, retrans);
        gaveUp := true;
        break;
      }
      ExpiriesBy(c, ring.max, ticks, retrans, SCTP_ASSOC_MAX_RETRANS + 1);
      TicksBefore(g0, polls, used);
      var current := polls[used];
      while current - global >= SCTP_TIMER_STEP
        invariant Ready(ring) && ring.wheel.max == ring.max
        invariant Standing(ring.wheel, c, ticks, retrans, j, n) && t1 == Delay(retrans)
        invariant global == g0 + ticks * SCTP_TIMER_STEP && global <= current
        decreases current - global
      {
        t1, retrans, j, n := OneTick(ring, t1, retrans, c, ticks, j, n);
        ticks := ticks + 1;
        global := global + SCTP_TIMER_STEP;
      }
      TicksDelivered(g0, polls, used, ticks);
      used := used + 1;
    }
  }

  // The ticks of the expiries of create_client's wheel: the tenth wait crosses the wheel's end.
  lemma ClientSchedule()
    ensures Expiry(0, TIMERS, 9) == 243 && Wait(0, TIMERS, 9) == 60 + TIMERS
    ensures Expiry(0, TIMERS, SCTP_ASSOC_MAX_RETRANS + 1) == 663
  {
    assert Pow2(3) == 8 && Pow2(6) == 8 * Pow2(3);
    assert Pow2(7) == 128 && Pow2(8) == 256 && Pow2(9) == 512 && Pow2(10) == 1024;
    assert Expiry(0, TIMERS, 1) == 1;
    assert Expiry(0, TIMERS, 2) == 3;
    assert Expiry(0, TIMERS, 3) == 7;
    assert Expiry(0, TIMERS, 4) == 15;
    assert Expiry(0, TIMERS, 5) == 31;
    assert Expiry(0, TIMERS, 6) == 63;
    assert Expiry(0, TIMERS, 7) == 123;
    assert Expiry(0, TIMERS, 8) == 183;
    assert Expiry(0, TIMERS, 9) == 243;
    assert Expiry(0, TIMERS, 10) == 603;
  }

  // create_client: allocator, wheel and loop. Polled at least once a step, the client gives up at
  // the 663rd step, and not at the 363rd, to which the doubled and capped delays add up.
  method CreateClient(g0: nat, polls: seq<nat>)
    returns (ring: RingTimer.RingTimer, gaveUp: bool, retrans: nat, used: nat, ghost ticks: nat)
    requires Monotone(g0, polls)
    ensures Ready(ring) && used <= |polls| && (!gaveUp ==> used == |polls|)
    ensures ticks == TicksAt(g0, polls, used)
    ensures forall u :: 0 <= u < used ==> TicksAt(g0, polls, u) < 663
    ensures gaveUp ==> ticks >= 663
    ensures gaveUp && Prompt(g0, polls) ==> retrans == SCTP_ASSOC_MAX_RETRANS + 1 && ticks == 663
  {
    hide TicksAt, Expiry, Standing, RingTimer.RingTimer.Valid;
    hide RingBuffer.RingBuffer.Valid, RingBuffer.RingBuffer.Contents;
    NodesPower();
    var allocator, nodes := RingTimer.CreateAllocator(NODES);
    ghost var packets := RingTimer.Packets(allocator.Contents());
    assert null !in packets && null !in multiset(packets);
    ring := new RingTimer.RingTimer(TIMERS, allocator, nodes);
    ClientSchedule();
    ghost var j, n;
    gaveUp, retrans, used, ticks, j, n := Run(ring, g0, polls);
  }

  lemma NodesPower()
    ensures IsPowerOfTwo(NODES)
  {
    assert IsPowerOfTwo(1) && IsPowerOfTwo(2) && IsPowerOfTwo(4) && IsPowerOfTwo(8) && IsPowerOfTwo(16);
    assert IsPowerOfTwo(32) && IsPowerOfTwo(64) && IsPowerOfTwo(128);
  }

  lemma ReadyFacts(ring: RingTimer.RingTimer)
    requires Ready(ring)
    ensures ring.wheel.max == ring.max > 0
  {
  }

  lemma StartFacts(w: Wheel, t1: nat)
    requires Empty(w) && t1 == 1 && w.max + 59 < U32
    ensures CanInsert(w, t1) && Delay(0) == 1
    ensures w.max > 0 && Insert(w, SCTP_T1_INIT_EXPIRE, t1).max == w.max
    ensures Standing(Insert(w, SCTP_T1_INIT_EXPIRE, t1), w.current, 0, 0, BucketOf(w, t1), RoundsOf(w, t1))
  {
    AloneInsert(w, t1);
    ModUnique(w.current, w.max, 0, w.current);
    assert Expiry(w.current, w.max, 1) == Wait(w.current, w.max, 0);
  }
}
