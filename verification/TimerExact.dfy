/** Exactly which delays are kept by every wheel and every run, with the runs that break the others. */
module TimerExact {
  import opened Constants
  import opened RingIndex
  import opened TimerSpec
  import opened TimerRuns
  import opened Bags

  // --------------------------------------------- wheels with one bucket in use

  ghost predicate OnlyBucket(w: Wheel, j: nat, b: seq<Entry>) {
    && Formed(w) && j < w.max && w.buckets[j] == b
    && forall i :: 0 <= i < w.max && i != j ==> w.buckets[i] == []
  }

  function Ticks(m: nat): (r: seq<Op>)
    ensures |r| == m
    decreases m
  {
    if m == 0 then [] else [TickOp] + Ticks(m - 1)
  }

  // One tick of such a wheel.
  lemma TickOnly(w: Wheel, j: nat, b: seq<Entry>)
    requires OnlyBucket(w, j, b)
    ensures w.current == j ==> TickShots(w) == Fired(b) && OnlyBucket(Tick(w), j, Left(b))
    ensures w.current == j ==> Distance(Tick(w), j) == w.max - 1
    ensures w.current != j ==> TickShots(w) == [] && OnlyBucket(Tick(w), j, b)
    ensures w.current != j ==> Distance(Tick(w), j) == Distance(w, j) - 1
  {
    NextPosition(w.current, w.max);
    assert Due([]) == [] && Later([]) == [];
  }

  lemma TicksRun(w: Wheel, m: nat)
    requires Formed(w) && m > 0 && CanRun(Tick(w), Ticks(m - 1))
    ensures CanRun(w, Ticks(m))
    ensures History(w, Ticks(m)) == [Ticked(TickShots(w))] + History(Tick(w), Ticks(m - 1))
  {
    assert Ticks(m)[1..] == Ticks(m - 1);
  }

  lemma {:induction false} TicksCount(w: Wheel, m: nat)
    requires Formed(w)
    ensures CanRun(w, Ticks(m)) && TicksIn(History(w, Ticks(m))) == m
    decreases m
  {
    if m > 0 {
      TicksCount(Tick(w), m - 1);
      TicksRun(w, m);
    }
  }

  lemma FireTickCons(e: Event, h: seq<Event>, x: Shot)
    requires e.Ticked?
    ensures x in e.shots ==> FireTick([e] + h, x) == Some(1)
    ensures x !in e.shots && FireTick(h, x).None? ==> FireTick([e] + h, x) == None
    ensures x !in e.shots && FireTick(h, x).Some? ==> FireTick([e] + h, x) == Some(FireTick(h, x).value + 1)
  {
    assert ([e] + h)[0] == e;
    assert ([e] + h)[1..] == h;
  }

  // --------------------------------------------- late: a lone timer

  lemma LoneEntry(e: Entry)
    requires e.rounds > 0
    ensures Fired([e]) == [] && Left([e]) == [e.(rounds := e.rounds - 1)]
  {
    assert [e][1..] == [] && Due([]) == [] && Later([]) == [];
  }

  // A lone timer does not fire before its last tick.
  lemma {:induction false} LoneQuiet(w: Wheel, j: nat, e: Entry, m: nat)
    requires OnlyBucket(w, j, [e]) && m < Distance(w, j) + 1 + e.rounds * w.max
    ensures CanRun(w, Ticks(m)) && FireTick(History(w, Ticks(m)), ShotOf(e)) == None
    decreases m
  {
    if m > 0 {
      TickOnly(w, j, [e]);
      var next := e;
      if w.current == j {
        LoneEntry(e);
        next := e.(rounds := e.rounds - 1);
        assert e.rounds * w.max == next.rounds * w.max + w.max;
      }
      LoneQuiet(Tick(w), j, next, m - 1);
      TicksRun(w, m);
      FireTickCons(Ticked(TickShots(w)), History(Tick(w), Ticks(m - 1)), ShotOf(e));
    }
  }

  lemma {:induction false} NoneInside(ss: seq<seq<Shot>>)
    requires forall i :: 0 <= i < |ss| ==> ss[i] == []
    ensures Sum(ss) == multiset{}
  {
    if ss != [] {
      NoneInside(ss[1..]);
    }
  }

  lemma EmptyPending(c: nat, max: nat)
    ensures Pending(EmptyWheel(c, max)) == multiset{}
  {
    var ss := AllShots(EmptyWheel(c, max).buckets);
    assert forall i :: 0 <= i < |ss| ==> ss[i] == [];
    NoneInside(ss);
  }

  // Inserted alone so that it crosses the wheel's end, a timer has not fired after its delay.
  lemma LateRun(c: nat, max: nat, signal: nat, t: nat) returns (w: Wheel)
    requires c < max && t >= 1 && c + t - 1 < U32 && c + (t - 1) % max >= max
    ensures Starts(w, c, max, t)
    ensures CanRun(Insert(w, signal, t), Ticks(t)) && TicksIn(History(Insert(w, signal, t), Ticks(t))) == t
    ensures FireTick(History(Insert(w, signal, t), Ticks(t)), Shot(w.nextId, signal)) == None
  {
    w := EmptyWheel(c, max);
    EmptyPending(c, max);
    SlotArithmetic(c, t, max);
    var w' := Insert(w, signal, t);
    var e := Entry(0, signal, RoundsOf(w, t));
    assert OnlyBucket(w', BucketOf(w, t), [e]);
    LoneQuiet(w', BucketOf(w, t), e, t);
    TicksCount(w', t);
  }

  // --------------------------------------------- early: a due timer in front

  lemma DrainHas(b: seq<Entry>, x: Shot)
    requires x in Shots(b)
    ensures x in Drain(b)
  {
    DrainAll(b);
    assert x in multiset(Shots(b));
    assert x in multiset(Drain(b));
  }

  // With its first timer due, every timer of a bucket fires at the next visit.
  lemma {:induction false} FrontFires(w: Wheel, j: nat, b: seq<Entry>, x: Shot, m: nat)
    requires OnlyBucket(w, j, b) && b != [] && b[0].rounds == 0 && x in Shots(b) && m > Distance(w, j)
    ensures CanRun(w, Ticks(m)) && FireTick(History(w, Ticks(m)), x) == Some(Distance(w, j) + 1)
    decreases m
  {
    hide Drain, Later, Due, History, CanRun, FireTick;
    TickOnly(w, j, b);
    TicksCount(Tick(w), m - 1);
    TicksRun(w, m);
    if w.current == j {
      DrainHas(b, x);
    } else {
      FrontFires(Tick(w), j, b, x, m - 1);
    }
    FireTickCons(Ticked(TickShots(w)), History(Tick(w), Ticks(m - 1)), x);
  }

  // A wheel with one due timer, in bucket j.
  function DueWheel(c: nat, max: nat, j: nat): Wheel
    requires j < max
  {
    Wheel(c, max, 1, seq(max, _ => [])[j := [Entry(0, 1, 0)]])
  }

  lemma DuePending(c: nat, max: nat, j: nat)
    requires j < max
    ensures Pending(DueWheel(c, max, j)) == multiset{Shot(0, 1)}
  {
    hide Sum, AllShots;
    var w, due := EmptyWheel(c, max), [Entry(0, 1, 0)];
    EmptyPending(c, max);
    PendingUpdate(w.buckets, j, due);
    assert Shots(due) == [Shot(0, 1)] && Shots(w.buckets[j]) == [];
    assert multiset(Shots(w.buckets[j])) == multiset{};
    var p, none := Pending(DueWheel(c, max, j)), multiset{};
    assert Shots(due) == [Shot(0, 1)] && multiset(Shots(due)) == multiset{Shot(0, 1)};
    assert DueWheel(c, max, j).buckets == w.buckets[j := due];
    assert p == p + none == none + multiset(Shots(due)) == multiset(Shots(due));
  }

  // The bucket of an insert with delay t is (t - 1) % max slots ahead.
  lemma BucketDistance(c: nat, max: nat, t: nat)
    requires c < max && t >= 1
    ensures
      var j := (c + t - 1) % max;
      (if j >= c then j - c else j - c + max) == (t - 1) % max
  {
    var q, r := (t - 1) / max, (t - 1) % max;
    assert t - 1 == q * max + r;
    if c + r < max {
      ModUnique(c + t - 1, max, q, c + r);
    } else {
      assert (q + 1) * max == q * max + max;
      ModUnique(c + t - 1, max, q + 1, c + r - max);
    }
  }

  // Behind a due timer, a timer more than a turn away fires with it, at the next visit of its bucket.
  lemma EarlyRun(c: nat, max: nat, signal: nat, t: nat) returns (w: Wheel)
    requires c < max < t && c + t - 1 < U32
    ensures Starts(w, c, max, t)
    ensures CanRun(Insert(w, signal, t), Ticks(t)) && TicksIn(History(Insert(w, signal, t), Ticks(t))) == t
    ensures
      var f := FireTick(History(Insert(w, signal, t), Ticks(t)), Shot(w.nextId, signal));
      f == Some((t - 1) % max + 1) && f.value < t
  {
    hide History, CanRun, FireTick, Sum, AllShots;
    BucketDistance(c, max, t);
    var j := (c + t - 1) % max;
    w := DueWheel(c, max, j);
    DuePending(c, max, j);
    var w' := Insert(w, signal, t);
    var b := [Entry(0, 1, 0), Entry(1, signal, RoundsOf(w, t))];
    assert OnlyBucket(w', j, b);
    assert Shots(b)[1] == Shot(1, signal);
    FrontFires(w', j, b, Shot(1, signal), t);
    TicksCount(w', t);
  }

  // Past the wheel's end without crossing it means more than a turn away.
  lemma TurnsAhead(c: nat, max: nat, t: nat)
    requires t >= 1 && max > 0 && c + (t - 1) % max < max < c + t
    ensures max < t
  {
    if t <= max {
      ModUnique(t - 1, max, 0, t - 1);
      assert false;
    }
  }

  // --------------------------------------------- exactly when delays are kept

  // A wheel at slot c that can take the insert.
  ghost predicate Starts(w: Wheel, c: nat, max: nat, t: nat) {
    Formed(w) && IdsBelow(w) && w.current == c && w.max == max && CanInsert(w, t)
  }

  ghost predicate RunsLong(w: Wheel, signal: nat, t: nat, ops: seq<Op>)
    requires Formed(w) && CanInsert(w, t)
  {
    CanRun(Insert(w, signal, t), ops) && TicksIn(History(Insert(w, signal, t), ops)) >= t
  }

  ghost function FiresAt(w: Wheel, signal: nat, t: nat, ops: seq<Op>): Option<nat>
    requires Formed(w) && CanInsert(w, t) && RunsLong(w, signal, t, ops)
  {
    FireTick(History(Insert(w, signal, t), ops), Shot(w.nextId, signal))
  }

  // Every wheel at slot c and every run of at least t ticks fires the timer on exactly tick t.
  ghost predicate AlwaysExact(c: nat, max: nat, signal: nat, t: nat) {
    forall w, ops :: Starts(w, c, max, t) && RunsLong(w, signal, t, ops) ==> FiresAt(w, signal, t, ops) == Some(t)
  }

  // ... by tick t.
  ghost predicate NeverLate(c: nat, max: nat, signal: nat, t: nat) {
    forall w, ops :: Starts(w, c, max, t) && RunsLong(w, signal, t, ops) ==>
      FiresAt(w, signal, t, ops).Some? && FiresAt(w, signal, t, ops).value <= t
  }

  // No run, however long, fires the timer before tick t.
  ghost predicate NeverEarly(c: nat, max: nat, signal: nat, t: nat) {
    forall w, ops :: Starts(w, c, max, t) && CanRun(Insert(w, signal, t), ops) ==>
      var f := FireTick(History(Insert(w, signal, t), ops), Shot(w.nextId, signal));
      f.Some? ==> f.value >= t
  }

  // A delay is kept to the tick by every wheel and every run if and only if it does not reach past
  // the wheel's end.
  lemma ExactIff(c: nat, max: nat, signal: nat, t: nat)
    requires c < max && t >= 1 && c + t - 1 < U32
    ensures AlwaysExact(c, max, signal, t) <==> c + t <= max
  {
    if c + t <= max {
      forall w, ops | Starts(w, c, max, t) && RunsLong(w, signal, t, ops)
        ensures FiresAt(w, signal, t, ops) == Some(t)
      {
        FiresExactly(w, signal, t, ops);
      }
    } else if c + (t - 1) % max >= max {
      var w := LateRun(c, max, signal, t);
      assert RunsLong(w, signal, t, Ticks(t)) && FiresAt(w, signal, t, Ticks(t)) == None;
    } else {
      TurnsAhead(c, max, t);
      var w := EarlyRun(c, max, signal, t);
      assert RunsLong(w, signal, t, Ticks(t)) && FiresAt(w, signal, t, Ticks(t)) != Some(t);
    }
  }

  // A delay is never overrun if and only if the part of it that is less than a turn ends on this side
  // of the wheel's end.
  lemma NeverLateIff(c: nat, max: nat, signal: nat, t: nat)
    requires c < max && t >= 1 && c + t - 1 < U32
    ensures NeverLate(c, max, signal, t) <==> c + (t - 1) % max < max
  {
    if c + (t - 1) % max < max {
      forall w, ops | Starts(w, c, max, t) && RunsLong(w, signal, t, ops)
        ensures FiresAt(w, signal, t, ops).Some? && FiresAt(w, signal, t, ops).value <= t
      {
        FiresOnTime(w, signal, t, ops);
      }
    } else {
      var w := LateRun(c, max, signal, t);
      assert RunsLong(w, signal, t, Ticks(t)) && FiresAt(w, signal, t, Ticks(t)) == None;
    }
  }

  // A delay is never cut short if and only if it is at most one turn of the wheel.
  lemma NeverEarlyIff(c: nat, max: nat, signal: nat, t: nat)
    requires c < max && t >= 1 && c + t - 1 < U32
    ensures NeverEarly(c, max, signal, t) <==> t <= max
  {
    if t <= max {
      forall w, ops | Starts(w, c, max, t) && CanRun(Insert(w, signal, t), ops)
        ensures
          var f := FireTick(History(Insert(w, signal, t), ops), Shot(w.nextId, signal));
          f.Some? ==> f.value >= t
      {
        NotEarly(w, signal, t, ops);
      }
    } else {
      var w := EarlyRun(c, max, signal, t);
      assert Starts(w, c, max, t) && CanRun(Insert(w, signal, t), Ticks(t));
    }
  }

  lemma NotEarly(w: Wheel, signal: nat, t: nat, ops: seq<Op>)
    requires Formed(w) && IdsBelow(w) && CanInsert(w, t) && t <= w.max
    requires CanRun(Insert(w, signal, t), ops)
    ensures
      var f := FireTick(History(Insert(w, signal, t), ops), Shot(w.nextId, signal));
      f.Some? ==> f.value >= t
  {
    hide History, CanRun, FireTick, TimesFired, TicksIn, Insert;
    FiresOnTime(w, signal, t, ops);
    var f := FireTick(History(Insert(w, signal, t), ops), Shot(w.nextId, signal));
    if f.Some? && f.value < t {
      SameRemainder(f.value, t, w.max);
    }
  }
}
