/**
 The hashed timer wheel on values.  A bucket lists its pending timers in insertion order,
 each with the number of whole turns it still has to wait.
 */
module TimerSpec {
  import opened Constants

  datatype Entry = Entry(id: nat, signal: nat, rounds: nat)

  datatype Shot = Shot(id: nat, signal: nat)

  datatype Wheel = Wheel(current: nat, max: nat, nextId: nat, buckets: seq<seq<Entry>>)

  ghost predicate Formed(w: Wheel) {
    w.current < w.max == |w.buckets|
  }

  // A wheel of max empty buckets at slot c.
  function EmptyWheel(c: nat, max: nat): Wheel {
    Wheel(c, max, 0, seq(max, _ => []))
  }

  predicate CanInsert(w: Wheel, time: nat) {
    time >= 1 && w.current + time - 1 < U32
  }

  function BucketOf(w: Wheel, time: nat): nat
    requires w.max > 0 && time >= 1
  {
    (w.current + time - 1) % w.max
  }

  function RoundsOf(w: Wheel, time: nat): nat
    requires w.max > 0 && time >= 1
  {
    (w.current + time - 1) / w.max
  }

  function Insert(w: Wheel, signal: nat, time: nat): (r: Wheel)
    requires Formed(w) && CanInsert(w, time)
    ensures Formed(r)
  {
    var b := BucketOf(w, time);
    w.(nextId := w.nextId + 1,
       buckets := w.buckets[b := w.buckets[b] + [Entry(w.nextId, signal, RoundsOf(w, time))]])
  }

  // ---------- one bucket under a tick ----------

  function ShotOf(e: Entry): Shot { Shot(e.id, e.signal) }

  function Shots(b: seq<Entry>): (r: seq<Shot>)
    ensures |r| == |b|
    ensures forall i :: 0 <= i < |b| ==> r[i] == ShotOf(b[i])
  {
    seq(|b|, i requires 0 <= i < |b| => ShotOf(b[i]))
  }

  // The timers with exactly r turns left, in list order.
  function WithRounds(b: seq<Entry>, r: nat): seq<Shot> {
    if b == [] then []
    else (if b[0].rounds == r then [ShotOf(b[0])] else []) + WithRounds(b[1..], r)
  }

  function Due(b: seq<Entry>): seq<Shot> { WithRounds(b, 0) }

  // The timers that are not due, one turn closer.
  function Later(b: seq<Entry>): seq<Entry> {
    if b == [] then []
    else (if b[0].rounds == 0 then [] else [b[0].(rounds := b[0].rounds - 1)]) + Later(b[1..])
  }

  // Visits still needed to empty the bucket.
  function Weight(b: seq<Entry>): nat {
    if b == [] then 0 else b[0].rounds + 1 + Weight(b[1..])
  }

  lemma LaterSplit(b: seq<Entry>)
    ensures b == [] ==> Later(b) == [] && Weight(b) == 0
    ensures b != [] && b[0].rounds == 0 ==> Later(b) == Later(b[1..])
    ensures b != [] && b[0].rounds > 0 ==> Later(b) == [b[0].(rounds := b[0].rounds - 1)] + Later(b[1..])
    ensures b != [] ==> Weight(b) == b[0].rounds + 1 + Weight(b[1..])
  {
  }

  lemma {:induction false} LaterWeight(b: seq<Entry>)
    ensures Weight(Later(b)) + |b| == Weight(b)
  {
    hide Later, Weight;
    LaterSplit(b);
    if b != [] {
      LaterWeight(b[1..]);
      if b[0].rounds > 0 {
        WeightCons(b[0].(rounds := b[0].rounds - 1), Later(b[1..]));
      }
    }
  }

  // Turn after turn until nothing is left.
  ghost function Drain(b: seq<Entry>): seq<Shot>
    decreases Weight(b)
  {
    if b == [] then [] else
      LaterWeight(b);
      Due(b) + Drain(Later(b))
  }

  // A tick that finds its first timer due drains the whole bucket.
  ghost function Fired(b: seq<Entry>): seq<Shot> {
    if b != [] && b[0].rounds == 0 then Drain(b) else Due(b)
  }

  ghost function Left(b: seq<Entry>): seq<Entry> {
    if b != [] && b[0].rounds == 0 then [] else Later(b)
  }

  ghost function Tick(w: Wheel): (r: Wheel)
    requires Formed(w)
    ensures Formed(r)
  {
    w.(current := (w.current + 1) % w.max, buckets := w.buckets[w.current := Left(w.buckets[w.current])])
  }

  ghost function TickShots(w: Wheel): seq<Shot>
    requires Formed(w)
  {
    Fired(w.buckets[w.current])
  }

  // ---------- draining is a stable sort by remaining turns ----------

  function MostRounds(b: seq<Entry>): nat {
    if b == [] then 0
    else if b[0].rounds > MostRounds(b[1..]) then b[0].rounds else MostRounds(b[1..])
  }

  function ByRounds(b: seq<Entry>, lo: nat, hi: nat): seq<Shot>
    decreases hi - lo
  {
    if lo >= hi then [] else WithRounds(b, lo) + ByRounds(b, lo + 1, hi)
  }

  lemma {:induction false} LaterWithRounds(b: seq<Entry>, r: nat)
    ensures WithRounds(Later(b), r) == WithRounds(b, r + 1)
  {
    if b != [] {
      LaterWithRounds(b[1..], r);
      if b[0].rounds > 0 {
        assert Later(b)[1..] == Later(b[1..]);
      } else {
        assert Later(b) == Later(b[1..]);
      }
    }
  }

  lemma {:induction false} LaterByRounds(b: seq<Entry>, lo: nat, hi: nat)
    ensures ByRounds(Later(b), lo, hi) == ByRounds(b, lo + 1, hi + 1)
    decreases hi - lo
  {
    if lo < hi {
      LaterWithRounds(b, lo);
      LaterByRounds(b, lo + 1, hi);
    }
  }

  lemma {:induction false} DrainByRounds(b: seq<Entry>, hi: nat)
    requires forall e :: e in b ==> e.rounds < hi
    ensures Drain(b) == ByRounds(b, 0, hi)
    decreases hi
  {
    hide WithRounds, Later, Weight;
    if b == [] {
      EmptyByRounds(0, hi);
    } else {
      LaterMembers(b);
      assert b[0].rounds < hi;
      LaterByRounds(b, 0, hi - 1);
      DrainByRounds(Later(b), hi - 1);
    }
  }

  lemma {:induction false} EmptyByRounds(lo: nat, hi: nat)
    ensures ByRounds([], lo, hi) == []
    decreases hi - lo
  {
    if lo < hi { EmptyByRounds(lo + 1, hi); }
  }

  lemma {:induction false} LaterMembers(b: seq<Entry>)
    ensures forall e :: e in Later(b) ==> e.(rounds := e.rounds + 1) in b
  {
    if b != [] { LaterMembers(b[1..]); }
  }

  lemma {:induction false} MostRoundsBound(b: seq<Entry>)
    ensures forall e :: e in b ==> e.rounds <= MostRounds(b)
  {
    if b != [] { MostRoundsBound(b[1..]); }
  }

  // The exact result of a tick: with the first timer not due, the due timers fire in list
  // order and the others come one turn closer; with the first timer due, every timer fires,
  // in a stable order of remaining turns, and the bucket empties.
  lemma TickResult(b: seq<Entry>)
    ensures b != [] && b[0].rounds == 0 ==> Fired(b) == ByRounds(b, 0, MostRounds(b) + 1) && Left(b) == []
    ensures b != [] && b[0].rounds > 0 ==> Fired(b) == WithRounds(b, 0) && Left(b) == Later(b) && |Left(b)| >= 1
  {
    MostRoundsBound(b);
    DrainByRounds(b, MostRounds(b) + 1);
  }

  // ---------- nothing is lost in a bucket ----------

  lemma ShotsCons(e: Entry, b: seq<Entry>)
    ensures Shots([e] + b) == [ShotOf(e)] + Shots(b)
    ensures multiset(Shots([e] + b)) == multiset{ShotOf(e)} + multiset(Shots(b))
  {
    assert Shots([e] + b) == [ShotOf(e)] + Shots(b);
  }

  lemma {:induction false} DueOrLater(b: seq<Entry>)
    ensures multiset(Due(b)) + multiset(Shots(Later(b))) == multiset(Shots(b))
  {
    if b == [] {
      assert Shots(Later(b)) == [] && Shots(b) == [];
    } else {
      var e, rest := b[0], b[1..];
      assert b == [e] + rest;
      ShotsCons(e, rest);
      DueOrLater(rest);
      if e.rounds > 0 {
        ShotsCons(e.(rounds := e.rounds - 1), Later(rest));
      } else {
        assert Later(b) == Later(rest);
      }
    }
  }

  lemma {:induction false} DrainAll(b: seq<Entry>)
    ensures multiset(Drain(b)) == multiset(Shots(b))
    decreases Weight(b)
  {
    if b == [] {
      assert Shots(b) == [];
    } else {
      LaterWeight(b);
      DueOrLater(b);
      DrainAll(Later(b));
    }
  }

  // A tick keeps every timer exactly once: fired or left.
  lemma FiredOrLeft(b: seq<Entry>)
    ensures multiset(Fired(b)) + multiset(Shots(Left(b))) == multiset(Shots(b))
  {
    DueOrLater(b);
    DrainAll(b);
    assert Shots([]) == [];
  }

  lemma FiredLength(b: seq<Entry>)
    ensures |Fired(b)| + |Left(b)| == |b|
  {
    FiredOrLeft(b);
    assert |multiset(Fired(b)) + multiset(Shots(Left(b)))| == |multiset(Shots(b))|;
  }

  // ---------- the traversal, visit by visit ----------

  // es is the list as it stands, its first k timers already visited in this turn.  When the
  // first timer was due, the traversal goes on turn after turn.
  ghost function ToFire(es: seq<Entry>, k: nat, drains: bool): seq<Shot>
    requires k <= |es|
  {
    Due(es[k..]) + if drains then Drain(es[..k] + Later(es[k..])) else []
  }

  ghost function ToLeave(es: seq<Entry>, k: nat, drains: bool): seq<Entry>
    requires k <= |es|
  {
    if drains then [] else es[..k] + Later(es[k..])
  }

  function Drop(es: seq<Entry>, k: nat): seq<Entry>
    requires k < |es|
  {
    es[..k] + es[k + 1..]
  }

  function Wait(es: seq<Entry>, k: nat): seq<Entry>
    requires k < |es| && es[k].rounds > 0
  {
    es[k := es[k].(rounds := es[k].rounds - 1)]
  }

  lemma VisitStart(es: seq<Entry>)
    requires es != []
    ensures ToFire(es, 0, es[0].rounds == 0) == Fired(es)
    ensures ToLeave(es, 0, es[0].rounds == 0) == Left(es)
  {
    assert es[0..] == es && es[..0] + Later(es) == Later(es);
  }

  lemma VisitFires(es: seq<Entry>, k: nat, drains: bool)
    requires k < |es| && es[k].rounds == 0
    ensures ToFire(es, k, drains) == [ShotOf(es[k])] + ToFire(Drop(es, k), k, drains)
    ensures ToLeave(es, k, drains) == ToLeave(Drop(es, k), k, drains)
  {
    assert es[k..][1..] == es[k + 1..] == Drop(es, k)[k..];
    assert Drop(es, k)[..k] == es[..k];
    assert Later(es[k..]) == Later(es[k + 1..]);
  }

  lemma VisitWaits(es: seq<Entry>, k: nat, drains: bool)
    requires k < |es| && es[k].rounds > 0
    ensures ToFire(es, k, drains) == ToFire(Wait(es, k), k + 1, drains)
    ensures ToLeave(es, k, drains) == ToLeave(Wait(es, k), k + 1, drains)
  {
    var e := es[k].(rounds := es[k].rounds - 1);
    var rest := es[k + 1..];
    assert Wait(es, k)[k + 1..] == rest && Wait(es, k)[..k + 1] == es[..k] + [e];
    assert es[k..] == [es[k]] + rest;
    assert Due(es[k..]) == Due(rest);
    assert Later(es[k..]) == [e] + Later(rest);
    assert es[..k] + Later(es[k..]) == (es[..k] + [e]) + Later(rest);
  }

  lemma VisitWraps(es: seq<Entry>, drains: bool)
    ensures ToFire(es, |es|, drains) == if drains then ToFire(es, 0, true) else []
    ensures ToLeave(es, |es|, drains) == if drains then ToLeave(es, 0, true) else es
  {
    assert es[|es|..] == [] && es[..|es|] == es && es[0..] == es;
    assert es + Later([]) == es && es[..0] + Later(es) == Later(es);
    if es == [] { assert Due(es) + Drain(Later(es)) == []; }
  }

  lemma {:induction false} WeightSplit(a: seq<Entry>, b: seq<Entry>)
    ensures Weight(a + b) == Weight(a) + Weight(b)
  {
    if a == [] {
      assert a + b == b;
    } else {
      WeightSplit(a[1..], b);
      assert (a + b)[1..] == a[1..] + b;
    }
  }

  lemma WeightCons(e: Entry, b: seq<Entry>)
    ensures Weight([e] + b) == e.rounds + 1 + Weight(b)
  {
    assert ([e] + b)[1..] == b;
  }

  // Every visit makes progress.
  lemma VisitWeight(es: seq<Entry>, k: nat)
    requires k < |es|
    ensures es[k].rounds == 0 ==> Weight(Drop(es, k)) < Weight(es)
    ensures es[k].rounds > 0 ==> Weight(Wait(es, k)) < Weight(es)
  {
    hide Weight;
    var a, e, b := es[..k], es[k], es[k + 1..];
    assert es == a + ([e] + b);
    WeightSplit(a, [e] + b);
    WeightCons(e, b);
    if e.rounds == 0 {
      WeightSplit(a, b);
    } else {
      var e' := e.(rounds := e.rounds - 1);
      assert Wait(es, k) == a + ([e'] + b);
      WeightSplit(a, [e'] + b);
      WeightCons(e', b);
    }
  }
}
