/** The traversal of one bucket by tick_ringtimer. */
module TimerVisit {
  import opened TimerSpec
  import opened TimerLists
  import RingBuffer

  type NodeRing = RingBuffer.RingBuffer<TimerNode?>

  const MAX_TICK_TIME := 64
  const I32_LIMIT := 0x8000_0000

  // Nodes as they are pushed back to the allocator.
  function Returned(freed: seq<TimerNode>): (r: seq<(TimerNode?, nat)>)
    ensures |r| == |freed| && forall i :: 0 <= i < |r| ==> r[i] == (freed[i], 64)
  {
    seq(|freed|, i requires 0 <= i < |freed| => (freed[i], 64))
  }

  lemma ReturnedAppend(a: seq<TimerNode>, b: seq<TimerNode>, c: seq<(TimerNode?, nat)>)
    ensures c + Returned(a + b) == (c + Returned(a)) + Returned(b)
  {
  }

  ghost predicate Fit(es: seq<Entry>) {
    forall e :: e in es ==> 0 < e.signal < I32_LIMIT
  }

  // One visit: a due timer is unlinked, any other comes one turn closer.
  method VisitNode(timers: array<TimerNode?>, c: nat, t: TimerNode,
                   ghost l: seq<TimerNode>, ghost es: seq<Entry>, ghost k: nat) returns (fired: bool)
    requires c < timers.Length && Represents(timers[c], l, es) && k < |l| && l[k] == t
    modifies timers, l
    ensures fired == (es[k].rounds == 0)
    ensures fired ==> Represents(timers[c], Without(l, k), Drop(es, k))
    ensures !fired ==> Represents(timers[c], l, Wait(es, k))
    ensures forall i :: 0 <= i < timers.Length && i != c ==> timers[i] == old(timers[i])
  {
    assert Carries(l[k], es[k]);
    if t.retries == 0 {
      UnlinkNode(timers, c, t, l, es, k);
      return true;
    }
    t.retries := t.retries - 1;
    return false;
  }

  method UnlinkNode(timers: array<TimerNode?>, c: nat, t: TimerNode,
                    ghost l: seq<TimerNode>, ghost es: seq<Entry>, ghost k: nat)
    requires c < timers.Length && Represents(timers[c], l, es) && k < |l| && l[k] == t
    modifies timers, l
    ensures Represents(timers[c], Without(l, k), Drop(es, k))
    ensures forall i :: 0 <= i < timers.Length && i != c ==> timers[i] == old(timers[i])
  {
    hide Represents;
    RepresentsCircular(timers[c], l, es);
    if t.next == t {
      OnlyNode(l, k);
      timers[c] := null;
    } else {
      Unlink(t, l, k);
      if timers[c] == t {
        timers[c] := t.next;
      }
    }
    StillRepresents(timers[c], l, es, k);
  }

  lemma RepresentsCircular(head: TimerNode?, l: seq<TimerNode>, es: seq<Entry>)
    requires Represents(head, l, es)
    ensures Circular(l) && Distinct(l) && |es| == |l|
    ensures head == if l == [] then null else l[0]
    ensures forall a :: 0 <= a < |l| ==> Carries(l[a], es[a])
  {
  }

  lemma OnlyNode(l: seq<TimerNode>, k: nat)
    requires Circular(l) && Distinct(l) && k < |l| && l[k].next == l[k]
    ensures |l| == 1 && Without(l, k) == []
  {
  }

  // A list from which node k has gone represents what is left.
  lemma StillRepresents(head: TimerNode?, l: seq<TimerNode>, es: seq<Entry>, k: nat)
    requires k < |l| == |es| && Distinct(l) && Circular(Without(l, k))
    requires head == if |l| == 1 then null else if k == 0 then l[1] else l[0]
    requires forall a :: 0 <= a < |l| ==> Carries(l[a], es[a])
    ensures Represents(head, Without(l, k), Drop(es, k))
  {
    WithoutFacts(l, k);
  }

  // How far a traversal of (l0, es0) has come: the list is l, with entries es, the first k
  // visited in this turn; freed and shots are what has fired.
  datatype Progress = Progress(l: seq<TimerNode>, es: seq<Entry>, k: nat, freed: seq<TimerNode>, shots: seq<Shot>)

  ghost predicate OnTrack(p: Progress, l0: seq<TimerNode>, es0: seq<Entry>) {
    && es0 != [] && |p.es| == |p.l| && p.k <= |p.l| && Fit(p.es) && Distinct(p.l)
    && multiset(p.l) + multiset(p.freed) == multiset(l0)
    && (forall n :: n in p.l ==> n in l0)
    && |p.shots| == |p.freed| && |p.l| + |p.freed| == |l0|
    && p.shots + ToFire(p.es, p.k, es0[0].rounds == 0) == Fired(es0)
    && ToLeave(p.es, p.k, es0[0].rounds == 0) == Left(es0)
  }

  ghost function AfterFire(p: Progress): Progress
    requires |p.es| == |p.l| && p.k < |p.l|
  {
    Progress(Without(p.l, p.k), Drop(p.es, p.k), p.k, p.freed + [p.l[p.k]], p.shots + [ShotOf(p.es[p.k])])
  }

  function AfterWait(p: Progress): Progress
    requires |p.es| == |p.l| && p.k < |p.l| && p.es[p.k].rounds > 0
  {
    p.(es := Wait(p.es, p.k), k := p.k + 1)
  }

  function Wrapped(p: Progress): Progress {
    if p.k == |p.l| then p.(k := 0) else p
  }

  lemma FireOnTrack(p: Progress, l0: seq<TimerNode>, es0: seq<Entry>)
    requires OnTrack(p, l0, es0) && p.k < |p.l| && p.es[p.k].rounds == 0
    ensures OnTrack(AfterFire(p), l0, es0)
    ensures p.l[p.k] !in AfterFire(p).l
    ensures p.k > 0 ==> AfterFire(p).l[0] == p.l[0]
    ensures Weight(AfterFire(p).es) < Weight(p.es)
  {
    VisitWeight(p.es, p.k);
    VisitFires(p.es, p.k, es0[0].rounds == 0);
    FireBags(p.l, p.freed, p.k, multiset(l0));
    SeqAssoc(p.shots, [ShotOf(p.es[p.k])], ToFire(Drop(p.es, p.k), p.k, es0[0].rounds == 0));
    forall e | e in Drop(p.es, p.k) ensures e in p.es {
    }
  }

  lemma SeqAssoc<T>(a: seq<T>, b: seq<T>, c: seq<T>)
    ensures a + (b + c) == (a + b) + c
  {
  }

  lemma FireBags(l: seq<TimerNode>, freed: seq<TimerNode>, k: nat, all: multiset<TimerNode>)
    requires k < |l| && Distinct(l) && multiset(l) + multiset(freed) == all
    ensures multiset(Without(l, k)) + multiset(freed + [l[k]]) == all
    ensures Distinct(Without(l, k)) && l[k] !in Without(l, k)
  {
    WithoutFacts(l, k);
    assert multiset(freed + [l[k]]) == multiset(freed) + multiset{l[k]};
  }

  lemma WaitOnTrack(p: Progress, l0: seq<TimerNode>, es0: seq<Entry>)
    requires OnTrack(p, l0, es0) && p.k < |p.l| && p.es[p.k].rounds > 0
    ensures OnTrack(AfterWait(p), l0, es0)
    ensures Weight(AfterWait(p).es) < Weight(p.es)
  {
    VisitWeight(p.es, p.k);
    VisitWaits(p.es, p.k, es0[0].rounds == 0);
    assert p.es[p.k] in p.es;
  }

  lemma WrapOnTrack(p: Progress, l0: seq<TimerNode>, es0: seq<Entry>)
    requires OnTrack(p, l0, es0)
    ensures es0[0].rounds == 0 ==> OnTrack(Wrapped(p), l0, es0)
    ensures p.k < |p.l| ==> Wrapped(p) == p
    ensures p.k == |p.l| && (es0[0].rounds > 0 || p.l == []) ==> p.shots == Fired(es0) && p.es == Left(es0)
  {
    VisitWraps(p.es, es0[0].rounds == 0);
    if p.l == [] { VisitWraps([], true); assert Drain([]) == []; }
  }

  function SignalsOf(shots: seq<Shot>): (r: seq<nat>)
    ensures |r| == |shots|
  {
    seq(|shots|, i requires 0 <= i < |shots| => shots[i].signal)
  }

  // The first node is gone when it was due; otherwise it is passed and still in front.
  ghost predicate PastHead(p: Progress, head: TimerNode, es0: seq<Entry>)
    requires es0 != []
  {
    if es0[0].rounds == 0 then head !in p.l else p.k > 0 && p.l != [] && p.l[0] == head
  }

  ghost predicate AtStart(p: Progress, l0: seq<TimerNode>, es0: seq<Entry>) {
    p == Progress(l0, es0, 0, [], [])
  }

  // One iteration of the loop on the list, up to its tests; next is where it goes on.
  method VisitStep(timers: array<TimerNode?>, c: nat, t: TimerNode, ghost head: TimerNode,
                   ghost l0: seq<TimerNode>, ghost es0: seq<Entry>, ghost p: Progress)
    returns (next: TimerNode, fired: bool, ghost p': Progress)
    requires c < timers.Length
    requires OnTrack(p, l0, es0) && p.k < |p.l| && t == p.l[p.k] && Represents(timers[c], p.l, p.es)
    requires (AtStart(p, l0, es0) && head == t) || PastHead(p, head, es0)
    modifies timers, p.l
    ensures OnTrack(p', l0, es0) && Represents(timers[c], p'.l, p'.es)
    ensures PastHead(p', head, es0)
    ensures p'.l != [] ==> next == p'.l[Wrapped(p').k]
    ensures Weight(p'.es) < Weight(p.es)
    ensures fired ==> p'.freed == p.freed + [t] && p'.shots == p.shots + [ShotOf(p.es[p.k])]
    ensures !fired ==> p'.freed == p.freed && p'.shots == p.shots
    ensures forall i :: 0 <= i < timers.Length && i != c ==> timers[i] == old(timers[i])
  {
    hide OnTrack, Weight;
    OnTrackFacts(p, l0, es0);
    SignalUsed(p, l0, es0);
    next := t.next;
    assert Carries(p.l[p.k], p.es[p.k]);
    fired, p' := false, p;
    if t.signal != 0 {
      fired := VisitNode(timers, c, t, p.l, p.es, p.k);
      if fired {
        FireOnTrack(p, l0, es0);
        p' := AfterFire(p);
      } else {
        WaitOnTrack(p, l0, es0);
        p' := AfterWait(p);
      }
    }
  }

  lemma SignalUsed(p: Progress, l0: seq<TimerNode>, es0: seq<Entry>)
    requires OnTrack(p, l0, es0) && p.k < |p.es|
    ensures p.es[p.k].signal > 0
  {
    assert p.es[p.k] in p.es;
  }

  lemma OnTrackFacts(p: Progress, l0: seq<TimerNode>, es0: seq<Entry>)
    requires OnTrack(p, l0, es0)
    ensures |p.es| == |p.l| && p.k <= |p.l| && es0 != []
    ensures forall a :: 0 <= a < |p.l| ==> p.l[a] in l0
    ensures |p.l| + |p.freed| == |l0| && |p.shots| == |p.freed|
  {
  }

  lemma OnTrackBags(p: Progress, l0: seq<TimerNode>, es0: seq<Entry>)
    requires OnTrack(p, l0, es0)
    ensures multiset(p.l) + multiset(p.freed) == multiset(l0)
  {
  }

  lemma RepresentsFacts(head: TimerNode?, l: seq<TimerNode>, es: seq<Entry>, k: nat)
    requires Represents(head, l, es)
    ensures |l| == |es| && head == (if l == [] then null else l[0])
    ensures k < |l| ==> l[k].signal == es[k].signal
    ensures k < |l| && l[k] == head ==> k == 0
  {
    if k < |l| { assert Carries(l[k], es[k]); }
  }

  lemma SignalsAppend(shots: seq<Shot>, x: Shot)
    ensures SignalsOf(shots + [x]) == SignalsOf(shots) + [x.signal]
  {
  }

  lemma StartOnTrack(head: TimerNode?, l0: seq<TimerNode>, es0: seq<Entry>)
    requires l0 != [] && Represents(head, l0, es0) && Fit(es0)
    ensures OnTrack(Progress(l0, es0, 0, [], []), l0, es0)
    ensures SignalsOf([]) == [] && Returned([]) == []
  {
    VisitStart(es0);
  }

  // One iteration up to its tests, with the signal reported and the node recycled when it fired.
  method VisitReport(timers: array<TimerNode?>, c: nat, ring: NodeRing, t: TimerNode, signals: seq<nat>,
                     ghost head: TimerNode, ghost l0: seq<TimerNode>, ghost es0: seq<Entry>, ghost p: Progress,
                     ghost before: seq<(TimerNode?, nat)>)
    returns (next: TimerNode, reported: seq<nat>, ghost p': Progress)
    requires c < timers.Length && timers != ring.packets && ring.Valid()
    requires OnTrack(p, l0, es0) && p.k < |p.l| && t == p.l[p.k] && Represents(timers[c], p.l, p.es)
    requires (AtStart(p, l0, es0) && head == t) || PastHead(p, head, es0)
    requires ring.Contents() == before + Returned(p.freed) && |before| + |l0| <= ring.size
    requires signals == SignalsOf(p.shots)
    modifies timers, p.l, ring`head, ring.stamps, ring.packets, ring.plens
    ensures OnTrack(p', l0, es0) && Represents(timers[c], p'.l, p'.es) && PastHead(p', head, es0)
    ensures p'.l != [] ==> next == p'.l[Wrapped(p').k]
    ensures Weight(p'.es) < Weight(p.es)
    ensures ring.Valid() && ring.Contents() == before + Returned(p'.freed)
    ensures reported == SignalsOf(p'.shots)
    ensures forall i :: 0 <= i < timers.Length && i != c ==> timers[i] == old(timers[i])
  {
    hide OnTrack, Represents, Weight, SignalsOf, Returned, AtStart, PastHead, Wrapped;
    hide RingBuffer.RingBuffer.Valid, RingBuffer.RingBuffer.Contents;
    var fired;
    var signal := t.signal;
    reported := signals;
    RepresentsFacts(timers[c], p.l, p.es, p.k);
    OnTrackFacts(p, l0, es0);
    next, fired, p' := VisitStep(timers, c, t, head, l0, es0, p);
    OnTrackFacts(p', l0, es0);
    if fired {
      SignalsAppend(p.shots, ShotOf(p.es[p.k]));
      reported := signals + [signal];
      Recycle(ring, t, p.freed, before);
    }
  }

  // The whole loop over a bucket that starts at l0[0].
  method VisitBucket(timers: array<TimerNode?>, c: nat, ring: NodeRing, ghost l0: seq<TimerNode>, ghost es0: seq<Entry>)
    returns (signals: seq<nat>, ghost p: Progress)
    requires c < timers.Length && timers != ring.packets && ring.Valid()
    requires l0 != [] && Represents(timers[c], l0, es0) && Fit(es0)
    requires |ring.Contents()| + |l0| <= ring.size
    modifies timers, l0, ring`head, ring.stamps, ring.packets, ring.plens
    ensures ring.Valid() && ring.Contents() == old(ring.Contents()) + Returned(p.freed)
    ensures OnTrack(p, l0, es0) && p.es == Left(es0) && p.shots == Fired(es0) && Represents(timers[c], p.l, p.es)
    ensures signals == SignalsOf(p.shots)
    ensures forall i :: 0 <= i < timers.Length && i != c ==> timers[i] == old(timers[i])
  {
    hide OnTrack, Represents, Left, Fired, Weight, SignalsOf, Returned, Fit;
    hide RingBuffer.RingBuffer.Valid, RingBuffer.RingBuffer.Contents;
    RepresentsFacts(timers[c], l0, es0, 0);
    StartOnTrack(timers[c], l0, es0);
    var head: TimerNode := timers[c];
    var t := head;
    signals, p := [], Progress(l0, es0, 0, [], []);
    while true
      invariant OnTrack(p, l0, es0) && p.k < |p.l| && t == p.l[p.k]
      invariant Represents(timers[c], p.l, p.es)
      invariant (AtStart(p, l0, es0) && head == t) || PastHead(p, head, es0)
      invariant ring.Valid() && ring.Contents() == old(ring.Contents()) + Returned(p.freed)
      invariant signals == SignalsOf(p.shots)
      invariant forall i :: 0 <= i < timers.Length && i != c ==> timers[i] == old(timers[i])
      decreases Weight(p.es)
    {
      OnTrackFacts(p, l0, es0);
      var next;
      next, signals, p := VisitReport(timers, c, ring, t, signals, head, l0, es0, p, old(ring.Contents()));
      OnTrackFacts(p, l0, es0);
      WrapOnTrack(p, l0, es0);
      RepresentsFacts(timers[c], p.l, p.es, Wrapped(p).k);
      if timers[c] == null {
        break;
      }
      t := next;
      if t == head {
        break;
      }
      p := Wrapped(p);
    }
  }

  // A fired node goes back to the allocator, which has room for it.
  method Recycle(ring: NodeRing, t: TimerNode, ghost freed: seq<TimerNode>, ghost before: seq<(TimerNode?, nat)>)
    requires ring.Valid() && ring.Contents() == before + Returned(freed) && |before| + |freed| < ring.size
    modifies ring`head, ring.stamps, ring.packets, ring.plens
    ensures ring.Valid() && ring.Contents() == before + Returned(freed + [t])
  {
    var code := ring.Push(t, 64, 0);
    ReturnedAppend(freed, [t], before);
    assert Returned([t]) == [(t, 64)];
  }
}
