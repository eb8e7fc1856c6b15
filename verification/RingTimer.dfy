/** The timer wheel over shared memory: buckets of linked nodes, recycled through a ring. */
module RingTimer {
  import opened RingIndex
  import opened TimerSpec
  import opened TimerLists
  import opened TimerVisit
  import opened Bags
  import RingBuffer

  function Packets(contents: seq<(TimerNode?, nat)>): (r: seq<TimerNode?>)
    ensures |r| == |contents|
    ensures forall i :: 0 <= i < |r| ==> r[i] == contents[i].0
  {
    seq(|contents|, i requires 0 <= i < |contents| => contents[i].0)
  }

  function Nullable(l: seq<TimerNode>): (r: seq<TimerNode?>)
    ensures |r| == |l|
    ensures forall i :: 0 <= i < |r| ==> r[i] == l[i]
  {
    seq(|l|, i requires 0 <= i < |l| => l[i])
  }

  function AllNullable(ls: seq<seq<TimerNode>>): (r: seq<seq<TimerNode?>>)
    ensures |r| == |ls|
    ensures forall i :: 0 <= i < |r| ==> r[i] == Nullable(ls[i])
  {
    seq(|ls|, i requires 0 <= i < |ls| => Nullable(ls[i]))
  }

  // Nodes counted once in the pool sit in one place only.
  lemma Separate(free: seq<TimerNode?>, ls: seq<seq<TimerNode>>, pool: multiset<TimerNode?>, nodes: set<TimerNode>)
    requires multiset(free) + Sum(AllNullable(ls)) == pool
    requires Unique(pool, nodes)
    ensures Apart(ls)
    ensures forall q :: 0 <= q < |free| ==> NotListed(free[q], ls)
    ensures forall i, a :: 0 <= i < |ls| && 0 <= a < |ls[i]| ==> ls[i][a] in pool
  {
    forall i, a | 0 <= i < |ls| && 0 <= a < |ls[i]|
      ensures ls[i][a] in pool && (forall q :: 0 <= q < |free| ==> free[q] != ls[i][a])
    {
      var n: TimerNode? := ls[i][a];
      SumUpdate(AllNullable(ls), i, []);
      assert Nullable(ls[i])[a] in multiset(Nullable(ls[i]));
      assert Sum(AllNullable(ls))[n] >= 1;
      assert pool[n] == multiset(free)[n] + Sum(AllNullable(ls))[n];
    }
    forall i, a, j, b | 0 <= i < |ls| && 0 <= a < |ls[i]| && 0 <= j < |ls| && 0 <= b < |ls[j]|
      && ls[i][a] == ls[j][b] && i <= j
      ensures i == j && a == b
    {
      OnePlace(free, ls, pool, nodes, i, a, j, b);
    }
  }

  // No node is listed twice.
  ghost predicate Apart(ls: seq<seq<TimerNode>>) {
    forall i, a, j, b ::
      (0 <= i < |ls| && 0 <= a < |ls[i]| && 0 <= j < |ls| && 0 <= b < |ls[j]| && ls[i][a] == ls[j][b]) ==>
      i == j && a == b
  }

  ghost predicate NotListed(n: TimerNode?, ls: seq<seq<TimerNode>>) {
    forall i, a :: 0 <= i < |ls| && 0 <= a < |ls[i]| ==> n != ls[i][a]
  }

  lemma {:induction false} NullableCount(l: seq<TimerNode>, n: TimerNode?)
    ensures multiset(Nullable(l))[n] == if n == null then 0 else multiset(l)[n]
  {
    if l != [] {
      NullableCount(l[1..], n);
      HeadOut(l);
      HeadOut(Nullable(l));
      assert Nullable(l)[1..] == Nullable(l[1..]);
    }
  }

  lemma NullableSum(l: seq<TimerNode>, freed: seq<TimerNode>, l0: seq<TimerNode>)
    requires multiset(l) + multiset(freed) == multiset(l0)
    ensures multiset(Nullable(l)) + multiset(Nullable(freed)) == multiset(Nullable(l0))
  {
    forall n: TimerNode?
      ensures (multiset(Nullable(l)) + multiset(Nullable(freed)))[n] == multiset(Nullable(l0))[n]
    {
      NullableCount(l, n);
      NullableCount(freed, n);
      NullableCount(l0, n);
      if n != null { assert (multiset(l) + multiset(freed))[n] == multiset(l0)[n]; }
    }
  }

  // Moving the first free node to the end of bucket b keeps the census.
  lemma InsertCensus(free: seq<TimerNode?>, ls: seq<seq<TimerNode>>, b: nat, x: TimerNode)
    requires free != [] && free[0] == x && b < |ls|
    ensures multiset(free[1..]) + Sum(AllNullable(ls[b := ls[b] + [x]])) == multiset(free) + Sum(AllNullable(ls))
  {
    var l, n: TimerNode? := Nullable(ls[b]), x;
    assert Nullable(ls[b] + [x]) == l + [n];
    assert AllNullable(ls[b := ls[b] + [x]]) == AllNullable(ls)[b := l + [n]];
    SumUpdate(AllNullable(ls), b, l + [n]);
    HeadOut(free);
    Move(n, multiset(free), multiset(free[1..]), Sum(AllNullable(ls)), Sum(AllNullable(ls)[b := l + [n]]),
         multiset(l), multiset(l + [n]));
  }

  lemma {:induction false} EmptySum(ls: seq<seq<TimerNode>>)
    requires forall i :: 0 <= i < |ls| ==> ls[i] == []
    ensures Sum(AllNullable(ls)) == multiset{}
  {
    if ls != [] {
      EmptySum(ls[1..]);
      assert AllNullable(ls)[1..] == AllNullable(ls[1..]);
    }
  }

  lemma OnePlace(free: seq<TimerNode?>, ls: seq<seq<TimerNode>>, pool: multiset<TimerNode?>,
                 nodes: set<TimerNode>, i: nat, a: nat, j: nat, b: nat)
    requires multiset(free) + Sum(AllNullable(ls)) == pool
    requires Unique(pool, nodes)
    requires i <= j < |ls| && a < |ls[i]| && b < |ls[j]| && ls[i][a] == ls[j][b]
    ensures i == j && a == b
  {
    var n: TimerNode? := ls[i][a];
    var nl := AllNullable(ls);
    assert pool[n] == multiset(free)[n] + Sum(nl)[n];
    if i < j {
      SumTwo(nl, i, j);
      assert false;
    } else {
      SumUpdate(nl, i, []);
      assert multiset(nl[i])[n] <= Sum(nl)[n];
      if a < b { TwiceIn(nl[i], a, b); }
      if b < a { TwiceIn(nl[i], b, a); }
    }
  }

  ghost predicate Within(ls: seq<seq<TimerNode>>, nodes: set<TimerNode>) {
    forall i, a :: 0 <= i < |ls| && 0 <= a < |ls[i]| ==> ls[i][a] in nodes
  }

  lemma PoppedPacket(free: seq<(TimerNode?, nat)>)
    requires free != []
    ensures Packets(free)[0] == free[0].0 && free[0].0 in multiset(Packets(free))
    ensures Packets(free[1..]) == Packets(free)[1..]
  {
    assert Packets(free)[0] == free[0].0;
  }

  // Every pending signal fits the result array, and signal 0 is not used.
  ghost predicate SignalsOk(w: Wheel) {
    forall i :: 0 <= i < |w.buckets| ==> Fit(w.buckets[i])
  }

  lemma InsertSignals(w: Wheel, signal: nat, time: nat)
    requires Formed(w) && CanInsert(w, time) && SignalsOk(w) && 0 < signal < I32_LIMIT
    ensures SignalsOk(TimerSpec.Insert(w, signal, time))
  {
  }

  method NewTable(n: nat) returns (table: array<TimerNode?>)
    ensures fresh(table) && table.Length == n && forall i :: 0 <= i < n ==> table[i] == null
  {
    table := new TimerNode?[n](_ => null);
  }

  lemma TickSignals(w: Wheel)
    requires Formed(w) && SignalsOk(w)
    ensures SignalsOk(TimerSpec.Tick(w))
  {
    var b := w.buckets[w.current];
    LaterMembers(b);
    assert Fit(b);
    forall e | e in Left(b) ensures 0 < e.signal < I32_LIMIT {
      assert e.(rounds := e.rounds + 1) in b;
    }
  }

  // Fired nodes move from bucket c to the end of the free ring.
  lemma TickCensus(free: seq<(TimerNode?, nat)>, ls: seq<seq<TimerNode>>, c: nat,
                   l: seq<TimerNode>, freed: seq<TimerNode>)
    requires c < |ls| && multiset(l) + multiset(freed) == multiset(ls[c])
    ensures multiset(Packets(free + Returned(freed))) + Sum(AllNullable(ls[c := l])) ==
            multiset(Packets(free)) + Sum(AllNullable(ls))
  {
    hide Sum;
    var f, nl := Nullable(freed), AllNullable(ls);
    assert Packets(free + Returned(freed)) == Packets(free) + f;
    assert AllNullable(ls[c := l]) == nl[c := Nullable(l)];
    SumUpdate(nl, c, Nullable(l));
    NullableSum(l, freed, ls[c]);
    Cancel(Sum(nl[c := Nullable(l)]), Sum(nl), multiset(f), multiset{}, multiset(Nullable(l)), multiset(nl[c]));
    Swap(multiset(Packets(free)), multiset(f), Sum(nl[c := Nullable(l)]), Sum(nl));
  }

  lemma OthersApart(ls: seq<seq<TimerNode>>, c: nat)
    requires Apart(ls) && c < |ls|
    ensures forall i, a :: 0 <= i < |ls| && i != c && 0 <= a < |ls[i]| ==> ls[i][a] !in ls[c]
  {
  }

  lemma NotAmong(n: TimerNode, ls: seq<seq<TimerNode>>)
    requires NotListed(n, ls)
    ensures forall i, a :: 0 <= i < |ls| && 0 <= a < |ls[i]| ==> n != ls[i][a]
  {
  }

  lemma InNodes(ls: seq<seq<TimerNode>>, c: nat, nodes: set<TimerNode>)
    requires Within(ls, nodes) && c < |ls|
    ensures forall n :: n in ls[c] ==> n in nodes
  {
  }

  lemma SubList(l: seq<TimerNode>, ls: seq<seq<TimerNode>>, c: nat, nodes: set<TimerNode>)
    requires c < |ls| && Within(ls, nodes) && forall a :: 0 <= a < |l| ==> l[a] in ls[c]
    ensures Within(ls[c := l], nodes)
  {
  }

  // What a tick leaves of the pool and of the lists.
  lemma TickPool(p: Progress, free: seq<(TimerNode?, nat)>, ls: seq<seq<TimerNode>>, c: nat, es: seq<Entry>,
                 nodes: set<TimerNode>)
    requires c < |ls| && OnTrack(p, ls[c], es) && Within(ls, nodes)
    ensures multiset(Packets(free + Returned(p.freed))) + Sum(AllNullable(ls[c := p.l])) ==
            multiset(Packets(free)) + Sum(AllNullable(ls))
    ensures Within(ls[c := p.l], nodes)
  {
    OnTrackFacts(p, ls[c], es);
    OnTrackBags(p, ls[c], es);
    TickCensus(free, ls, c, p.l, p.freed);
    SubList(p.l, ls, c, nodes);
  }

  lemma EachSignal(shots: seq<Shot>)
    ensures forall i :: 0 <= i < |shots| ==> SignalsOf(shots)[i] == shots[i].signal
  {
  }

  lemma TickShape(w: Wheel)
    requires Formed(w)
    ensures Formed(TimerSpec.Tick(w)) && TimerSpec.Tick(w).max == w.max
    ensures TimerSpec.Tick(w).current == (w.current + 1) % w.max && TickShots(w) == Fired(w.buckets[w.current])
    ensures forall i :: 0 <= i < w.max ==>
      TimerSpec.Tick(w).buckets[i] == if i == w.current then Left(w.buckets[i]) else w.buckets[i]
  {
  }

  lemma EmptyBucket()
    ensures Fired([]) == [] && Left([]) == [] && SignalsOf([]) == []
  {
  }

  lemma CensusRoom(free: seq<TimerNode?>, ls: seq<seq<TimerNode>>, c: nat)
    requires c < |ls|
    ensures |free| + |ls[c]| <= |multiset(free) + Sum(AllNullable(ls))|
  {
    SumLength(AllNullable(ls), c);
  }

  // A pool that counts each of its nodes once.
  ghost predicate Unique(pool: multiset<TimerNode?>, nodes: set<TimerNode>) {
    forall n :: n in pool && n != null ==> pool[n] == 1 && n in nodes
  }

  ghost predicate Listed(n: TimerNode?, ls: seq<seq<TimerNode>>) {
    exists i, a :: 0 <= i < |ls| && 0 <= a < |ls[i]| && ls[i][a] == n
  }

  ghost predicate IsFree(n: TimerNode?, free: seq<TimerNode?>) {
    exists q :: 0 <= q < |free| && free[q] == n
  }

  lemma SumListed(ls: seq<seq<TimerNode>>, n: TimerNode?)
    ensures n in Sum(AllNullable(ls)) <==> Listed(n, ls)
  {
    var nl := AllNullable(ls);
    SumMember(nl, n);
    if n in Sum(nl) {
      var i :| 0 <= i < |nl| && n in nl[i];
      var a :| 0 <= a < |nl[i]| && nl[i][a] == n;
      assert ls[i][a] == n;
    }
    if Listed(n, ls) {
      var i, a :| 0 <= i < |ls| && 0 <= a < |ls[i]| && ls[i][a] == n;
      assert nl[i][a] == n;
    }
  }

  lemma FreeDistinct(free: seq<TimerNode?>, ls: seq<seq<TimerNode>>, pool: multiset<TimerNode?>,
                     nodes: set<TimerNode>, p: nat, q: nat)
    requires multiset(free) + Sum(AllNullable(ls)) == pool && Unique(pool, nodes)
    requires p < q < |free| && free[p] != null
    ensures free[p] != free[q]
  {
    var n := free[p];
    assert n in multiset(free);
    assert pool[n] == multiset(free)[n] + Sum(AllNullable(ls))[n];
    if n == free[q] {
      TwiceIn(free, p, q);
    }
  }

  // The listed nodes and the free ones partition the pool: each node of the pool is listed once and
  // not free, or free once and not listed, and there are no others.
  lemma NodesPartition(free: seq<TimerNode?>, ls: seq<seq<TimerNode>>, pool: multiset<TimerNode?>,
                       nodes: set<TimerNode>)
    requires multiset(free) + Sum(AllNullable(ls)) == pool && Unique(pool, nodes)
    ensures forall n :: n in pool <==> IsFree(n, free) || Listed(n, ls)
    ensures forall n :: !(IsFree(n, free) && Listed(n, ls))
    ensures Apart(ls)
    ensures forall p, q :: 0 <= p < q < |free| && free[p] != null ==> free[p] != free[q]
  {
    Separate(free, ls, pool, nodes);
    forall n
      ensures n in pool <==> IsFree(n, free) || Listed(n, ls)
      ensures !(IsFree(n, free) && Listed(n, ls))
    {
      SumListed(ls, n);
      assert n in multiset(free) <==> n in free;
      assert n in pool <==> n in multiset(free) || n in Sum(AllNullable(ls));
    }
    forall p, q | 0 <= p < q < |free| && free[p] != null
      ensures free[p] != free[q]
    {
      FreeDistinct(free, ls, pool, nodes, p, q);
    }
  }

  class RingTimer {
    const timers: array<TimerNode?>
    const max: nat
    const allocator: NodeRing
    var current: nat
    ghost var wheel: Wheel                    // the abstract wheel
    ghost var lists: seq<seq<TimerNode>>      // the nodes of each bucket
    ghost const nodes: set<TimerNode>
    ghost const pool: multiset<TimerNode?>    // what the allocator was created with

    ghost predicate Shaped()
      reads this
    {
      && Formed(wheel) && wheel.current == current && wheel.max == max
      && timers.Length == max == |lists|
      && timers != allocator.packets
      && Within(lists, nodes)
    }

    ghost predicate Buckets()
      requires Shaped()
      reads this, timers, nodes
    {
      forall i :: 0 <= i < max ==> Represents(timers[i], lists[i], wheel.buckets[i])
    }

    ghost function Footprint(): set<object> {
      {this, timers, allocator, allocator.stamps, allocator.packets, allocator.plens} + nodes
    }

    // The listed nodes and the free ones are the pool.
    ghost predicate Census(free: seq<(TimerNode?, nat)>)
      reads `lists
    {
      && multiset(Packets(free)) + Sum(AllNullable(lists)) == pool && |pool| == allocator.size
      && Unique(pool, nodes)
    }

    ghost predicate Valid()
      reads this, timers, nodes, allocator, allocator.stamps, allocator.packets, allocator.plens
    {
      && Shaped() && Buckets() && SignalsOk(wheel)
      && allocator.Valid() && Census(allocator.Contents())
    }

    // create_ringtimer: every bucket empty.
    constructor (timersCount: nat, ring: NodeRing, ghost ringNodes: set<TimerNode>)
      requires timersCount > 0 && ring.Valid() && |ring.Contents()| == ring.size
      requires Unique(multiset(Packets(ring.Contents())), ringNodes)
      ensures Valid() && allocator == ring && fresh(timers) && max == timersCount
      ensures wheel == EmptyWheel(0, timersCount)
      ensures nodes == ringNodes && pool == multiset(Packets(ring.Contents()))
    {
      hide RingBuffer.RingBuffer.Valid, RingBuffer.RingBuffer.Contents, Unique, Packets;
      max := timersCount;
      current := 0;
      allocator := ring;
      var table := NewTable(timersCount);
      timers := table;
      wheel := EmptyWheel(0, timersCount);
      lists := seq(timersCount, _ => []);
      pool := multiset(Packets(ring.Contents()));
      nodes := ringNodes;
      new;
      EmptySum(lists);
      assert Shaped();
      assert Buckets();
    }

    // In every state, the nodes of the buckets and of the allocator partition the initial nodes.
    lemma Partitioned()
      requires Valid()
      ensures
        var free := Packets(allocator.Contents());
        && (forall n :: n in pool <==> IsFree(n, free) || Listed(n, lists))
        && (forall n :: !(IsFree(n, free) && Listed(n, lists)))
        && Apart(lists)
        && (forall p, q :: 0 <= p < q < |free| && free[p] != null ==> free[p] != free[q])
    {
      hide Unique, Packets, Sum, AllNullable, RingBuffer.RingBuffer.Valid, RingBuffer.RingBuffer.Contents;
      NodesPartition(Packets(allocator.Contents()), lists, pool, nodes);
    }

    // With nothing pending every node is free.
    lemma AllFree()
      requires Valid() && forall i :: 0 <= i < max ==> wheel.buckets[i] == []
      ensures |allocator.Contents()| == allocator.size
      ensures multiset(Packets(allocator.Contents())) == pool
    {
      forall i | 0 <= i < max ensures lists[i] == [] {
        RepresentsFacts(timers[i], lists[i], wheel.buckets[i], 0);
      }
      EmptySum(lists);
    }

    method SlotOf(time: nat) returns (b: nat, rounds: nat)
      requires Shaped() && time >= 1
      ensures b == BucketOf(wheel, time) < max && rounds == RoundsOf(wheel, time)
    {
      var slot := current + (time - 1);
      b := slot % max;
      rounds := slot / max;
    }

    method PopNode() returns (x: TimerNode?)
      requires allocator.Valid() && allocator.Contents() != []
      modifies allocator`tail, allocator.stamps
      ensures allocator.Valid() && allocator.Contents() == old(allocator.Contents())[1..]
      ensures x == old(allocator.Contents())[0].0
    {
      var cell := allocator.Pop(0);
      x := allocator.packets[cell];
    }

    method PushNull(ghost free: seq<(TimerNode?, nat)>)
      requires allocator.Valid() && free != [] && free[0].0 == null
      requires allocator.Contents() == free[1..] && |free| <= allocator.size
      modifies allocator`head, allocator.stamps, allocator.packets, allocator.plens
      ensures allocator.Valid() && |allocator.Contents()| == |free|
      ensures multiset(Packets(allocator.Contents())) == multiset(Packets(free))
    {
      hide RingBuffer.RingBuffer.Valid, RingBuffer.RingBuffer.Contents;
      var code := allocator.Push(null, 0, 0);
      assert Packets(free) == [null] + Packets(free[1..]);
      assert Packets(allocator.Contents()) == Packets(free[1..]) + [null];
    }

    // The cell popped from free carried no node: it goes back.
    method PushBack(ghost free: seq<(TimerNode?, nat)>)
      requires allocator.Valid() && free != [] && free[0].0 == null
      requires allocator.Contents() == free[1..] && |free| <= allocator.size && Census(free)
      requires Shaped() && Buckets() && SignalsOk(wheel)
      modifies allocator`head, allocator.stamps, allocator.packets, allocator.plens
      ensures Valid()
    {
      PushNull(free);
    }

    // Node x is linked into bucket b.
    method Link(x: TimerNode, b: nat, rounds: nat, signal: nat, ghost id: nat,
                ghost l: seq<TimerNode>, ghost es: seq<Entry>)
      requires b < timers.Length && Represents(timers[b], l, es) && x !in l
      modifies timers, l, x
      ensures Represents(timers[b], l + [x], es + [Entry(id, signal, rounds)])
      ensures forall i :: 0 <= i < timers.Length && i != b ==> timers[i] == old(timers[i])
    {
      if timers[b] == null {
        timers[b] := x;
        FillAlone(x, signal, rounds, id);
        assert l + [x] == [x] && es + [Entry(id, signal, rounds)] == [Entry(id, signal, rounds)];
      } else {
        FillLast(timers[b], x, signal, rounds, id, l, es);
      }
    }

    // Node x joins bucket b.
    method AddTimer(x: TimerNode, b: nat, rounds: nat, signal: nat, ghost time: nat)
      requires Shaped() && Buckets() && CanInsert(wheel, time)
      requires b == BucketOf(wheel, time) && rounds == RoundsOf(wheel, time) && b < max
      requires Apart(lists) && x in nodes && NotListed(x, lists)
      modifies this`lists, this`wheel, timers, nodes
      ensures Shaped() && Buckets()
      ensures wheel == TimerSpec.Insert(old(wheel), signal, time)
      ensures lists == old(lists)[b := old(lists)[b] + [x]]
    {
      hide Represents, Apart, NotListed;
      OthersApart(lists, b);
      NotAmong(x, lists);
      InNodes(lists, b, nodes);
      ghost var e := Entry(wheel.nextId, signal, rounds);
      Link(x, b, rounds, signal, wheel.nextId, lists[b], wheel.buckets[b]);
      forall i | 0 <= i < max && i != b ensures Represents(timers[i], lists[i], wheel.buckets[i]) {
        assert old(Represents(timers[i], lists[i], wheel.buckets[i]));
      }
      lists := lists[b := lists[b] + [x]];
      wheel := TimerSpec.Insert(wheel, signal, time);
    }

    // insert_ringtimer: false when the popped cell carries no node.
    method Insert(signal: nat, time: nat) returns (ok: bool)
      requires Valid() && 0 < signal < I32_LIMIT && CanInsert(wheel, time)
      requires allocator.Contents() != []
      modifies this`lists, this`wheel, timers, nodes
      modifies allocator`head, allocator`tail, allocator.stamps, allocator.packets, allocator.plens
      ensures Valid()
      ensures ok == (old(allocator.Contents())[0].0 != null)
      ensures ok ==> wheel == TimerSpec.Insert(old(wheel), signal, time)
      ensures ok ==> allocator.Contents() == old(allocator.Contents())[1..]
      ensures !ok ==> wheel == old(wheel)
    {
      hide Represents, RingBuffer.RingBuffer.Valid, RingBuffer.RingBuffer.Contents;
      var b, rounds := SlotOf(time);
      ghost var free := allocator.Contents();
      var x := PopNode();
      if x == null {
        PushBack(free);
        return false;
      }
      InsertPopped(x, b, rounds, signal, time, free);
      ok := true;
    }

    // x was the first of free and has just been popped.
    method InsertPopped(x: TimerNode, b: nat, rounds: nat, signal: nat, ghost time: nat,
                        ghost free: seq<(TimerNode?, nat)>)
      requires Shaped() && Buckets() && SignalsOk(wheel) && CanInsert(wheel, time) && 0 < signal < I32_LIMIT
      requires b == BucketOf(wheel, time) < max && rounds == RoundsOf(wheel, time)
      requires Census(free) && free != [] && free[0].0 == x
      requires allocator.Valid() && allocator.Contents() == free[1..]
      modifies this`lists, this`wheel, timers, nodes
      ensures Valid() && wheel == TimerSpec.Insert(old(wheel), signal, time)
      ensures allocator.Contents() == free[1..]
    {
      hide Represents, Apart, RingBuffer.RingBuffer.Valid, RingBuffer.RingBuffer.Contents;
      hide Packets, SignalsOk, Sum, AllNullable, NotListed;
      Separate(Packets(free), lists, pool, nodes);
      PoppedPacket(free);
      InsertCensus(Packets(free), lists, b, x);
      InsertSignals(wheel, signal, time);
      AddTimer(x, b, rounds, signal, time);
      assert Census(free[1..]);
      assert allocator.Contents() == free[1..];
    }

    // The visit of the current bucket, which is not empty; p tells what became of its nodes.
    method TickBucket() returns (signals: seq<nat>, ghost p: Progress)
      requires Shaped() && Buckets() && Apart(lists) && lists[current] != []
      requires Fit(wheel.buckets[current]) && allocator.Valid()
      requires |allocator.Contents()| + |lists[current]| <= allocator.size
      modifies this`lists, timers, lists[current]
      modifies allocator`head, allocator.stamps, allocator.packets, allocator.plens
      ensures allocator.Valid() && allocator.Contents() == old(allocator.Contents()) + Returned(p.freed)
      ensures OnTrack(p, old(lists)[current], wheel.buckets[current]) && lists == old(lists)[current := p.l]
      ensures forall i :: 0 <= i < max ==>
        Represents(timers[i], lists[i], if i == current then Left(wheel.buckets[i]) else wheel.buckets[i])
      ensures signals == SignalsOf(Fired(wheel.buckets[current]))
    {
      hide Fired, Left, Represents, RingBuffer.RingBuffer.Valid, RingBuffer.RingBuffer.Contents;
      hide Apart, Within, Unique, OnTrack;
      OthersApart(lists, current);
      RepresentsFacts(timers[current], lists[current], wheel.buckets[current], 0);
      signals, p := VisitBucket(timers, current, allocator, lists[current], wheel.buckets[current]);
      lists := lists[current := p.l];
      forall i | 0 <= i < max && i != current ensures Represents(timers[i], lists[i], wheel.buckets[i]) {
        assert old(Represents(timers[i], lists[i], wheel.buckets[i]));
      }
    }

    // The same with the ghost state brought up to date.
    method TickLists() returns (signals: seq<nat>)
      requires Valid() && lists[current] != []
      modifies this`lists, timers, nodes
      modifies allocator`head, allocator.stamps, allocator.packets, allocator.plens
      ensures allocator.Valid() && Census(allocator.Contents())
      ensures |lists| == max && Within(lists, nodes)
      ensures forall i :: 0 <= i < max ==>
        Represents(timers[i], lists[i], if i == current then Left(wheel.buckets[i]) else wheel.buckets[i])
      ensures signals == SignalsOf(Fired(wheel.buckets[current]))
    {
      hide Fired, Left, Represents, RingBuffer.RingBuffer.Valid, RingBuffer.RingBuffer.Contents;
      hide Apart, OnTrack, Within, Unique, Packets, Sum, AllNullable, Returned, SignalsOf;
      Separate(Packets(allocator.Contents()), lists, pool, nodes);
      CensusRoom(Packets(allocator.Contents()), lists, current);
      InNodes(lists, current, nodes);
      ghost var p;
      signals, p := TickBucket();
      TickPool(p, old(allocator.Contents()), old(lists), current, wheel.buckets[current], nodes);
    }

    // tick_ringtimer: the signals fired, in order.
    method Tick() returns (signals: seq<nat>)
      requires Valid() && |lists[current]| <= MAX_TICK_TIME
      modifies this`current, this`lists, this`wheel, timers, nodes
      modifies allocator`head, allocator.stamps, allocator.packets, allocator.plens
      ensures Valid() && wheel == TimerSpec.Tick(old(wheel))
      ensures signals == SignalsOf(TickShots(old(wheel))) && |signals| <= 64
      ensures |signals| == |TickShots(old(wheel))|
      ensures forall i :: 0 <= i < |signals| ==> signals[i] == TickShots(old(wheel))[i].signal
    {
      hide Fired, Left, Represents, RingBuffer.RingBuffer.Valid, RingBuffer.RingBuffer.Contents;
      hide Apart, Within, Unique, RingTimer.Census, TimerSpec.Tick, TickShots, SignalsOf, SignalsOk;
      TickShape(wheel);
      TickSignals(wheel);
      EachSignal(TickShots(wheel));
      FiredLength(wheel.buckets[current]);
      RepresentsFacts(timers[current], lists[current], wheel.buckets[current], 0);
      EmptyBucket();
      signals := [];
      if timers[current] != null {
        signals := TickLists();
      }
      wheel := TimerSpec.Tick(wheel);
      current := (current + 1) % max;
    }
  }

  ghost predicate AllDifferent(s: seq<TimerNode?>, nodes: set<TimerNode>) {
    && (forall a, b :: 0 <= a < b < |s| ==> s[a] != s[b])
    && (forall a :: 0 <= a < |s| ==> s[a] != null && s[a] in nodes)
  }

  lemma {:induction false} DifferentUnique(s: seq<TimerNode?>, nodes: set<TimerNode>)
    requires AllDifferent(s, nodes)
    ensures Unique(multiset(s), nodes)
  {
    if s != [] {
      DifferentUnique(s[1..], nodes);
      HeadOut(s);
      assert s[0] !in s[1..];
    }
  }

  // create_allocator: a full ring of distinct fresh nodes.
  method CreateAllocator(n: nat) returns (ring: NodeRing, ghost nodes: set<TimerNode>)
    requires n >= 2 && IsPowerOfTwo(n)
    ensures ring.Valid() && ring.size == n == |ring.Contents()|
    ensures fresh(ring.Footprint()) && fresh(nodes)
    ensures AllDifferent(Packets(ring.Contents()), nodes)
    ensures Unique(multiset(Packets(ring.Contents())), nodes)
  {
    hide RingBuffer.RingBuffer.Valid, RingBuffer.RingBuffer.Contents;
    ring := new RingBuffer.RingBuffer<TimerNode?>(n, null);
    nodes := {};
    for i := 0 to n
      invariant ring.Valid() && ring.size == n && |ring.Contents()| == i
      invariant fresh(ring.Footprint()) && fresh(nodes)
      invariant AllDifferent(Packets(ring.Contents()), nodes)
    {
      var memory := new TimerNode();
      ghost var before := ring.Contents();
      var code := ring.Push(memory, 64, 0);
      nodes := nodes + {memory};
      assert Packets(ring.Contents()) == Packets(before) + [memory];
    }
    DifferentUnique(Packets(ring.Contents()), nodes);
  }
}
