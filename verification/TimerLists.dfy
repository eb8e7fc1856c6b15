/** Timer nodes and the circular doubly linked lists they form. */
module TimerLists {
  import opened TimerSpec

  class TimerNode {
    var retries: nat
    var signal: nat
    var prev: TimerNode?
    var next: TimerNode?
    ghost var id: nat

    constructor ()
    {
    }
  }

  ghost predicate Distinct(l: seq<TimerNode>) {
    forall a, b :: 0 <= a < b < |l| ==> l[a] != l[b]
  }

  // l, in order from its head, is a circular doubly linked list.
  ghost predicate Circular(l: seq<TimerNode>)
    reads l
  {
    && (forall a {:trigger l[a].next} :: 0 <= a < |l| ==> l[a].next == if a + 1 < |l| then l[a + 1] else l[0])
    && (forall a {:trigger l[a].prev} :: 0 <= a < |l| ==> l[a].prev == if a > 0 then l[a - 1] else l[|l| - 1])
  }

  ghost function Before(l: seq<TimerNode>, k: nat): TimerNode
    requires k < |l|
  {
    if k > 0 then l[k - 1] else l[|l| - 1]
  }

  ghost function After(l: seq<TimerNode>, k: nat): TimerNode
    requires k < |l|
  {
    if k + 1 < |l| then l[k + 1] else l[0]
  }

  ghost predicate Carries(n: TimerNode, e: Entry)
    reads n
  {
    n.id == e.id && n.signal == e.signal && n.retries == e.rounds
  }

  // The list that starts at head is l, and its nodes carry the entries es.
  ghost predicate Represents(head: TimerNode?, l: seq<TimerNode>, es: seq<Entry>)
    reads l
  {
    && Circular(l) && Distinct(l)
    && head == (if l == [] then null else l[0])
    && |es| == |l|
    && (forall a :: 0 <= a < |l| ==> Carries(l[a], es[a]))
  }

  // The body of insert_ringtimer for an empty bucket.
  method FillAlone(x: TimerNode, signal: nat, retries: nat, ghost id: nat)
    modifies x
    ensures Represents(x, [x], [Entry(id, signal, retries)])
  {
    x.prev := x;
    x.next := x;
    x.signal := signal;
    x.retries := retries;
    x.id := id;
  }

  // The body of insert_ringtimer for a bucket that starts at first.
  method FillLast(first: TimerNode, x: TimerNode, signal: nat, retries: nat, ghost id: nat,
                  ghost l: seq<TimerNode>, ghost es: seq<Entry>)
    requires l != [] && Represents(first, l, es) && x !in l
    modifies Before(l, 0)`next, first`prev, x
    ensures Represents(first, l + [x], es + [Entry(id, signal, retries)])
  {
    var last := first.prev;
    last.next := x;
    var cur := last.next;
    cur.next := first;
    cur.prev := last;
    cur.signal := signal;
    cur.retries := retries;
    cur.id := id;
    first.prev := cur;
  }

  ghost function Without(l: seq<TimerNode>, k: nat): seq<TimerNode>
    requires k < |l|
  {
    l[..k] + l[k + 1..]
  }

  // Take node k out of a list of at least two; its own links stay as they were.
  method Unlink(t: TimerNode, ghost l: seq<TimerNode>, ghost k: nat)
    requires |l| > 1 && k < |l| && l[k] == t && Circular(l) && Distinct(l)
    modifies Before(l, k)`next, After(l, k)`prev
    ensures Circular(Without(l, k))
    ensures t.next == old(t.next)
  {
    t.prev.next := t.next;
    t.next.prev := t.prev;
  }

  lemma WithoutFacts(l: seq<TimerNode>, k: nat)
    requires k < |l| && Distinct(l)
    ensures Distinct(Without(l, k)) && l[k] !in Without(l, k)
    ensures multiset(Without(l, k)) + multiset{l[k]} == multiset(l)
  {
    assert l == l[..k] + [l[k]] + l[k + 1..];
  }
}
