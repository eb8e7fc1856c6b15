/** Sums of the multisets of several sequences. */
module Bags {

  ghost function Sum<T>(ss: seq<seq<T>>): multiset<T> {
    if ss == [] then multiset{} else multiset(ss[0]) + Sum(ss[1..])
  }

  // Rearranging sums of multisets.
  lemma Both<T>(a: multiset<T>, p: multiset<T>, q: multiset<T>, r: multiset<T>, s: multiset<T>)
    requires p + q == r + s
    ensures (a + p) + q == (a + r) + s
  {
    forall x ensures ((a + p) + q)[x] == ((a + r) + s)[x] {
      assert (p + q)[x] == (r + s)[x];
    }
  }

  lemma Cancel<T>(p': multiset<T>, p: multiset<T>, f: multiset<T>, i: multiset<T>, l: multiset<T>, b: multiset<T>)
    requires p' + b == p + l && f + l == b + i
    ensures p' + f == p + i
  {
    forall x ensures (p' + f)[x] == (p + i)[x] {
      assert (p' + b)[x] == (p + l)[x] && (f + l)[x] == (b + i)[x];
    }
  }

  lemma Chain<T>(p: multiset<T>, p1: multiset<T>, p2: multiset<T>, f: multiset<T>, g: multiset<T>,
                 i: multiset<T>, h: multiset<T>)
    requires p1 + f == p + i && p2 + g == p1 + h
    ensures p2 + (f + g) == p + (i + h)
  {
    forall x ensures (p2 + (f + g))[x] == (p + (i + h))[x] {
      assert (p1 + f)[x] == (p + i)[x] && (p2 + g)[x] == (p1 + h)[x];
    }
  }

  lemma {:induction false} SumUpdate<T>(ss: seq<seq<T>>, j: nat, s: seq<T>)
    requires j < |ss|
    ensures Sum(ss[j := s]) + multiset(ss[j]) == Sum(ss) + multiset(s)
    ensures multiset(ss[j]) <= Sum(ss)
  {
    if j == 0 {
      assert ss[j := s][1..] == ss[1..];
    } else {
      SumUpdate(ss[1..], j - 1, s);
      assert ss[j := s][1..] == ss[1..][j - 1 := s];
      Both(multiset(ss[0]), Sum(ss[1..][j - 1 := s]), multiset(ss[j]), Sum(ss[1..]), multiset(s));
    }
  }

  // Two different sequences together hold no more than the sum.
  lemma {:induction false} SumTwo<T>(ss: seq<seq<T>>, i: nat, j: nat)
    requires i < j < |ss|
    ensures multiset(ss[i]) + multiset(ss[j]) <= Sum(ss)
  {
    if i == 0 {
      SumUpdate(ss[1..], j - 1, []);
    } else {
      SumTwo(ss[1..], i - 1, j - 1);
    }
  }

  // An element found twice in a sequence is counted twice.
  lemma TwiceIn<T>(s: seq<T>, a: nat, b: nat)
    requires a < b < |s| && s[a] == s[b]
    ensures multiset(s)[s[a]] >= 2
  {
    assert s == s[..b] + [s[b]] + s[b + 1..];
    assert s[a] in s[..b];
    assert multiset(s) == multiset(s[..b]) + multiset{s[b]} + multiset(s[b + 1..]);
  }

  // What the sum holds is in one of the sequences, and the other way round.
  lemma {:induction false} SumMember<T>(ss: seq<seq<T>>, x: T)
    ensures x in Sum(ss) <==> exists i :: 0 <= i < |ss| && x in ss[i]
  {
    if ss != [] {
      SumMember(ss[1..], x);
      assert forall i :: 1 <= i < |ss| ==> ss[i] == ss[1..][i - 1];
      if x in Sum(ss[1..]) {
        var i :| 0 <= i < |ss[1..]| && x in ss[1..][i];
        assert x in ss[i + 1];
      }
    }
  }

  lemma {:induction false} SumLength<T>(ss: seq<seq<T>>, j: nat)
    requires j < |ss|
    ensures |Sum(ss)| >= |ss[j]|
  {
    SumUpdate(ss, j, []);
    assert |Sum(ss) - multiset(ss[j]) + multiset(ss[j])| == |Sum(ss)|;
  }

  // One element moves from one summand to another.
  lemma Move<T>(n: T, whole: multiset<T>, rest: multiset<T>, s: multiset<T>, s': multiset<T>,
                l: multiset<T>, l': multiset<T>)
    requires whole == multiset{n} + rest && l' == l + multiset{n} && s' + l == s + l'
    ensures rest + s' == whole + s
  {
    forall x ensures (rest + s')[x] == (whole + s)[x] {
      assert (s' + l)[x] == (s + l')[x];
    }
  }

  lemma HeadOut<T>(s: seq<T>)
    requires s != []
    ensures multiset(s) == multiset{s[0]} + multiset(s[1..])
  {
    assert s == [s[0]] + s[1..];
  }

  lemma Swap<T>(p: multiset<T>, f: multiset<T>, s': multiset<T>, s: multiset<T>)
    requires s' + f == s
    ensures (p + f) + s' == p + s
  {
    forall x ensures ((p + f) + s')[x] == (p + s)[x] {
      assert (s' + f)[x] == s[x];
    }
  }
}
