/** The two one's complement sums, and the check that follows a change of the length field. */
module InternetChecksum {
  import opened Constants
  import opened Bytes

  const U16_MAX: nat := 0xFFFF

  // The 16-bit words of a buffer, as a little-endian host reads them.
  function Words(data: seq<bv8>): (r: seq<nat>)
    requires |data| % 2 == 0
    ensures |r| == |data| / 2
    ensures forall i :: 0 <= i < |r| ==> r[i] == FromHost16(data[2 * i..2 * i + 2]) < U16
  {
    seq(|data| / 2, i requires 0 <= i < |data| / 2 => FromHost16(data[2 * i..2 * i + 2]))
  }

  ghost predicate Are16(words: seq<nat>) { forall i :: 0 <= i < |words| ==> words[i] < U16 }

  function Total(words: seq<nat>): (r: nat) {
    if words == [] then 0 else Total(words[..|words| - 1]) + words[|words| - 1]
  }

  // The residue modulo 65535 with 65535 for 0, except that an empty sum is 0.
  function Canonical(total: nat): (r: nat)
    ensures r <= U16_MAX
    ensures r == 0 <==> total == 0
    ensures (total - r) % U16_MAX == 0
  {
    if total == 0 then 0 else (total - 1) % U16_MAX + 1
  }

  lemma CanonicalUnique(total: nat, r: nat)
    requires r <= U16_MAX && (r == 0 <==> total == 0) && (total - r) % U16_MAX == 0
    ensures r == Canonical(total)
  {
    var c := Canonical(total);
    assert (r - c) % U16_MAX == 0;
  }

  function Fold(sum: nat): nat { sum % U16 + sum / U16 }

  lemma FoldKeeps(sum: nat)
    ensures Canonical(Fold(sum)) == Canonical(sum)
    ensures sum >= U16 ==> Fold(sum) < sum
  {
    var q := sum / U16;
    assert sum == U16 * q + sum % U16;
    assert sum - Fold(sum) == U16_MAX * q;
    var c := Canonical(Fold(sum));
    assert (sum - c) % U16_MAX == 0 by {
      assert sum - c == (Fold(sum) - c) + U16_MAX * q;
    }
    CanonicalUnique(sum, c);
  }

  lemma CanonicalSmall(sum: nat)
    requires sum <= U16_MAX
    ensures Canonical(sum) == sum
  {
  }

  lemma CanonicalAdd(a: nat, w: nat)
    ensures Canonical(Canonical(a) + w) == Canonical(a + w)
  {
    var s, c := Canonical(a) + w, Canonical(a + w);
    assert (s - c) % U16_MAX == 0 by {
      assert s - c == (a + w - c) - (a - Canonical(a));
    }
    CanonicalUnique(s, c);
  }

  // The sum of all words is zero only when every word is.
  lemma {:induction false} TotalZero(words: seq<nat>)
    ensures Total(words) == 0 <==> forall i :: 0 <= i < |words| ==> words[i] == 0
  {
    if words != [] {
      var n := |words| - 1;
      TotalZero(words[..n]);
      assert words == words[..n] + [words[n]];
    }
  }

  lemma {:induction false} TotalBound(words: seq<nat>)
    requires Are16(words)
    ensures Total(words) <= U16_MAX * |words|
  {
    if words != [] {
      TotalBound(words[..|words| - 1]);
    }
  }

  lemma {:induction false} TotalUpdate(words: seq<nat>, i: nat, w: nat)
    requires i < |words|
    ensures Total(words[i := w]) + words[i] == Total(words) + w
  {
    var n := |words| - 1;
    if i == n {
      assert words[i := w][..n] == words[..n];
    } else {
      assert words[i := w][..n] == words[..n][i := w];
      TotalUpdate(words[..n], i, w);
    }
  }

  // ip_checksum: fold after every word. An odd last byte is not read.
  method IpChecksum(data: seq<bv8>) returns (sum: nat)
    requires |data| < U16
    ensures sum == Canonical(Total(Words(data[..|data| / 2 * 2])))
  {
    hide Canonical, FromHost16;
    ghost var words := Words(data[..|data| / 2 * 2]);
    sum := 0;
    CanonicalSmall(0);
    for i := 0 to |data| / 2
      invariant sum <= U16_MAX
      invariant sum == Canonical(Total(words[..i]))
    {
      assert words[..i + 1][..i] == words[..i];
      assert words[i] == FromHost16(data[2 * i..2 * i + 2]) by {
        assert data[..|data| / 2 * 2][2 * i..2 * i + 2] == data[2 * i..2 * i + 2];
      }
      CanonicalAdd(Total(words[..i]), words[i]);
      sum := sum + FromHost16(data[2 * i..2 * i + 2]);
      FoldKeeps(sum);
      if sum > U16_MAX {
        sum := Fold(sum);
      }
      CanonicalSmall(sum);
    }
    assert words[..|data| / 2] == words;
  }

  // tcp_checksum: add up, an odd last byte as the low half of a word, then fold until it fits.
  function Padded(data: seq<bv8>): (r: seq<bv8>)
    ensures |r| % 2 == 0 && |data| <= |r| <= |data| + 1
  {
    if |data| % 2 == 0 then data else data + [0]
  }

  // An odd last byte adds its value.
  lemma OddByte(data: seq<bv8>)
    requires |data| % 2 == 1
    ensures Total(Words(Padded(data))) == Total(Words(data[..|data| - 1])) + Val(data[|data| - 1])
  {
    hide FromHost16;
    var n, words := |data| - 1, Words(Padded(data));
    var last := |words| - 1;
    assert words[..last] == Words(data[..n]) by {
      forall i | 0 <= i < last
        ensures words[i] == Words(data[..n])[i]
      {
        assert Padded(data)[2 * i..2 * i + 2] == data[..n][2 * i..2 * i + 2];
      }
    }
    assert Padded(data)[2 * last..2 * last + 2] == [data[n], 0];
    LowByte(data[n]);
  }

  lemma LowByte(b: bv8)
    ensures FromHost16([b, 0]) == Val(b)
  {
  }

  method TcpChecksum(data: seq<bv8>) returns (check: nat)
    requires |data| <= 2 * 65537   // the u32 sum cannot wrap
    ensures check == U16_MAX - Canonical(Total(Words(Padded(data))))
  {
    hide Words, Total, Canonical;
    var sum := AddWords(data);
    sum := FoldAll(sum);
    check := U16_MAX - sum;
  }

  method AddWords(data: seq<bv8>) returns (sum: nat)
    requires |data| <= 2 * 65537
    ensures sum == Total(Words(Padded(data))) < U32
  {
    hide FromHost16;
    ghost var words := Words(Padded(data));
    sum := 0;
    var i := 0;
    while |data| - 2 * i > 1
      invariant 0 <= i <= |data| / 2
      invariant sum == Total(words[..i])
    {
      assert words[..i + 1][..i] == words[..i];
      assert Padded(data)[2 * i..2 * i + 2] == data[2 * i..2 * i + 2];
      sum := sum + FromHost16(data[2 * i..2 * i + 2]);
      i := i + 1;
    }
    if |data| - 2 * i == 1 {
      assert words[..i + 1][..i] == words[..i];
      assert |Padded(data)| == 2 * i + 2 && Padded(data)[2 * i] == data[2 * i] && Padded(data)[2 * i + 1] == 0;
      assert Padded(data)[2 * i..2 * i + 2] == [data[2 * i], 0];
      sum := sum + FromHost16([data[2 * i], 0]);
      assert words[..i + 1] == words;
    } else {
      assert words[..i] == words;
    }
    TotalBound(words);
  }

  method FoldAll(start: nat) returns (sum: nat)
    ensures sum == Canonical(start)
  {
    hide Canonical, Fold;
    sum := start;
    while sum / U16 > 0
      invariant Canonical(sum) == Canonical(start)
      decreases sum
    {
      FoldKeeps(sum);
      sum := Fold(sum);
    }
    CanonicalSmall(sum);
  }

  // The two functions agree, up to the complement, on every even-length buffer they both take.
  method BothChecksums(data: seq<bv8>) returns (ip: nat, tcp: nat)
    requires |data| % 2 == 0 && |data| < U16
    ensures tcp == U16_MAX - ip
    ensures ip == 0 <==> forall i :: 0 <= i < |data| ==> data[i] == 0
  {
    ip := IpChecksum(data);
    tcp := TcpChecksum(data);
    assert data[..|data| / 2 * 2] == data;
    TotalZero(Words(data));
    WordsZero(data);
  }

  lemma WordsZero(data: seq<bv8>)
    requires |data| % 2 == 0
    ensures (forall i :: 0 <= i < |data| ==> data[i] == 0)
       <==> (forall i :: 0 <= i < |Words(data)| ==> Words(data)[i] == 0)
  {
    hide FromHost16;
    var words := Words(data);
    forall i | 0 <= i < |words|
      ensures words[i] == 0 <==> data[2 * i] == 0 && data[2 * i + 1] == 0
    {
      WordZero(data[2 * i..2 * i + 2]);
    }
    if forall i :: 0 <= i < |words| ==> words[i] == 0 {
      forall j | 0 <= j < |data|
        ensures data[j] == 0
      {
        assert words[j / 2] == 0;
      }
    }
  }

  lemma WordZero(s: seq<bv8>)
    requires |s| == 2
    ensures FromHost16(s) == 0 <==> s[0] == 0 && s[1] == 0
  {
    hide Val;
    ByteZero(s[0]);
    ByteZero(s[1]);
  }

  lemma ByteZero(b: bv8)
    ensures Val(b) == 0 <==> b == 0
  {
  }

  // The check stored by a builder for a header whose check field is zero.
  function CheckOf(words: seq<nat>): (r: nat)
    ensures r <= U16_MAX
  {
    U16_MAX - Canonical(Total(words))
  }

  // The cookie echo builder's update: subtract the new length in 32 bits, fold once, keep 16 bits.
  function Updated(check: nat, len: nat): (r: nat)
    requires check < U16 && len < U16
    ensures r < U16
  {
    var chk := (check - len) % U32;
    (if chk > U16_MAX then chk % U16 + chk / U16 else chk) % U16
  }

  lemma UpdatedValue(check: nat, len: nat)
    requires check < U16 && len < U16
    ensures Updated(check, len) == if check >= len then check - len else check + U16_MAX - len
  {
    if check < len {
      assert (check - len) % U32 == U32 + check - len;
    }
  }

  lemma CanonicalStep(c: nat, len: nat)
    requires c <= U16_MAX && len < U16
    ensures Canonical(c + len) == if c + len <= U16_MAX then c + len else c + len - U16_MAX
  {
  }

  // For every header whose check was computed with a zero length, storing a length and updating
  // the check gives what computing it afresh would.
  lemma UpdateIsRecompute(words: seq<nat>, i: nat, len: nat)
    requires i < |words| && words[i] == 0 && len < U16
    ensures Updated(CheckOf(words), len) == CheckOf(words[i := len])
  {
    hide Canonical;
    TotalUpdate(words, i, len);
    var c := Canonical(Total(words));
    CanonicalAdd(Total(words), len);
    CanonicalStep(c, len);
    UpdatedValue(U16_MAX - c, len);
  }

  lemma CanonicalSame(a: nat, d: nat)
    requires a > 0
    ensures Canonical(a + d) == Canonical(a) <==> d % U16_MAX == 0
  {
  }

  // A header sent once and updated again keeps the length it was sent with in its check: the update
  // is right exactly when that length is a multiple of 65535.
  lemma UpdateAgain(words: seq<nat>, i: nat, len: nat)
    requires i < |words| && words[i] < U16 && len < U16
    requires Total(words[i := 0]) > 0
    ensures Updated(CheckOf(words), len) == CheckOf(words[i := len]) <==> words[i] % U16_MAX == 0
  {
    hide Canonical;
    var rest := Total(words[i := 0]);
    TotalUpdate(words, i, 0);
    TotalUpdate(words, i, len);
    var c := Canonical(rest + words[i]);
    CanonicalStep(c, len);
    CanonicalAdd(rest + words[i], len);
    UpdatedValue(U16_MAX - c, len);
    CanonicalSame(rest + len, words[i]);
  }
}
