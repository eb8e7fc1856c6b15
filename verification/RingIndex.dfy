/** Cell selection in power-of-two rings: position & mask. */
module RingIndex {

  ghost predicate IsPowerOfTwo(n: nat) {
    n == 1 || (n > 1 && n % 2 == 0 && IsPowerOfTwo(n / 2))
  }

  // Bitwise conjunction of two naturals, bit by bit.
  function BitAnd(a: nat, b: nat): nat {
    if a == 0 || b == 0 then 0 else (a % 2) * (b % 2) + 2 * BitAnd(a / 2, b / 2)
  }

  // The cell used by position pos in a ring of the given size.
  function Slot(pos: nat, size: nat): nat
    requires size > 0
  {
    BitAnd(pos, size - 1)
  }

  lemma HalfMod(a: nat, m: nat)
    requires m > 0
    ensures a % (2 * m) == a % 2 + 2 * ((a / 2) % m)
  {
    var h := a / 2;
    var q, r := h / m, h % m;
    assert h == q * m + r;
    assert a == (2 * m) * q + (2 * r + a % 2) by {
      assert a == 2 * h + a % 2;
      assert 2 * (q * m) == (2 * m) * q;
    }
    ModUnique(a, 2 * m, q, 2 * r + a % 2);
  }

  lemma MultipleBounds(m: int, k: int)
    requires m >= 0
    ensures k >= 1 ==> m * k >= m
    ensures k <= -1 ==> m * k <= -m
  {
    if k >= 1 {
      assert m * (k - 1) >= 0;
    } else if k <= -1 {
      assert m * (-k - 1) >= 0;
    }
  }

  lemma ModUnique(a: int, m: nat, q: int, r: nat)
    requires m > 0 && r < m && a == m * q + r
    ensures a % m == r && a / m == q
  {
    var q', r' := a / m, a % m;
    assert a == m * q' + r';
    assert m * (q - q') == m * q - m * q';
    MultipleBounds(m, q - q');
  }

  lemma SlotStep(pos: nat, h: nat)
    requires h > 0
    ensures Slot(pos, 2 * h) == pos % 2 + 2 * Slot(pos / 2, h)
  {
    assert (2 * h - 1) % 2 == 1 && (2 * h - 1) / 2 == h - 1;
    if pos > 0 {
      assert BitAnd(pos, 2 * h - 1) == pos % 2 + 2 * BitAnd(pos / 2, h - 1);
    }
  }

  // Masking with size - 1 is the remainder modulo size.
  lemma {:induction false} SlotIsRemainder(pos: nat, size: nat)
    requires IsPowerOfTwo(size)
    ensures Slot(pos, size) == pos % size
    decreases size
  {
    if size > 1 {
      var h := size / 2;
      HalfMod(pos, h);
      SlotStep(pos, h);
      SlotIsRemainder(pos / 2, h);
    }
  }

  lemma SlotInRange(pos: nat, size: nat)
    requires IsPowerOfTwo(size)
    ensures Slot(pos, size) < size
  {
    SlotIsRemainder(pos, size);
  }

  lemma SlotSmall(pos: nat, size: nat)
    requires IsPowerOfTwo(size) && pos < size
    ensures Slot(pos, size) == pos
  {
    SlotIsRemainder(pos, size);
    ModUnique(pos, size, 0, pos);
  }

  lemma OneMore(pos: nat, size: nat)
    requires size > 0
    ensures (pos + size) % size == pos % size
  {
    var q, r := pos / size, pos % size;
    assert pos == size * q + r;
    assert size * (q + 1) == size * q + size;
    ModUnique(pos + size, size, q + 1, r);
  }

  // One lap later the same cell comes up again.
  lemma SlotPeriodic(pos: nat, size: nat)
    requires IsPowerOfTwo(size)
    ensures Slot(pos + size, size) == Slot(pos, size)
  {
    SlotIsRemainder(pos, size);
    SlotIsRemainder(pos + size, size);
    OneMore(pos, size);
  }

  lemma SameRemainder(p: nat, q: nat, size: nat)
    requires size > 0 && p <= q < p + size
    requires p % size == q % size
    ensures p == q
  {
    var a, b := p / size, q / size;
    assert q - p == size * (b - a) by {
      assert p == size * a + p % size && q == size * b + q % size;
      assert size * (b - a) == size * b - size * a;
    }
    MultipleBounds(size, b - a);
  }

  // Two positions less than one lap apart use different cells.
  lemma SlotDistinct(p: nat, q: nat, size: nat)
    requires IsPowerOfTwo(size)
    requires p < q < p + size
    ensures Slot(p, size) != Slot(q, size)
  {
    SlotIsRemainder(p, size);
    SlotIsRemainder(q, size);
    if p % size == q % size {
      SameRemainder(p, q, size);
    }
  }

  // The positions of one lap use pairwise different cells.
  lemma LapDistinct(base: nat, p: nat, size: nat)
    requires IsPowerOfTwo(size)
    requires base <= p < base + size
    ensures forall q: nat :: base <= q < base + size && q != p ==> Slot(q, size) != Slot(p, size)
  {
    forall q: nat | base <= q < base + size && q != p ensures Slot(q, size) != Slot(p, size) {
      if q < p { SlotDistinct(q, p, size); } else { SlotDistinct(p, q, size); }
    }
  }
}
