/** Remainders of sums. */
module Modular {
  import opened RingIndex

  lemma ModShift(x: int, k: int, m: nat)
    requires m > 0
    ensures (x + k * m) % m == x % m
  {
    assert x + k * m == m * (x / m + k) + x % m;
    ModUnique(x + k * m, m, x / m + k, x % m);
  }

  lemma ModSum(a: int, b: int, m: nat)
    requires m > 0
    ensures (a % m + b) % m == (a + b) % m
  {
    assert a + b == (a % m + b) + a / m * m;
    ModShift(a % m + b, a / m, m);
  }
}
