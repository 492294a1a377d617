/** Multiples, remainders and powers of two. */
module Arithmetic {
  lemma AtLeastOnce(z: int, n: int)
    requires z >= 1 && n >= 1
    ensures z * n >= n
  {
    assert z * n == (z - 1) * n + n;
  }

  lemma NoSmallMultiple(z: int, n: int)
    requires n > 0 && -n < z * n < n
    ensures z == 0
  {
    if z > 0 {
      AtLeastOnce(z, n);
    } else if z < 0 {
      AtLeastOnce(-z, n);
    }
  }

  /** Numbers that differ by a multiple of `n` have the same remainder. */
  lemma SameRemainder(x: int, y: int, q: int, n: int)
    requires n > 0 && x == y + q * n
    ensures x % n == y % n
  {
    var z := x / n - y / n - q;
    assert x == n * (x / n) + x % n && y == n * (y / n) + y % n;
    assert z * n == y % n - x % n;
    NoSmallMultiple(z, n);
  }

  lemma SmallRemainder(x: nat, n: nat)
    requires x < n
    ensures x % n == x
  {
  }

  function Pow2(n: nat): nat {
    if n == 0 then 1 else 2 * Pow2(n - 1)
  }

  lemma Pow2Byte()
    ensures Pow2(8) == 256
  {
    assert Pow2(4) == 16;
  }
}
