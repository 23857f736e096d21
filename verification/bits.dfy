/** Bit-level arithmetic on unbounded naturals: powers of two, bitwise AND,
    and the `is_power_of_two` test of map.c, together with the facts that
    make masking with `size - 1` equal to taking a remainder. */
module Bits {

  function Pow2(k: nat): (r: nat)
    ensures r >= 1
  {
    if k == 0 then 1 else 2 * Pow2(k - 1)
  }

  ghost predicate IsPowerOfTwo(n: nat) {
    exists k: nat :: Pow2(k) == n
  }

  /** Bitwise AND of two naturals, bit by bit from the least significant. */
  function And(a: nat, b: nat): nat
    decreases a
  {
    if a == 0 || b == 0 then 0
    else 2 * And(a / 2, b / 2) + (if a % 2 == 1 && b % 2 == 1 then 1 else 0)
  }

  /** `number && !(number & (number - 1))`, the test at map.c:29-31. */
  function IsPowerOfTwoC(n: nat): bool {
    n != 0 && And(n, n - 1) == 0
  }

  // ---------------------------------------------------------------------
  // Division facts used throughout.

  lemma MulNonneg(a: int, b: int)
    requires a >= 0 && b >= 0
    ensures a * b >= 0
  {
  }

  lemma DivModUnique(x: int, d: int, q: int, r: int)
    requires d > 0 && 0 <= r < d && x == q * d + r
    ensures x % d == r && x / d == q
  {
    var q0, r0 := x / d, x % d;
    assert q0 * d + r0 == q * d + r;
    if q > q0 {
      MulNonneg(q - q0 - 1, d);
      assert false;
    } else if q < q0 {
      MulNonneg(q0 - q - 1, d);
      assert false;
    }
  }

  lemma ModAddMultiple(c: int, m: int, z: int)
    requires m > 0
    ensures (c * m + z) % m == z % m
  {
    DivModUnique(c * m + z, m, c + z / m, z % m);
  }

  lemma ModOfProductMod(a: int, y: int, m: int)
    requires m > 0
    ensures (a * (y % m)) % m == (a * y) % m
  {
    var q := y / m;
    assert a * y == (a * q) * m + a * (y % m);
    ModAddMultiple(a * q, m, a * (y % m));
  }

  lemma ModOfSumMod(y: int, z: int, m: int)
    requires m > 0
    ensures (y % m + z) % m == (y + z) % m
  {
    ModAddMultiple(y / m, m, y % m + z);
  }

  /** Reducing modulo a multiple first does not change the remainder. */
  lemma ModOfMod(x: nat, d: nat, e: nat)
    requires d > 0 && e > 0
    ensures (x % (d * e)) % d == x % d
  {
    var q := x / (d * e);
    assert x == (q * e) * d + x % (d * e);
    ModAddMultiple(q * e, d, x % (d * e));
  }

  lemma Pow2Add(i: nat, j: nat)
    ensures Pow2(i + j) == Pow2(i) * Pow2(j)
  {
    if i > 0 {
      Pow2Add(i - 1, j);
    }
  }

  lemma Pow2Monotone(i: nat, j: nat)
    requires i <= j
    ensures Pow2(i) <= Pow2(j)
  {
    if i < j {
      Pow2Monotone(i, j - 1);
    }
  }

  // ---------------------------------------------------------------------
  // Masking.

  lemma AndBound(a: nat, b: nat)
    ensures And(a, b) <= b
  {
    if a != 0 && b != 0 {
      AndBound(a / 2, b / 2);
    }
  }

  lemma AndSelf(a: nat)
    ensures And(a, a) == a
  {
    if a != 0 {
      AndSelf(a / 2);
    }
  }

  /** Splitting off the lowest bit of a remainder modulo an even number. */
  lemma HalfMod(x: nat, p: nat)
    requires p > 0
    ensures x % (2 * p) == 2 * ((x / 2) % p) + x % 2
  {
    var q := x / 2;
    assert q == (q / p) * p + q % p;
    assert x == 2 * q + x % 2;
    assert 2 * q == (q / p) * (2 * p) + 2 * (q % p);
    DivModUnique(x, 2 * p, q / p, 2 * (q % p) + x % 2);
  }

  /** Masking with `2^k - 1` keeps the k low bits, which is the remainder
      modulo `2^k`. */
  lemma {:induction false} AndLowMask(x: nat, k: nat)
    ensures And(x, Pow2(k) - 1) == x % Pow2(k)
  {
    if k == 0 || x == 0 {
    } else {
      var p := Pow2(k - 1);
      var m := Pow2(k) - 1;
      assert m == 2 * (p - 1) + 1;
      assert m / 2 == p - 1 && m % 2 == 1;
      AndLowMask(x / 2, k - 1);
      assert And(x, m) == 2 * And(x / 2, m / 2) + x % 2;
      HalfMod(x, p);
    }
  }

  /** The only odd power of two is 1. */
  lemma OddPowerOfTwo(n: nat)
    requires n % 2 == 1 && n != 1
    ensures !IsPowerOfTwo(n)
  {
    forall k: nat
      ensures Pow2(k) != n
    {
      if k > 0 {
        assert Pow2(k) == 2 * Pow2(k - 1);
      }
    }
  }

  lemma EvenPowerOfTwo(n: nat)
    requires n >= 2 && n % 2 == 0
    ensures IsPowerOfTwo(n) <==> IsPowerOfTwo(n / 2)
  {
    if IsPowerOfTwo(n) {
      var k: nat :| Pow2(k) == n;
      assert Pow2(0) == 1;
      assert k != 0;
      assert Pow2(k - 1) == n / 2;
    }
    if IsPowerOfTwo(n / 2) {
      var k: nat :| Pow2(k) == n / 2;
      assert Pow2(k + 1) == n;
    }
  }

  /** The C test agrees with the mathematical notion. */
  lemma {:induction false} PowerOfTwoC(n: nat)
    ensures IsPowerOfTwoC(n) <==> IsPowerOfTwo(n)
    decreases n
  {
    if n == 0 {
      assert forall k: nat :: Pow2(k) >= 1;
    } else if n == 1 {
      assert Pow2(0) == 1;
    } else if n % 2 == 1 {
      // And(n, n - 1) keeps every bit of n / 2, so it is not 0.
      assert (n - 1) / 2 == n / 2;
      AndSelf(n / 2);
      assert And(n, n - 1) == 2 * (n / 2);
      OddPowerOfTwo(n);
    } else {
      assert (n - 1) / 2 == n / 2 - 1;
      assert And(n, n - 1) == 2 * And(n / 2, n / 2 - 1);
      PowerOfTwoC(n / 2);
      EvenPowerOfTwo(n);
    }
  }

  lemma Pow2StrictlyMonotone(i: nat, j: nat)
    requires i < j
    ensures Pow2(i) < Pow2(j)
  {
    Pow2Monotone(i, j - 1);
  }

  /** A power of two divides every larger power of two. */
  lemma PowerOfTwoDividesLarger(d: nat, e: nat)
    requires IsPowerOfTwo(d) && IsPowerOfTwo(e) && d <= e
    ensures e % d == 0 && e == d * (e / d) && e / d >= 1
  {
    var i: nat :| Pow2(i) == d;
    var j: nat :| Pow2(j) == e;
    if i > j {
      Pow2StrictlyMonotone(j, i);
    }
    Pow2Add(i, j - i);
    DivModUnique(e, d, Pow2(j - i), 0);
  }
}
