/** The bucket index arithmetic of the map (map.c:14-15, 37-42): a linear
    congruential step `x -> (a * x + 1) mod size` with the PCG multiplier
    a = 6364136223846793005, used both for the first bucket of a hash and
    to move from one probed bucket to the next.

    Because a = 1 (mod 4) and the increment is odd, the Hull–Dobell theorem
    says the step is a full-period permutation of the buckets whenever the
    bucket count is a power of two. This module proves that theorem, which is
    what lets the `count < m->size` probe loops of map.c visit every bucket. */
module Probing {
  import opened Common
  import opened Bits

  const LcgMultiplier: nat := 6364136223846793005
  const LcgIncrement: nat := 1

  /** `generate_index` exactly as written in C: the `uint32_t` parameter
      keeps the low 32 bits of the seed, the product and the sum wrap modulo
      2^64 (size_t), and the result is masked with `size - 1`. */
  function GenerateIndex(seed: nat, size: nat): (r: nat)
    requires 1 <= size <= WordModulus
    ensures r < size
  {
    var mixed := (LcgMultiplier * (seed % U32Modulus) + LcgIncrement) % WordModulus;
    AndBound(mixed, size - 1);
    And(mixed, size - 1)
  }

  /** One step of a linear congruential generator with increment 1. */
  function Step(a: nat, x: nat, m: nat): nat
    requires m > 0
  {
    (a * x + 1) % m
  }

  /** `n` steps from `x`. */
  function Orbit(a: nat, x: nat, n: nat, m: nat): nat
    requires m > 0
  {
    if n == 0 then x else Step(a, Orbit(a, x, n - 1, m), m)
  }

  /** The step the map uses, in its arithmetic form. */
  function Next(x: nat, size: nat): nat
    requires size > 0
  {
    Step(LcgMultiplier, x, size)
  }

  /** The bucket examined after `j` further steps from `start`. */
  function Probe(start: nat, j: nat, size: nat): nat
    requires size > 0
  {
    Orbit(LcgMultiplier, start, j, size)
  }

  lemma WordModulusIsPowerOfTwo()
    ensures IsPowerOfTwo(WordModulus)
  {
    assert Pow2(1) == 2;
    Pow2Add(1, 1);
    assert Pow2(2) == 4;
    Pow2Add(2, 2);
    assert Pow2(4) == 16;
    Pow2Add(4, 4);
    assert Pow2(8) == 256;
    Pow2Add(8, 8);
    assert Pow2(16) == 0x1_0000;
    Pow2Add(16, 16);
    assert Pow2(32) == 0x1_0000_0000;
    Pow2Add(32, 32);
    assert Pow2(64) == WordModulus;
  }

  /** Masking the wrapped value with `size - 1` is the same as reducing the
      unwrapped value modulo `size`, because `size` is a power of two that
      divides 2^64. */
  lemma MaskIsMod(y: nat, size: nat)
    requires IsPowerOfTwo(size) && size <= WordModulus
    ensures And(y % WordModulus, size - 1) == y % size
  {
    var k: nat :| Pow2(k) == size;
    AndLowMask(y % WordModulus, k);
    WordModulusIsPowerOfTwo();
    PowerOfTwoDividesLarger(size, WordModulus);
    ModOfMod(y, size, WordModulus / size);
  }

  /** `generate_index` is the plain step `(a * x + 1) mod size` of the
      seed's low 32 bits, which are the whole seed below 2^32. */
  lemma GenerateIndexIsNext(x: nat, size: nat)
    requires IsPowerOfTwo(size) && size <= WordModulus
    ensures GenerateIndex(x, size) == Next(x % U32Modulus, size)
    ensures x < U32Modulus ==> GenerateIndex(x, size) == Next(x, size)
  {
    var low := x % U32Modulus;
    var y := LcgMultiplier * low + LcgIncrement;
    MaskIsMod(y, size);
    assert GenerateIndex(x, size) == And(y % WordModulus, size - 1);
    assert Next(low, size) == y % size;
    assert x < U32Modulus ==> low == x;
  }

  // ---------------------------------------------------------------------
  // Closed form of the orbit.

  function Pow(a: nat, n: nat): nat {
    if n == 0 then 1 else a * Pow(a, n - 1)
  }

  /** 1 + a + ... + a^(n-1). */
  function Geo(a: nat, n: nat): nat {
    if n == 0 then 0 else a * Geo(a, n - 1) + 1
  }

  lemma OrbitBound(a: nat, x: nat, n: nat, m: nat)
    requires m > 0 && x < m
    ensures Orbit(a, x, n, m) < m
  {
  }

  lemma Distribute(a: int, b: int, c: int)
    ensures a * (b + c) == a * b + a * c
  {
  }

  lemma MulAssoc(a: int, b: int, c: int)
    ensures a * (b * c) == (a * b) * c
  {
  }

  lemma StepOfMod(a: nat, y: nat, m: nat)
    requires m > 0
    ensures (a * (y % m) + 1) % m == (a * y + 1) % m
  {
    ModOfProductMod(a, y, m);
    ModOfSumMod(a * (y % m), 1, m);
    ModOfSumMod(a * y, 1, m);
  }

  lemma {:induction false} OrbitClosedForm(a: nat, x: nat, n: nat, m: nat)
    requires m > 0 && x < m
    ensures Orbit(a, x, n, m) == (Pow(a, n) * x + Geo(a, n)) % m
  {
    if n > 0 {
      OrbitClosedForm(a, x, n - 1, m);
      var p, g := Pow(a, n - 1), Geo(a, n - 1);
      var y := p * x + g;
      StepOfMod(a, y, m);
      var z := Pow(a, n) * x + Geo(a, n);
      assert Pow(a, n) == a * p;
      assert Geo(a, n) == a * g + 1;
      assert a * y == a * (p * x) + a * g by { Distribute(a, p * x, g); }
      assert a * (p * x) == (a * p) * x by { MulAssoc(a, p, x); }
      assert a * y + 1 == z;
      calc {
        Orbit(a, x, n, m);
        (a * (y % m) + 1) % m;
        (a * y + 1) % m;
        z % m;
      }
    }
  }

  lemma {:induction false} PowGeo(a: nat, n: nat)
    requires a >= 1
    ensures Pow(a, n) == (a - 1) * Geo(a, n) + 1
  {
    if n > 0 {
      PowGeo(a, n - 1);
      calc {
        Pow(a, n);
        a * ((a - 1) * Geo(a, n - 1) + 1);
        (a - 1) * (a * Geo(a, n - 1) + 1) + 1;
      }
    }
  }

  lemma {:induction false} GeoSplit(a: nat, i: nat, j: nat)
    ensures Geo(a, i + j) == Geo(a, i) + Pow(a, i) * Geo(a, j)
  {
    if i > 0 {
      GeoSplit(a, i - 1, j);
      var g, p, r := Geo(a, i - 1), Pow(a, i - 1), Geo(a, j);
      assert Geo(a, i + j) == a * (g + p * r) + 1;
      Distribute(a, g, p * r);
      MulAssoc(a, p, r);
      assert Geo(a, i) == a * g + 1;
      assert Pow(a, i) == a * p;
    }
  }

  lemma {:induction false} OrbitCompose(a: nat, x: nat, i: nat, d: nat, m: nat)
    requires m > 0
    ensures Orbit(a, x, i + d, m) == Orbit(a, Orbit(a, x, i, m), d, m)
  {
    if d > 0 {
      OrbitCompose(a, x, i, d - 1, m);
    }
  }

  // ---------------------------------------------------------------------
  // Divisibility by powers of two.

  lemma OddTimes(a: nat, g: nat)
    requires a % 2 == 1
    ensures (a * g) % 2 == g % 2
  {
    assert a * g == (a / 2 * g) * 2 + g;
    ModAddMultiple(a / 2 * g, 2, g);
  }

  lemma OddNotDivisible(x: nat, k: nat)
    requires k >= 1 && x % 2 == 1
    ensures x % Pow2(k) != 0
  {
    ModOfMod(x, 2, Pow2(k - 1));
  }

  lemma DoubleDivisible(c: nat, k: nat)
    requires k >= 1
    ensures (2 * c) % Pow2(k) == 0 <==> c % Pow2(k - 1) == 0
  {
    var p := Pow2(k - 1);
    DivModUnique(2 * c, 2 * p, c / p, 2 * (c % p));
  }

  lemma {:induction false} OddFactor(g: nat, w: nat, k: nat)
    requires w % 2 == 1
    ensures (g * w) % Pow2(k) == 0 <==> g % Pow2(k) == 0
  {
    if k > 0 {
      OddTimes(w, g);
      if g % 2 == 1 {
        OddNotDivisible(g * w, k);
        OddNotDivisible(g, k);
      } else {
        var h := g / 2;
        assert g == 2 * h;
        MulAssoc(2, h, w);
        DoubleDivisible(h * w, k);
        DoubleDivisible(h, k);
        OddFactor(h, w, k - 1);
      }
    }
  }

  lemma {:induction false} GeoParity(a: nat, n: nat)
    requires a % 2 == 1
    ensures Geo(a, n) % 2 == n % 2
  {
    if n > 0 {
      GeoParity(a, n - 1);
      var g := Geo(a, n - 1);
      OddTimes(a, g);
      assert Geo(a, n) == a * g + 1;
      ModOfSumMod(a * g, 1, 2);
      ModOfSumMod(g, 1, 2);
      ModOfSumMod(n - 1, 1, 2);
    }
  }

  lemma {:induction false} PowMod4(a: nat, n: nat)
    requires a % 4 == 1
    ensures Pow(a, n) % 4 == 1
  {
    if n > 0 {
      PowMod4(a, n - 1);
      var p := Pow(a, n - 1);
      assert a * p == (4 * (a / 4) * (p / 4) + a / 4 + p / 4) * 4 + 1 by {
        assert a == 4 * (a / 4) + 1;
        assert p == 4 * (p / 4) + 1;
      }
      ModAddMultiple(4 * (a / 4) * (p / 4) + a / 4 + p / 4, 4, 1);
    }
  }

  /** The 2-adic heart of Hull–Dobell: for a = 1 (mod 4), 2^k divides
      1 + a + ... + a^(n-1) exactly when 2^k divides n. */
  lemma {:induction false} GeoDivisibility(a: nat, n: nat, k: nat)
    requires a % 4 == 1
    ensures Geo(a, n) % Pow2(k) == 0 <==> n % Pow2(k) == 0
  {
    if k > 0 {
      if n % 2 == 1 {
        GeoParity(a, n);
        OddNotDivisible(Geo(a, n), k);
        OddNotDivisible(n, k);
      } else {
        var j := n / 2;
        assert n == j + j;
        var t := GeoDouble(a, j);
        DoubleDivisible(Geo(a, j) * t, k);
        OddFactor(Geo(a, j), t, k - 1);
        GeoDivisibility(a, j, k - 1);
        DoubleDivisible(j, k);
      }
    }
  }

  /** For a = 1 (mod 4) the sum of 2j powers is twice the sum of j powers
      times an odd number. */
  lemma GeoDouble(a: nat, j: nat) returns (t: nat)
    requires a % 4 == 1
    ensures t % 2 == 1 && Geo(a, j + j) == 2 * (Geo(a, j) * t)
  {
    GeoSplit(a, j, j);
    PowMod4(a, j);
    t := OddHalf(Geo(a, j), Pow(a, j));
  }

  /** With p = 1 (mod 4), g + p * g is twice g times an odd number. */
  lemma OddHalf(g: nat, p: nat) returns (t: nat)
    requires p % 4 == 1
    ensures t % 2 == 1 && g + p * g == 2 * (g * t)
  {
    t := 2 * (p / 4) + 1;
    assert 1 + p == 2 * t;
    Distribute(g, 1, p);
    MulAssoc(2, t, g);
  }

  /** `y + c` reduces to `y` modulo m exactly when m divides c. */
  lemma ShiftReturns(c: nat, y: nat, m: nat)
    requires m > 0 && y < m
    ensures (c + y) % m == y <==> c % m == 0
  {
    var r := c % m;
    ModOfSumMod(c, y, m);
    if r == 0 {
      DivModUnique(y, m, 0, y);
    } else if r + y < m {
      DivModUnique(r + y, m, 0, r + y);
    } else {
      DivModUnique(r + y, m, 1, r + y - m);
    }
  }

  /** The algebra behind `OrbitReturns`: with P = b * g + 1,
      P * y + g = g * (b * y + 1) + y. */
  lemma ReturnIdentity(p: int, g: int, b: int, y: int)
    requires p == b * g + 1
    ensures p * y + g == g * (b * y + 1) + y
  {
    Distribute(y, b * g, 1);
    MulAssoc(y, b, g);
    MulAssoc(g, b, y);
    Distribute(g, b * y, 1);
  }

  lemma OddAfterMultipleOfFour(a: nat, y: nat)
    requires a % 4 == 1
    ensures ((a - 1) * y + 1) % 2 == 1
  {
    var q := a / 4;
    assert a - 1 == 4 * q;
    var p := q * y;
    assert (a - 1) * y == 4 * p by {
      MulAssoc(4, q, y);
    }
  }

  /** An orbit returns to its starting point after n > 0 steps exactly when
      2^k divides n. */
  lemma OrbitReturns(a: nat, y: nat, n: nat, k: nat)
    requires a % 4 == 1 && y < Pow2(k)
    ensures Orbit(a, y, n, Pow2(k)) == y <==> n % Pow2(k) == 0
  {
    var m := Pow2(k);
    var g := Geo(a, n);
    MulNonneg(a - 1, y);
    var w: nat := (a - 1) * y + 1;
    MulNonneg(g, w);
    var c: nat := g * w;
    assert Orbit(a, y, n, m) == (c + y) % m by {
      OrbitClosedForm(a, y, n, m);
      PowGeo(a, n);
      ReturnIdentity(Pow(a, n), g, a - 1, y);
    }
    assert (c + y) % m == y <==> c % m == 0 by {
      ShiftReturns(c, y, m);
    }
    assert c % m == 0 <==> g % m == 0 by {
      OddAfterMultipleOfFour(a, y);
      OddFactor(g, w, k);
    }
    GeoDivisibility(a, n, k);
  }

  // ---------------------------------------------------------------------
  // Full period.

  lemma OrbitDistinct(a: nat, x: nat, k: nat)
    requires a % 4 == 1 && x < Pow2(k)
    ensures forall i, j :: 0 <= i < j < Pow2(k) ==> Orbit(a, x, i, Pow2(k)) != Orbit(a, x, j, Pow2(k))
  {
    var m := Pow2(k);
    forall i, j | 0 <= i < j < m
      ensures Orbit(a, x, i, m) != Orbit(a, x, j, m)
    {
      var y := Orbit(a, x, i, m);
      OrbitBound(a, x, i, m);
      OrbitCompose(a, x, i, j - i, m);
      OrbitReturns(a, y, j - i, k);
      DivModUnique(j - i, m, 0, j - i);
    }
  }

  ghost function Image(a: nat, x: nat, n: nat, m: nat): set<nat>
    requires m > 0
  {
    set j | 0 <= j < n :: Orbit(a, x, j, m)
  }

  lemma {:induction false} ImageSize(a: nat, x: nat, n: nat, k: nat)
    requires a % 4 == 1 && x < Pow2(k) && n <= Pow2(k)
    ensures |Image(a, x, n, Pow2(k))| == n
  {
    var m := Pow2(k);
    if n > 0 {
      ImageSize(a, x, n - 1, k);
      OrbitDistinct(a, x, k);
      assert Image(a, x, n, m) == Image(a, x, n - 1, m) + {Orbit(a, x, n - 1, m)};
      assert Orbit(a, x, n - 1, m) !in Image(a, x, n - 1, m);
    } else {
      assert Image(a, x, n, m) == {};
    }
  }

  ghost function Below(n: nat): set<nat> {
    if n == 0 then {} else Below(n - 1) + {n - 1}
  }

  lemma {:induction false} BelowSize(n: nat)
    ensures |Below(n)| == n
    ensures forall b :: b in Below(n) <==> 0 <= b < n
  {
    if n > 0 {
      BelowSize(n - 1);
      assert n - 1 !in Below(n - 1);
    }
  }

  lemma SubsetOfEqualSize(s: set<nat>, t: set<nat>)
    requires s <= t && |s| == |t|
    ensures s == t
  {
    if s != t {
      var b :| b in t && b !in s;
      assert s <= t - {b};
      assert |t - {b}| == |t| - 1;
      SubsetSize(s, t - {b});
    }
  }

  lemma SubsetSize(s: set<nat>, t: set<nat>)
    requires s <= t
    ensures |s| <= |t|
  {
    assert t == s + (t - s);
  }

  /** Hull–Dobell for the map's multiplier and a power-of-two table: the
      first `size` probes from any bucket are pairwise different, and the
      next probe is the starting bucket again. */
  lemma FullPeriod(start: nat, size: nat)
    requires IsPowerOfTwo(size) && start < size
    ensures forall i, j :: 0 <= i < j < size ==> Probe(start, i, size) != Probe(start, j, size)
    ensures Probe(start, size, size) == start
  {
    var k: nat :| Pow2(k) == size;
    var a := LcgMultiplier;
    assert a % 4 == 1;
    OrbitDistinct(a, start, k);
    OrbitReturns(a, start, size, k);
    DivModUnique(size, size, 1, 0);
  }

  /** ... and together they reach every bucket: for each bucket `b` there is
      a number of steps `j < size` after which the probe sequence is at `b`. */
  lemma ProbeReaches(start: nat, b: nat, size: nat) returns (j: nat)
    requires IsPowerOfTwo(size) && start < size && b < size
    ensures j < size && Probe(start, j, size) == b
  {
    var k: nat :| Pow2(k) == size;
    var a := LcgMultiplier;
    assert a % 4 == 1;
    ImageSize(a, start, size, k);
    BelowSize(size);
    forall i | i in Image(a, start, size, size)
      ensures i in Below(size)
    {
      var i0 :| 0 <= i0 < size && Orbit(a, start, i0, size) == i;
      OrbitBound(a, start, i0, size);
    }
    SubsetOfEqualSize(Image(a, start, size, size), Below(size));
    assert b in Image(a, start, size, size);
    j :| 0 <= j < size && Orbit(a, start, j, size) == b;
  }
}
