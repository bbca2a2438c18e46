/** The generator behind the test vectors has full period: coordinates of a vector
    repeat only after 2^32 of them (apps/api/src/testing/fake-providers.ts). */
module GeneratorPeriod {
  import opened Hashing

  /** `2^k` divides `x`. */
  ghost predicate Even(x: int, k: nat)
    decreases k
  {
    k == 0 || (x % 2 == 0 && Even(x / 2, k - 1))
  }

  lemma TimesEven(u: int, y: int)
    ensures (u * (2 * y)) % 2 == 0 && (u * (2 * y)) / 2 == u * y
  {
    assert u * (2 * y) == 2 * (u * y);
  }

  lemma OddTimesOdd(v: int, y: int)
    ensures ((2 * v + 1) * (2 * y + 1)) % 2 == 1
  {
    assert (2 * v + 1) * (2 * y + 1) == 2 * (v * (2 * y + 1) + y) + 1;
  }

  lemma OddTimes(u: int, x: int)
    requires u % 2 == 1
    ensures (u * x) % 2 == x % 2
    ensures x % 2 == 0 ==> (u * x) / 2 == u * (x / 2)
  {
    assert u == 2 * (u / 2) + 1;
    if x % 2 == 0 {
      assert x == 2 * (x / 2);
      TimesEven(u, x / 2);
    } else {
      assert x == 2 * (x / 2) + 1;
      OddTimesOdd(u / 2, x / 2);
    }
  }

  lemma {:induction false} OddFactor(u: int, x: int, k: nat)
    requires u % 2 == 1
    ensures Even(u * x, k) <==> Even(x, k)
    decreases k
  {
    if k > 0 {
      OddTimes(u, x);
      if x % 2 == 0 { OddFactor(u, x / 2, k - 1); }
    }
  }

  /** `1 + a + ... + a^(n-1)`. */
  ghost function Geometric(a: int, n: nat): int {
    if n == 0 then 0 else 1 + a * Geometric(a, n - 1)
  }

  lemma {:induction false} GeometricPairs(a: int, m: nat)
    ensures Geometric(a, 2 * m) == (1 + a) * Geometric(a * a, m)
  {
    if m > 0 {
      GeometricPairs(a, m - 1);
      var g := Geometric(a * a, m - 1);
      assert Geometric(a, 2 * m) == 1 + a * Geometric(a, 2 * m - 1);
      assert Geometric(a, 2 * m - 1) == 1 + a * Geometric(a, 2 * (m - 1));
      PairUp(a, g);
    }
  }

  lemma PairUp(a: int, g: int)
    ensures 1 + a * (1 + a * ((1 + a) * g)) == (1 + a) * (1 + a * a * g)
  {
    var h := (1 + a) * g;
    assert a * (1 + a * h) == a + a * a * h;
    assert (1 + a) * (1 + a * a * g) == (1 + a) + (1 + a) * (a * a * g);
    assert (1 + a) * (a * a * g) == a * a * h;
  }

  lemma OneMoreParity(x: int, n: int)
    requires x % 2 == n % 2
    ensures (1 + x) % 2 == (n + 1) % 2
  {
  }

  lemma {:induction false} GeometricParity(a: int, n: nat)
    requires a % 2 == 1
    ensures Geometric(a, n) % 2 == n % 2
  {
    if n > 0 {
      GeometricParity(a, n - 1);
      OddTimes(a, Geometric(a, n - 1));
      OneMoreParity(a * Geometric(a, n - 1), n - 1);
    }
  }

  lemma SquareStaysOne(a: int)
    requires a % 4 == 1
    ensures (a * a) % 4 == 1
  {
    var q := a / 4;
    assert a == 4 * q + 1;
    assert a * a == 4 * (4 * q * q + 2 * q) + 1;
  }

  /** For a base that is 1 modulo 4 the sum has exactly the twos of its length. */
  lemma {:induction false} GeometricTwos(a: int, n: nat, k: nat)
    requires a % 4 == 1
    ensures Even(Geometric(a, n), k) <==> Even(n, k)
    decreases k
  {
    if k > 0 {
      GeometricParity(a, n);
      if n % 2 == 0 {
        var m, u := n / 2, (1 + a) / 2;
        var g := Geometric(a * a, m);
        GeometricPairs(a, m);
        assert 2 * m == n && 1 + a == 2 * u && u % 2 == 1;
        assert Geometric(a, n) == 2 * (u * g) by { Regroup(u, g); }
        SquareStaysOne(a);
        OddFactor(u, g, k - 1);
        GeometricTwos(a * a, m, k - 1);
      }
    }
  }

  lemma Regroup(u: int, g: int)
    ensures (2 * u) * g == 2 * (u * g)
  {
  }

  lemma HalveMod(x: int, p: int)
    requires x % 2 == 0 && p > 0
    ensures x % (2 * p) == 0 <==> (x / 2) % p == 0
  {
    var y := x / 2;
    if y % p == 0 {
      var q := y / p;
      assert y == q * p;
      assert x == q * (2 * p);
      MultipleMod(q, 2 * p);
    }
    if x % (2 * p) == 0 {
      var q := x / (2 * p);
      assert x == q * (2 * p);
      assert y == q * p by { assert q * (2 * p) == 2 * (q * p); }
      MultipleMod(q, p);
    }
  }

  lemma MultipleMod(q: int, p: int)
    requires p > 0
    ensures (q * p) % p == 0
  {
    var r, d := (q * p) % p, (q * p) / p;
    assert q * p == d * p + r;
    assert (q - d) * p == r;
    MultipleSize(q - d, p);
  }

  lemma MultipleSize(m: int, p: int)
    requires p > 0
    ensures m >= 1 ==> m * p >= p
    ensures m <= -1 ==> m * p <= -p
  {
  }

  lemma PowPositive(k: nat)
    ensures Pow(2, k) > 0
  {
  }

  lemma {:induction false} EvenIsDivisible(x: int, k: nat)
    ensures Pow(2, k) > 0 && (Even(x, k) <==> x % Pow(2, k) == 0)
    decreases k
  {
    PowPositive(k);
    if k > 0 {
      PowPositive(k - 1);
      if x % 2 == 0 {
        EvenIsDivisible(x / 2, k - 1);
        HalveMod(x, Pow(2, k - 1));
      } else {
        OddNotDivisible(x, Pow(2, k - 1));
      }
    }
  }

  lemma OddNotDivisible(x: int, p: int)
    requires x % 2 == 1 && p > 0
    ensures x % (2 * p) != 0
  {
    var q := x / (2 * p);
    assert x == q * (2 * p) + x % (2 * p);
    assert q * (2 * p) == 2 * (q * p);
  }

  lemma Pow32()
    ensures Pow(2, 32) == TWO_32
  {
    assert Pow(2, 4) == 16;
    assert Pow(2, 8) == 256;
    assert Pow(2, 12) == 0x1000;
    assert Pow(2, 16) == 0x1_0000;
    assert Pow(2, 20) == 0x10_0000;
    assert Pow(2, 24) == 0x100_0000;
    assert Pow(2, 28) == 0x1000_0000;
  }

  // ---- the states ----

  /** The states without wrapping. */
  ghost function Exact(seed: int, n: nat): int {
    if n == 0 then seed else FACTOR * Exact(seed, n - 1) + INCREMENT
  }

  lemma {:induction false} StatesWrapExact(seed: int, n: nat)
    requires 0 <= seed < TWO_32
    ensures States(seed, n) == Exact(seed, n) % TWO_32
  {
    if n > 0 {
      StatesWrapExact(seed, n - 1);
      var e := Exact(seed, n - 1);
      StepIsAffine(States(seed, n - 1));
      var q := e / TWO_32;
      assert FACTOR * e + INCREMENT == (FACTOR * (e % TWO_32) + INCREMENT) + (FACTOR * q) * TWO_32;
      AddMultiple(FACTOR * (e % TWO_32) + INCREMENT, FACTOR * q);
    }
  }

  lemma {:induction false} ExactGain(seed: int, n: nat)
    ensures Exact(seed, n) - seed == ((FACTOR - 1) * seed + INCREMENT) * Geometric(FACTOR, n)
  {
    var gain := (FACTOR - 1) * seed + INCREMENT;
    if n > 0 {
      ExactGain(seed, n - 1);
      var g := Geometric(FACTOR, n - 1);
      assert Exact(seed, n) == FACTOR * (seed + gain * g) + INCREMENT;
      assert FACTOR * (gain * g) == gain * (FACTOR * g);
      assert gain * (1 + FACTOR * g) == gain + gain * (FACTOR * g);
    }
  }

  lemma SameResidue(x: int, s: int)
    requires 0 <= s < TWO_32
    ensures x % TWO_32 == s <==> (x - s) % TWO_32 == 0
  {
  }

  /** The generator returns to its seed exactly after multiples of 2^32 steps. */
  lemma ReturnsAfterFullPeriod(seed: int, n: nat)
    requires 0 <= seed < TWO_32
    ensures States(seed, n) == seed <==> n % TWO_32 == 0
  {
    hide Even, Geometric, Pow, States, Exact;
    var gain, g := (FACTOR - 1) * seed + INCREMENT, Geometric(FACTOR, n);
    StatesWrapExact(seed, n);
    ExactGain(seed, n);
    SameResidue(Exact(seed, n), seed);
    GainIsOdd(seed);
    OddFactor(gain, g, 32);
    GeometricTwos(FACTOR, n, 32);
    EvenIsDivisible(gain * g, 32);
    EvenIsDivisible(n, 32);
    Pow32();
  }

  lemma GainIsOdd(seed: int)
    ensures ((FACTOR - 1) * seed + INCREMENT) % 2 == 1
  {
    var m := 832262 * seed + 506952111;
    assert (FACTOR - 1) * seed + INCREMENT == 2 * m + 1;
    DoubleAndOneIsOdd(m);
  }

  lemma DoubleAndOneIsOdd(m: int)
    ensures (2 * m + 1) % 2 == 1
  {
  }

  lemma {:induction false} StatesCompose(seed: int, i: nat, n: nat)
    ensures States(seed, i + n) == States(States(seed, i), n)
  {
    if n > 0 {
      StatesCompose(seed, i, n - 1);
    }
  }

  /** Two coordinates of one vector are equal exactly when their positions differ by
      a multiple of 2^32: within that many coordinates nothing repeats. */
  lemma CoordinatesRepeatOnlyAfterFullPeriod(seed: int, i: nat, j: nat)
    requires 0 <= seed < TWO_32 && i <= j
    ensures Coordinate(States(seed, i)) == Coordinate(States(seed, j)) <==> (j - i) % TWO_32 == 0
  {
    StatesAreWords(seed, i);
    StatesAreWords(seed, j);
    StatesCompose(seed, i, j - i);
    ReturnsAfterFullPeriod(States(seed, i), j - i);
    CoordinatesAreFaithful(States(seed, i), States(seed, j));
  }
}
