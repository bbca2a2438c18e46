/** Two wrapping loops: the colour hash of a speaker
    (apps/web/src/lib/speakerColors.ts) and the reproducible test vectors
    (apps/api/src/testing/fake-providers.ts). */
module Hashing {
  import opened Utf16

  const TWO_31: int := 0x8000_0000
  const TWO_32: int := 0x1_0000_0000

  /** `x | 0`: reduction to a signed 32-bit integer (section 9.5 of ECMA-262 5.1). */
  function ToInt32(x: int): int {
    var r := x % TWO_32;
    if r >= TWO_31 then r - TWO_32 else r
  }

  lemma ToInt32Congruent(x: int, y: int)
    ensures -TWO_31 <= ToInt32(x) < TWO_31
    ensures (ToInt32(x) - x) % TWO_32 == 0
    ensures (x - y) % TWO_32 == 0 <==> ToInt32(x) == ToInt32(y)
  {
    SameRemainder(x, y);
    SameRemainder(ToInt32(x), x);
  }

  lemma SameRemainder(x: int, y: int)
    ensures (x - y) % TWO_32 == 0 <==> x % TWO_32 == y % TWO_32
  {
    var d := x / TWO_32 - y / TWO_32;
    assert x - y == d * TWO_32 + (x % TWO_32 - y % TWO_32);
    if (x - y) % TWO_32 == 0 {
      assert x % TWO_32 - y % TWO_32 == ((x - y) / TWO_32 - d) * TWO_32;
    }
  }

  /** The signed 32-bit integer congruent to `x`. */
  lemma ToInt32IsSigned(x: int)
    ensures -2147483648 <= ToInt32(x) < 2147483648 && (ToInt32(x) - x) % 4294967296 == 0
  {
    ToInt32Congruent(x, x);
    hide ToInt32;
  }

  // ---- the colour hash ----

  function Pow(b: int, n: nat): int {
    if n == 0 then 1 else b * Pow(b, n - 1)
  }

  /** The code units as the coefficients of a polynomial at 31, over the integers:
      the sum of `s[i] * 31^(n - 1 - i)`. */
  function Polynomial(s: Text): int {
    if s == [] then 0 else s[0] * Pow(31, |s| - 1) + Polynomial(s[1..])
  }

  /** A character more multiplies by 31 and adds it. */
  lemma {:induction false} PolynomialSnoc(s: Text, c: CodeUnit)
    ensures Polynomial([]) == 0
    ensures Polynomial(s + [c]) == 31 * Polynomial(s) + c
  {
    var t := s + [c];
    if s == [] {
      assert t[1..] == [];
    } else {
      PolynomialSnoc(s[1..], c);
      assert t[1..] == s[1..] + [c];
      assert Pow(31, |s|) == 31 * Pow(31, |s| - 1);
      Distribute(s[0], Pow(31, |s| - 1), Polynomial(s[1..]));
    }
  }

  lemma Distribute(a: int, p: int, q: int)
    ensures a * (31 * p) + 31 * q == 31 * (a * p + q)
  {
  }

  const PALETTE_SIZE: nat := 8

  /** `Math.abs`. */
  function Abs(x: int): nat {
    if x < 0 then -x else x
  }

  /** The index into the palette of a speaker's colour. */
  method SpeakerColor(profileId: Text) returns (index: nat)
    ensures var hash := ToInt32(Polynomial(profileId)); index == (if hash < 0 then -hash else hash) % 8
    ensures index < 8
  {
    var hash := 0;
    for i := 0 to |profileId|
      invariant hash == ToInt32(Polynomial(profileId[..i]))
    {
      PolynomialSnoc(profileId[..i], profileId[i]);
      TakeSnoc(profileId, i);
      HashStep(hash, Polynomial(profileId[..i]), profileId[i]);
      hash := ToInt32(hash * 31 + profileId[i]);
    }
    assert profileId[..|profileId|] == profileId;
    index := Abs(hash) % PALETTE_SIZE;
  }

  lemma HashStep(hash: int, exact: int, c: int)
    requires hash == ToInt32(exact)
    ensures ToInt32(hash * 31 + c) == ToInt32(31 * exact + c)
  {
    hide ToInt32;
    ToInt32Congruent(exact, exact);
    ToInt32Congruent(hash * 31 + c, 31 * exact + c);
    MultiplesOfStep(hash - exact);
  }

  lemma MultiplesOfStep(d: int)
    requires d % TWO_32 == 0
    ensures (31 * d) % TWO_32 == 0
  {
    assert d == (d / TWO_32) * TWO_32;
  }

  // ---- the linear congruential generator ----

  const FACTOR: int := 1664525
  const INCREMENT: int := 1013904223

  /** `Math.imul`. */
  function Imul(a: int, b: int): int {
    ToInt32(a * b)
  }

  /** One step of the generator: `(Math.imul(state, FACTOR) + INCREMENT) >>> 0`. */
  function Step(state: int): int {
    (Imul(state, FACTOR) + INCREMENT) % TWO_32
  }

  function States(seed: int, n: nat): int {
    if n == 0 then seed else Step(States(seed, n - 1))
  }

  /** A 32-bit state as a coordinate. */
  function Coordinate(state: int): real {
    (state as real / TWO_32 as real) * 2.0 - 1.0
  }

  method DeterministicVector(seed: int, dimensions: nat) returns (vector: array<real>)
    requires 0 <= seed < TWO_32
    ensures fresh(vector) && vector.Length == dimensions
    ensures forall i :: 0 <= i < dimensions ==> vector[i] == Coordinate(States(seed, i + 1))
    ensures forall i :: 0 <= i < dimensions ==> vector[i] == States(seed, i + 1) as real / 2147483648.0 - 1.0
  {
    var state := seed;
    vector := new real[dimensions];
    for i := 0 to dimensions
      invariant state == States(seed, i)
      invariant forall k :: 0 <= k < i ==> vector[k] == Coordinate(States(seed, k + 1))
    {
      state := Step(state);
      vector[i] := (state as real / TWO_32 as real) * 2.0 - 1.0;
    }
  }

  /** One step, with its constants written out. */
  lemma StepIsSpelled(state: int)
    ensures Step(state) == (1664525 * state + 1013904223) % 4294967296
  {
    StepIsAffine(state);
    hide Step;
  }

  lemma StepIsAffine(state: int)
    ensures 0 <= Step(state) < TWO_32
    ensures Step(state) == (FACTOR * state + INCREMENT) % TWO_32
  {
    ToInt32Congruent(state * FACTOR, 0);
    var k := (Imul(state, FACTOR) - state * FACTOR) / TWO_32;
    assert Imul(state, FACTOR) == state * FACTOR + k * TWO_32;
    AddMultiple(FACTOR * state + INCREMENT, k);
  }

  lemma AddMultiple(x: int, k: int)
    ensures (x + k * TWO_32) % TWO_32 == x % TWO_32
  {
  }

  /** The inverse of the factor modulo 2^32. */
  const INVERSE: int := 4276115653

  function StepBack(state: int): int {
    (INVERSE * (state - INCREMENT)) % TWO_32
  }

  lemma InverseConstant()
    ensures FACTOR * INVERSE == 1 + 1657219 * TWO_32
  {
  }

  lemma StepIsUndone(state: int)
    requires 0 <= state < TWO_32
    ensures StepBack(Step(state)) == state
  {
    StepIsAffine(state);
    InverseConstant();
    var s := Step(state);
    var k := (FACTOR * state + INCREMENT) / TWO_32;
    assert s == FACTOR * state + INCREMENT - k * TWO_32;
    assert INVERSE * (s - INCREMENT) == state + (1657219 * state - INVERSE * k) * TWO_32;
    AddMultiple(state, 1657219 * state - INVERSE * k);
  }

  lemma StepIsReached(state: int)
    requires 0 <= state < TWO_32
    ensures 0 <= StepBack(state) < TWO_32 && Step(StepBack(state)) == state
  {
    var b, j := StepBack(state), (INVERSE * (state - INCREMENT)) / TWO_32;
    StepIsAffine(b);
    InverseConstant();
    assert b == INVERSE * (state - INCREMENT) - j * TWO_32;
    assert FACTOR * b + INCREMENT == state + (1657219 * (state - INCREMENT) - FACTOR * j) * TWO_32;
    AddMultiple(state, 1657219 * (state - INCREMENT) - FACTOR * j);
  }

  /** A step is a bijection on the 32-bit states. */
  lemma StepIsABijection(state: int)
    requires 0 <= state < TWO_32
    ensures StepBack(Step(state)) == state
    ensures 0 <= StepBack(state) < TWO_32 && Step(StepBack(state)) == state
  {
    hide Step, StepBack;
    StepIsUndone(state);
    StepIsReached(state);
  }

  lemma {:induction false} StatesAreWords(seed: int, n: nat)
    requires 0 <= seed < TWO_32
    ensures 0 <= States(seed, n) < TWO_32
  {
    if n > 0 { StepIsAffine(States(seed, n - 1)); }
  }

  /** Distinct seeds never meet: their vectors differ in every coordinate. */
  lemma {:induction false} SeedsNeverMeet(a: int, b: int, n: nat)
    requires 0 <= a < TWO_32 && 0 <= b < TWO_32 && a != b
    ensures States(a, n) != States(b, n)
  {
    if n > 0 {
      SeedsNeverMeet(a, b, n - 1);
      StatesAreWords(a, n - 1);
      StatesAreWords(b, n - 1);
      StepIsABijection(States(a, n - 1));
      StepIsABijection(States(b, n - 1));
    }
  }

  /** Coordinates lie in [-1, 1) and tell states apart. */
  lemma CoordinatesAreFaithful(s: int, t: int)
    requires 0 <= s < TWO_32 && 0 <= t < TWO_32
    ensures -1.0 <= Coordinate(s) < 1.0
    ensures Coordinate(s) == Coordinate(t) <==> s == t
  {
  }

  lemma VectorsDifferEverywhere(a: int, b: int, i: nat)
    requires 0 <= a < TWO_32 && 0 <= b < TWO_32 && a != b
    ensures Coordinate(States(a, i + 1)) != Coordinate(States(b, i + 1))
    ensures -1.0 <= Coordinate(States(a, i + 1)) < 1.0
  {
    StatesAreWords(a, i + 1);
    StatesAreWords(b, i + 1);
    SeedsNeverMeet(a, b, i + 1);
    CoordinatesAreFaithful(States(a, i + 1), States(b, i + 1));
  }
}
