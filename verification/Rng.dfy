/** The pseudo-random generator of ibdb/src/base/random.h. */
module Rng {
  const M: nat := 0x7fff_ffff
  const A: nat := 16807
  /** The inverse of A modulo M. */
  const INV: nat := 1407677000

  function Step(seed: nat): nat { seed * A % M }

  function Pow(b: nat, n: nat): nat { if n == 0 then 1 else Pow(b, n - 1) * b }

  function Iterate(seed: nat, n: nat): nat { if n == 0 then seed else Step(Iterate(seed, n - 1)) }

  class Random {
    var seed: nat

    ghost predicate Valid()
      reads this
    {
      0 < seed < M
    }

    constructor (s: nat)
      requires s < 0x1_0000_0000
      ensures Valid() && seed == if s % 0x8000_0000 == 0 || s % 0x8000_0000 == M then 1 else s % 0x8000_0000
    {
      seed := s % 0x8000_0000;
      if s % 0x8000_0000 == 0 || s % 0x8000_0000 == M {
        seed := 1;
      }
    }

    /** The true remainder of the product, computed without division by M. */
    method Next() returns (r: nat)
      requires Valid()
      modifies this
      ensures Valid() && r == seed == Step(old(seed))
    {
      StepInRange(seed);
      var product := seed * A;
      var folded := product / 0x8000_0000 + product % 0x8000_0000;
      Fold(product);
      // a 64-bit product and a 32-bit sum do not overflow
      assert product < 0x1_0000_0000_0000_0000 && folded < 0x1_0000_0000;
      seed := folded;
      if seed > M {
        seed := seed - M;
      }
      r := seed;
    }
  }

  /** Folding the high bits onto the low ones keeps the remainder. */
  lemma Fold(product: nat)
    requires product < M * A
    ensures var folded := product / 0x8000_0000 + product % 0x8000_0000;
            folded % M == product % M && folded < 2 * M
  {
    var q, r := product / 0x8000_0000, product % 0x8000_0000;
    assert product == (q + r) + M * q;
  }

  lemma ModShift(x: int, k: int)
    ensures (x + M * k) % M == x % M
  {
  }

  lemma StepQuotient(t: nat) returns (q: int)
    ensures t % M == t - M * q && 0 <= t % M < M
  {
    q := t / M;
  }

  lemma Undo(seed: nat)
    requires seed < M
    ensures Step(seed) * INV % M == seed
  {
    var q := StepQuotient(seed * A);
    var y := Step(seed);
    assert y == seed * A - M * q;
    hide Step;
    UndoProduct(seed, q, y);
  }

  lemma UndoProduct(seed: nat, q: int, y: nat)
    requires seed < M && y == seed * A - M * q
    ensures y * INV % M == seed
  {
    assert A * INV == 1 + M * 11017;
    assert y * INV == seed + M * (11017 * seed - q * INV);
    ModShift(seed, 11017 * seed - q * INV);
  }

  /** The state never reaches the two values that would repeat for ever. */
  lemma StepInRange(seed: nat)
    requires 0 < seed < M
    ensures 0 < Step(seed) < M
  {
    Undo(seed);
  }

  /** No two states have the same successor. */
  lemma StepInjective(a: nat, b: nat)
    requires a < M && b < M && Step(a) == Step(b)
    ensures a == b
  {
    Undo(a);
    Undo(b);
  }

  lemma StepOfRemainder(t: nat)
    ensures Step(t % M) == t * A % M
  {
    var q := StepQuotient(t);
    var y := t % M;
    assert y * A == t * A + M * (-q * A);
    ModShift(t * A, -q * A);
  }

  lemma PowStep(seed: nat, n: nat)
    requires n > 0
    ensures seed * Pow(A, n) == seed * Pow(A, n - 1) * A
  {
  }

  lemma {:induction false} ClosedForm(seed: nat, n: nat)
    requires 0 < seed < M
    ensures Iterate(seed, n) == seed * Pow(A, n) % M
    ensures 0 < Iterate(seed, n) < M
  {
    hide Step;
    if n > 0 {
      ClosedForm(seed, n - 1);
      StepInRange(Iterate(seed, n - 1));
      StepOfRemainder(seed * Pow(A, n - 1));
      PowStep(seed, n);
    } else {
      assert seed * Pow(A, 0) == seed;
    }
  }
}
