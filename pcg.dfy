/**
 * The PCG random generator of src/platform.cpp: a 64-bit linear
 * congruential state with an XSH RR style output permutation, and the
 * process-wide generator behind pcg64Rand.
 *
 * Words are integers below 2^64 (module Bits); every wrap-around of the
 * unsigned 64-bit arithmetic is written as a remainder. The result type
 * u32 is taken to be 32 bits wide.
 */
module Pcg {
  import opened Bits

  const U32Modulus: int := 0x1_0000_0000
  type u32 = x: int | 0 <= x < U32Modulus

  /** PCG_DEFAULT_MULTIPLIER. */
  const Multiplier: word := 6364136223846793005

  /** `seed << 31 | seed`, used for both the initial state and the sequence. */
  function Spread(seed: word): word
  {
    OrWord((seed * 0x8000_0000) % WordModulus, seed)
  }

  /** The increment the constructor chooses: `(initseq << 1) | 1`. */
  function InitInc(seed: word): word
  {
    OrWord((Spread(seed) * 2) % WordModulus, 1)
  }

  /** The state the constructor leaves: `(initstate + inc) * MULT + inc`. */
  function InitState(seed: word): word
  {
    var inc := InitInc(seed);
    ((((Spread(seed) + inc) % WordModulus) * Multiplier) % WordModulus + inc) % WordModulus
  }

  /** One state transition: `state * MULT + (inc | 1)`. */
  function Advance(state: word, inc: word): word
  {
    ((state * Multiplier) % WordModulus + OrWord(inc, 1)) % WordModulus
  }

  /** `u32(((oldstate >> 18) ^ oldstate) >> 27)`. */
  function XorShifted(prior: word): u32
  {
    (XorWord(prior / 0x4_0000, prior) / 0x800_0000) % U32Modulus
  }

  /** `oldstate >> 59`: the rotation amount taken from the top five bits. */
  function Rotation(prior: word): (rot: nat)
    ensures rot < 32
  {
    prior / 0x800_0000_0000_0000
  }

  /** `x >> n`, one place at a time. */
  function ShiftRight(x: u32, n: nat): (r: u32)
    ensures r <= x
  {
    if n == 0 then x else ShiftRight(x / 2, n - 1)
  }

  /** `x << n` in 32-bit arithmetic. */
  function ShiftLeft(x: u32, n: nat): (r: u32)
  {
    (x * Pow2(n)) % U32Modulus
  }

  /** The or of two 32-bit values. */
  function Or32(a: u32, b: u32): u32
  {
    Pow2Of32();
    OrBits(a, b, 32);
    Or(a, b)
  }

  /** `(x >> rot) | (x << ((~rot) & 31))` in 32-bit arithmetic; `(~rot) & 31` is `31 - rot`. */
  function Permute(x: u32, rot: nat): u32
    requires rot < 32
  {
    Or32(ShiftRight(x, rot), ShiftLeft(x, 31 - rot))
  }

  /** The reference XSH RR rotation: `(x >> rot) | (x << ((-rot) & 31))`. */
  function RotateRight(x: u32, rot: nat): u32
    requires rot < 32
  {
    Or32(ShiftRight(x, rot), ShiftLeft(x, (32 - rot) % 32))
  }

  /** The value one call returns when the state before the call is `prior`. */
  function Output(prior: word): u32
  {
    Permute(XorShifted(prior), Rotation(prior))
  }

  /** The state after `k` calls on a generator built from `seed`. */
  function StateAfter(seed: word, k: nat): word
  {
    if k == 0 then InitState(seed)
    else Advance(StateAfter(seed, k - 1), InitInc(seed))
  }

  /** The value returned by call number `k` (counting from 0). */
  function NthOutput(seed: word, k: nat): u32
  {
    Output(StateAfter(seed, k))
  }

  /** The increment is odd for every seed. */
  lemma IncIsOdd(seed: word)
    ensures InitInc(seed) % 2 == 1
    ensures InitInc(seed) == (2 * Spread(seed)) % WordModulus + 1
  {
    var t := (Spread(seed) * 2) % WordModulus;
    DoubleStaysEven(Spread(seed));
    OrOne(t);
  }

  lemma DoubleStaysEven(a: nat)
    ensures ((a * 2) % WordModulus) % 2 == 0
  {
    var q := (a * 2) / WordModulus;
    var r := (a * 2) % WordModulus;
    assert a * 2 == WordModulus * q + r;
    assert r == 2 * (a - 0x8000_0000_0000_0000 * q);
  }

  /** Since the increment is odd, `inc | 1` adds nothing: each call is a plain LCG step. */
  lemma AdvanceIsLcg(seed: word, state: word)
    ensures Advance(state, InitInc(seed))
         == (state * Multiplier + InitInc(seed)) % WordModulus
  {
    var inc := InitInc(seed);
    IncIsOdd(seed);
    OrOne(inc);
    assert OrWord(inc, 1) == inc;
    ModOfSum(state * Multiplier, inc);
  }

  lemma ModOfSum(a: nat, b: nat)
    ensures ((a % WordModulus) + b) % WordModulus == (a + b) % WordModulus
  {
    var q := a / WordModulus;
    assert a == WordModulus * q + a % WordModulus;
    assert a + b == (a % WordModulus + b) + WordModulus * q;
  }

  /** The default seed 0 gives increment 1 and initial state MULT + 1. */
  lemma ZeroSeed()
    ensures InitInc(0) == 1
    ensures InitState(0) == 6364136223846793006
  {
    assert Spread(0) == 0;
    assert InitInc(0) == Or(0, 1) == 1;
  }

  /** The left shift is by `31 - rot`, one place short of a rotation: for x = 1, rot = 0 the two disagree. */
  lemma PermuteIsNotRotation()
    ensures Permute(1, 0) == 0x8000_0001
    ensures RotateRight(1, 0) == 1
  {
    PermuteOneByZero();
    RotateOneByZero();
  }

  lemma PermuteOneByZero()
    ensures Permute(1, 0) == 0x8000_0001
  {
    Pow2Of32();
    assert ShiftRight(1, 0) == 1;
    assert ShiftLeft(1, 31) == 0x8000_0000;
    OneOr(0x8000_0000);
  }

  lemma RotateOneByZero()
    ensures RotateRight(1, 0) == 1
  {
    assert ShiftRight(1, 0) == 1;
    assert Pow2(0) == 1;
    assert ShiftLeft(1, 0) == 1;
    assert RotateRight(1, 0) == Or32(1, 1);
    OneOr(1);
  }

  /** A PCG generator: `state` advances on every call, `inc` is fixed by the seed. */
  class Pcg64 {
    var state: word
    var inc: word
    ghost var seed: word
    ghost var calls: nat

    ghost predicate Valid()
      reads this
    {
      inc == InitInc(seed) && state == StateAfter(seed, calls)
    }

    constructor(seed0: word)
      ensures Valid() && seed == seed0 && calls == 0
      ensures inc % 2 == 1
    {
      var initstate := Spread(seed0);
      var initseq := Spread(seed0);
      var i := OrWord((initseq * 2) % WordModulus, 1);
      var s := (initstate + i) % WordModulus;
      s := ((s * Multiplier) % WordModulus + i) % WordModulus;
      state, inc := s, i;
      seed, calls := seed0, 0;
      IncIsOdd(seed0);
    }

    /** `operator()`: advance the state and permute the old one. */
    method Generate() returns (r: u32)
      requires Valid()
      modifies this
      ensures Valid() && seed == old(seed) && calls == old(calls) + 1
      ensures inc == old(inc)
      ensures r == NthOutput(seed, old(calls))
    {
      var oldstate := state;
      state := ((oldstate * Multiplier) % WordModulus + OrWord(inc, 1)) % WordModulus;
      var xorshifted := (XorWord(oldstate / 0x4_0000, oldstate) / 0x800_0000) % U32Modulus;
      var rot := oldstate / 0x800_0000_0000_0000;
      r := Permute(xorshifted, rot);
      calls := calls + 1;
    }
  }

  /** pcg64Rand's function-local static generator, built on the first call. */
  class RandSource {
    var gen: Pcg64?

    ghost predicate Valid()
      reads this, gen
    {
      gen != null ==> gen.Valid()
    }

    constructor()
      ensures Valid() && gen == null
    {
      gen := null;
    }

    /** The first call seeds the generator; later seeds are ignored. */
    method Rand(seed: word) returns (r: u32)
      requires Valid()
      modifies this, gen
      ensures Valid() && gen != null
      ensures old(gen) == null ==> fresh(gen) && gen.seed == seed && gen.calls == 1 && r == NthOutput(seed, 0)
      ensures old(gen) != null ==> gen == old(gen) && gen.seed == old(gen.seed)
                                   && gen.calls == old(gen.calls) + 1
                                   && r == NthOutput(old(gen.seed), old(gen.calls))
    {
      if gen == null {
        gen := new Pcg64(seed);
      }
      r := gen.Generate();
    }
  }
}
