/** The xorshift32 generator of the repository's Monte Carlo estimators
    (the dart and needle programs), which draw their random coordinates
    from it: one 32-bit state word, advanced by three xor-shift steps. All arithmetic is on 32-bit words, so the shifts drop
    the bits they push out, as `uint32_t` shifts do. */
module Xorshift {
  /** The state a zero seed is replaced by (the golden-ratio constant). */
  const DefaultSeed: bv32 := 0x9E37_79B9

  /** The state a seed leaves behind: the seed itself, unless it is zero. */
  function SeedState(seed: bv32): (s: bv32)
    ensures s != 0
    ensures seed != 0 ==> s == seed
    ensures seed == 0 ==> s == DefaultSeed
  {
    if seed != 0 then seed else DefaultSeed
  }

  /** The first in-place step, `x ^= x << 13`. */
  function Shl13(x: bv32): bv32
  {
    x ^ (x << 13)
  }

  /** The second in-place step, `x ^= x >> 17`. */
  function Shr17(x: bv32): bv32
  {
    x ^ (x >> 17)
  }

  /** The third in-place step, `x ^= x << 5`. */
  function Shl5(x: bv32): bv32
  {
    x ^ (x << 5)
  }

  /** The xorshift32 transform: the three steps in order. */
  function Step(x: bv32): bv32
  {
    Shl5(Shr17(Shl13(x)))
  }

  // Each step is shown injective through its linearity: the step of x
  // xored with the step of y is the step of x ^ y, and only 0 steps to 0.
  // The bitvector solver handles these identities quickly only when they
  // are stated on the words themselves and apart from each other, so each
  // is a lemma of its own and the definitions are spelled out where they
  // are applied.

  lemma Shl13At(x: bv32)
    ensures Shl13(x) == x ^ (x << 13)
  {
  }

  lemma Shr17At(x: bv32)
    ensures Shr17(x) == x ^ (x >> 17)
  {
  }

  lemma Shl5At(x: bv32)
    ensures Shl5(x) == x ^ (x << 5)
  {
  }

  /** Two words whose xor is zero are equal. */
  lemma XorZero(x: bv32, y: bv32)
    ensures x ^ y == 0 ==> x == y
  {
  }

  /** A word xored with itself is zero. */
  lemma XorSelf(x: bv32)
    ensures x ^ x == 0
  {
  }

  lemma Shl13Linear(x: bv32, y: bv32)
    ensures (x ^ (x << 13)) ^ (y ^ (y << 13)) == (x ^ y) ^ ((x ^ y) << 13)
  {
  }

  lemma Shl13OnlyZero(d: bv32)
    ensures d ^ (d << 13) == 0 ==> d == 0
  {
  }

  lemma Shr17Linear(x: bv32, y: bv32)
    ensures (x ^ (x >> 17)) ^ (y ^ (y >> 17)) == (x ^ y) ^ ((x ^ y) >> 17)
  {
  }

  lemma Shr17OnlyZero(d: bv32)
    ensures d ^ (d >> 17) == 0 ==> d == 0
  {
  }

  lemma Shl5Linear(x: bv32, y: bv32)
    ensures (x ^ (x << 5)) ^ (y ^ (y << 5)) == (x ^ y) ^ ((x ^ y) << 5)
  {
  }

  lemma Shl5OnlyZero(d: bv32)
    ensures d ^ (d << 5) == 0 ==> d == 0
  {
  }

  /** The first step loses no information. */
  lemma Shl13Injective(x: bv32, y: bv32)
    ensures Shl13(x) == Shl13(y) ==> x == y
  {
    Shl13At(x);
    Shl13At(y);
    Shl13Linear(x, y);
    Shl13OnlyZero(x ^ y);
    XorZero(x, y);
    XorSelf(Shl13(x));
  }

  /** The second step loses no information. */
  lemma Shr17Injective(x: bv32, y: bv32)
    ensures Shr17(x) == Shr17(y) ==> x == y
  {
    Shr17At(x);
    Shr17At(y);
    Shr17Linear(x, y);
    Shr17OnlyZero(x ^ y);
    XorZero(x, y);
    XorSelf(Shr17(x));
  }

  /** The third step loses no information. */
  lemma Shl5Injective(x: bv32, y: bv32)
    ensures Shl5(x) == Shl5(y) ==> x == y
  {
    Shl5At(x);
    Shl5At(y);
    Shl5Linear(x, y);
    Shl5OnlyZero(x ^ y);
    XorZero(x, y);
    XorSelf(Shl5(x));
  }

  /** The transform loses no information: distinct states have distinct
      successors, so on the finite set of 32-bit words it is a
      permutation. */
  lemma StepInjective(x: bv32, y: bv32)
    ensures Step(x) == Step(y) ==> x == y
  {
    Shl13Injective(x, y);
    Shr17Injective(Shl13(x), Shl13(y));
    Shl5Injective(Shr17(Shl13(x)), Shr17(Shl13(y)));
  }

  /** Zero is a fixed point of the transform, and it is the only state that
      reaches zero: a nonzero state stays nonzero. */
  lemma ZeroIsFixed(x: bv32)
    ensures Step(x) == 0 <==> x == 0
  {
    Shl13At(0);
    Shr17At(0);
    Shl5At(0);
    StepInjective(x, 0);
  }

  /** The state after k draws from a seeded generator. */
  function Orbit(seed: bv32, k: nat): bv32
  {
    if k == 0 then SeedState(seed) else Step(Orbit(seed, k - 1))
  }

  /** A seeded generator never reaches the state zero, from which it would
      only ever produce zero. */
  lemma {:induction false} OrbitNonZero(seed: bv32, k: nat)
    ensures Orbit(seed, k) != 0
  {
    if k > 0 {
      OrbitNonZero(seed, k - 1);
      ZeroIsFixed(Orbit(seed, k - 1));
    }
  }

  /** The integer that a draw in [0, 1) scales: the top 24 bits of the
      state, below 2^24. */
  function TopBits(x: bv32): (m: bv32)
    ensures m < 0x100_0000
  {
    x >> 8
  }
}

/** The generator object, whose one field the seeding and the draws update
    in place. */
module Generator {
  import opened Xorshift

  /** The generator: its one state word. */
  class Rng32 {
    var s: bv32

    /** Seeding: a zero seed is replaced by the default, any other is
        stored as is, so the state is nonzero afterwards. */
    method Seed(seed: bv32)
      modifies this
      ensures s == SeedState(seed) && s != 0
    {
      s := if seed != 0 then seed else DefaultSeed;
    }

    /** One draw: the three xor-shift steps on a copy of the state, which
        becomes the new state and is returned. A nonzero state stays
        nonzero. */
    method Next() returns (x: bv32)
      modifies this
      ensures x == Step(old(s)) && s == x
      ensures old(s) != 0 ==> s != 0
    {
      x := s;
      x := Shl13(x);
      x := Shr17(x);
      x := Shl5(x);
      s := x;
      ZeroIsFixed(old(s));
    }

    /** The integer part of a draw in [0, 1): one draw, shifted right by 8
        bits, before it is scaled by 2^-24. It is below 2^24. */
    method Next01Bits() returns (m: bv32)
      modifies this
      ensures s == Step(old(s)) && m == TopBits(s)
      ensures m < 0x100_0000
    {
      var x := Next();
      m := TopBits(x);
    }
  }
}
