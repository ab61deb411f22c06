/**
 * The Park–Miller "minimal standard" generator of `leveldb.Random`:
 * seed := seed * 16807 mod (2^31 - 1), computed without a division by
 * folding the 64-bit product (2^31 is 1 modulo 2^31 - 1) and subtracting
 * the modulus once.
 */
module Rand {
  import opened Ints

  /** The modulus 2^31 - 1, a prime. */
  const M: nat := 0x7fff_ffff
  /** The multiplier. */
  const A: nat := 16807
  /** The inverse of A modulo M: A * AInverse == 11017 * M + 1. */
  const AInverse: nat := 1407677000

  /** The state the constructor keeps of a seed: its low 31 bits (`s & 0x7fffffff`). */
  function InitialSeed(s: uint32): (r: uint32)
    ensures r < TwoTo31
    ensures (s - r) % TwoTo31 == 0
  {
    s % TwoTo31
  }

  /**
   * One step of the generator exactly as the source computes it: a 64-bit
   * product, the fold `(product >> 31) + (product & M)`, the `(UInt32)`
   * cast, and one conditional subtraction of M.
   */
  function Step(s: uint32): (r: uint32)
    ensures r <= M
  {
    NoOverflow(s);
    var product := s * A;
    var folded := (product / TwoTo31 + product % TwoTo31) % TwoTo32;
    if folded > M then folded - M else folded
  }

  /** The arithmetic the generator promises: the next state is s * A mod M. */
  function Lehmer(s: int): (r: nat)
    ensures r < M
  {
    (s * A) % M
  }

  /** The state after k steps. */
  function Iterate(s: uint32, k: nat): uint32
  {
    if k == 0 then s else Step(Iterate(s, k - 1))
  }

  /** b^k; `Pow(2, k)` is what the C# `int` expression `1 << k` evaluates to for 0 <= k <= 30. */
  function Pow(b: nat, k: nat): nat
  {
    if k == 0 then 1 else b * Pow(b, k - 1)
  }

  /**
   * Neither the 64-bit product nor the fold overflows, so the `(UInt32)`
   * cast loses nothing; for a 31-bit state the product is below 2^46.
   */
  lemma NoOverflow(s: uint32)
    ensures s * A < 0x8000_0000_0000
    ensures s < TwoTo31 ==> s * A < 0x4000_0000_0000
    ensures (s * A) / TwoTo31 < 0x1_0000
    ensures (s * A) / TwoTo31 + (s * A) % TwoTo31 < TwoTo32
  {
    assert s * A <= 0xffff_ffff * A;
    if s < TwoTo31 {
      assert s * A <= 0x7fff_ffff * A;
    }
  }

  /** Adding a multiple of M does not change the remainder modulo M. */
  lemma ModAddMultiple(q: int, y: int)
    ensures (q * M + y) % M == y % M
  {
  }

  /** 16807 is invertible modulo M: no state in [1, M-1] is sent to 0. */
  lemma NotDivisible(s: int)
    requires 0 < s < M
    ensures (s * A) % M != 0
  {
    var k := (s * A) / M;
    var r := (s * A) % M;
    assert s * A == k * M + r;
    assert A * AInverse == 11017 * M + 1;
    var c := k * AInverse - s * 11017;
    calc {
      s;
      s * (A * AInverse) - s * 11017 * M;
      { assert s * (A * AInverse) == (s * A) * AInverse; }
      (k * M + r) * AInverse - s * 11017 * M;
      c * M + r * AInverse;
    }
    ModAddMultiple(c, r * AInverse);
    assert (r * AInverse) % M == s;
  }

  /** Folding the high bits onto the low 31 bits keeps the remainder modulo M, since 2^31 = M + 1. */
  lemma FoldCongruent(p: nat)
    ensures (p / TwoTo31 + p % TwoTo31) % M == p % M
  {
    var q := p / TwoTo31;
    var r := p % TwoTo31;
    assert p == q * M + (q + r);
    ModAddMultiple(q, q + r);
  }

  /** The fold plus the conditional subtraction is the true remainder, for every state below M. */
  lemma StepIsLehmer(s: uint32)
    requires s < M
    ensures Step(s) == Lehmer(s)
  {
    NoOverflow(s);
    FoldCongruent(s * A);
    if s > 0 {
      NotDivisible(s);
    }
  }

  /** M itself is a fixed point of the step, and so is 0. */
  lemma StepDegenerate()
    ensures Step(0) == 0
    ensures Step(M) == M
  {
    NoOverflow(M);
  }

  /** A state in [1, M-1] steps to a state in [1, M-1]. */
  lemma StepInRange(s: uint32)
    requires 1 <= s < M
    ensures 1 <= Step(s) < M
  {
    StepIsLehmer(s);
    NotDivisible(s);
  }

  /** From a state in [1, M-1], every later state stays in [1, M-1]. */
  lemma {:induction false} IterateInRange(s: uint32, k: nat)
    requires 1 <= s < M
    ensures 1 <= Iterate(s, k) < M
  {
    if k > 0 {
      IterateInRange(s, k - 1);
      StepInRange(Iterate(s, k - 1));
    }
  }

  /** The degenerate states are absorbing: 0 stays 0 and M stays M forever. */
  lemma {:induction false} IterateDegenerate(k: nat)
    ensures Iterate(0, k) == 0
    ensures Iterate(M, k) == M
  {
    StepDegenerate();
    if k > 0 {
      IterateDegenerate(k - 1);
    }
  }

  /** (x % M) * a and x * a leave the same remainder modulo M. */
  lemma MulMod(x: nat, a: nat)
    ensures ((x % M) * a) % M == (x * a) % M
  {
    var q := x / M;
    assert x == q * M + x % M;
    assert x * a == (q * a) * M + (x % M) * a;
    ModAddMultiple(q * a, (x % M) * a);
  }

  /** One step from x % M is x * A % M. */
  lemma StepOfRemainder(x: nat)
    ensures x % M < M
    ensures Step(x % M) == (x * A) % M
  {
    StepIsLehmer(x % M);
    MulMod(x, A);
  }

  lemma PowStep(s: nat, k: nat)
    requires k > 0
    ensures s * Pow(A, k - 1) * A == s * Pow(A, k)
  {
    calc {
      s * Pow(A, k - 1) * A;
      s * (Pow(A, k - 1) * A);
      s * Pow(A, k);
    }
  }

  /** If the state after k - 1 steps has the closed form, so does the state after k. */
  lemma ClosedFormStep(s: nat, prev: uint32, k: nat)
    requires k > 0
    requires prev == (s * Pow(A, k - 1)) % M
    ensures Step(prev) == (s * Pow(A, k)) % M
  {
    StepOfRemainder(s * Pow(A, k - 1));
    PowStep(s, k);
  }

  /** Closed form of the sequence: after k steps from a state below M the state is s * A^k mod M. */
  lemma {:induction false} IterateClosedForm(s: uint32, k: nat)
    requires s < M
    ensures Iterate(s, k) == (s * Pow(A, k)) % M
  {
    if k > 0 {
      IterateClosedForm(s, k - 1);
      ClosedFormStep(s, Iterate(s, k - 1), k);
    }
  }

  /** Powers of two are positive and grow with the exponent. */
  lemma {:induction false} Pow2Monotone(j: nat, k: nat)
    requires j <= k
    ensures 1 <= Pow(2, j) <= Pow(2, k)
  {
    if j < k {
      Pow2Monotone(j, k - 1);
    } else if j > 0 {
      Pow2Monotone(j - 1, j - 1);
    }
  }

  /** For 0 <= k <= 30, 2^k is a positive C# `int`. */
  lemma Pow2Int32(k: nat)
    requires k <= 30
    ensures 1 <= Pow(2, k) <= 0x4000_0000
  {
    Pow2Monotone(k, 30);
    Pow2Of30();
  }

  lemma Pow2Of30()
    ensures Pow(2, 30) == 0x4000_0000
  {
    assert Pow(2, 10) == 1024;
    assert Pow(2, 20) == 1024 * 1024;
  }

  /**
   * What `Skewed(maxLog)` returns from state s: a first draw picks
   * b = Uniform(maxLog + 1), a second returns Uniform(1 << b).
   */
  function SkewedFrom(s: uint32, maxLog: nat): (r: nat)
    requires maxLog <= 30
    ensures r < Pow(2, maxLog)
  {
    var b := Step(s) % (maxLog + 1);
    Pow2Monotone(b, maxLog);
    Step(Step(s)) % Pow(2, b)
  }

  /**
   * The seeds whose low 31 bits are 0 or M leave the generator stuck: the
   * constructor keeps them as they are, and every later state repeats them.
   */
  lemma {:induction false} DegenerateSeedSticks(k: nat)
    ensures Iterate(InitialSeed(0), k) == 0
    ensures Iterate(InitialSeed(0x7fff_ffff), k) == M
    ensures Iterate(InitialSeed(0xffff_ffff), k) == M
  {
    IterateDegenerate(k);
  }

  /** The low 31 bits of s, with the two degenerate values replaced by 1. */
  function GuardedSeed(s: uint32): (r: uint32)
    ensures 1 <= r < M
    ensures InitialSeed(s) != 0 && InitialSeed(s) != M ==> r == InitialSeed(s)
    ensures InitialSeed(s) == 0 || InitialSeed(s) == M ==> r == 1
  {
    var low := s % TwoTo31;
    if low == 0 || low == M then 1 else low
  }

  /** From a guarded seed every state of the sequence lies in [1, M-1]. */
  lemma GuardedSeedCycles(s: uint32, k: nat)
    ensures 1 <= Iterate(GuardedSeed(s), k) < M
  {
    IterateInRange(GuardedSeed(s), k);
  }

  class Random {
    /** `seed_`: the current state. */
    var seed: uint32

    /** `Random(UInt32 s)`: keeps the low 31 bits of s. */
    constructor (s: uint32)
      ensures seed == InitialSeed(s)
      ensures seed < TwoTo31
    {
      seed := s % TwoTo31;
    }

    /** A constructor that refuses the degenerate states 0 and M, using 1 instead. */
    constructor Guarded(s: uint32)
      ensures seed == GuardedSeed(s)
      ensures 1 <= seed < M
      ensures InitialSeed(s) == 0 || InitialSeed(s) == M ==> seed == 1
    {
      var low := s % TwoTo31;
      seed := if low == 0 || low == M then 1 else low;
    }

    /** Advances the state by one step and returns the new state. */
    method Next() returns (r: uint32)
      modifies this
      ensures seed == Step(old(seed)) && r == seed
      ensures old(seed) < M ==> r == Lehmer(old(seed))
      ensures 1 <= old(seed) < M ==> 1 <= r < M
      ensures old(seed) == 0 ==> r == 0
      ensures old(seed) == M ==> r == M
    {
      var product: uint64 := seed * A;
      NoOverflow(seed);
      seed := (product / TwoTo31 + product % TwoTo31) % TwoTo32;
      if seed > M {
        seed := seed - M;
      }
      r := seed;
      if old(seed) < M {
        StepIsLehmer(old(seed));
      }
      if 1 <= old(seed) < M {
        StepInRange(old(seed));
      }
      StepDegenerate();
    }

    /** `Uniform(n)`: the next state reduced modulo n (the `(UInt32)` cast of a positive n is n). */
    method Uniform(n: int32) returns (r: uint32)
      requires n > 0
      modifies this
      ensures seed == Step(old(seed))
      ensures r == seed % n && r < n
    {
      var x := Next();
      r := x % n;
    }

    /** `OneIn(n)`: whether the next state is a multiple of n. */
    method OneIn(n: int32) returns (b: bool)
      requires n > 0
      modifies this
      ensures seed == Step(old(seed))
      ensures b <==> seed % n == 0
    {
      var x := Next();
      b := x % n == 0;
    }

    /** `Skewed(maxLog)`: two draws; the result is below 2^maxLog. */
    method Skewed(maxLog: int32) returns (r: uint32)
      requires 0 <= maxLog <= 30
      modifies this
      ensures seed == Step(Step(old(seed)))
      ensures r == SkewedFrom(old(seed), maxLog)
      ensures r < Pow(2, maxLog)
    {
      var b := Uniform(maxLog + 1);
      Pow2Int32(b);
      r := Uniform(Pow(2, b));
    }
  }
}
