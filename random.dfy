/**
 * structure/random.h: the Park–Miller "minimal standard" generator,
 * seed' = seed * 16807 mod (2^31 - 1), computed without a division.
 */
module RandomGen {
  import opened Coding

  const M: int := 0x7fff_ffff
  const A: int := 16807

  /** The seeds the generator can hold: neither 0 nor M, which would be fixed points. */
  predicate InRange(seed: int) {
    1 <= seed < M
  }

  /** The constructor's seed: the low 31 bits of s, with 0 and M replaced by 1. */
  function InitialSeed(s: uint32): (r: uint32)
    ensures InRange(r)
    ensures s % 0x8000_0000 == r || r == 1
  {
    var low := s % 0x8000_0000;
    if low == 0 || low == M then 1 else low
  }

  /** The step of the generator, as the Lehmer recurrence. */
  function NextSeed(seed: int): int {
    (seed * A) % M
  }

  /** No multiple of M lies strictly between 0 and M. */
  lemma MultiplesOfM(q: int)
    ensures M * q <= 0 || M <= M * q
  {
    if q > 0 {
      assert M * q == M + M * (q - 1);
    }
  }

  /**
   * A * u == 1 + 11017 * M for u == 1407677000, so seed is congruent to
   * (seed * A mod M) * u; were the product a multiple of M, so would seed be.
   */
  lemma NoZeroDivisor(seed: int)
    requires InRange(seed)
    ensures (seed * A) % M != 0
  {
    var j, r := (seed * A) / M, (seed * A) % M;
    var q := j * 1407677000 - seed * 11017;
    assert A * 1407677000 == 1 + 11017 * M;
    calc {
      seed;
      seed * (A * 1407677000) - seed * 11017 * M;
      (seed * A) * 1407677000 - seed * 11017 * M;
      (j * M + r) * 1407677000 - seed * 11017 * M;
      M * q + r * 1407677000;
    }
    MultiplesOfM(q);
  }

  /** The step keeps the seed in range, so the generator never reaches a fixed point. */
  lemma NextSeedInRange(seed: int)
    requires InRange(seed)
    ensures InRange(NextSeed(seed))
  {
    NoZeroDivisor(seed);
  }

  /**
   * The division-free step: product = hi * 2^31 + lo, and 2^31 is 1 modulo M,
   * so hi + lo is congruent to product; hi + lo < 2M, so one subtraction suffices.
   */
  lemma FoldedStep(seed: int, product: int, hi: int, lo: int)
    requires InRange(seed) && product == seed * A
    requires hi == product / 0x8000_0000 && lo == product % 0x8000_0000
    ensures hi + lo < TWO32
    ensures hi + lo != M
    ensures (if hi + lo > M then hi + lo - M else hi + lo) == NextSeed(seed)
  {
    assert product == hi * 0x8000_0000 + lo;
    assert product < 0x8000_0000 * A;
    assert hi < A;
    assert product == hi * M + (hi + lo);
    MultipleOfM(hi, hi + lo);
    NoZeroDivisor(seed);
    if hi + lo > M {
      MultipleOfM(1, hi + lo - M);
    }
  }

  lemma MultipleOfM(q: nat, x: nat)
    ensures (q * M + x) % M == x % M
  {
  }

  /** The first n values returned by Next on a generator seeded with seed. */
  function Outputs(seed: int, n: nat): (r: seq<int>)
    ensures |r| == n
    decreases n
  {
    if n == 0 then [] else [NextSeed(seed)] + Outputs(NextSeed(seed), n - 1)
  }

  /** Every value the generator returns is a valid seed. */
  lemma {:induction false} OutputsInRange(seed: int, n: nat)
    requires InRange(seed)
    ensures forall i :: 0 <= i < n ==> InRange(Outputs(seed, n)[i])
    decreases n
  {
    if n > 0 {
      NextSeedInRange(seed);
      OutputsInRange(NextSeed(seed), n - 1);
    }
  }

  class Random {
    var seed: uint32

    ghost predicate Valid()
      reads this
    {
      InRange(seed)
    }

    constructor (s: uint32)
      ensures seed == InitialSeed(s)
      ensures Valid()
    {
      var low := s % 0x8000_0000;
      if low == 0 || low == M {
        low := 1;
      }
      seed := low;
    }

    /** Next: advances the seed one step and returns it. */
    method Next() returns (r: uint32)
      requires Valid()
      modifies this
      ensures seed == NextSeed(old(seed))
      ensures r == seed
      ensures Valid()
    {
      var product := seed * A;
      FoldedStep(seed, product, product / 0x8000_0000, product % 0x8000_0000);
      NextSeedInRange(seed);
      seed := product / 0x8000_0000 + product % 0x8000_0000;
      if seed > M {
        seed := seed - M;
      }
      r := seed;
    }
  }
}
