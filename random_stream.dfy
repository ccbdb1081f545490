/** The pseudo-random source the generator draws from. The generator's own
    PRNG is not part of this model: each draw is taken from a caller-supplied
    stream of naturals and folded into the half-open range it was asked for,
    so every sequence of in-range draws is possible. */
module Randomness {

  class RandomStream {
    /** The raw values the stream hands out, in order. */
    const source: nat -> nat
    /** How many values have been drawn so far. */
    var drawn: nat

    constructor (source: nat -> nat)
      ensures this.source == source && drawn == 0
    {
      this.source := source;
      drawn := 0;
    }

    /** A draw in [lo, hi); the range must be non-empty, as for RandomUtils.uniform. */
    method Uniform(lo: int, hi: int) returns (v: int)
      requires lo < hi
      modifies this
      ensures lo <= v < hi
      ensures v == lo + source(old(drawn)) % (hi - lo)
      ensures drawn == old(drawn) + 1
    {
      v := lo + source(drawn) % (hi - lo);
      drawn := drawn + 1;
    }
  }
}
