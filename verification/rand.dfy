/**
 * The random source shared by the generators and the modifier.  The model
 * relies on nothing but the contract of `NextInt` (a value in [0, bound));
 * the linear congruential step in the body only makes the draws concrete.
 */
module Rand {

  class RandomSource {
    var seed: int

    constructor (seed0: int)
      ensures seed == seed0
    {
      seed := seed0;
    }

    /** `nextInt(bound)`: some value in [0, bound); consumes one draw. */
    method NextInt(bound: int) returns (r: int)
      requires bound > 0
      modifies this
      ensures 0 <= r < bound
    {
      r := seed % bound;
      seed := (seed * 0x5_DEEC_E66D + 0xB) % 0x1_0000_0000_0000;
    }
  }
}
