/** The game's shared random number generator, reduced to what the rules
    depend on: each draw is some integer below its bound. */
module Chance {

  /** A draw of Random.Next(bound): any integer in 0 .. bound-1. Which one
      depends on the generator's seed and history, which are not modelled. */
  method Next(bound: nat) returns (r: nat)
    requires bound > 0
    ensures r < bound
  {
    r :| r < bound;
  }
}
