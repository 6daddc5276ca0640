/** What the three neighbourhood explorers share: the outcome of a search that
    can throw EmptyNeighborhood, the rejection-sampling budget, and the random
    draws, which are an explicit parameter: `rand(k)` is the k-th number the
    generator hands out. */
module Neighborhood {

  /** A move found, or the EmptyNeighborhood exception. */
  datatype Outcome<T> = Found(move: T) | EmptyNeighborhood

  /** The number of rejected draws after which RandomMove gives up. */
  const MaxIterations: nat := 1000000

  /** Random::Uniform(lo, hi) applied to the k-th draw: a number in [lo, hi]. */
  function Uniform(rand: nat -> nat, k: nat, lo: int, hi: int): (r: int)
    requires lo <= hi
    ensures lo <= r <= hi
  {
    lo + rand(k) % (hi - lo + 1)
  }
}
