/** The random source the grid engine draws from, reduced to the range contract its
    `number` member documents. The Mersenne-Twister state and the floating-point
    distribution behind it are not modelled: every draw is an arbitrary member of the
    requested range, so whatever is proved about a caller holds for every outcome. */
module Rng {

  /** Random::number: some integer of the inclusive range [lo, hi]. The range must not
      be inverted; the underlying distribution is undefined for lo > hi. */
  method Number(lo: int, hi: int) returns (r: int)
    requires lo <= hi
    ensures lo <= r <= hi
  {
    r :| lo <= r <= hi;
  }
}
