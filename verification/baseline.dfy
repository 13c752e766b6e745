/**
  The adaptive baseline of one event type: a single rate shared by every
  source of that type, first decayed and then blended with the observed rate
  by an exponentially weighted moving average.
 */
module Baseline {

  /** Weight of the newly observed rate in the moving average. */
  const EwmaAlpha: real := 0.2

  /** Fraction of the previous baseline forgotten before every blend. */
  const DecayFactor: real := 0.3

  /** One update of the baseline by an observed rate: decay, then blend. With
      the default parameters the new baseline is `0.2 * rate + 0.56 * prev`. */
  function Update(prev: real, rate: real): (b: real)
    ensures b == 0.2 * rate + 0.56 * prev
    ensures 0.0 <= prev && 0.0 <= rate ==> 0.0 <= b
  {
    var decayed := prev * (1.0 - DecayFactor);
    EwmaAlpha * rate + (1.0 - EwmaAlpha) * decayed
  }

  /** A baseline is left unchanged by a rate exactly when it equals 5/11 of
      that rate: the value the baseline settles at under a constant rate. */
  lemma FixedPoint(b: real, rate: real)
    ensures Update(b, rate) == b <==> 11.0 * b == 5.0 * rate
  {
  }

  /** Two baselines fed the same rate move 0.56 times as far apart: the
      baseline forgets its history geometrically. */
  lemma Contraction(b1: real, b2: real, rate: real)
    ensures Update(b1, rate) - Update(b2, rate) == 0.56 * (b1 - b2)
  {
  }

  /** The update is monotone in both the previous baseline and the rate. */
  lemma Monotone(b1: real, b2: real, r1: real, r2: real)
    requires b1 <= b2 && r1 <= r2
    ensures Update(b1, r1) <= Update(b2, r2)
  {
  }
}
