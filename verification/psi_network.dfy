/**
 * Parameter checks of the PSI (plasma-surface interaction) reaction network:
 * a non-positive lattice parameter or impurity radius is replaced by a
 * material constant, any positive value is kept.
 */
module PSINetwork {
  import PhysicalConstants

  /** Keep a positive value, otherwise fall back to the given default. */
  function PositiveOr(x: real, fallback: real): (r: real)
    ensures x <= 0.0 ==> r == fallback
    ensures x > 0.0 ==> r == x
    ensures fallback > 0.0 ==> r > 0.0
  {
    if x <= 0.0 then fallback else x
  }

  /** A positive fallback makes the check a projection: applying it again changes nothing. */
  lemma PositiveOrIdempotent(x: real, fallback: real)
    requires fallback > 0.0
    ensures PositiveOr(PositiveOr(x, fallback), fallback) == PositiveOr(x, fallback)
  {
  }

  /** checkLatticeParameter: a non-positive lattice parameter becomes the tungsten lattice constant. */
  function CheckLatticeParameter(latticeParameter: real, c: PhysicalConstants.Constants): (r: real)
    ensures latticeParameter <= 0.0 ==> r == c.tungstenLatticeConstant
    ensures latticeParameter > 0.0 ==> r == latticeParameter
    ensures PhysicalConstants.PositiveFallbacks(c) ==> r > 0.0
  {
    PositiveOr(latticeParameter, c.tungstenLatticeConstant)
  }

  /** checkImpurityRadius: a non-positive impurity radius becomes the helium radius. */
  function CheckImpurityRadius(impurityRadius: real, c: PhysicalConstants.Constants): (r: real)
    ensures impurityRadius <= 0.0 ==> r == c.heliumRadius
    ensures impurityRadius > 0.0 ==> r == impurityRadius
    ensures PhysicalConstants.PositiveFallbacks(c) ==> r > 0.0
  {
    PositiveOr(impurityRadius, c.heliumRadius)
  }

  /** With positive fallbacks both checks are idempotent. */
  lemma ChecksIdempotent(x: real, c: PhysicalConstants.Constants)
    requires PhysicalConstants.PositiveFallbacks(c)
    ensures CheckLatticeParameter(CheckLatticeParameter(x, c), c) == CheckLatticeParameter(x, c)
    ensures CheckImpurityRadius(CheckImpurityRadius(x, c), c) == CheckImpurityRadius(x, c)
  {
    PositiveOrIdempotent(x, c.tungstenLatticeConstant);
    PositiveOrIdempotent(x, c.heliumRadius);
  }
}
