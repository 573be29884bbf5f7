/**
 * The floating-point comparison helper of the project's MathUtils.h. That
 * header is not part of this model; its tolerance test is taken as exact
 * equality of reals.
 */
module MathUtils {

  /** util::equal(a, b). */
  predicate Equal(a: real, b: real) {
    a == b
  }
}
