/** The scale constants the fixed-point helpers import. Their values are
    defined in a module that is not part of this model, so they are left
    unspecified here: each is some positive integer, and every property
    that depends on how they relate to each other says so explicitly. */
module Constants {

  type Positive = n: nat | n > 0 witness 1

  /** One unit at 18 decimals, and the amount added before dividing by it. */
  const WAD: Positive
  const HALF_WAD: Positive

  /** One unit at 27 decimals, and the amount added before dividing by it. */
  const RAY: Positive
  const HALF_RAY: Positive

  /** 100% in basis-point precision, and the amount added before dividing by it. */
  const PERCENTAGE: Positive
  const HALF_PERCENTAGE: Positive

  /** The ratio RAY / WAD. */
  const WAD_TO_RAY: Positive
}
