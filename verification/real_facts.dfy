/** Elementary facts about products of reals, stated on plain variables so that they stay cheap. */
module RealFacts {

  /** A product as a function, so that equal factors give equal products without arithmetic. */
  function Times(x: real, y: real): real { x * y }

  lemma TimesZero(x: real)
    ensures Times(x, 0.0) == 0.0 && Times(0.0, x) == 0.0
  {
  }

  lemma MulNonNegative(x: real, y: real)
    requires 0.0 <= x && 0.0 <= y
    ensures 0.0 <= x * y
  {
  }

  lemma MulPositive(x: real, y: real)
    requires 0.0 < x && 0.0 < y
    ensures 0.0 < x * y
  {
  }

  lemma MulMonotone(k: real, x: real, y: real)
    requires 0.0 <= k && x <= y
    ensures k * x <= k * y
  {
  }

  lemma MulStrict(k: real, x: real, y: real)
    requires 0.0 < k && x < y
    ensures k * x < k * y
  {
  }

  lemma CancelFactor(k: real, x: real, y: real)
    requires 0.0 < k && x * k < y * k
    ensures x < y
  {
    if y <= x {
      MulMonotone(k, y, x);
    }
  }
}
