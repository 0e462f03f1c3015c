/** What the soft mask promises: it ranks like the keys, sums to at most one, and converges to the one-hot. */
module MaskProperties {
  import opened RealFacts
  import opened SignPolynomial
  import opened SignAnalysis
  import opened ArgminCircuit
  import opened GhostRider

  predicate Normalized(keys: seq<real>)
  {
    forall i :: 0 <= i < |keys| ==> 0.0 <= keys[i] <= 1.0
  }

  // ---------------------------------------------------------------- order

  /** The comparisons of v with the first n keys, the comparison of a key with itself included. */
  ghost function Comparisons(keys: seq<real>, degree: int, iters: int, v: real, n: nat): real
    requires n <= |keys|
  {
    if n == 0 then 1.0
    else Comparisons(keys, degree, iters, v, n - 1) * Step(degree, iters, keys[n - 1] - v)
  }

  /** Including the self comparison multiplies a slot by step(0) = 1/2. */
  lemma {:induction false} ComparisonsAreHalfSlot(keys: seq<real>, degree: int, iters: int, i: nat, n: nat)
    requires i < |keys| && n <= |keys|
    ensures Comparisons(keys, degree, iters, keys[i], n)
         == SlotProduct(keys, degree, iters, i, n) * (if i < n then 0.5 else 1.0)
  {
    if n > 0 {
      ComparisonsAreHalfSlot(keys, degree, iters, i, n - 1);
      StepAtZero(degree, iters);
      SwapFactors(SlotProduct(keys, degree, iters, i, n - 1), if i < n - 1 then 0.5 else 1.0,
                  Step(degree, iters, keys[n - 1] - keys[i]), Comparisons(keys, degree, iters, keys[i], n - 1));
    }
  }

  lemma SwapFactors(a: real, b: real, c: real, ab: real)
    requires ab == a * b
    ensures ab * c == (a * c) * b
  {
  }

  lemma {:induction false} SmallerKeyWinsComparisons(keys: seq<real>, degree: int, iters: int, v: real, w: real, n: nat)
    requires Normalized(keys) && n <= |keys| && 0.0 <= v < w <= 1.0
    ensures 0.0 <= Comparisons(keys, degree, iters, w, n) <= Comparisons(keys, degree, iters, v, n)
    ensures 0.0 < Comparisons(keys, degree, iters, v, n)
    ensures n > 0 ==> Comparisons(keys, degree, iters, w, n) < Comparisons(keys, degree, iters, v, n)
  {
    if n > 0 {
      SmallerKeyWinsComparisons(keys, degree, iters, v, w, n - 1);
      StepRange(degree, iters, keys[n - 1] - v);
      StepRange(degree, iters, keys[n - 1] - w);
      StepIncreases(degree, iters, keys[n - 1] - w, keys[n - 1] - v);
      LargerProduct(Comparisons(keys, degree, iters, w, n - 1), Comparisons(keys, degree, iters, v, n - 1),
                    Step(degree, iters, keys[n - 1] - w), Step(degree, iters, keys[n - 1] - v));
    }
  }

  lemma LargerProduct(p: real, q: real, s: real, t: real)
    requires 0.0 <= p <= q && 0.0 < q && 0.0 <= s < t
    ensures 0.0 <= p * s < q * t
  {
    MulNonNegative(p, s);
    MulMonotone(s, p, q);
    MulStrict(q, s, t);
    assert p * s <= q * s;
  }

  /** A strictly smaller key always gets a strictly larger slot, and equal keys get equal slots. */
  lemma MaskRanksKeys(keys: seq<real>, degree: int, iters: int, i: nat, j: nat)
    requires Normalized(keys) && i < |keys| && j < |keys|
    ensures keys[i] < keys[j] <==> Slot(keys, degree, iters, j) < Slot(keys, degree, iters, i)
    ensures keys[i] == keys[j] <==> Slot(keys, degree, iters, j) == Slot(keys, degree, iters, i)
  {
    ComparisonsAreHalfSlot(keys, degree, iters, i, |keys|);
    ComparisonsAreHalfSlot(keys, degree, iters, j, |keys|);
    if keys[i] < keys[j] {
      SmallerKeyWinsComparisons(keys, degree, iters, keys[i], keys[j], |keys|);
    } else if keys[j] < keys[i] {
      SmallerKeyWinsComparisons(keys, degree, iters, keys[j], keys[i], |keys|);
    }
  }

  /** The rider's first maximum over the mask is exactly the lowest-index minimum of the keys. */
  lemma WinnerIsFirstMin(keys: seq<real>, degree: int, iters: int, best: int)
    requires Normalized(keys) && keys != []
    ensures FirstMax(Mask(keys, degree, iters), best) <==> FirstMin(keys, best)
  {
    var mask := Mask(keys, degree, iters);
    if 0 <= best < |keys| {
      forall j | 0 <= j < |keys|
        ensures mask[j] <= mask[best] <==> keys[best] <= keys[j]
        ensures mask[j] < mask[best] <==> keys[best] < keys[j]
      {
        MaskRanksKeys(keys, degree, iters, best, j);
        MaskRanksKeys(keys, degree, iters, j, best);
      }
    }
  }

  // ---------------------------------------------------------------- sub-distribution

  lemma {:induction false} SlotProductRange(keys: seq<real>, degree: int, iters: int, i: nat, n: nat)
    requires Normalized(keys) && i < |keys| && n <= |keys|
    ensures 0.0 <= SlotProduct(keys, degree, iters, i, n) <= 1.0
  {
    hide Step;
    if n > 0 {
      SlotProductRange(keys, degree, iters, i, n - 1);
      if n - 1 != i {
        StepRange(degree, iters, keys[n - 1] - keys[i]);
        UnitProduct(SlotProduct(keys, degree, iters, i, n - 1), Step(degree, iters, keys[n - 1] - keys[i]),
                    SlotProduct(keys, degree, iters, i, n));
      }
    }
  }

  lemma UnitProduct(p: real, q: real, r: real)
    requires 0.0 <= p <= 1.0 && 0.0 <= q <= 1.0 && r == p * q
    ensures 0.0 <= r <= p && r <= q
  {
    MulNonNegative(p, q);
    BelowLeft(p, q, r);
    BelowLeft(q, p, r);
  }

  lemma BelowLeft(p: real, q: real, r: real)
    requires 0.0 <= p && q <= 1.0 && r == p * q
    ensures r <= p
  {
    MulMonotone(p, q, 1.0);
  }

  /** A slot is at most any one of its comparisons. */
  lemma {:induction false} SlotBelowComparison(keys: seq<real>, degree: int, iters: int, i: nat, a: nat, n: nat)
    requires Normalized(keys) && i < |keys| && a < n <= |keys| && a != i
    ensures SlotProduct(keys, degree, iters, i, n) <= Step(degree, iters, keys[a] - keys[i])
  {
    hide Step;
    if a < n - 1 {
      SlotBelowComparison(keys, degree, iters, i, a, n - 1);
    }
    if n - 1 != i {
      SlotProductRange(keys, degree, iters, i, n - 1);
      StepRange(degree, iters, keys[n - 1] - keys[i]);
      UnitProduct(SlotProduct(keys, degree, iters, i, n - 1), Step(degree, iters, keys[n - 1] - keys[i]),
                  SlotProduct(keys, degree, iters, i, n));
    }
  }

  /** The sum of the first m slots, each taken over the first n keys only. */
  function PartialSum(keys: seq<real>, degree: int, iters: int, n: nat, m: nat): real
    requires m <= |keys| && n <= |keys|
  {
    if m == 0 then 0.0
    else PartialSum(keys, degree, iters, n, m - 1) + SlotProduct(keys, degree, iters, m - 1, n)
  }

  function Sum(row: seq<real>): real
  {
    if row == [] then 0.0 else Sum(row[..|row| - 1]) + row[|row| - 1]
  }

  /** One more key scales the earlier slots by its comparisons with them. */
  lemma {:induction false} SumShrinks(keys: seq<real>, degree: int, iters: int, n: nat, m: nat, bound: real)
    requires Normalized(keys) && n < |keys| && m <= n
    requires forall i :: 0 <= i < m ==> Step(degree, iters, keys[n] - keys[i]) <= bound
    ensures PartialSum(keys, degree, iters, n + 1, m) <= bound * PartialSum(keys, degree, iters, n, m)
  {
    if m > 0 {
      SumShrinks(keys, degree, iters, n, m - 1, bound);
      var p := SlotProduct(keys, degree, iters, m - 1, n);
      SlotProductRange(keys, degree, iters, m - 1, n);
      MulMonotone(p, Step(degree, iters, keys[n] - keys[m - 1]), bound);
      Distribute(bound, PartialSum(keys, degree, iters, n, m - 1), p);
    }
  }

  lemma Distribute(b: real, x: real, y: real)
    ensures b * (x + y) == b * x + y * b
  {
  }

  lemma {:induction false} PartialSumNonNegative(keys: seq<real>, degree: int, iters: int, n: nat, m: nat)
    requires Normalized(keys) && n <= |keys| && m <= |keys|
    ensures 0.0 <= PartialSum(keys, degree, iters, n, m)
  {
    if m > 0 {
      PartialSumNonNegative(keys, degree, iters, n, m - 1);
      SlotProductRange(keys, degree, iters, m - 1, n);
    }
  }

  /** The index below n whose comparison with key n is the largest. */
  lemma {:induction false} Strongest(keys: seq<real>, degree: int, iters: int, n: nat, m: nat) returns (a: nat)
    requires n < |keys| && 0 < m <= n
    ensures a < m
    ensures forall i :: 0 <= i < m ==> Step(degree, iters, keys[n] - keys[i]) <= Step(degree, iters, keys[n] - keys[a])
  {
    if m == 1 {
      a := 0;
    } else {
      a := Strongest(keys, degree, iters, n, m - 1);
      if Step(degree, iters, keys[n] - keys[a]) < Step(degree, iters, keys[n] - keys[m - 1]) {
        a := m - 1;
      }
    }
  }

  lemma {:induction false} PartialSumAtMostOne(keys: seq<real>, degree: int, iters: int, n: nat)
    requires Normalized(keys) && n <= |keys|
    ensures PartialSum(keys, degree, iters, n, n) <= 1.0
  {
    hide Step;
    if n == 1 {
      assert SlotProduct(keys, degree, iters, 0, 1) == SlotProduct(keys, degree, iters, 0, 0) == 1.0;
      assert PartialSum(keys, degree, iters, 1, 0) == 0.0;
    } else if n > 1 {
      PartialSumAtMostOne(keys, degree, iters, n - 1);
      AddKey(keys, degree, iters, n - 1);
    }
  }

  /** The newest key's slot is at most what its strongest opponent gives up. */
  lemma AddKey(keys: seq<real>, degree: int, iters: int, k: nat)
    requires Normalized(keys) && 0 < k < |keys|
    requires PartialSum(keys, degree, iters, k, k) <= 1.0
    ensures PartialSum(keys, degree, iters, k + 1, k + 1) <= 1.0
  {
    hide Step, SlotProduct;
    var a := Strongest(keys, degree, iters, k, k);
    var s := Step(degree, iters, keys[k] - keys[a]);
    SumShrinks(keys, degree, iters, k, k, s);
    StepRange(degree, iters, keys[k] - keys[a]);
    MulMonotone(s, PartialSum(keys, degree, iters, k, k), 1.0);
    SlotBelowComparison(keys, degree, iters, k, a, k + 1);
    StepSymmetry(degree, iters, keys[k] - keys[a]);
    assert -(keys[k] - keys[a]) == keys[a] - keys[k];
  }

  lemma {:induction false} SumIsPartialSum(keys: seq<real>, degree: int, iters: int, m: nat)
    requires m <= |keys|
    ensures Sum(Mask(keys, degree, iters)[..m]) == PartialSum(keys, degree, iters, |keys|, m)
  {
    if m > 0 {
      SumIsPartialSum(keys, degree, iters, m - 1);
      var mask := Mask(keys, degree, iters);
      assert mask[..m][..m - 1] == mask[..m - 1];
    }
  }

  /** Every slot lies in [0, 1] and all slots together sum to at most one. */
  lemma MaskIsSubDistribution(keys: seq<real>, degree: int, iters: int)
    requires Normalized(keys)
    ensures forall i :: 0 <= i < |keys| ==> 0.0 <= Mask(keys, degree, iters)[i] <= 1.0
    ensures Sum(Mask(keys, degree, iters)) <= 1.0
  {
    var mask := Mask(keys, degree, iters);
    forall i | 0 <= i < |keys|
      ensures 0.0 <= mask[i] <= 1.0
    {
      SlotProductRange(keys, degree, iters, i, |keys|);
    }
    SumIsPartialSum(keys, degree, iters, |keys|);
    assert mask[..|keys|] == mask;
    PartialSumAtMostOne(keys, degree, iters, |keys|);
  }

  lemma {:induction false} SumAboveTwo(row: seq<real>, i: nat, j: nat)
    requires forall k :: 0 <= k < |row| ==> 0.0 <= row[k]
    ensures 0.0 <= Sum(row)
    ensures i < |row| ==> row[i] <= Sum(row)
    ensures i < j < |row| ==> row[i] + row[j] <= Sum(row)
  {
    if row != [] {
      SumAboveTwo(row[..|row| - 1], i, j);
    }
  }

  /** At most one slot can exceed one half. */
  lemma OnlyOneSlotAboveHalf(keys: seq<real>, degree: int, iters: int, i: nat, j: nat)
    requires Normalized(keys) && i < j < |keys|
    ensures Mask(keys, degree, iters)[i] <= 0.5 || Mask(keys, degree, iters)[j] <= 0.5
  {
    MaskIsSubDistribution(keys, degree, iters);
    SumAboveTwo(Mask(keys, degree, iters), i, j);
  }

  // ---------------------------------------------------------------- distance to the one-hot

  /** The minimum at m is below every other key by at least delta. */
  predicate Separated(keys: seq<real>, m: nat, delta: real)
  {
    m < |keys| && forall j :: 0 <= j < |keys| && j != m ==> keys[m] + delta <= keys[j]
  }

  /** The largest error of a single lost or won comparison. */
  function StepError(degree: int, iters: int, delta: real): real
  {
    (1.0 - Compose(degree, EffectiveIters(iters), delta)) / 2.0
  }

  /** The error bound for a cohort of n: one step error for each other key. */
  function CohortError(degree: int, iters: int, delta: real, n: nat): real
  {
    Times(n as real - 1.0, StepError(degree, iters, delta))
  }

  lemma StepErrorRange(degree: int, iters: int, delta: real)
    requires 0.0 <= delta <= 1.0
    ensures 0.0 <= StepError(degree, iters, delta) <= 1.0
  {
    ComposeKeepsRange(degree, EffectiveIters(iters), delta);
  }

  lemma {:induction false} WinnerSlotNearOne(keys: seq<real>, degree: int, iters: int, m: nat, delta: real, e: real,
                                             n: nat)
    requires Normalized(keys) && Separated(keys, m, delta) && 0.0 <= delta && n <= |keys|
    requires e == StepError(degree, iters, delta)
    ensures 1.0 - Times(if m < n then n as real - 1.0 else n as real, e) <= SlotProduct(keys, degree, iters, m, n)
  {
    hide Step, StepError, Times;
    if n == 0 {
      TimesZero(e);
    } else {
      WinnerSlotNearOne(keys, degree, iters, m, delta, e, n - 1);
      if n - 1 != m {
        var x := keys[n - 1] - keys[m];
        StepSeparates(degree, iters, delta, x);
        StepSymmetry(degree, iters, x);
        StepRange(degree, iters, x);
        StepErrorIsGap(degree, iters, delta);
        SlotProductRange(keys, degree, iters, m, n - 1);
        LoseOneMore(SlotProduct(keys, degree, iters, m, n - 1), Step(degree, iters, x), e,
                    if m < n - 1 then n as real - 2.0 else n as real - 1.0);
      }
    }
  }

  lemma StepErrorIsGap(degree: int, iters: int, delta: real)
    ensures StepError(degree, iters, delta) == (1.0 - Compose(degree, EffectiveIters(iters), delta)) / 2.0
  {
  }

  lemma LoseOneMore(p: real, s: real, e: real, c: real)
    requires 0.0 <= p <= 1.0 && 1.0 - Times(c, e) <= p && 1.0 - e <= s && 0.0 <= s <= 1.0
    ensures 1.0 - Times(c + 1.0, e) <= p * s
  {
    var d := 1.0 - s;
    var w := d * p;
    UnitProduct(d, p, w);
    assert p * s == p - w;
    assert Times(c + 1.0, e) == Times(c, e) + e;
  }

  /** Every slot is within (n - 1) step errors of the exact one-hot. */
  lemma MaskErrorBound(keys: seq<real>, degree: int, iters: int, m: nat, delta: real, expected: seq<real>)
    requires Normalized(keys) && |keys| >= 2 && 0.0 < delta && Separated(keys, m, delta)
    requires OneHot(expected, |keys|, m)
    ensures forall i :: 0 <= i < |keys| ==>
              -CohortError(degree, iters, delta, |keys|) <= Mask(keys, degree, iters)[i] - expected[i]
                <= CohortError(degree, iters, delta, |keys|)
  {
    forall i | 0 <= i < |keys|
      ensures -CohortError(degree, iters, delta, |keys|) <= Mask(keys, degree, iters)[i] - expected[i]
                <= CohortError(degree, iters, delta, |keys|)
    {
      SlotErrorBound(keys, degree, iters, m, delta, i);
    }
  }

  lemma SlotErrorBound(keys: seq<real>, degree: int, iters: int, m: nat, delta: real, i: nat)
    requires Normalized(keys) && |keys| >= 2 && 0.0 < delta && Separated(keys, m, delta) && i < |keys|
    ensures i == m ==> 1.0 - CohortError(degree, iters, delta, |keys|) <= Slot(keys, degree, iters, i) <= 1.0
    ensures i != m ==> 0.0 <= Slot(keys, degree, iters, i) <= CohortError(degree, iters, delta, |keys|)
  {
    hide Step, SlotProduct, StepError, Compose, Times;
    var e, n := StepError(degree, iters, delta), |keys|;
    SlotProductRange(keys, degree, iters, i, n);
    if i == m {
      WinnerSlotNearOne(keys, degree, iters, m, delta, e, n);
    } else {
      assert keys[m] + delta <= keys[i];
      StepErrorRange(degree, iters, delta);
      AtLeastOnce(n as real - 1.0, e);
      SlotBelowComparison(keys, degree, iters, i, m, n);
      StepSeparates(degree, iters, delta, keys[i] - keys[m]);
      StepErrorIsGap(degree, iters, delta);
      assert -(keys[i] - keys[m]) == keys[m] - keys[i];
      assert SlotProduct(keys, degree, iters, i, n) <= e;
    }
    assert CohortError(degree, iters, delta, n) == Times(n as real - 1.0, e);
  }

  lemma AtLeastOnce(c: real, e: real)
    requires 1.0 <= c && 0.0 <= e
    ensures e <= Times(c, e)
  {
    MulMonotone(e, 1.0, c);
    assert e * c == c * e;
  }

  // ---------------------------------------------------------------- convergence

  lemma {:induction false} Bernoulli(c: real, k: nat)
    requires 0.0 <= c <= 1.0
    ensures 0.0 <= Pow(1.0 - c, k)
    ensures Pow(1.0 - c, k) * (1.0 + k as real * c) <= 1.0
  {
    if k > 0 {
      Bernoulli(c, k - 1);
      BernoulliStep(c, (k - 1) as real, Pow(1.0 - c, k - 1), Pow(1.0 - c, k), 1.0 - c);
    }
  }

  lemma BernoulliStep(c: real, k: real, p: real, p': real, r: real)
    requires 0.0 <= c <= 1.0 && 0.0 <= k && 0.0 <= p && p' == r * p && r == 1.0 - c
    requires p * (1.0 + k * c) <= 1.0
    ensures 0.0 <= p' && p' * (1.0 + (k + 1.0) * c) <= 1.0
  {
    MulNonNegative(r, p);
    MulNonNegative(c, c);
    MulNonNegative(k + 1.0, c * c);
    var q := (k + 1.0) * (c * c);
    MulNonNegative(p, q);
    assert p' * (1.0 + (k + 1.0) * c) == p * (1.0 + k * c) - p * q;
  }

  /** An iteration count that is enough for a cohort of n separated by delta. */
  function EnoughIters(delta: real, n: nat, tolerance: real): nat
    requires 0.0 < delta && 0.0 < tolerance
  {
    (n as real / (tolerance * delta)).Floor + 1
  }

  /** For any separation and tolerance, that many compositions or more bring every slot within tolerance. */
  lemma MaskConverges(keys: seq<real>, degree: int, iters: int, m: nat, delta: real, tolerance: real,
                      expected: seq<real>)
    requires Normalized(keys) && |keys| >= 2 && 0.0 < delta && Separated(keys, m, delta)
    requires 0.0 < tolerance && EnoughIters(delta, |keys|, tolerance) <= iters
    requires OneHot(expected, |keys|, m)
    ensures forall i :: 0 <= i < |keys| ==>
              -tolerance <= Mask(keys, degree, iters)[i] - expected[i] <= tolerance
  {
    var other := if m == 0 then 1 else 0;
    assert keys[m] + delta <= keys[other];
    MaskErrorBound(keys, degree, iters, m, delta, expected);
    CohortErrorVanishes(degree, iters, delta, |keys|, tolerance);
  }

  lemma CohortErrorVanishes(degree: int, iters: int, delta: real, n: nat, tolerance: real)
    requires 0.0 < delta <= 1.0 && 0.0 < tolerance && n >= 1
    requires EnoughIters(delta, n, tolerance) <= iters
    ensures CohortError(degree, iters, delta, n) <= tolerance
  {
    var c, k := 1.0 - Shrink(delta), EffectiveIters(iters);
    ShrinkDecreases(delta, delta);
    HalfDelta(delta);
    Bernoulli(c, k);
    ComposeApproachesOne(degree, k, delta);
    var p, e := Pow(Shrink(delta), k), StepError(degree, iters, delta);
    assert 1.0 - c == Shrink(delta);
    RemainingBelowPow(delta, k, p);
    var t := tolerance * delta;
    MulPositive(tolerance, delta);
    assert n as real / t < iters as real;
    DivisionBound(n as real, t, iters as real);
    Threshold(n as real, p, e, k as real, c, delta, tolerance, t);
  }

  lemma HalfDelta(delta: real)
    requires 0.0 < delta
    ensures delta <= 2.0 * (1.0 - Shrink(delta))
  {
    MulNonNegative(delta, delta);
  }

  lemma RemainingBelowPow(delta: real, k: nat, p: real)
    requires 0.0 <= delta <= 1.0 && p == Pow(Shrink(delta), k) && 0.0 <= p
    ensures Remaining(delta, k) <= p
  {
    MulMonotone(p, 1.0 - delta, 1.0);
    assert (1.0 - delta) * p == p * (1.0 - delta);
  }

  lemma DivisionBound(a: real, t: real, k: real)
    requires 0.0 < t && a / t < k
    ensures a < k * t
  {
    MulStrict(t, a / t, k);
    assert t * (a / t) == a;
  }

  lemma Threshold(n: real, p: real, e: real, k: real, c: real, delta: real, tolerance: real, t: real)
    requires 1.0 <= n && 0.0 <= p && 2.0 * e <= p && 0.0 <= k && 0.0 < tolerance
    requires p * (1.0 + k * c) <= 1.0 && delta <= 2.0 * c && t == tolerance * delta && n < k * t
    ensures (n - 1.0) * e <= tolerance
  {
    MulMonotone(k, delta, 2.0 * c);
    MulNonNegative(p, k * c - k * delta / 2.0);
    var q := k * delta;
    assert p * q <= 2.0 by { assert p * (1.0 + k * c) == p + p * (k * c - q / 2.0) + p * q / 2.0; }
    assert k * t == tolerance * q;
    MulMonotone(p, n, tolerance * q);
    assert p * (tolerance * q) == tolerance * (p * q);
    MulMonotone(tolerance, p * q, 2.0);
    assert p * n <= 2.0 * tolerance;
    MulMonotone(n - 1.0, e, p / 2.0);
    assert (n - 1.0) * (p / 2.0) == p * n / 2.0 - p / 2.0;
  }
}
