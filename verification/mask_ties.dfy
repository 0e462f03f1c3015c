/** What the soft mask tends to when several keys share the minimum.

  The documentation resolves ties to the lowest index; the mask itself cannot tell tied keys apart. With t tied
  minima each of their slots tends to 2^-(t-1), so the mask tends to the exact one-hot only without ties.
  */
module MaskTies {
  import opened RealFacts
  import opened SignPolynomial
  import opened SignAnalysis
  import opened ArgminCircuit
  import opened MaskProperties

  /** How many of the first n keys other than key i equal v. */
  function Ties(keys: seq<real>, v: real, i: nat, n: nat): nat
    requires n <= |keys|
  {
    if n == 0 then 0 else Ties(keys, v, i, n - 1) + (if n - 1 != i && keys[n - 1] == v then 1 else 0)
  }

  lemma {:induction false} NoTies(keys: seq<real>, v: real, i: nat, n: nat)
    requires n <= |keys| && forall j :: 0 <= j < n && j != i ==> keys[j] != v
    ensures Ties(keys, v, i, n) == 0
  {
    if n > 0 {
      NoTies(keys, v, i, n - 1);
    }
  }

  /** Every key is the minimum at m or larger by at least delta. */
  predicate Gapped(keys: seq<real>, m: nat, delta: real)
  {
    m < |keys| && forall j :: 0 <= j < |keys| ==> keys[j] == keys[m] || keys[m] + delta <= keys[j]
  }

  /** Where slot i tends to. */
  function LimitSlot(keys: seq<real>, m: nat, i: nat): real
    requires m < |keys| && i < |keys|
  {
    if keys[i] == keys[m] then Pow(0.5, Ties(keys, keys[m], i, |keys|)) else 0.0
  }

  lemma {:induction false} HalfPowers(k: nat)
    ensures 0.0 < Pow(0.5, k) <= 1.0
  {
    if k > 0 {
      HalfPowers(k - 1);
    }
  }

  /** p is at most h and falls short of it by at most c step errors. */
  predicate Below(p: real, h: real, c: real, e: real)
  {
    h - Times(c, e) <= p <= h
  }

  /** A tied slot loses a factor 1/2 per other tied key and at most one step error per remaining key. */
  lemma {:induction false} TiedSlotNearLimit(keys: seq<real>, degree: int, iters: int, m: nat, delta: real, i: nat,
                                             e: real, n: nat)
    requires Normalized(keys) && Gapped(keys, m, delta) && 0.0 < delta <= 1.0 && n <= |keys|
    requires i < |keys| && keys[i] == keys[m] && e == StepError(degree, iters, delta)
    ensures Below(SlotProduct(keys, degree, iters, i, n), Pow(0.5, Ties(keys, keys[m], i, n)), n as real, e)
  {
    hide Below, Step, StepError;
    if n == 0 {
      NothingLost(e);
    } else {
      TiedSlotNearLimit(keys, degree, iters, m, delta, i, e, n - 1);
      SlotProductRange(keys, degree, iters, i, n - 1);
      var k, h, p := n - 1, Pow(0.5, Ties(keys, keys[m], i, n - 1)), SlotProduct(keys, degree, iters, i, n - 1);
      OneMoreKey(keys, degree, iters, m, delta, i, e, k, h, p);
      assert SlotProduct(keys, degree, iters, i, n) == if k == i then p else p * Step(degree, iters, keys[k] - keys[i]);
      assert Pow(0.5, Ties(keys, keys[m], i, n)) == if k != i && keys[k] == keys[m] then 0.5 * h else h;
    }
  }

  lemma NothingLost(e: real)
    ensures Below(1.0, 1.0, 0.0, e)
  {
  }

  /** What key k does to the slot of i. */
  lemma OneMoreKey(keys: seq<real>, degree: int, iters: int, m: nat, delta: real, i: nat, e: real, k: nat, h: real,
                   p: real)
    requires Normalized(keys) && Gapped(keys, m, delta) && 0.0 < delta <= 1.0 && k < |keys|
    requires i < |keys| && keys[i] == keys[m] && e == StepError(degree, iters, delta)
    requires 0.0 <= p <= 1.0 && Below(p, h, k as real, e)
    ensures Below(if k == i then p else p * Step(degree, iters, keys[k] - keys[i]),
                  if k != i && keys[k] == keys[m] then 0.5 * h else h, (k + 1) as real, e)
  {
    hide Step, StepError, Times;
    StepErrorRange(degree, iters, delta);
    if k == i {
      OneMoreError(h, p, 1.0, e, k as real);
    } else if keys[k] == keys[m] {
      StepAtZero(degree, iters);
      OneMoreTie(h, p, e, k as real);
    } else {
      var x := keys[k] - keys[i];
      StepSeparates(degree, iters, delta, x);
      StepSymmetry(degree, iters, x);
      StepRange(degree, iters, x);
      StepErrorIsGap(degree, iters, delta);
      OneMoreError(h, p, Step(degree, iters, x), e, k as real);
    }
  }

  lemma OneMoreError(h: real, p: real, s: real, e: real, c: real)
    requires 0.0 <= p <= 1.0 && 0.0 <= e && 1.0 - e <= s <= 1.0 && Below(p, h, c, e)
    ensures Below(p * s, h, c + 1.0, e)
  {
    var d := 1.0 - s;
    var w := d * p;
    MulNonNegative(d, p);
    BelowLeft(d, p, w);
    assert p * s == p - w;
    assert Times(c + 1.0, e) == Times(c, e) + e;
  }

  lemma OneMoreTie(h: real, p: real, e: real, c: real)
    requires 0.0 <= c && 0.0 <= e && Below(p, h, c, e)
    ensures Below(p * 0.5, 0.5 * h, c + 1.0, e)
  {
    MulNonNegative(c, e);
    assert Times(c + 1.0, e) == Times(c, e) + e;
  }

  /** With enough iterations every slot is within any tolerance of its limit, ties included. */
  lemma MaskTendsToLimit(keys: seq<real>, degree: int, iters: int, m: nat, delta: real, tolerance: real)
    requires Normalized(keys) && Gapped(keys, m, delta) && 0.0 < delta <= 1.0
    requires 0.0 < tolerance && EnoughIters(delta, |keys| + 1, tolerance) <= iters
    ensures forall i :: 0 <= i < |keys| ==>
              -tolerance <= Mask(keys, degree, iters)[i] - LimitSlot(keys, m, i) <= tolerance
  {
    hide StepError, Times;
    var e, n := StepError(degree, iters, delta), |keys|;
    CohortErrorVanishes(degree, iters, delta, n + 1, tolerance);
    StepErrorRange(degree, iters, delta);
    assert CohortError(degree, iters, delta, n + 1) == Times(n as real, e);
    forall i | 0 <= i < n
      ensures -tolerance <= Slot(keys, degree, iters, i) - LimitSlot(keys, m, i) <= tolerance
    {
      if keys[i] == keys[m] {
        TiedSlotNearLimit(keys, degree, iters, m, delta, i, e, n);
      } else {
        LostSlotNearZero(keys, degree, iters, m, delta, i, e);
        AtLeastOnce(n as real, e);
      }
    }
  }

  lemma LostSlotNearZero(keys: seq<real>, degree: int, iters: int, m: nat, delta: real, i: nat, e: real)
    requires Normalized(keys) && Gapped(keys, m, delta) && 0.0 < delta <= 1.0
    requires i < |keys| && keys[i] != keys[m] && e == StepError(degree, iters, delta)
    ensures 0.0 <= Slot(keys, degree, iters, i) <= e
  {
    hide Step, StepError;
    SlotProductRange(keys, degree, iters, i, |keys|);
    SlotBelowComparison(keys, degree, iters, i, m, |keys|);
    StepSeparates(degree, iters, delta, keys[i] - keys[m]);
    StepErrorIsGap(degree, iters, delta);
    assert -(keys[i] - keys[m]) == keys[m] - keys[i];
  }

  // ---------------------------------------------------------------- convergence to the one-hot

  predicate Near(mask: seq<real>, row: seq<real>, tolerance: real)
  {
    |mask| == |row| && forall i :: 0 <= i < |row| ==> -tolerance <= mask[i] - row[i] <= tolerance
  }

  ghost predicate StaysNear(keys: seq<real>, degree: int, row: seq<real>, tolerance: real, enough: int)
  {
    forall iters :: enough <= iters ==> Near(Mask(keys, degree, iters), row, tolerance)
  }

  ghost predicate EventuallyNear(keys: seq<real>, degree: int, row: seq<real>, tolerance: real)
  {
    exists enough :: StaysNear(keys, degree, row, tolerance, enough)
  }

  /** The mask tends to the row as the iteration count grows. */
  ghost predicate Tends(keys: seq<real>, degree: int, row: seq<real>)
  {
    forall tolerance: real :: 0.0 < tolerance ==> EventuallyNear(keys, degree, row, tolerance)
  }

  predicate UniqueMin(keys: seq<real>, m: int)
  {
    0 <= m < |keys| && forall j :: 0 <= j < |keys| && j != m ==> keys[m] < keys[j]
  }

  /** Finitely many keys leave a gap above the minimum. */
  lemma {:induction false} GapExists(keys: seq<real>, v: real, n: nat) returns (delta: real)
    requires n <= |keys| && forall j :: 0 <= j < |keys| ==> v <= keys[j]
    ensures 0.0 < delta <= 1.0 && forall j :: 0 <= j < n ==> keys[j] == v || v + delta <= keys[j]
  {
    if n == 0 {
      delta := 1.0;
    } else {
      delta := GapExists(keys, v, n - 1);
      if keys[n - 1] != v && keys[n - 1] - v < delta {
        delta := keys[n - 1] - v;
      }
    }
  }

  /** The mask tends to the exact one-hot of the first minimum exactly when the minimum is unique. */
  lemma TendsToOneHotIff(keys: seq<real>, degree: int, m: int, expected: seq<real>)
    requires Normalized(keys) && FirstMin(keys, m) && OneHot(expected, |keys|, m)
    ensures Tends(keys, degree, expected) <==> UniqueMin(keys, m)
  {
    if UniqueMin(keys, m) {
      var delta := GapExists(keys, keys[m], |keys|);
      forall tolerance: real | 0.0 < tolerance
        ensures EventuallyNear(keys, degree, expected, tolerance)
      {
        UniqueStaysNear(keys, degree, m, expected, delta, tolerance);
      }
    } else {
      var j :| 0 <= j < |keys| && j != m && keys[j] == keys[m];
      forall enough
        ensures !StaysNear(keys, degree, expected, 0.25, enough)
      {
        TieKeepsAway(keys, degree, enough, m, j, expected);
      }
      assert !EventuallyNear(keys, degree, expected, 0.25);
    }
  }

  lemma UniqueStaysNear(keys: seq<real>, degree: int, m: nat, expected: seq<real>, delta: real, tolerance: real)
    requires Normalized(keys) && UniqueMin(keys, m) && OneHot(expected, |keys|, m)
    requires Gapped(keys, m, delta) && 0.0 < delta <= 1.0 && 0.0 < tolerance
    ensures StaysNear(keys, degree, expected, tolerance, EnoughIters(delta, |keys| + 1, tolerance))
  {
    hide Mask, EnoughIters;
    NoTies(keys, keys[m], m, |keys|);
    forall iters | EnoughIters(delta, |keys| + 1, tolerance) <= iters
      ensures Near(Mask(keys, degree, iters), expected, tolerance)
    {
      MaskTendsToLimit(keys, degree, iters, m, delta, tolerance);
    }
  }

  /** Tied slots are equal, so they cannot both be near 1 and near 0. */
  lemma TieKeepsAway(keys: seq<real>, degree: int, iters: int, m: nat, j: nat, expected: seq<real>)
    requires Normalized(keys) && m < |keys| && j < |keys| && j != m && keys[j] == keys[m]
    requires OneHot(expected, |keys|, m)
    ensures !Near(Mask(keys, degree, iters), expected, 0.25)
  {
    MaskRanksKeys(keys, degree, iters, m, j);
    var mask := Mask(keys, degree, iters);
    assert mask[m] == mask[j] && expected[m] == 1.0 && expected[j] == 0.0;
  }
}
