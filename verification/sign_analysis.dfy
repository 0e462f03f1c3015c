/** What the sign polynomial and its compositions do to [-1, 1]. */
module SignAnalysis {
  import opened RealFacts
  import opened SignPolynomial
  import opened Majority

  // ---------------------------------------------------------------- one application of g

  lemma GIsOdd(degree: int, x: real)
    ensures G(degree, -x) == -G(degree, x)
  {
    if degree == 9 {
      NonicForm(x);
      NonicForm(-x);
      assert (-x) * (-x) == x * x;
      NegateProduct(x, Nonic(x * x));
    } else {
      CubicForm(degree, x);
      CubicForm(degree, -x);
    }
  }

  lemma NegateProduct(x: real, y: real)
    ensures (-x) * y == -(x * y)
  {
  }

  lemma GFixesEnds(degree: int)
    ensures G(degree, 0.0) == 0.0 && G(degree, 1.0) == 1.0 && G(degree, -1.0) == -1.0
  {
    if degree == 9 {
      NonicForm(0.0);
      NonicForm(1.0);
      assert Nonic(1.0) == 1.0;
    } else {
      CubicForm(degree, 0.0);
      CubicForm(degree, 1.0);
    }
    GIsOdd(degree, 1.0);
  }

  /** Both sign polynomials increase strictly on [-1, 1]. */
  lemma GIncreases(degree: int, x: real, y: real)
    requires -1.0 <= x < y <= 1.0
    ensures G(degree, x) < G(degree, y)
  {
    var s, t := (1.0 + x) / 2.0, (1.0 + y) / 2.0;
    var v, u := 1.0 - s, 1.0 - t;
    assert s - v == x && t - u == y;
    if degree == 9 {
      NonicMajority(s, v);
      NonicMajority(t, u);
      TailIncreases(9, 5, s, v, t, u);
    } else {
      CubicMajority(degree, s, v);
      CubicMajority(degree, t, u);
      TailIncreases(3, 2, s, v, t, u);
    }
  }

  lemma GKeepsRange(degree: int, x: real)
    requires -1.0 <= x <= 1.0
    ensures -1.0 <= G(degree, x) <= 1.0
    ensures 0.0 <= x ==> 0.0 <= G(degree, x)
  {
    GFixesEnds(degree);
    if x < 1.0 { GIncreases(degree, x, 1.0); }
    if -1.0 < x { GIncreases(degree, -1.0, x); }
    if 0.0 < x { GIncreases(degree, 0.0, x); }
  }

  /** The factor by which the distance from 1 shrinks at x. */
  function Shrink(x: real): real { 1.0 - x / 2.0 - x * x / 2.0 }

  /** One application moves a non-negative value towards 1, by at least the factor Shrink(x). */
  lemma GApproachesOne(degree: int, x: real)
    requires 0.0 <= x <= 1.0
    ensures 1.0 - G(degree, x) <= (1.0 - x) * Shrink(x)
    ensures x <= G(degree, x)
  {
    var p := 1.0 - x * x;
    assert 0.0 <= p by { MulMonotone(x, x, 1.0); }
    CubicGap(x);
    CubicGrows(x, p);
    if degree == 9 {
      NonicForm(x);
      NonicAboveCubic(x, p);
    } else {
      CubicForm(degree, x);
    }
  }

  lemma CubicGap(x: real)
    ensures 1.0 - CubicAt(x) == (1.0 - x) * Shrink(x)
  {
  }

  lemma CubicGrows(x: real, p: real)
    requires 0.0 <= x && 0.0 <= p == 1.0 - x * x
    ensures x <= CubicAt(x)
  {
    MulNonNegative(x, p);
    assert CubicAt(x) == x + x * (1.0 - x * x) / 2.0;
    assert x * p == x * (1.0 - x * x);
  }

  lemma NonicAboveCubic(x: real, p: real)
    requires 0.0 <= x && 0.0 <= p == 1.0 - x * x
    ensures CubicAt(x) <= NonicAt(x)
  {
    var r := 3.0 / 8.0 + p * (5.0 / 16.0 + p * (35.0 / 128.0));
    MulNonNegative(p, 35.0 / 128.0);
    MulNonNegative(p, 5.0 / 16.0 + p * (35.0 / 128.0));
    MulNonNegative(p, p);
    MulNonNegative(p * p, r);
    MulNonNegative(x, (p * p) * r);
    NonicMinusCubic(x, p, r);
  }

  lemma NonicMinusCubic(x: real, p: real, r: real)
    requires p == 1.0 - x * x && r == 3.0 / 8.0 + p * (5.0 / 16.0 + p * (35.0 / 128.0))
    ensures NonicAt(x) == CubicAt(x) + x * ((p * p) * r)
  {
  }

  // ---------------------------------------------------------------- compositions

  lemma {:induction false} ComposeIsOdd(degree: int, k: nat, x: real)
    ensures Compose(degree, k, -x) == -Compose(degree, k, x)
  {
    if k > 0 {
      ComposeIsOdd(degree, k - 1, x);
      GIsOdd(degree, Compose(degree, k - 1, x));
    }
  }

  lemma {:induction false} ComposeAtZero(degree: int, k: nat)
    ensures Compose(degree, k, 0.0) == 0.0
  {
    if k > 0 {
      ComposeAtZero(degree, k - 1);
      GFixesEnds(degree);
    }
  }

  lemma {:induction false} ComposeKeepsRange(degree: int, k: nat, x: real)
    requires -1.0 <= x <= 1.0
    ensures -1.0 <= Compose(degree, k, x) <= 1.0
  {
    if k > 0 {
      ComposeKeepsRange(degree, k - 1, x);
      GKeepsRange(degree, Compose(degree, k - 1, x));
    }
  }

  lemma {:induction false} ComposeIncreases(degree: int, k: nat, x: real, y: real)
    requires -1.0 <= x < y <= 1.0
    ensures Compose(degree, k, x) < Compose(degree, k, y)
  {
    if k > 0 {
      ComposeIncreases(degree, k - 1, x, y);
      ComposeKeepsRange(degree, k - 1, x);
      ComposeKeepsRange(degree, k - 1, y);
      GIncreases(degree, Compose(degree, k - 1, x), Compose(degree, k - 1, y));
    }
  }

  lemma ComposeNeverDecreases(degree: int, k: nat, x: real, y: real)
    requires -1.0 <= x <= y <= 1.0
    ensures Compose(degree, k, x) <= Compose(degree, k, y)
  {
    if x < y { ComposeIncreases(degree, k, x, y); }
  }

  /** The distance from 1 that remains after k applications, starting from x. */
  function Remaining(x: real, k: nat): real { (1.0 - x) * Pow(Shrink(x), k) }

  /** Composition converges to 1 geometrically on (0, 1]. */
  lemma {:induction false} ComposeApproachesOne(degree: int, k: nat, x: real)
    requires 0.0 <= x <= 1.0
    ensures x <= Compose(degree, k, x) <= 1.0
    ensures 1.0 - Compose(degree, k, x) <= Remaining(x, k)
  {
    if k > 0 {
      ComposeApproachesOne(degree, k - 1, x);
      ComposeKeepsRange(degree, k, x);
      GApproachesOne(degree, Compose(degree, k - 1, x));
      RemainingStep(x, k, Compose(degree, k - 1, x), Compose(degree, k, x));
    }
  }

  lemma RemainingStep(x: real, k: nat, c: real, c': real)
    requires 0 < k && 0.0 <= x <= c <= 1.0
    requires 1.0 - c <= Remaining(x, k - 1)
    requires 1.0 - c' <= (1.0 - c) * Shrink(c)
    ensures 1.0 - c' <= Remaining(x, k)
  {
    hide Shrink;
    ShrinkDecreases(x, c);
    ShrinkStep(1.0 - c, 1.0 - c', Shrink(c), Shrink(x), 1.0 - x, Pow(Shrink(x), k - 1), Pow(Shrink(x), k));
  }

  lemma ShrinkDecreases(x: real, c: real)
    requires 0.0 <= x <= c <= 1.0
    ensures 0.0 <= Shrink(c) <= Shrink(x) <= 1.0
  {
    SquareMonotone(0.0, x);
    SquareMonotone(x, c);
    SquareMonotone(c, 1.0);
  }

  lemma SquareMonotone(x: real, y: real)
    requires 0.0 <= x <= y
    ensures x * x <= y * y
  {
    MulMonotone(x, x, y);
    MulMonotone(y, x, y);
    assert x * y == y * x;
  }

  lemma ShrinkStep(gap: real, gap': real, s: real, s': real, e: real, d: real, d': real)
    requires 0.0 <= gap <= e * d && 0.0 <= s <= s'
    requires gap' <= gap * s && d' == s' * d
    ensures gap' <= e * d'
  {
    MulMonotone(gap, s, s');
    MulMonotone(s', gap, e * d);
    assert s' * (e * d) == e * (s' * d);
  }

  // ---------------------------------------------------------------- the soft step

  /** The soft step is a fair comparison: both orders of a pair share one unit. */
  lemma StepSymmetry(degree: int, iters: int, x: real)
    ensures Step(degree, iters, x) + Step(degree, iters, -x) == 1.0
  {
    ComposeIsOdd(degree, EffectiveIters(iters), x);
  }

  /** The self comparison is exactly one half, for every degree and iteration count. */
  lemma StepAtZero(degree: int, iters: int)
    ensures Step(degree, iters, 0.0) == 0.5
  {
    ComposeAtZero(degree, EffectiveIters(iters));
  }

  lemma StepRange(degree: int, iters: int, x: real)
    requires -1.0 <= x <= 1.0
    ensures 0.0 <= Step(degree, iters, x) <= 1.0
    ensures -1.0 < x ==> 0.0 < Step(degree, iters, x)
  {
    ComposeKeepsRange(degree, EffectiveIters(iters), x);
    if -1.0 < x {
      ComposeKeepsRange(degree, EffectiveIters(iters), -1.0);
      ComposeIncreases(degree, EffectiveIters(iters), -1.0, x);
    }
  }

  lemma StepIncreases(degree: int, iters: int, x: real, y: real)
    requires -1.0 <= x < y <= 1.0
    ensures Step(degree, iters, x) < Step(degree, iters, y)
  {
    ComposeIncreases(degree, EffectiveIters(iters), x, y);
  }

  /** How far the step is from certain when the compared keys differ by at least delta. */
  lemma StepSeparates(degree: int, iters: int, delta: real, x: real)
    requires 0.0 <= delta <= x <= 1.0
    ensures Step(degree, iters, -x) <= (1.0 - Compose(degree, EffectiveIters(iters), delta)) / 2.0
  {
    var k := EffectiveIters(iters);
    ComposeIsOdd(degree, k, x);
    ComposeNeverDecreases(degree, k, delta, x);
  }
}
