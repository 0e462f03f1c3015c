/** The sign polynomials of internal/fhe/argmin_circuit.go, their composition and the soft step. */
module SignPolynomial {
  /** Ascending coefficients of one application of g; every degree other than 9 selects the cubic. */
  function SignCoeffs(degree: int): (cs: seq<real>)
    ensures |cs| == Degree(degree) + 1
  {
    if degree == 9 then
      [0.0, 315.0 / 128.0, 0.0, -105.0 / 32.0, 0.0, 189.0 / 64.0, 0.0, -45.0 / 32.0, 0.0, 35.0 / 128.0]
    else
      [0.0, 1.5, 0.0, -0.5]
  }

  /** The degree of the polynomial `SignCoeffs` returns. */
  function Degree(degree: int): nat { if degree == 9 then 9 else 3 }

  function Pow(x: real, n: nat): real
  {
    if n == 0 then 1.0 else x * Pow(x, n - 1)
  }

  /** The meaning of a coefficient list: the sum of cs[i] * x^i over all i. */
  function PowerSum(cs: seq<real>, x: real): real
  {
    if cs == [] then 0.0 else PowerSum(cs[..|cs| - 1], x) + cs[|cs| - 1] * Pow(x, |cs| - 1)
  }

  /** The nested form: cs[0] + x * (cs[1] + x * (...)). */
  function Horner(cs: seq<real>, x: real): real
  {
    if cs == [] then 0.0 else cs[0] + x * Horner(cs[1..], x)
  }

  /** Horner's nested form evaluates the polynomial. */
  lemma {:induction false} HornerIsPowerSum(cs: seq<real>, x: real)
    ensures Horner(cs, x) == PowerSum(cs, x)
  {
    if cs != [] {
      HornerIsPowerSum(cs[1..], x);
      PowerSumFront(cs, x);
      SameTail(x, cs[0], Horner(cs[1..], x), PowerSum(cs[1..], x), Horner(cs, x), PowerSum(cs, x));
    }
  }

  lemma SameTail(x: real, c0: real, a: real, b: real, p: real, q: real)
    requires a == b && p == c0 + x * a && q == c0 + x * b
    ensures p == q
  {
  }

  lemma {:induction false} PowerSumFront(cs: seq<real>, x: real)
    requires cs != []
    ensures PowerSum(cs, x) == cs[0] + x * PowerSum(cs[1..], x)
  {
    hide PowerSum, Pow;
    var n := |cs|;
    PowerSumBack(cs, x);
    if n == 1 {
      PowerSumEmpty(x);
      assert cs[..0] == [] == cs[1..];
    } else {
      var init, tail := cs[..n - 1], cs[1..];
      PowerSumFront(init, x);
      PowerSumBack(tail, x);
      assert init[1..] == tail[..n - 2];
      Regroup(x, cs[0], PowerSum(init[1..], x), cs[n - 1], Pow(x, n - 2), Pow(x, n - 1),
              PowerSum(tail, x), PowerSum(init, x), PowerSum(cs, x));
    }
  }

  lemma PowerSumEmpty(x: real)
    ensures PowerSum([], x) == 0.0 && Pow(x, 0) == 1.0 && x * 0.0 == 0.0
  {
  }

  lemma PowerSumBack(cs: seq<real>, x: real)
    requires cs != []
    ensures PowerSum(cs, x) == PowerSum(cs[..|cs| - 1], x) + cs[|cs| - 1] * Pow(x, |cs| - 1)
    ensures |cs| > 1 ==> Pow(x, |cs| - 1) == x * Pow(x, |cs| - 2)
  {
  }

  lemma Regroup(x: real, c0: real, s: real, c: real, p: real, p': real, tail: real, init: real, total: real)
    requires total == init + c * p' && init == c0 + x * s && tail == s + c * p && p' == x * p
    ensures total == c0 + x * tail
  {
  }

  /** One application of g. */
  function G(degree: int, x: real): real { Horner(SignCoeffs(degree), x) }

  /** g composed k times. */
  function Compose(degree: int, k: nat, x: real): real
  {
    if k == 0 then x else G(degree, Compose(degree, k - 1, x))
  }

  /** The effective composition count: at least one. */
  function EffectiveIters(iters: int): nat { if iters < 1 then 1 else iters }

  /** The soft comparison: near 1 for x > 0, near 0 for x < 0. */
  function Step(degree: int, iters: int, x: real): real
  {
    (Compose(degree, EffectiveIters(iters), x) + 1.0) / 2.0
  }

  /** A count below one composes g once, any other count that often. */
  lemma StepByCount(degree: int, iters: int, x: real)
    ensures iters < 1 ==> Step(degree, iters, x) == (PowerSum(SignCoeffs(degree), x) + 1.0) / 2.0
    ensures iters >= 1 ==> Step(degree, iters, x) == (Compose(degree, iters, x) + 1.0) / 2.0
  {
    HornerIsPowerSum(SignCoeffs(degree), x);
    assert Compose(degree, 1, x) == G(degree, Compose(degree, 0, x));
  }

  /** Composing j times after k times is composing j + k times; none leaves x and one is the polynomial. */
  lemma {:induction false} ComposeAdds(degree: int, j: nat, k: nat, x: real)
    ensures Compose(degree, j + k, x) == Compose(degree, j, Compose(degree, k, x))
    ensures Compose(degree, 0, x) == x && Compose(degree, 1, x) == PowerSum(SignCoeffs(degree), x)
  {
    HornerIsPowerSum(SignCoeffs(degree), x);
    assert Compose(degree, 1, x) == G(degree, Compose(degree, 0, x));
    if j > 0 {
      ComposeAdds(degree, j - 1, k, x);
    }
  }

  // ---------------------------------------------------------------- closed forms

  function CubicAt(x: real): real { 1.5 * x - 0.5 * x * x * x }

  lemma CubicForm(degree: int, x: real)
    requires degree != 9
    ensures G(degree, x) == CubicAt(x)
  {
    var cs := SignCoeffs(degree);
    assert cs[1..] == [1.5, 0.0, -0.5] && cs[1..][1..] == [0.0, -0.5] && cs[1..][1..][1..] == [-0.5];
    assert Horner([-0.5], x) == -0.5;
    assert Horner([0.0, -0.5], x) == x * -0.5;
    assert Horner([1.5, 0.0, -0.5], x) == 1.5 + x * (x * -0.5);
  }

  function NonicAt(x: real): real { x * Nonic(x * x) }

  /** x * (315/128 - 105/32 y + 189/64 y^2 - 45/32 y^3 + 35/128 y^4) with y = x^2. */
  function Nonic(y: real): real
  {
    315.0 / 128.0 + y * (-105.0 / 32.0 + y * (189.0 / 64.0 + y * (-45.0 / 32.0 + y * (35.0 / 128.0))))
  }

  lemma NonicForm(x: real)
    ensures G(9, x) == NonicAt(x)
  {
    var y := x * x;
    var h9 := 35.0 / 128.0;
    var h7 := -45.0 / 32.0 + y * h9;
    var h5 := 189.0 / 64.0 + y * h7;
    var h3 := -105.0 / 32.0 + y * h5;
    assert Horner([h9], x) == h9;
    HornerTwo(-45.0 / 32.0, [h9], x);
    HornerTwo(189.0 / 64.0, [-45.0 / 32.0, 0.0, h9], x);
    HornerTwo(-105.0 / 32.0, [189.0 / 64.0, 0.0, -45.0 / 32.0, 0.0, h9], x);
    HornerTwo(315.0 / 128.0, [-105.0 / 32.0, 0.0, 189.0 / 64.0, 0.0, -45.0 / 32.0, 0.0, h9], x);
    HornerStep(0.0, SignCoeffs(9)[1..], x);
    assert [0.0] + SignCoeffs(9)[1..] == SignCoeffs(9);
    assert SignCoeffs(9)[1..] == [315.0 / 128.0, 0.0, -105.0 / 32.0, 0.0, 189.0 / 64.0, 0.0, -45.0 / 32.0, 0.0, h9];
  }

  lemma HornerStep(c: real, cs: seq<real>, x: real)
    ensures Horner([c] + cs, x) == c + x * Horner(cs, x)
  {
    assert ([c] + cs)[1..] == cs;
  }

  lemma HornerTwo(c: real, cs: seq<real>, x: real)
    ensures Horner([c, 0.0] + cs, x) == c + x * x * Horner(cs, x)
  {
    HornerStep(0.0, cs, x);
    HornerStep(c, [0.0] + cs, x);
    assert [c] + ([0.0] + cs) == [c, 0.0] + cs;
    assert x * (0.0 + x * Horner(cs, x)) == x * x * Horner(cs, x);
  }
}
