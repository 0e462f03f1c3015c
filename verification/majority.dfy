/** The sign polynomials as majority polynomials.

  With x = t - u and t + u = 1, (g(x) + 1) / 2 is the chance that more than half of 3 (or 9)
  independent trials of success chance t succeed. That chance increases strictly with t, which is
  the strict monotonicity of g on [-1, 1].
  */
module Majority {
  import opened RealFacts
  import opened SignPolynomial

  /** The chance of an event whose chance is a after a success (chance t) and b after a failure (chance u). */
  ghost function Mix(t: real, u: real, a: real, b: real): real { t * a + u * b }

  /** The chance of at least m successes in n independent trials. */
  ghost function Tail(n: nat, m: int, t: real, u: real): real
  {
    if m <= 0 then 1.0 else if n == 0 then 0.0 else Mix(t, u, Tail(n - 1, m - 1, t, u), Tail(n - 1, m, t, u))
  }

  lemma MixMonotone(t: real, u: real, a: real, b: real, c: real, d: real)
    requires 0.0 <= t && 0.0 <= u && a <= c && b <= d
    ensures Mix(t, u, a, b) <= Mix(t, u, c, d)
  {
    MulMonotone(t, a, c);
    MulMonotone(u, b, d);
  }

  lemma MixStrictLeft(t: real, u: real, a: real, b: real, c: real, d: real)
    requires 0.0 < t && 0.0 <= u && a < c && b <= d
    ensures Mix(t, u, a, b) < Mix(t, u, c, d)
  {
    MulStrict(t, a, c);
    MulMonotone(u, b, d);
  }

  lemma MixStrictRight(t: real, u: real, a: real, b: real, c: real, d: real)
    requires 0.0 <= t && 0.0 < u && a <= c && b < d
    ensures Mix(t, u, a, b) < Mix(t, u, c, d)
  {
    MulMonotone(t, a, c);
    MulStrict(u, b, d);
  }

  lemma MixTransfer(s: real, v: real, t: real, u: real, a: real, b: real)
    requires s + v == t + u
    ensures Mix(t, u, a, b) == Mix(s, v, a, b) + Times(t - s, a - b)
  {
    var e := t - s;
    assert v == u + e;
    assert (s + e) * a + u * b == s * a + (u + e) * b + e * (a - b);
  }

  lemma MixIncreases(s: real, v: real, t: real, u: real, a: real, b: real, a': real, b': real)
    requires 0.0 <= s < t && 0.0 <= u && s + v == t + u && b <= a <= a' && b <= b'
    ensures Mix(s, v, a, b) <= Mix(t, u, a, b) <= Mix(t, u, a', b')
  {
    hide Mix;
    MixTransfer(s, v, t, u, a, b);
    MulNonNegative(t - s, a - b);
    MixMonotone(t, u, a, b, a', b');
  }

  lemma MixIncreasesStrictly(s: real, v: real, t: real, u: real, a: real, b: real, a': real, b': real)
    requires 0.0 <= s < t && 0.0 <= u && s + v == t + u && b <= a <= a' && b <= b'
    requires b < a || a < a'
    ensures Mix(s, v, a, b) < Mix(t, u, a', b')
  {
    hide Mix;
    MixIncreases(s, v, t, u, a, b, a', b');
    if b < a {
      MixTransfer(s, v, t, u, a, b);
      MulPositive(t - s, a - b);
    } else {
      MixStrictLeft(t, u, a, b, a', b');
    }
  }

  lemma {:induction false} TailDecreasesInM(n: nat, m: int, t: real, u: real)
    requires 0.0 <= t && 0.0 <= u && t + u == 1.0
    ensures 0.0 <= Tail(n, m, t, u) <= Tail(n, m - 1, t, u) <= 1.0
  {
    if m > 0 && n > 0 {
      var lo, mid, hi := Tail(n - 1, m, t, u), Tail(n - 1, m - 1, t, u), Tail(n - 1, m - 2, t, u);
      TailDecreasesInM(n - 1, m, t, u);
      TailDecreasesInM(n - 1, m - 1, t, u);
      MixMonotone(t, u, 0.0, 0.0, mid, lo);
      MixMonotone(t, u, mid, lo, hi, mid);
      MixMonotone(t, u, hi, mid, 1.0, 1.0);
    }
  }

  /** More likely trials make every non-trivial tail strictly more likely. */
  lemma {:induction false} TailIncreases(n: nat, m: int, s: real, v: real, t: real, u: real)
    requires 0.0 <= s < t && 0.0 <= u && s + v == t + u == 1.0
    ensures Tail(n, m, s, v) <= Tail(n, m, t, u)
    ensures 1 <= m <= n ==> Tail(n, m, s, v) < Tail(n, m, t, u)
  {
    if m > 0 && n > 0 {
      TailIncreases(n - 1, m - 1, s, v, t, u);
      TailIncreases(n - 1, m, s, v, t, u);
      TailDecreasesInM(n - 1, m, s, v);
      if m == 1 {
        SureSuccess(n - 1, s, v);
      }
      var a, b := Tail(n - 1, m - 1, s, v), Tail(n - 1, m, s, v);
      var a', b' := Tail(n - 1, m - 1, t, u), Tail(n - 1, m, t, u);
      MixIncreases(s, v, t, u, a, b, a', b');
      if m <= n {
        MixIncreasesStrictly(s, v, t, u, a, b, a', b');
      }
    }
  }

  lemma {:induction false} SureSuccess(n: nat, t: real, u: real)
    requires 0.0 <= t && 0.0 < u && t + u == 1.0
    ensures Tail(n, 1, t, u) < 1.0
  {
    if n > 0 {
      SureSuccess(n - 1, t, u);
      MixStrictRight(t, u, 1.0, Tail(n - 1, 1, t, u), 1.0, 1.0);
    }
  }

  /** The chance of at most d failures before the m-th success, divided by t^m. */
  ghost function Waiting(d: int, m: nat, u: real): real
    decreases m, d
  {
    if d < 0 then 0.0 else if m == 0 then 1.0 else Waiting(d, m - 1, u) + u * Waiting(d - 1, m, u)
  }

  lemma {:induction false} TailAsWaiting(n: nat, m: nat, t: real, u: real)
    requires m <= n
    ensures Tail(n, m, t, u) == Times(Pow(t, m), Waiting(n - m, m, u))
  {
    if m > 0 {
      TailAsWaiting(n - 1, m - 1, t, u);
      if m < n {
        TailAsWaiting(n - 1, m, t, u);
      } else {
        TailBeyond(n - 1, m, t, u);
      }
      assert Tail(n - 1, m, t, u) == Times(Pow(t, m), Waiting(n - m - 1, m, u));
      TailWaitingStep(n, m, t, u);
    }
  }

  lemma TailWaitingStep(n: nat, m: nat, t: real, u: real)
    requires 0 < m <= n
    requires Tail(n - 1, m - 1, t, u) == Times(Pow(t, m - 1), Waiting(n - m, m - 1, u))
    requires Tail(n - 1, m, t, u) == Times(Pow(t, m), Waiting(n - m - 1, m, u))
    ensures Tail(n, m, t, u) == Times(Pow(t, m), Waiting(n - m, m, u))
  {
    hide Times, Mix;
    MixWaiting(t, u, Pow(t, m - 1), Pow(t, m), Waiting(n - m, m - 1, u), Waiting(n - m - 1, m, u),
               Waiting(n - m, m, u));
  }

  lemma {:induction false} TailBeyond(n: nat, m: int, t: real, u: real)
    requires m > n
    ensures Tail(n, m, t, u) == 0.0
  {
    if n > 0 {
      TailBeyond(n - 1, m - 1, t, u);
      TailBeyond(n - 1, m, t, u);
    }
  }

  lemma MixWaiting(t: real, u: real, p: real, p': real, v: real, w: real, w': real)
    requires p' == t * p && w' == v + u * w
    ensures Mix(t, u, Times(p, v), Times(p', w)) == Times(p', w')
  {
  }

  ghost function Quartic(a: real, b: real, c: real, d: real, e: real, u: real): real
  {
    a + u * (b + u * (c + u * (d + u * e)))
  }

  lemma WaitingStep(m: nat, n: nat, u: real, a: real, b: real, c: real, d: real, e: real, b': real, c': real,
                    d': real, e': real)
    requires m > 0 && Waiting(n, m - 1, u) == Quartic(a, b, c, d, e, u)
    requires Waiting(n - 1, m, u) == Quartic(b' - b, c' - c, d' - d, e' - e, 0.0, u)
    ensures Waiting(n, m, u) == Quartic(a, b', c', d', e', u)
  {
    ShiftAdd(u, a, b, c, d, e, b', c', d', e', Quartic(b' - b, c' - c, d' - d, e' - e, 0.0, u));
  }

  lemma ShiftAdd(u: real, a: real, b: real, c: real, d: real, e: real, b': real, c': real, d': real, e': real, q: real)
    requires q == Quartic(b' - b, c' - c, d' - d, e' - e, 0.0, u)
    ensures Quartic(a, b, c, d, e, u) + u * q == Quartic(a, b', c', d', e', u)
  {
  }

  lemma WaitingZero(u: real)
    ensures Waiting(0, 1, u) == Quartic(1.0, 0.0, 0.0, 0.0, 0.0, u)
    ensures Waiting(0, 2, u) == Quartic(1.0, 0.0, 0.0, 0.0, 0.0, u)
    ensures Waiting(0, 3, u) == Quartic(1.0, 0.0, 0.0, 0.0, 0.0, u)
    ensures Waiting(0, 4, u) == Quartic(1.0, 0.0, 0.0, 0.0, 0.0, u)
    ensures Waiting(0, 5, u) == Quartic(1.0, 0.0, 0.0, 0.0, 0.0, u)
  {
  }

  lemma WaitingOne(u: real)
    ensures Waiting(1, 1, u) == Quartic(1.0, 1.0, 0.0, 0.0, 0.0, u)
    ensures Waiting(1, 2, u) == Quartic(1.0, 2.0, 0.0, 0.0, 0.0, u)
    ensures Waiting(1, 3, u) == Quartic(1.0, 3.0, 0.0, 0.0, 0.0, u)
    ensures Waiting(1, 4, u) == Quartic(1.0, 4.0, 0.0, 0.0, 0.0, u)
    ensures Waiting(1, 5, u) == Quartic(1.0, 5.0, 0.0, 0.0, 0.0, u)
  {
    WaitingZero(u);
    assert Waiting(1, 0, u) == Quartic(1.0, 0.0, 0.0, 0.0, 0.0, u);
    hide Quartic;
    WaitingStep(1, 1, u, 1.0, 0.0, 0.0, 0.0, 0.0, 1.0, 0.0, 0.0, 0.0);
    WaitingStep(2, 1, u, 1.0, 1.0, 0.0, 0.0, 0.0, 2.0, 0.0, 0.0, 0.0);
    WaitingStep(3, 1, u, 1.0, 2.0, 0.0, 0.0, 0.0, 3.0, 0.0, 0.0, 0.0);
    WaitingStep(4, 1, u, 1.0, 3.0, 0.0, 0.0, 0.0, 4.0, 0.0, 0.0, 0.0);
    WaitingStep(5, 1, u, 1.0, 4.0, 0.0, 0.0, 0.0, 5.0, 0.0, 0.0, 0.0);
  }

  lemma WaitingTwo(u: real)
    ensures Waiting(2, 1, u) == Quartic(1.0, 1.0, 1.0, 0.0, 0.0, u)
    ensures Waiting(2, 2, u) == Quartic(1.0, 2.0, 3.0, 0.0, 0.0, u)
    ensures Waiting(2, 3, u) == Quartic(1.0, 3.0, 6.0, 0.0, 0.0, u)
    ensures Waiting(2, 4, u) == Quartic(1.0, 4.0, 10.0, 0.0, 0.0, u)
    ensures Waiting(2, 5, u) == Quartic(1.0, 5.0, 15.0, 0.0, 0.0, u)
  {
    WaitingOne(u);
    assert Waiting(2, 0, u) == Quartic(1.0, 0.0, 0.0, 0.0, 0.0, u);
    hide Quartic;
    WaitingStep(1, 2, u, 1.0, 0.0, 0.0, 0.0, 0.0, 1.0, 1.0, 0.0, 0.0);
    WaitingStep(2, 2, u, 1.0, 1.0, 1.0, 0.0, 0.0, 2.0, 3.0, 0.0, 0.0);
    WaitingStep(3, 2, u, 1.0, 2.0, 3.0, 0.0, 0.0, 3.0, 6.0, 0.0, 0.0);
    WaitingStep(4, 2, u, 1.0, 3.0, 6.0, 0.0, 0.0, 4.0, 10.0, 0.0, 0.0);
    WaitingStep(5, 2, u, 1.0, 4.0, 10.0, 0.0, 0.0, 5.0, 15.0, 0.0, 0.0);
  }

  lemma WaitingThree(u: real)
    ensures Waiting(3, 1, u) == Quartic(1.0, 1.0, 1.0, 1.0, 0.0, u)
    ensures Waiting(3, 2, u) == Quartic(1.0, 2.0, 3.0, 4.0, 0.0, u)
    ensures Waiting(3, 3, u) == Quartic(1.0, 3.0, 6.0, 10.0, 0.0, u)
    ensures Waiting(3, 4, u) == Quartic(1.0, 4.0, 10.0, 20.0, 0.0, u)
    ensures Waiting(3, 5, u) == Quartic(1.0, 5.0, 15.0, 35.0, 0.0, u)
  {
    WaitingTwo(u);
    assert Waiting(3, 0, u) == Quartic(1.0, 0.0, 0.0, 0.0, 0.0, u);
    hide Quartic;
    WaitingStep(1, 3, u, 1.0, 0.0, 0.0, 0.0, 0.0, 1.0, 1.0, 1.0, 0.0);
    WaitingStep(2, 3, u, 1.0, 1.0, 1.0, 1.0, 0.0, 2.0, 3.0, 4.0, 0.0);
    WaitingStep(3, 3, u, 1.0, 2.0, 3.0, 4.0, 0.0, 3.0, 6.0, 10.0, 0.0);
    WaitingStep(4, 3, u, 1.0, 3.0, 6.0, 10.0, 0.0, 4.0, 10.0, 20.0, 0.0);
    WaitingStep(5, 3, u, 1.0, 4.0, 10.0, 20.0, 0.0, 5.0, 15.0, 35.0, 0.0);
  }

  lemma WaitingFour(u: real)
    ensures Waiting(4, 1, u) == Quartic(1.0, 1.0, 1.0, 1.0, 1.0, u)
    ensures Waiting(4, 2, u) == Quartic(1.0, 2.0, 3.0, 4.0, 5.0, u)
    ensures Waiting(4, 3, u) == Quartic(1.0, 3.0, 6.0, 10.0, 15.0, u)
    ensures Waiting(4, 4, u) == Quartic(1.0, 4.0, 10.0, 20.0, 35.0, u)
    ensures Waiting(4, 5, u) == Quartic(1.0, 5.0, 15.0, 35.0, 70.0, u)
  {
    WaitingThree(u);
    assert Waiting(4, 0, u) == Quartic(1.0, 0.0, 0.0, 0.0, 0.0, u);
    hide Quartic;
    WaitingStep(1, 4, u, 1.0, 0.0, 0.0, 0.0, 0.0, 1.0, 1.0, 1.0, 1.0);
    WaitingStep(2, 4, u, 1.0, 1.0, 1.0, 1.0, 1.0, 2.0, 3.0, 4.0, 5.0);
    WaitingStep(3, 4, u, 1.0, 2.0, 3.0, 4.0, 5.0, 3.0, 6.0, 10.0, 15.0);
    WaitingStep(4, 4, u, 1.0, 3.0, 6.0, 10.0, 15.0, 4.0, 10.0, 20.0, 35.0);
    WaitingStep(5, 4, u, 1.0, 4.0, 10.0, 20.0, 35.0, 5.0, 15.0, 35.0, 70.0);
  }

  lemma PowFive(t: real)
    ensures Pow(t, 2) == t * t
    ensures Pow(t, 5) == t * (t * (t * (t * t)))
  {
    assert Pow(t, 1) == t * 1.0;
    assert Pow(t, 3) == t * (t * t);
    assert Pow(t, 4) == t * (t * (t * t));
  }

  lemma NonicMajority(t: real, u: real)
    requires t + u == 1.0
    ensures G(9, t - u) == 2.0 * Tail(9, 5, t, u) - 1.0
  {
    TailAsWaiting(9, 5, t, u);
    NonicForm(t - u);
    PowFive(t);
    WaitingFour(u);
    NonicIdentity(t, u, Pow(t, 5), Waiting(4, 5, u));
  }

  lemma NonicIdentity(t: real, u: real, p: real, w: real)
    requires t + u == 1.0
    requires p == t * (t * (t * (t * t))) && w == Quartic(1.0, 5.0, 15.0, 35.0, 70.0, u)
    ensures NonicAt(t - u) == 2.0 * Times(p, w) - 1.0
  {
  }

  lemma CubicMajority(degree: int, t: real, u: real)
    requires degree != 9 && t + u == 1.0
    ensures G(degree, t - u) == 2.0 * Tail(3, 2, t, u) - 1.0
  {
    TailAsWaiting(3, 2, t, u);
    CubicForm(degree, t - u);
    PowFive(t);
    WaitingOne(u);
    CubicIdentity(t, u, Pow(t, 2), Waiting(1, 2, u));
  }

  lemma CubicIdentity(t: real, u: real, p: real, w: real)
    requires t + u == 1.0
    requires p == t * t && w == Quartic(1.0, 2.0, 0.0, 0.0, 0.0, u)
    ensures CubicAt(t - u) == 2.0 * Times(p, w) - 1.0
  {
  }
}
