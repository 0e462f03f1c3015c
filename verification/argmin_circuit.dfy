/** The plaintext reference of internal/fhe/argmin_circuit.go: input layout, exact one-hot and soft mask. */
module ArgminCircuit {
  import opened SignPolynomial

  datatype Circuit = Circuit(keys: seq<real>, signDegree: int, signIters: int)

  // ---------------------------------------------------------------- specification

  /** The product of step(keys[j] - keys[i]) over all j < n other than i. */
  function SlotProduct(keys: seq<real>, degree: int, iters: int, i: nat, n: nat): real
    requires i < |keys| && n <= |keys|
  {
    if n == 0 then 1.0
    else if n - 1 == i then SlotProduct(keys, degree, iters, i, n - 1)
    else SlotProduct(keys, degree, iters, i, n - 1) * Step(degree, iters, keys[n - 1] - keys[i])
  }

  function Slot(keys: seq<real>, degree: int, iters: int, i: nat): real
    requires i < |keys|
  {
    SlotProduct(keys, degree, iters, i, |keys|)
  }

  /** The soft mask: slot i multiplies the comparisons of key i with every other key. */
  function Mask(keys: seq<real>, degree: int, iters: int): (mask: seq<real>)
    ensures |mask| == |keys|
    ensures forall i :: 0 <= i < |keys| ==> mask[i] == Slot(keys, degree, iters, i)
  {
    seq(|keys|, i requires 0 <= i < |keys| => Slot(keys, degree, iters, i))
  }

  /** Every count below one gives the mask of a single composition. */
  lemma OneCompositionAtLeast(keys: seq<real>, degree: int, iters: int)
    ensures Mask(keys, degree, iters) == Mask(keys, degree, if iters < 1 then 1 else iters)
  {
    forall i: nat | i < |keys|
      ensures Slot(keys, degree, iters, i) == Slot(keys, degree, if iters < 1 then 1 else iters, i)
    {
      SameProduct(keys, degree, iters, i, |keys|);
    }
  }

  lemma {:induction false} SameProduct(keys: seq<real>, degree: int, iters: int, i: nat, n: nat)
    requires i < |keys| && n <= |keys|
    ensures SlotProduct(keys, degree, iters, i, n) == SlotProduct(keys, degree, if iters < 1 then 1 else iters, i, n)
  {
    if n > 0 {
      SameProduct(keys, degree, iters, i, n - 1);
    }
  }

  /** The lowest index holding the minimum. */
  predicate FirstMin(keys: seq<real>, m: int)
  {
    && 0 <= m < |keys|
    && (forall j :: 0 <= j < |keys| ==> keys[m] <= keys[j])
    && (forall j :: 0 <= j < m ==> keys[m] < keys[j])
  }

  predicate OneHot(row: seq<real>, n: nat, m: int)
  {
    |row| == n && forall i :: 0 <= i < n ==> row[i] == if i == m then 1.0 else 0.0
  }

  predicate Constant(row: seq<real>, n: nat, v: real)
  {
    |row| == n && forall i :: 0 <= i < n ==> row[i] == v
  }

  // ---------------------------------------------------------------- operations

  method Fill(n: nat, v: real) returns (out: seq<real>)
    ensures Constant(out, n, v)
  {
    out := [];
    for i := 0 to n
      invariant Constant(out, i, v)
    {
      out := out + [v];
    }
  }

  function SignCoeffLead(degree: int): real
  {
    SignCoeffs(degree)[|SignCoeffs(degree)| - 1]
  }

  /** The rows the circuit expects in encrypted form: the keys, zeros, and the leading coefficient. */
  predicate InputLayout(c: Circuit, rows: seq<seq<real>>)
  {
    && |rows| == 3
    && rows[0] == c.keys
    && Constant(rows[1], |c.keys|, 0.0)
    && Constant(rows[2], |c.keys|, SignCoeffLead(c.signDegree))
  }

  method Inputs(c: Circuit) returns (rows: seq<seq<real>>)
    ensures InputLayout(c, rows)
  {
    var zeros := Fill(|c.keys|, 0.0);
    var seed := Fill(|c.keys|, SignCoeffLead(c.signDegree));
    rows := [c.keys, zeros, seed];
  }

  /** The exact one-hot of the minimum key; ties go to the lowest index. */
  method Expected(inputs: seq<seq<real>>) returns (out: seq<real>)
    requires |inputs| > 0
    ensures inputs[0] == [] ==> out == []
    ensures forall m :: FirstMin(inputs[0], m) ==> OneHot(out, |inputs[0]|, m)
  {
    var keys := inputs[0];
    out := Fill(|keys|, 0.0);
    if |keys| == 0 {
      return;
    }
    var minIdx := 0;
    for i := 1 to |keys|
      invariant 0 <= minIdx < i
      invariant FirstMin(keys[..i], minIdx)
    {
      if keys[i] < keys[minIdx] {
        minIdx := i;
      }
    }
    assert keys[..|keys|] == keys;
    out := out[minIdx := 1.0];
  }

  /** Horner evaluation; the empty polynomial is zero. */
  method PolyEval(coeffs: seq<real>, x: real) returns (acc: real)
    ensures acc == PowerSum(coeffs, x)
  {
    HornerIsPowerSum(coeffs, x);
    if |coeffs| == 0 {
      return 0.0;
    }
    acc := coeffs[|coeffs| - 1];
    assert coeffs[|coeffs| - 1..][1..] == [];
    assert x * Horner([], x) == 0.0;
    for i := |coeffs| - 1 downto 0
      invariant acc == Horner(coeffs[i..], x)
    {
      assert coeffs[i..][1..] == coeffs[i + 1..];
      acc := acc * x + coeffs[i];
    }
    assert coeffs[0..] == coeffs;
  }

  method PlaintextStep(degree: int, iters: int, x: real) returns (r: real)
    ensures r == Step(degree, iters, x)
    ensures iters < 1 ==> r == (PowerSum(SignCoeffs(degree), x) + 1.0) / 2.0
    ensures iters >= 1 ==> r == (Compose(degree, iters, x) + 1.0) / 2.0
  {
    StepByCount(degree, iters, x);
    var cs := SignCoeffs(degree);
    var v := x;
    var n := if iters < 1 then 1 else iters;
    for i := 0 to n
      invariant v == Compose(degree, i, x)
    {
      HornerIsPowerSum(cs, v);
      v := PolyEval(cs, v);
    }
    r := (v + 1.0) / 2.0;
  }

  method PlaintextMask(keys: seq<real>, degree: int, iters: int) returns (out: seq<real>)
    ensures out == Mask(keys, degree, if iters < 1 then 1 else iters)
  {
    OneCompositionAtLeast(keys, degree, iters);
    var n := |keys|;
    out := [];
    for i := 0 to n
      invariant |out| == i
      invariant forall j :: 0 <= j < i ==> out[j] == Slot(keys, degree, iters, j)
    {
      var prod := 1.0;
      for j := 0 to n
        invariant prod == SlotProduct(keys, degree, iters, i, j)
      {
        if j == i {
          continue;
        }
        var s := PlaintextStep(degree, iters, keys[j] - keys[i]);
        prod := prod * s;
      }
      out := out + [prod];
    }
  }
}
