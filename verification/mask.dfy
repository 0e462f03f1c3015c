/** The homomorphic argmin circuit of internal/fhe/mask.go over ideal ciphertexts.

  A ciphertext is its slot vector together with the multiplicative level it has used up. The handle
  offers only slotwise multiplication, one level deeper than its operands and refused beyond the
  handle's depth, and subtraction of a public vector, which costs no level.
  */
module Mask {
  import opened Wrappers
  import opened SignPolynomial
  import opened SignAnalysis
  import opened ArgminCircuit

  datatype Ciphertext = Ciphertext(slots: seq<real>, level: nat)

  function Max(a: nat, b: nat): nat { if a < b then b else a }

  predicate Broadcast(ct: Ciphertext, n: nat, v: real)
  {
    Constant(ct.slots, n, v) && ct.level == 0
  }

  class ContextHandle {
    const depth: nat
    var mults: nat

    constructor (depth: nat)
      ensures this.depth == depth && mults == 0
    {
      this.depth := depth;
      mults := 0;
    }

    method EvalMult(a: Ciphertext, b: Ciphertext) returns (r: Result<Ciphertext>)
      requires |a.slots| == |b.slots|
      modifies this
      ensures r.Ok? <==> Max(a.level, b.level) + 1 <= depth
      ensures r.Ok? ==>
                && |r.value.slots| == |a.slots|
                && (forall i :: 0 <= i < |a.slots| ==> r.value.slots[i] == a.slots[i] * b.slots[i])
                && r.value.level == Max(a.level, b.level) + 1
                && mults == old(mults) + 1
    {
      if Max(a.level, b.level) >= depth {
        return Err("depth exhausted");
      }
      mults := mults + 1;
      r := Ok(Ciphertext(seq(|a.slots|, i requires 0 <= i < |a.slots| => a.slots[i] * b.slots[i]),
                         Max(a.level, b.level) + 1));
    }

    method EvalSubConst(ct: Ciphertext, vals: seq<real>) returns (r: Ciphertext)
      requires |vals| == |ct.slots|
      ensures |r.slots| == |ct.slots| && r.level == ct.level
      ensures forall i :: 0 <= i < |ct.slots| ==> r.slots[i] == ct.slots[i] - vals[i]
    {
      r := Ciphertext(seq(|ct.slots|, i requires 0 <= i < |ct.slots| => ct.slots[i] - vals[i]), ct.level);
    }
  }

  // ---------------------------------------------------------------- the ledger

  /** Levels used by k applications of g: its degree, k times. */
  function ComposeLevels(degree: int, k: nat): nat { if degree == 9 then 9 * k else 3 * k }

  /** The number of rounds in which pairing up n items leaves one. */
  function CeilLog2(n: nat): nat { if n <= 1 then 0 else 1 + CeilLog2((n + 1) / 2) }

  function Pow2(k: nat): nat { if k == 0 then 1 else 2 * Pow2(k - 1) }

  /** CeilLog2 is the least k with n <= 2^k. */
  lemma {:induction false} CeilLog2IsLeast(n: nat, k: nat)
    requires n > 0
    ensures n <= Pow2(k) <==> CeilLog2(n) <= k
  {
    if n > 1 {
      if k == 0 {
      } else {
        CeilLog2IsLeast((n + 1) / 2, k - 1);
      }
    } else {
      PowTwoPositive(k);
    }
  }

  lemma {:induction false} PowTwoPositive(k: nat)
    ensures 1 <= Pow2(k)
  {
    if k > 0 { PowTwoPositive(k - 1); }
  }

  /** The level of one row of comparisons. */
  function RowLevels(c: Circuit): nat { ComposeLevels(c.signDegree, EffectiveIters(c.signIters)) + 1 }

  /** The level of the whole circuit. */
  function EvalLevels(c: Circuit): nat { RowLevels(c) + CeilLog2(|c.keys|) }

  /** Nine levels for each composition of the nonic, three for the cubic, at least one composition, one more for the
    map to [0, 1].
    */
  lemma LevelsOfCircuit(c: Circuit)
    ensures RowLevels(c) == (if c.signDegree == 9 then 9 else 3) * (if c.signIters < 1 then 1 else c.signIters) + 1
    ensures EvalLevels(c) == RowLevels(c) + CeilLog2(|c.keys|)
  {
  }

  // ---------------------------------------------------------------- polynomial and step

  /** Every slot holds the value of the polynomial with coefficients cs. */
  predicate Evaluates(acc: seq<real>, cs: seq<real>, x: seq<real>)
  {
    |acc| == |x| && forall i :: 0 <= i < |x| ==> acc[i] == Horner(cs, x[i])
  }

  lemma SeedEvaluates(seed: seq<real>, c: real, x: seq<real>)
    requires Constant(seed, |x|, c)
    ensures Evaluates(seed, [c], x)
  {
    forall i | 0 <= i < |x|
      ensures seed[i] == Horner([c], x[i])
    {
      assert [c][1..] == [];
      assert x[i] * Horner([], x[i]) == 0.0;
    }
  }

  /** One Horner step: multiply by x, then add the next coefficient. */
  lemma StepEvaluates(acc: seq<real>, m: seq<real>, acc': seq<real>, c: real, cs: seq<real>, x: seq<real>)
    requires Evaluates(acc, cs, x) && |m| == |acc'| == |x|
    requires forall i :: 0 <= i < |x| ==> m[i] == acc[i] * x[i]
    requires forall i :: 0 <= i < |x| ==> acc'[i] == m[i] + c
    ensures Evaluates(acc', [c] + cs, x)
  {
    forall i | 0 <= i < |x|
      ensures acc'[i] == Horner([c] + cs, x[i])
    {
      HornerStep(c, cs, x[i]);
      assert acc[i] * x[i] == x[i] * Horner(cs, x[i]);
    }
  }

  /** Horner evaluation on a ciphertext, skipping the addition of zero coefficients. */
  method HornerEval(h: ContextHandle, x: Ciphertext, seed: Ciphertext, coeffs: seq<real>, slots: nat)
    returns (r: Result<Ciphertext>)
    requires |coeffs| > 1 && |x.slots| == slots
    requires Constant(seed.slots, slots, coeffs[|coeffs| - 1])
    modifies h
    ensures r.Ok? <==> Max(seed.level, x.level) + |coeffs| - 1 <= h.depth
    ensures r.Ok? ==>
              && Evaluates(r.value.slots, coeffs, x.slots)
              && r.value.level == Max(seed.level, x.level) + |coeffs| - 1
              && h.mults == old(h.mults) + |coeffs| - 1
  {
    hide Evaluates;
    var acc := seed;
    ghost var n := |coeffs|;
    SeedEvaluates(seed.slots, coeffs[n - 1], x.slots);
    assert coeffs[n - 1..] == [coeffs[n - 1]];
    for k := |coeffs| - 1 downto 0
      invariant |acc.slots| == slots
      invariant Evaluates(acc.slots, coeffs[k..], x.slots)
      invariant acc.level == if k == n - 1 then seed.level else Max(seed.level, x.level) + n - 1 - k
      invariant k < n - 1 ==> acc.level <= h.depth
      invariant h.mults == old(h.mults) + n - 1 - k
    {
      ghost var before := acc.slots;
      var m :- h.EvalMult(acc, x);
      acc := m;
      if coeffs[k] != 0.0 {
        var row := Fill(slots, -coeffs[k]);
        acc := h.EvalSubConst(acc, row);
      }
      StepEvaluates(before, m.slots, acc.slots, coeffs[k], coeffs[k + 1..], x.slots);
      assert [coeffs[k]] + coeffs[k + 1..] == coeffs[k..];
    }
    assert coeffs[0..] == coeffs;
    r := Ok(acc);
  }

  /** The soft step on every slot of x. */
  method EvalStep(h: ContextHandle, x: Ciphertext, encZeros: Ciphertext, encSeed: Ciphertext,
                  degree: int, iters: nat, slots: nat)
    returns (r: Result<Ciphertext>)
    requires iters >= 1 && |x.slots| == slots
    requires Broadcast(encZeros, slots, 0.0) && Broadcast(encSeed, slots, SignCoeffLead(degree))
    modifies h
    ensures r.Ok? <==> x.level + ComposeLevels(degree, iters) + 1 <= h.depth
    ensures r.Ok? ==>
              && |r.value.slots| == slots
              && (forall i :: 0 <= i < slots ==> r.value.slots[i] == Step(degree, iters, x.slots[i]))
              && r.value.level == x.level + ComposeLevels(degree, iters) + 1
              && h.mults == old(h.mults) + ComposeLevels(degree, iters) + 1
  {
    var coeffs := SignCoeffs(degree);
    var lead := coeffs[|coeffs| - 1];
    var v := x;
    for it := 0 to iters
      invariant |v.slots| == slots
      invariant forall i :: 0 <= i < slots ==> v.slots[i] == Compose(degree, it, x.slots[i])
      invariant v.level == x.level + ComposeLevels(degree, it)
      invariant it > 0 ==> v.level <= h.depth
      invariant h.mults == old(h.mults) + ComposeLevels(degree, it)
    {
      var seed := encSeed;
      if it > 0 {
        var row := Fill(slots, -lead);
        seed := h.EvalSubConst(encZeros, row);
      }
      v :- HornerEval(h, v, seed, coeffs, slots);
    }
    var half := Fill(slots, -0.5);
    var encHalf := h.EvalSubConst(encZeros, half);
    var scaled :- h.EvalMult(v, encHalf);
    var mapped := h.EvalSubConst(scaled, half);
    r := Ok(mapped);
  }

  // ---------------------------------------------------------------- product tree

  predicate Shaped(cts: seq<Ciphertext>, slots: nat)
  {
    forall j :: 0 <= j < |cts| ==> |cts[j].slots| == slots
  }

  /** The product of slot i over all ciphertexts, from left to right. */
  function ProductAt(cts: seq<Ciphertext>, slots: nat, i: nat): real
    requires Shaped(cts, slots) && i < slots
  {
    if cts == [] then 1.0 else ProductAt(cts[..|cts| - 1], slots, i) * cts[|cts| - 1].slots[i]
  }

  lemma ProductOfOne(ct: Ciphertext, slots: nat, i: nat)
    requires |ct.slots| == slots && i < slots
    ensures ProductAt([ct], slots, i) == ct.slots[i]
  {
    assert [ct][..0] == [];
    assert 1.0 * ct.slots[i] == ct.slots[i];
  }

  lemma ProductSnoc(cts: seq<Ciphertext>, ct: Ciphertext, slots: nat, i: nat)
    requires Shaped(cts, slots) && |ct.slots| == slots && i < slots
    ensures ProductAt(cts + [ct], slots, i) == ProductAt(cts, slots, i) * ct.slots[i]
  {
    assert (cts + [ct])[..|cts|] == cts;
  }

  predicate SameProducts(a: seq<Ciphertext>, b: seq<Ciphertext>, slots: nat)
  {
    Shaped(a, slots) && Shaped(b, slots) &&
    forall i :: 0 <= i < slots ==> ProductAt(a, slots, i) == ProductAt(b, slots, i)
  }

  /** Replacing two neighbours by their product keeps the overall products. */
  lemma PairKeepsProducts(level: seq<Ciphertext>, next: seq<Ciphertext>, c: nat, m: Ciphertext, slots: nat)
    requires c + 2 <= |level| && Shaped(level, slots) && |m.slots| == slots
    requires SameProducts(next, level[..c], slots)
    requires forall i :: 0 <= i < slots ==> m.slots[i] == level[c].slots[i] * level[c + 1].slots[i]
    ensures SameProducts(next + [m], level[..c + 2], slots)
  {
    forall i | 0 <= i < slots
      ensures ProductAt(next + [m], slots, i) == ProductAt(level[..c + 2], slots, i)
    {
      ProductPair(level, next, c, m, slots, i);
    }
  }

  lemma ProductPair(level: seq<Ciphertext>, next: seq<Ciphertext>, c: nat, m: Ciphertext, slots: nat, i: nat)
    requires Shaped(level, slots) && Shaped(next, slots) && |m.slots| == slots && i < slots
    requires c + 2 <= |level|
    requires ProductAt(next, slots, i) == ProductAt(level[..c], slots, i)
    requires m.slots[i] == level[c].slots[i] * level[c + 1].slots[i]
    ensures ProductAt(next + [m], slots, i) == ProductAt(level[..c + 2], slots, i)
  {
    hide ProductAt;
    ProductSnoc(next, m, slots, i);
    ProductSnoc(level[..c], level[c], slots, i);
    ProductSnoc(level[..c + 1], level[c + 1], slots, i);
    assert level[..c] + [level[c]] == level[..c + 1];
    assert level[..c + 1] + [level[c + 1]] == level[..c + 2];
    Reassociate(ProductAt(next, slots, i), level[c].slots[i], level[c + 1].slots[i],
                m.slots[i], ProductAt(level[..c + 1], slots, i));
  }

  /** Carrying the unpaired last ciphertext over keeps the overall products. */
  lemma CarryKeepsProducts(level: seq<Ciphertext>, next: seq<Ciphertext>, slots: nat)
    requires level != [] && Shaped(level, slots)
    requires SameProducts(next, level[..|level| - 1], slots)
    ensures SameProducts(next + [level[|level| - 1]], level, slots)
  {
    var init, last := level[..|level| - 1], level[|level| - 1];
    assert level == init + [last];
    forall i | 0 <= i < slots
      ensures ProductAt(next + [last], slots, i) == ProductAt(level, slots, i)
    {
      ProductSnoc(next, last, slots, i);
      ProductSnoc(init, last, slots, i);
    }
  }

  lemma Reassociate(p: real, a: real, b: real, ab: real, pa: real)
    requires ab == a * b && pa == p * a
    ensures p * ab == pa * b
  {
  }

  function Levels(cts: seq<Ciphertext>): (ls: seq<nat>)
    ensures |ls| == |cts| && forall j :: 0 <= j < |cts| ==> ls[j] == cts[j].level
  {
    seq(|cts|, j requires 0 <= j < |cts| => cts[j].level)
  }

  /** The levels after one round. */
  function PairLevels(ls: seq<nat>): (r: seq<nat>)
    ensures |r| == (|ls| + 1) / 2
    ensures forall k :: 0 <= k < |r| ==>
              r[k] == if 2 * k + 1 == |ls| then ls[2 * k] else Max(ls[2 * k], ls[2 * k + 1]) + 1
  {
    seq((|ls| + 1) / 2, k requires 0 <= k < (|ls| + 1) / 2 =>
      if 2 * k + 1 == |ls| then ls[2 * k] else Max(ls[2 * k], ls[2 * k + 1]) + 1)
  }

  /** The level of the balanced tree over factors of the given levels. */
  function TreeLevel(ls: seq<nat>): nat
    requires ls != []
    decreases |ls|
  {
    if |ls| == 1 then ls[0] else TreeLevel(PairLevels(ls))
  }

  /** No level in the tree exceeds the root's. */
  lemma {:induction false} TreeLevelIsHighest(ls: seq<nat>, k: nat)
    requires k < |ls|
    ensures ls[k] <= TreeLevel(ls)
    decreases |ls|
  {
    if |ls| > 1 {
      var i := PairOf(ls, k);
      TreeLevelIsHighest(PairLevels(ls), i);
    }
  }

  /** The pair an item goes into is no lower than the item. */
  lemma PairOf(ls: seq<nat>, k: nat) returns (i: nat)
    requires k < |ls|
    ensures i < |PairLevels(ls)| && ls[k] <= PairLevels(ls)[i]
  {
    i := k / 2;
    assert k == 2 * i || k == 2 * i + 1;
  }

  /** With the highest level in front every round adds one: equal factors need the ledger's number of levels. */
  lemma {:induction false} TreeLevelOfEqual(ls: seq<nat>, top: nat)
    requires ls != [] && ls[0] == top && forall j :: 0 <= j < |ls| ==> ls[j] <= top
    ensures TreeLevel(ls) == top + CeilLog2(|ls|)
    decreases |ls|
  {
    if |ls| > 1 {
      TreeLevelOfEqual(PairLevels(ls), top + 1);
    }
  }

  /** The pairs multiplied so far fit the depth. */
  predicate PairsFit(ls: seq<nat>, depth: nat, n: nat)
    requires n <= |ls|
  {
    forall k :: 0 <= k < n && 2 * k + 1 < |ls| ==> PairLevels(ls)[k] <= depth
  }

  /** next holds the results of the first pairs, at their levels. */
  predicate LevelsSoFar(next: seq<Ciphertext>, ls: seq<nat>)
  {
    |next| <= |PairLevels(ls)| && forall k :: 0 <= k < |next| ==> next[k].level == PairLevels(ls)[k]
  }

  lemma AllLevels(next: seq<Ciphertext>, ls: seq<nat>)
    requires LevelsSoFar(next, ls) && |next| == |PairLevels(ls)|
    ensures Levels(next) == PairLevels(ls)
  {
  }

  /** One round of the tree: neighbours are multiplied, a last one without partner is carried over. */
  method PairUp(h: ContextHandle, level: seq<Ciphertext>, ghost slots: nat) returns (r: Result<seq<Ciphertext>>)
    requires |level| > 1 && Shaped(level, slots)
    modifies h
    ensures r.Ok? <==> PairsFit(Levels(level), h.depth, |level|)
    ensures r.Ok? ==>
              && SameProducts(r.value, level, slots) && Levels(r.value) == PairLevels(Levels(level))
              && h.mults == old(h.mults) + |level| - |r.value|
  {
    hide ProductAt, SameProducts;
    var next := [];
    var i := 0;
    ghost var ls := Levels(level);
    assert level[..0] == next;
    SameProductsRefl(next, slots);
    while i < |level|
      invariant i % 2 == 0 && 0 <= i <= |level| + 1
      invariant Shaped(next, slots) && |next| == (if i <= |level| then i else |level| + 1) / 2
      invariant SameProducts(next, level[..if i <= |level| then i else |level|], slots)
      invariant h.mults == old(h.mults) + (if i <= |level| then i else |level|) - |next|
      invariant LevelsSoFar(next, ls) && PairsFit(ls, h.depth, |next|)
    {
      if i + 1 == |level| {
        CarryKeepsProducts(level, next, slots);
        assert level[..|level|] == level;
        next := next + [level[i]];
        i := i + 2;
        continue;
      }
      assert PairLevels(ls)[|next|] == Max(level[i].level, level[i + 1].level) + 1;
      var m :- h.EvalMult(level[i], level[i + 1]);
      PairKeepsProducts(level, next, i, m, slots);
      next := next + [m];
      i := i + 2;
    }
    assert level[..|level|] == level;
    AllLevels(next, ls);
    r := Ok(next);
  }

  /** The slotwise product of all ciphertexts as a balanced tree. */
  method BalancedProduct(h: ContextHandle, cts: seq<Ciphertext>, ghost slots: nat) returns (r: Result<Ciphertext>)
    requires Shaped(cts, slots)
    modifies h
    ensures r.Ok? <==> cts != [] && (|cts| == 1 || TreeLevel(Levels(cts)) <= h.depth)
    ensures r.Ok? ==>
              && |r.value.slots| == slots
              && (forall i :: 0 <= i < slots ==> r.value.slots[i] == ProductAt(cts, slots, i))
              && r.value.level == TreeLevel(Levels(cts))
              && h.mults == old(h.mults) + |cts| - 1
  {
    hide ProductAt, SameProducts, PairsFit;
    if |cts| == 0 {
      return Err("balancedProduct: no factors");
    }
    var level := cts;
    SameProductsRefl(level, slots);
    while |level| > 1
      invariant |level| >= 1 && SameProducts(level, cts, slots) && Shaped(level, slots)
      invariant TreeLevel(Levels(level)) == TreeLevel(Levels(cts))
      invariant |level| == 1 && |cts| > 1 ==> TreeLevel(Levels(cts)) <= h.depth
      invariant h.mults == old(h.mults) + |cts| - |level|
      decreases |level|
    {
      FitsIffRootFits(Levels(level), h.depth);
      var next :- PairUp(h, level, slots);
      SameProductsTrans(next, level, cts, slots);
      level := next;
    }
    OneLeft(level, cts, slots);
    r := Ok(level[0]);
  }

  /** A round fits whenever the root does, and the last round fits only then. */
  lemma FitsIffRootFits(ls: seq<nat>, depth: nat)
    requires |ls| > 1
    ensures TreeLevel(ls) <= depth ==> PairsFit(ls, depth, |ls|)
    ensures PairsFit(ls, depth, |ls|) && |PairLevels(ls)| == 1 ==> TreeLevel(ls) <= depth
  {
    var next := PairLevels(ls);
    forall k | 0 <= k < |next|
      ensures next[k] <= TreeLevel(ls)
    {
      TreeLevelIsHighest(next, k);
    }
  }

  lemma SameProductsRefl(a: seq<Ciphertext>, slots: nat)
    requires Shaped(a, slots)
    ensures SameProducts(a, a, slots)
  {
  }

  lemma SameProductsTrans(a: seq<Ciphertext>, b: seq<Ciphertext>, c: seq<Ciphertext>, slots: nat)
    requires SameProducts(a, b, slots) && SameProducts(b, c, slots)
    ensures SameProducts(a, c, slots) && Shaped(a, slots)
  {
  }

  lemma OneLeft(level: seq<Ciphertext>, cts: seq<Ciphertext>, slots: nat)
    requires |level| == 1 && SameProducts(level, cts, slots)
    ensures forall i :: 0 <= i < slots ==> level[0].slots[i] == ProductAt(cts, slots, i)
  {
    assert level == [level[0]];
    forall i | 0 <= i < slots
      ensures level[0].slots[i] == ProductAt(cts, slots, i)
    {
      ProductOfOne(level[0], slots, i);
    }
  }

  // ---------------------------------------------------------------- the circuit

  function StepZeroValue(): real { 0.5 }

  /** Slot i of row j after pinning: the comparison of key j with key i, or 1 on the diagonal. */
  function Pinned(c: Circuit, j: nat, i: nat): real
    requires i < |c.keys| && j < |c.keys|
  {
    if i == j then 1.0 else Step(c.signDegree, c.signIters, c.keys[j] - c.keys[i])
  }

  predicate PinnedRows(c: Circuit, rows: seq<Ciphertext>)
  {
    && |rows| <= |c.keys|
    && Shaped(rows, |c.keys|)
    && forall j, i :: 0 <= j < |rows| && 0 <= i < |c.keys| ==> rows[j].slots[i] == Pinned(c, j, i)
  }

  /** Pinning the diagonal to 1 makes the full product the product over the other keys. */
  lemma {:induction false} PinnedProduct(c: Circuit, rows: seq<Ciphertext>, i: nat)
    requires PinnedRows(c, rows) && i < |c.keys|
    ensures ProductAt(rows, |c.keys|, i) == SlotProduct(c.keys, c.signDegree, c.signIters, i, |rows|)
  {
    if rows != [] {
      var n := |rows| - 1;
      PinnedProduct(c, rows[..n], i);
      assert rows[n].slots[i] == Pinned(c, n, i);
    }
  }

  /** Subtracting 0.5 - 1 on the diagonal turns step(0) into exactly 1 and changes nothing else. */
  lemma PinRow(c: Circuit, j: nat, diff: seq<real>, soft: seq<real>, fixed: seq<real>)
    requires j < |c.keys| && |diff| == |soft| == |fixed| == |c.keys|
    requires forall i :: 0 <= i < |diff| ==> diff[i] == c.keys[j] - c.keys[i]
    requires forall i :: 0 <= i < |diff| ==> soft[i] == Step(c.signDegree, c.signIters, diff[i])
    requires forall i :: 0 <= i < |diff| ==> fixed[i] == soft[i] - (if i == j then StepZeroValue() - 1.0 else 0.0)
    ensures forall i :: 0 <= i < |diff| ==> fixed[i] == Pinned(c, j, i)
  {
    StepAtZero(c.signDegree, c.signIters);
  }

  /** Row j: the comparisons of key j with every key, the diagonal pinned to 1. */
  method EvalRow(h: ContextHandle, c: Circuit, negK: Ciphertext, encZeros: Ciphertext, encSeed: Ciphertext, j: nat)
    returns (r: Result<Ciphertext>)
    requires j < |c.keys| && Broadcast(encZeros, |c.keys|, 0.0)
    requires Broadcast(encSeed, |c.keys|, SignCoeffLead(c.signDegree))
    requires |negK.slots| == |c.keys| && negK.level == 0
    requires forall i :: 0 <= i < |c.keys| ==> negK.slots[i] == -c.keys[i]
    modifies h
    ensures var k := if c.signIters < 1 then 1 else c.signIters;
            var levels := (if c.signDegree == 9 then 9 else 3) * k + 1;
            && (r.Ok? <==> levels <= h.depth)
            && (r.Ok? ==> r.value.level == levels == h.mults - old(h.mults))
    ensures r.Ok? ==>
              && |r.value.slots| == |c.keys|
              && (forall i :: 0 <= i < |c.keys| ==> r.value.slots[i] == Pinned(c, j, i))
  {
    hide Step, ComposeLevels, SignCoeffLead;
    LevelsOfCircuit(c);
    var n := |c.keys|;
    var keyRow := Fill(n, -c.keys[j]);
    var diffJ := h.EvalSubConst(negK, keyRow);
    var s :- EvalStep(h, diffJ, encZeros, encSeed, c.signDegree, EffectiveIters(c.signIters), n);
    var selfFix := Fill(n, 0.0);
    selfFix := selfFix[j := StepZeroValue() - 1.0];
    ghost var soft := s.slots;
    s := h.EvalSubConst(s, selfFix);
    StepOfEffective(c.signDegree, c.signIters, diffJ.slots);
    PinRow(c, j, diffJ.slots, soft, s.slots);
    r := Ok(s);
  }

  /** An iteration count below one is already read as one by the step itself. */
  lemma StepOfEffective(degree: int, iters: int, xs: seq<real>)
    ensures forall i :: 0 <= i < |xs| ==> Step(degree, EffectiveIters(iters), xs[i]) == Step(degree, iters, xs[i])
  {
  }

  method Eval(h: ContextHandle, c: Circuit, encInputs: seq<Ciphertext>) returns (r: Result<Ciphertext>)
    requires |encInputs| >= 3 ==>
               && Broadcast(encInputs[1], |c.keys|, 0.0)
               && Broadcast(encInputs[2], |c.keys|, SignCoeffLead(c.signDegree))
    modifies h
    ensures var k := if c.signIters < 1 then 1 else c.signIters;
            var perRow := (if c.signDegree == 9 then 9 else 3) * k + 1;
            && (r.Ok? <==> |c.keys| >= 2 && |encInputs| >= 3 && perRow + CeilLog2(|c.keys|) <= h.depth)
            && (r.Ok? ==>
                  && r.value.slots == Mask(c.keys, c.signDegree, k)
                  && r.value.level == perRow + CeilLog2(|c.keys|)
                  && h.mults == old(h.mults) + |c.keys| * perRow + |c.keys| - 1)
  {
    hide Pinned, SignCoeffLead, ProductAt, RowLevels;
    LevelsOfCircuit(c);
    OneCompositionAtLeast(c.keys, c.signDegree, c.signIters);
    var n := |c.keys|;
    if n < 2 {
      return Err("argmin: need >=2 keys");
    }
    if |encInputs| < 3 {
      return Err("argmin: expected 3 encrypted inputs");
    }
    var encZeros := encInputs[1];
    var encSeed := encInputs[2];
    ghost var perRow := RowLevels(c);

    var negK := h.EvalSubConst(encZeros, c.keys);
    var stepCT: seq<Ciphertext> := [];
    for j := 0 to n
      invariant |stepCT| == j && PinnedRows(c, stepCT)
      invariant forall k :: 0 <= k < j ==> stepCT[k].level == perRow
      invariant j > 0 ==> perRow <= h.depth
      invariant h.mults == old(h.mults) + j * perRow
    {
      var s :- EvalRow(h, c, negK, encZeros, encSeed, j);
      stepCT := stepCT + [s];
      assert (j + 1) * perRow == j * perRow + perRow;
    }
    TreeLevelOfEqual(Levels(stepCT), perRow);
    var out :- BalancedProduct(h, stepCT, n);
    forall i | 0 <= i < n
      ensures out.slots[i] == Slot(c.keys, c.signDegree, c.signIters, i)
    {
      PinnedProduct(c, stepCT, i);
    }
    r := Ok(out);
  }
}
