/**
  Recovery of the parameters of a linear congruential generator from a few
  consecutive outputs: first differences, the products
  `d[i+2] * d[i] - d[i+1]^2` that every such generator makes divisible by its
  modulus, their gcd as the candidate modulus, then the multiplier from a
  modular inverse and the increment from the first step.
 */
module Crack {
  import opened ModArith
  import opened Lcg

  /** First differences `v[i+1] - v[i]` of consecutive values. */
  function Diffs(v: seq<int>): (d: seq<int>)
    ensures |d| == if |v| == 0 then 0 else |v| - 1
  {
    seq(if |v| == 0 then 0 else |v| - 1, i requires 0 <= i < |v| - 1 => v[i + 1] - v[i])
  }

  /** The products `d[i+2] * d[i] - d[i+1] * d[i+1]` of three consecutive differences. */
  function Products(d: seq<int>): (z: seq<int>)
    ensures |z| == if |d| < 2 then 0 else |d| - 2
  {
    seq(if |d| < 2 then 0 else |d| - 2, i requires 0 <= i < |d| - 2 => d[i + 2] * d[i] - d[i + 1] * d[i + 1])
  }

  /** The gcd fold of a list, starting from 0: a non-negative number dividing every element. */
  function GcdFold(z: seq<int>): (g: int)
    ensures g >= 0
    ensures forall i :: 0 <= i < |z| ==> Divides(g, z[i])
  {
    if z == [] then 0
    else
      var init := z[..|z| - 1];
      var h := GcdFold(init);
      var g := Gcd(h, z[|z| - 1]);
      assert forall i :: 0 <= i < |z| - 1 ==> Divides(g, z[i]) by {
        forall i | 0 <= i < |z| - 1 ensures Divides(g, z[i]) {
          assert z[i] == init[i];
          DividesTransitive(g, h, z[i]);
        }
      }
      g
  }

  /** Every common divisor of the elements divides their gcd fold (0 for the empty list). */
  lemma {:induction false} GcdFoldGreatest(z: seq<int>, d: int)
    requires forall i :: 0 <= i < |z| ==> Divides(d, z[i])
    ensures Divides(d, GcdFold(z))
  {
    if z == [] {
      DividesMultiple(d, 0);
    } else {
      var init := z[..|z| - 1];
      forall i | 0 <= i < |init| ensures Divides(d, init[i]) {
        assert init[i] == z[i];
      }
      GcdFoldGreatest(init, d);
      GcdGreatest(GcdFold(init), z[|z| - 1], d);
    }
  }

  /** The candidate modulus: the gcd fold of the products of the differences. */
  function RecoveredModulus(values: seq<int>): int {
    GcdFold(Products(Diffs(values)))
  }

  /**
    Parameter recovery: `None` for fewer than three values, for a zero
    candidate modulus, or when the first difference has no inverse modulo
    the candidate; otherwise a generator whose modulus is the candidate,
    whose multiplier and increment are residues of it, and whose state is
    the last value. The increment is fitted to the first step, so that step
    is always reproduced; the multiplier comes from `modinv`, so the second
    step is guaranteed only when the first difference is at most the
    candidate.
   */
  function CrackLcg(values: seq<int>): (r: Option<Snapshot>)
    ensures r.None? <==>
      |values| < 3 || RecoveredModulus(values) == 0 || Gcd(values[1] - values[0], RecoveredModulus(values)) != 1
    ensures r.Some? ==>
      && r.value.state == values[|values| - 1]
      && r.value.m == RecoveredModulus(values)
      && 0 <= r.value.a < r.value.m
      && 0 <= r.value.c < r.value.m
      && Congruent(values[0] * r.value.a + r.value.c, values[1], r.value.m)
    ensures r.Some? && values[1] - values[0] <= r.value.m ==>
      Congruent(values[1] * r.value.a + r.value.c, values[2], r.value.m)
  {
    if |values| < 3 then None
    else
      var modulus := RecoveredModulus(values);
      if modulus == 0 then None
      else RecoverParameters(values[0], values[1], values[2], values[|values| - 1], modulus)
  }

  /**
    The last stage of recovery, once the candidate modulus `m` is known:
    `None` when `v1 - v0` has no inverse modulo `m`; otherwise the generator
    at `last` whose multiplier and increment, residues of `m`, reproduce the
    first step, and the second step when `v1 - v0 <= m`.
   */
  function RecoverParameters(v0: int, v1: int, v2: int, last: int, m: int): (r: Option<Snapshot>)
    requires m > 0
    ensures r.None? <==> Gcd(v1 - v0, m) != 1
    ensures r.Some? ==>
      && r.value == Snapshot(last, r.value.a, r.value.c, m)
      && 0 <= r.value.a < m && 0 <= r.value.c < m
      && Congruent(v0 * r.value.a + r.value.c, v1, m)
    ensures r.Some? && v1 - v0 <= m ==> Congruent(v1 * r.value.a + r.value.c, v2, m)
  {
    var inverse := ModInv(v1 - v0, m);
    if inverse.None? then None
    else
      var multiplier := Modulo((v2 - v1) * inverse.value, m);
      var increment := Modulo(v1 - v0 * multiplier, m);
      RecoveredSteps(v0, v1, v2, m, inverse.value, multiplier, increment);
      Some(Snapshot(last, multiplier, increment, m))
  }

  /**
    The multiplier and increment `crack_lcg` computes from `modinv`'s answer:
    the increment always completes the first step, and the second step is
    reproduced as well when `v1 - v0 <= m`, where `modinv` returns the
    inverse of `v1 - v0`.
   */
  lemma RecoveredSteps(v0: int, v1: int, v2: int, m: int, inv: int, a: int, c: int)
    requires m > 0 && ModInv(v1 - v0, m) == Some(inv)
    requires a == Modulo((v2 - v1) * inv, m) && c == Modulo(v1 - v0 * a, m)
    ensures Congruent(v0 * a + c, v1, m)
    ensures v1 - v0 <= m ==> Congruent(v1 * a + c, v2, m)
  {
    assert v0 * a + c - v1 == c - (v1 - v0 * a);
    if v1 - v0 <= m {
      FirstStepsAgree(v0, v1, v2, m, inv, a, c);
    }
  }

  lemma DividesTransitive(x: int, y: int, z: int)
    requires Divides(x, y) && Divides(y, z)
    ensures Divides(x, z)
  {
    var k :| z == Times(k, y);
    DividesScale(x, y, k);
  }

  /**
    With an inverse of `v1 - v0`, the multiplier `(v2 - v1) * inv` and the
    increment `v1 - v0 * a` reproduce both steps `v0 -> v1 -> v2`.
   */
  lemma FirstStepsAgree(v0: int, v1: int, v2: int, m: int, inv: int, a: int, c: int)
    requires m > 0 && Congruent((v1 - v0) * inv, 1, m)
    requires Congruent(a, (v2 - v1) * inv, m) && Congruent(c, v1 - v0 * a, m)
    ensures Congruent(v0 * a + c, v1, m) && Congruent(v1 * a + c, v2, m)
  {
    var e1, e2, e3 := c - (v1 - v0 * a), a - (v2 - v1) * inv, (v1 - v0) * inv - 1;
    assert v0 * a + c - v1 == e1;
    DividesLinear(m, e2, e3, v1 - v0, v2 - v1);
    DividesLinear(m, e1, (v1 - v0) * e2 + (v2 - v1) * e3, 1, 1);
    SecondStepIdentity(v0, v1, v2, inv, a, c);
  }

  /** The polynomial identity behind the second step in `FirstStepsAgree`. */
  lemma SecondStepIdentity(v0: int, v1: int, v2: int, inv: int, a: int, c: int)
    ensures v1 * a + c - v2 ==
      1 * (c - (v1 - v0 * a)) + 1 * ((v1 - v0) * (a - (v2 - v1) * inv) + (v2 - v1) * ((v1 - v0) * inv - 1))
  {
  }

  // ---------------------------------------------------------------------
  // Why the candidate modulus is a multiple of the true one

  /** `v` is a run of consecutive outputs of the generator `(a, c, m)`. */
  ghost predicate IsRun(v: seq<int>, a: int, c: int, m: int) {
    m > 0 && forall i :: 0 <= i < |v| - 1 ==> v[i + 1] == Step(v[i], a, c, m)
  }

  /** The outputs of a generator form a run of it. */
  lemma OutputsAreRun(s: int, a: int, c: int, m: int, n: nat)
    requires m > 0
    ensures IsRun(Outputs(s, a, c, m, n), a, c, m)
  {
  }

  /** In a run, each difference is the multiplier times the previous one, modulo `m`. */
  lemma DifferenceRecurrence(v: seq<int>, a: int, c: int, m: int, i: nat)
    requires IsRun(v, a, c, m) && i + 2 < |v|
    ensures Congruent(v[i + 2] - v[i + 1], a * (v[i + 1] - v[i]), m)
  {
    var e0, e1 := v[i + 1] - (v[i] * a + c), v[i + 2] - (v[i + 1] * a + c);
    assert Divides(m, e0) && Divides(m, e1);
    DividesSum(m, e1, e0);
    assert v[i + 2] - v[i + 1] - a * (v[i + 1] - v[i]) == e1 - e0;
  }

  /** If `d1 = a * d0` and `d2 = a * d1` modulo `m`, then `m` divides `d2 * d0 - d1^2`. */
  lemma ProductVanishes(d0: int, d1: int, d2: int, a: int, m: int)
    requires Congruent(d1, a * d0, m) && Congruent(d2, a * d1, m)
    ensures Divides(m, d2 * d0 - d1 * d1)
  {
    var u, w := d1 - a * d0, d2 - a * d1;
    DividesLinear(m, w, u, d0, -d1);
    assert d2 * d0 - d1 * d1 == d0 * w + -d1 * u;
  }

  /** The modulus of a generator divides every product computed from its outputs. */
  lemma ProductsDivisible(v: seq<int>, a: int, c: int, m: int)
    requires IsRun(v, a, c, m)
    ensures forall i :: 0 <= i < |Products(Diffs(v))| ==> Divides(m, Products(Diffs(v))[i])
  {
    forall i | 0 <= i < |Products(Diffs(v))| ensures Divides(m, Products(Diffs(v))[i]) {
      ProductDivisibleAt(v, a, c, m, i);
    }
  }

  /** One product at a time: the `i`-th product is a multiple of the modulus. */
  lemma ProductDivisibleAt(v: seq<int>, a: int, c: int, m: int, i: nat)
    requires IsRun(v, a, c, m) && i < |Products(Diffs(v))|
    ensures Divides(m, Products(Diffs(v))[i])
  {
    var d := Diffs(v);
    assert d[i] == v[i + 1] - v[i] && d[i + 1] == v[i + 2] - v[i + 1] && d[i + 2] == v[i + 3] - v[i + 2];
    DifferenceRecurrence(v, a, c, m, i);
    DifferenceRecurrence(v, a, c, m, i + 1);
    ProductVanishes(d[i], d[i + 1], d[i + 2], a, m);
    assert Products(d)[i] == d[i + 2] * d[i] - d[i + 1] * d[i + 1];
  }

  /** Hence the modulus of a generator divides the modulus recovered from its outputs. */
  lemma ModulusDividesRecovered(v: seq<int>, a: int, c: int, m: int)
    requires IsRun(v, a, c, m)
    ensures Divides(m, RecoveredModulus(v))
  {
    ProductsDivisible(v, a, c, m);
    GcdFoldGreatest(Products(Diffs(v)), m);
  }

  /** Three values give no product, so the candidate modulus is 0 and recovery fails. */
  lemma ThreeValuesDegenerate(values: seq<int>)
    requires |values| == 3
    ensures RecoveredModulus(values) == 0 && CrackLcg(values) == None
  {
    assert Products(Diffs(values)) == [];
  }

  /**
    When the candidate modulus is the true modulus, the first difference is
    invertible and the first value is itself a residue (as every output of
    the generator is), recovery returns the generator itself: multiplier and
    increment reduced modulo `m`, positioned at the last output.
   */
  lemma CrackExact(v: seq<int>, a: int, c: int, m: int)
    requires IsRun(v, a, c, m) && |v| >= 3 && 0 <= v[0] < m
    requires RecoveredModulus(v) == m && Gcd(v[1] - v[0], m) == 1
    ensures CrackLcg(v) == Some(Snapshot(v[|v| - 1], Modulo(a, m), Modulo(c, m), m))
  {
    var r := CrackLcg(v).value;
    var inv := ModInverse(v[1] - v[0], m).value;
    assert Congruent(v[1], v[0] * a + c, m) && Congruent(v[2], v[1] * a + c, m);
    StepsDetermineParameters(v[0], v[1], v[2], m, inv, a, c, r.a, r.c);
    ResidueOf(r.a, a, m);
    ResidueOf(r.c, c, m);
  }

  /** Under the same conditions, the recovered generator continues the original sequence. */
  lemma CrackContinues(v: seq<int>, a: int, c: int, m: int)
    requires IsRun(v, a, c, m) && |v| >= 3 && 0 <= v[0] < m
    requires RecoveredModulus(v) == m && Gcd(v[1] - v[0], m) == 1
    ensures CrackLcg(v).Some?
    ensures Step(v[|v| - 1], CrackLcg(v).value.a, CrackLcg(v).value.c, m) == Step(v[|v| - 1], a, c, m)
  {
    CrackExact(v, a, c, m);
    StepResidues(v[|v| - 1], a, c, m);
  }

  /**
    Two generators that both take `v0 -> v1 -> v2`, with `v1 - v0`
    invertible modulo `m`, have congruent multipliers and increments.
   */
  lemma StepsDetermineParameters(v0: int, v1: int, v2: int, m: int, inv: int, a: int, c: int, a': int, c': int)
    requires m > 0 && Congruent((v1 - v0) * inv, 1, m)
    requires Congruent(v1, v0 * a + c, m) && Congruent(v2, v1 * a + c, m)
    requires Congruent(v0 * a' + c', v1, m) && Congruent(v1 * a' + c', v2, m)
    ensures Congruent(a', a, m) && Congruent(c', c, m)
  {
    var e0, e1 := v1 - (v0 * a + c), v2 - (v1 * a + c);
    var f0, f1 := v0 * a' + c' - v1, v1 * a' + c' - v2;
    DividesLinear(m, e0, e1, -1, 1);
    DividesLinear(m, f0, f1, -1, 1);
    DividesSum(m, -1 * f0 + 1 * f1, -1 * e0 + 1 * e1);
    ParameterIdentities(v0, v1, v2, a, c, a', c');
    CancelMultiplier(a', a, v1 - v0, m, inv);
    DividesLinear(m, f0, e0, 1, 1);
    DividesLinear(m, 1 * f0 + 1 * e0, a' - a, 1, -v0);
  }

  /** The polynomial identities behind `StepsDetermineParameters`: `a' - a` and `c' - c` as combinations of the step errors. */
  lemma ParameterIdentities(v0: int, v1: int, v2: int, a: int, c: int, a': int, c': int)
    ensures a' * (v1 - v0) - a * (v1 - v0) ==
      (-1 * (v0 * a' + c' - v1) + 1 * (v1 * a' + c' - v2)) + (-1 * (v1 - (v0 * a + c)) + 1 * (v2 - (v1 * a + c)))
    ensures c' - c == 1 * (1 * (v0 * a' + c' - v1) + 1 * (v1 - (v0 * a + c))) + -v0 * (a' - a)
  {
  }

  /** A residue in `[0, m)` congruent to `y` is the residue of `y`. */
  lemma ResidueOf(x: int, y: int, m: int)
    requires m > 0 && 0 <= x < m && Congruent(x, y, m)
    ensures x == Modulo(y, m)
  {
    DividesSum(m, x - y, Modulo(y, m) - y);
    assert x - Modulo(y, m) == (x - y) - (Modulo(y, m) - y);
    CongruentResidues(x, Modulo(y, m), m);
  }
}
