/**
  The linear congruential generator engine: a generator object whose state is
  stepped forward (`state := (state * a + c) mod m`) and backward (through the
  modular inverse of the multiplier) in place, with the step functions that
  specify it and the round-trip laws relating them.
 */
module Lcg {
  import opened ModArith

  // ---------------------------------------------------------------------
  // Steps as functions of the state

  /** One forward step from state `s`: the next output of the generator. */
  function Step(s: int, a: int, c: int, m: int): (r: int)
    requires m > 0
    ensures 0 <= r < m
    ensures Congruent(r, s * a + c, m)
  {
    Modulo(s * a + c, m)
  }

  /** A forward step computed by Euclidean `%`. */
  lemma StepIs(s: int, a: int, c: int, m: int, r: int)
    requires m > 0 && (s * a + c) % m == r
    ensures Step(s, a, c, m) == r
  {
    ModuloEuclidean(s * a + c, m);
  }

  /**
    One backward step from state `s` as `prev` computes it, through `modinv`:
    `None` when the multiplier has no inverse modulo `m`; otherwise a state in
    `[0, m)`, from which a forward step lands on `s` modulo `m` provided
    `a <= m` (the range where `modinv` returns the inverse of `a`).
   */
  function StepBack(s: int, a: int, c: int, m: int): (r: Option<int>)
    requires m > 0
    ensures r.None? <==> Gcd(a, m) != 1
    ensures r.Some? ==> 0 <= r.value < m
    ensures r.Some? && a <= m ==> Congruent(r.value * a + c, s, m)
  {
    var inverse := ModInv(a, m);
    if inverse.None? then None
    else
      var p := Modulo(inverse.value * (s - c), m);
      ModInvUndoesStep(s, a, c, m, inverse.value, p);
      Some(p)
  }

  /** `modinv`'s answer applied to `s - c` undoes a forward step whenever `a <= m`. */
  lemma ModInvUndoesStep(s: int, a: int, c: int, m: int, inv: int, p: int)
    requires m > 0 && ModInv(a, m) == Some(inv) && p == Modulo(inv * (s - c), m)
    ensures a <= m ==> Congruent(p * a + c, s, m)
  {
    if a <= m {
      UndoStep(s, a, c, m, inv, p);
    }
  }

  /**
    The intended backward step, through the corrected inverse: for every
    invertible multiplier, the state in `[0, m)` from which a forward step
    lands on `s` modulo `m`.
   */
  function StepBackCorrected(s: int, a: int, c: int, m: int): (r: Option<int>)
    requires m > 0
    ensures r.None? <==> Gcd(a, m) != 1
    ensures r.Some? ==> 0 <= r.value < m && Congruent(r.value * a + c, s, m)
  {
    match ModInverse(a, m)
    case None => None
    case Some(inv) =>
      var p := Modulo(inv * (s - c), m);
      UndoStep(s, a, c, m, inv, p);
      Some(p)
  }

  /** For a multiplier no larger than the modulus, both backward steps agree. */
  lemma StepBackAgrees(s: int, a: int, c: int, m: int)
    requires m > 0 && a <= m
    ensures StepBack(s, a, c, m) == StepBackCorrected(s, a, c, m)
  {
    ModInverseAgrees(a, m);
  }

  /**
    With `a = 10` and `m = 3`, `rand` takes state 1 to 1, but `prev` takes 1
    to 0, which `rand` takes to 0 rather than back to 1.
   */
  lemma StepBackAboveModulus()
    ensures Step(1, 10, 0, 3) == 1
    ensures StepBack(1, 10, 0, 3) == Some(0) && Step(0, 10, 0, 3) == 0
  {
    StepIs(1, 10, 0, 3, 1);
    StepIs(0, 10, 0, 3, 0);
    ModInvAboveModulus();
    StepBackZeroInverse(1, 10, 0, 3);
  }

  /** On the same generator the corrected backward step takes 1 back to 1. */
  lemma StepBackCorrectedAboveModulus()
    ensures StepBackCorrected(1, 10, 0, 3) == Some(1)
  {
    StepIs(1, 10, 0, 3, 1);
    CoprimeByBezout(10, 3, 1, -3);
    StepBackCorrectedAfterStep(1, 10, 0, 3);
  }

  /** When `modinv` answers 0, every backward step lands on state 0. */
  lemma StepBackZeroInverse(s: int, a: int, c: int, m: int)
    requires m > 0 && ModInv(a, m) == Some(0)
    ensures StepBack(s, a, c, m) == Some(0)
  {
    var inv := ModInv(a, m).value;
    assert inv * (s - c) == 0 * (s - c) == 0;
    ModuloIdentity(0, m);
    assert StepBack(s, a, c, m) == Some(Modulo(inv * (s - c), m));
  }

  /** A step depends on the multiplier and increment only through their residues. */
  lemma StepResidues(s: int, a: int, c: int, m: int)
    requires m > 0
    ensures Step(s, Modulo(a, m), Modulo(c, m), m) == Step(s, a, c, m)
  {
    var ar, cr := Modulo(a, m), Modulo(c, m);
    DividesLinear(m, ar - a, cr - c, s, 1);
    assert (s * ar + cr) - (s * a + c) == s * (ar - a) + 1 * (cr - c);
    ModuloCongruent(s * ar + cr, s * a + c, m);
  }

  /** Multiplying `s - c` by an inverse of `a` undoes `x * a + c`. */
  lemma UndoStep(s: int, a: int, c: int, m: int, inv: int, p: int)
    requires m > 0 && Congruent(a * inv, 1, m) && Congruent(p, inv * (s - c), m)
    ensures Congruent(p * a + c, s, m)
  {
    DividesLinear(m, p - inv * (s - c), a * inv - 1, a, s - c);
    assert p * a + c - s == a * (p - inv * (s - c)) + (s - c) * (a * inv - 1);
  }

  /** Two residues in `[0, m)` that are congruent are equal. */
  lemma CongruentResidues(x: int, y: int, m: int)
    requires m > 0 && 0 <= x < m && 0 <= y < m && Congruent(x, y, m)
    ensures x == y
  {
    LeastResidue(x, y, m);
    DivModUnique(y, m, 0, y);
  }

  /** An invertible multiplier can be cancelled from a congruence. */
  lemma CancelMultiplier(x: int, y: int, a: int, m: int, inv: int)
    requires m > 0 && Congruent(a * inv, 1, m) && Congruent(x * a, y * a, m)
    ensures Congruent(x, y, m)
  {
    var u, w := x * a - y * a, a * inv - 1;
    DividesLinear(m, u, w, inv, y - x);
    CancelIdentity(x, y, a, inv);
  }

  /** The polynomial identity behind `CancelMultiplier`: `x - y` as a combination of its two hypotheses. */
  lemma CancelIdentity(x: int, y: int, a: int, inv: int)
    ensures x - y == inv * (x * a - y * a) + (y - x) * (a * inv - 1)
  {
  }

  /** The corrected backward step undoes a forward step from any state in `[0, m)`. */
  lemma StepBackCorrectedAfterStep(s: int, a: int, c: int, m: int)
    requires m > 0 && Gcd(a, m) == 1 && 0 <= s < m
    ensures StepBackCorrected(Step(s, a, c, m), a, c, m) == Some(s)
  {
    var t := Step(s, a, c, m);
    var p := StepBackCorrected(t, a, c, m).value;
    DividesSum(m, p * a + c - t, t - (s * a + c));
    assert p * a - s * a == (p * a + c - t) + (t - (s * a + c));
    CancelMultiplier(p, s, a, m, ModInverse(a, m).value);
    CongruentResidues(p, s, m);
  }

  /** For `a <= m`, stepping back after stepping forward restores a state in `[0, m)`. */
  lemma StepBackAfterStep(s: int, a: int, c: int, m: int)
    requires m > 0 && Gcd(a, m) == 1 && a <= m && 0 <= s < m
    ensures StepBack(Step(s, a, c, m), a, c, m) == Some(s)
  {
    StepBackAgrees(Step(s, a, c, m), a, c, m);
    StepBackCorrectedAfterStep(s, a, c, m);
  }

  /** For `a <= m`, stepping forward after stepping back restores a state in `[0, m)`. */
  lemma StepAfterStepBack(s: int, a: int, c: int, m: int)
    requires m > 0 && Gcd(a, m) == 1 && a <= m && 0 <= s < m
    ensures Step(StepBack(s, a, c, m).value, a, c, m) == s
  {
    var p := StepBack(s, a, c, m).value;
    var t := Step(p, a, c, m);
    DividesSum(m, t - (p * a + c), p * a + c - s);
    assert t - s == (t - (p * a + c)) + (p * a + c - s);
    CongruentResidues(t, s, m);
  }

  /** A multiplier sharing a factor `d > 1` with the modulus cannot step back. */
  lemma SharedFactorCannotStepBack(s: int, a: int, c: int, m: int, d: int)
    requires m > 0 && d > 1 && Divides(d, a) && Divides(d, m)
    ensures StepBack(s, a, c, m) == None
  {
    var g := Gcd(a, m);
    GcdGreatest(a, m, d);
    if g == 1 {
      DividesLe(d, 1);
    }
  }

  // ---------------------------------------------------------------------
  // Runs of several steps

  /** The state after `n` forward steps from `s`. */
  function Iterate(s: int, a: int, c: int, m: int, n: nat): int
    requires m > 0
  {
    if n == 0 then s else Step(Iterate(s, a, c, m, n - 1), a, c, m)
  }

  /** The state after `n` backward steps from `s`, for an invertible multiplier. */
  function IterateBack(s: int, a: int, c: int, m: int, n: nat): int
    requires m > 0 && Gcd(a, m) == 1
  {
    if n == 0 then s else StepBack(IterateBack(s, a, c, m, n - 1), a, c, m).value
  }

  /** The first `n` outputs of a generator started in state `s`. */
  function Outputs(s: int, a: int, c: int, m: int, n: nat): (r: seq<int>)
    requires m > 0
    ensures |r| == n
  {
    seq(n, i requires 0 <= i < n => Iterate(s, a, c, m, i + 1))
  }

  /** The element at `i` of a list of successive steps from `s` is the state after `i + 1` steps. */
  lemma {:induction false} StepsAreIterates(s: int, a: int, c: int, m: int, v: seq<int>, i: nat)
    requires m > 0 && |v| > 0 && v[0] == Step(s, a, c, m)
    requires forall j :: 0 <= j < |v| - 1 ==> v[j + 1] == Step(v[j], a, c, m)
    requires i < |v|
    ensures v[i] == Iterate(s, a, c, m, i + 1)
  {
    if i > 0 {
      StepsAreIterates(s, a, c, m, v, i - 1);
    }
  }

  /** A list of successive steps from `s` is the list of outputs from `s`. */
  lemma OutputsFromSteps(s: int, a: int, c: int, m: int, v: seq<int>)
    requires m > 0 && |v| > 0 && v[0] == Step(s, a, c, m)
    requires forall j :: 0 <= j < |v| - 1 ==> v[j + 1] == Step(v[j], a, c, m)
    ensures Outputs(s, a, c, m, |v|) == v
  {
    forall i | 0 <= i < |v| ensures Outputs(s, a, c, m, |v|)[i] == v[i] {
      StepsAreIterates(s, a, c, m, v, i);
    }
  }

  /** The first `n` results of stepping back from state `s`. */
  function BackOutputs(s: int, a: int, c: int, m: int, n: nat): (r: seq<int>)
    requires m > 0 && Gcd(a, m) == 1
    ensures |r| == n
  {
    seq(n, i requires 0 <= i < n => IterateBack(s, a, c, m, i + 1))
  }

  /** One more backward step appends one more result. */
  lemma BackOutputsSnoc(s: int, a: int, c: int, m: int, n: nat)
    requires m > 0 && Gcd(a, m) == 1
    ensures BackOutputs(s, a, c, m, n + 1) == BackOutputs(s, a, c, m, n) + [IterateBack(s, a, c, m, n + 1)]
  {
    var longer, shorter := BackOutputs(s, a, c, m, n + 1), BackOutputs(s, a, c, m, n);
    forall i | 0 <= i < n ensures longer[i] == shorter[i] {
      assert longer[i] == IterateBack(s, a, c, m, i + 1) == shorter[i];
    }
    assert longer[n] == IterateBack(s, a, c, m, n + 1);
  }

  /** The elements of `xs` in the opposite order. */
  function Reverse(xs: seq<int>): (r: seq<int>)
    ensures |r| == |xs|
    ensures forall i :: 0 <= i < |xs| ==> r[i] == xs[|xs| - 1 - i]
  {
    if xs == [] then [] else Reverse(xs[1..]) + [xs[0]]
  }

  /** Forward steps from a state in `[0, m)` stay in `[0, m)`. */
  lemma {:induction false} IterateInRange(s: int, a: int, c: int, m: int, n: nat)
    requires m > 0 && 0 <= s < m
    ensures 0 <= Iterate(s, a, c, m, n) < m
  {
    if n > 0 {
      IterateInRange(s, a, c, m, n - 1);
    }
  }

  /** `j` backward steps undo the last `j` of `k` forward steps. */
  lemma {:induction false} IterateBackUndoes(s: int, a: int, c: int, m: int, k: nat, j: nat)
    requires m > 0 && Gcd(a, m) == 1 && a <= m && 0 <= s < m && j <= k
    ensures IterateBack(Iterate(s, a, c, m, k), a, c, m, j) == Iterate(s, a, c, m, k - j)
  {
    if j > 0 {
      IterateBackUndoes(s, a, c, m, k, j - 1);
      IterateInRange(s, a, c, m, k - j);
      StepBackAfterStep(Iterate(s, a, c, m, k - j), a, c, m);
    }
  }

  lemma OutputsAt(s: int, a: int, c: int, m: int, n: nat, i: nat)
    requires m > 0 && i < n
    ensures Outputs(s, a, c, m, n)[i] == Iterate(s, a, c, m, i + 1)
  {
  }

  lemma BackOutputsAt(s: int, a: int, c: int, m: int, n: nat, i: nat)
    requires m > 0 && Gcd(a, m) == 1 && i < n
    ensures BackOutputs(s, a, c, m, n)[i] == IterateBack(s, a, c, m, i + 1)
  {
    var f := i requires 0 <= i < n => IterateBack(s, a, c, m, i + 1);
    assert BackOutputs(s, a, c, m, n) == seq(n, f);
  }

  /** The `i`-th backward result from the state after `n + 1` steps is the forward output `n - 1 - i`. */
  lemma ReplayAt(s: int, a: int, c: int, m: int, n: nat, i: nat)
    requires m > 0 && Gcd(a, m) == 1 && a <= m && 0 <= s < m && i < n
    ensures BackOutputs(Iterate(s, a, c, m, n + 1), a, c, m, n)[i] == Outputs(s, a, c, m, n)[n - 1 - i]
  {
    var t, k := Iterate(s, a, c, m, n + 1), n - 1 - i;
    IterateBackUndoes(s, a, c, m, n + 1, i + 1);
    assert n + 1 - (i + 1) == k + 1;
    BackOutputsAt(t, a, c, m, n, i);
    OutputsAt(s, a, c, m, n, k);
  }

  /**
    Running `n + 1` steps forward and then `n` steps back replays the `n`
    forward outputs in reverse order.
   */
  lemma ReplayBackwards(s: int, a: int, c: int, m: int, n: nat)
    requires m > 0 && Gcd(a, m) == 1 && a <= m && 0 <= s < m
    ensures BackOutputs(Iterate(s, a, c, m, n + 1), a, c, m, n) == Reverse(Outputs(s, a, c, m, n))
  {
    var back, fwd := BackOutputs(Iterate(s, a, c, m, n + 1), a, c, m, n), Outputs(s, a, c, m, n);
    var rev := Reverse(fwd);
    forall i | 0 <= i < n ensures back[i] == rev[i] {
      ReplayAt(s, a, c, m, n, i);
    }
  }

  // ---------------------------------------------------------------------
  // The generator object

  /** The four fields of a generator as one value, compared field by field. */
  datatype Snapshot = Snapshot(state: int, a: int, c: int, m: int)

  class LCG {
    var state: int
    var a: int  // multiplier
    var c: int  // increment
    var m: int  // modulus

    constructor (state: int, a: int, c: int, m: int)
      ensures this.state == state && this.a == a && this.c == c && this.m == m
    {
      this.state, this.a, this.c, this.m := state, a, c, m;
    }

    /** The generator's fields as a value. */
    function Value(): (v: Snapshot)
      reads this
      ensures v.state == state && v.a == a && v.c == c && v.m == m
    {
      Snapshot(state, a, c, m)
    }

    /** A proper modulus and a state that is one of its residues. */
    ghost predicate Valid()
      reads this
    {
      m > 0 && 0 <= state < m
    }

    /** Step forward in place and return the new state. */
    method Rand() returns (r: int)
      requires m > 0
      modifies this`state
      ensures state == Step(old(state), a, c, m) && r == state
      ensures a == old(a) && c == old(c) && m == old(m)
      ensures Valid()
    {
      state := Modulo(state * a + c, m);
      r := state;
    }

    /** The iterator's `next`: always some value, the result of `Rand`. */
    method Next() returns (r: Option<int>)
      requires m > 0
      modifies this`state
      ensures state == Step(old(state), a, c, m) && r == Some(state)
      ensures a == old(a) && c == old(c) && m == old(m)
    {
      var x := Rand();
      r := Some(x);
    }

    /**
      Step backward in place and return the new state, or `None`, leaving
      the state as it was, when the multiplier is not invertible modulo `m`.
     */
    method Prev() returns (r: Option<int>)
      requires m > 0
      modifies this`state
      ensures r == StepBack(old(state), a, c, m)
      ensures r.None? <==> Gcd(a, m) != 1
      ensures r.None? ==> state == old(state)
      ensures r.Some? ==> state == r.value && Valid()
      ensures a == old(a) && c == old(c) && m == old(m)
    {
      var inv := ModInv(a, m);
      if inv.None? {
        return None;
      }
      state := Modulo(inv.value * (state - c), m);
      r := Some(state);
    }
  }

  /**
    A forward step followed by a backward step leaves a valid generator with
    an invertible multiplier no larger than the modulus unchanged.
   */
  method RandThenPrev(g: LCG) returns (x: int, y: Option<int>)
    requires g.Valid() && Gcd(g.a, g.m) == 1 && g.a <= g.m
    modifies g
    ensures g.Value() == old(g.Value())
    ensures y == Some(old(g.state)) && x == Step(old(g.state), g.a, g.c, g.m)
  {
    x := g.Rand();
    y := g.Prev();
    StepBackAfterStep(old(g.state), g.a, g.c, g.m);
  }
}
