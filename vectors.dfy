/**
  The concrete scenarios of the generator's own tests, stated on the model:
  ten outputs forward, the same ten replayed backward, and recovery of a
  generator from ten of its outputs.
 */
module Vectors {
  import opened ModArith
  import opened Lcg
  import opened Crack

  /** The first ten outputs of the generator `(32760, 5039, 76581, 479001599)`. */
  lemma ForwardVector()
    ensures Outputs(32760, 5039, 76581, 479001599, 10) ==
      [165154221, 186418737, 41956685, 180107137, 330911418,
       58145764, 326604388, 389095148, 96982646, 113998795]
  {
    var a, c, m := 5039, 76581, 479001599;
    var v := [165154221, 186418737, 41956685, 180107137, 330911418,
              58145764, 326604388, 389095148, 96982646, 113998795];
    StepIs(32760, a, c, m, 165154221);
    StepIs(165154221, a, c, m, 186418737);
    StepIs(186418737, a, c, m, 41956685);
    StepIs(41956685, a, c, m, 180107137);
    StepIs(180107137, a, c, m, 330911418);
    StepIs(330911418, a, c, m, 58145764);
    StepIs(58145764, a, c, m, 326604388);
    StepIs(326604388, a, c, m, 389095148);
    StepIs(389095148, a, c, m, 96982646);
    StepIs(96982646, a, c, m, 113998795);
    assert forall j :: 0 <= j < |v| - 1 ==> v[j + 1] == Step(v[j], a, c, m);
    OutputsFromSteps(32760, a, c, m, v);
  }

  /** `take(n).collect()` on a generator: its next `n` outputs. */
  method Take(g: LCG, n: nat) returns (out: seq<int>)
    requires g.m > 0
    modifies g
    ensures g.a == old(g.a) && g.c == old(g.c) && g.m == old(g.m)
    ensures out == Outputs(old(g.state), g.a, g.c, g.m, n)
    ensures g.state == Iterate(old(g.state), g.a, g.c, g.m, n)
  {
    out := [];
    var i := 0;
    while i < n
      invariant 0 <= i <= n
      invariant g.a == old(g.a) && g.c == old(g.c) && g.m == old(g.m)
      invariant g.state == Iterate(old(g.state), g.a, g.c, g.m, i)
      invariant out == Outputs(old(g.state), g.a, g.c, g.m, i)
    {
      var x := g.Next();
      out := out + [x.value];
      i := i + 1;
    }
  }

  /**
    `(0..n).filter_map(|_| g.prev()).collect()`: `n` backward steps, keeping
    the results that exist (all of them, or none when the multiplier is not
    invertible).
   */
  method TakeBack(g: LCG, n: nat) returns (out: seq<int>)
    requires g.m > 0
    modifies g
    ensures g.a == old(g.a) && g.c == old(g.c) && g.m == old(g.m)
    ensures Gcd(g.a, g.m) == 1 ==>
      out == BackOutputs(old(g.state), g.a, g.c, g.m, n) && g.state == IterateBack(old(g.state), g.a, g.c, g.m, n)
    ensures Gcd(g.a, g.m) != 1 ==> out == [] && g.state == old(g.state)
  {
    ghost var s0, ok := g.state, Gcd(g.a, g.m) == 1;
    out := [];
    var i := 0;
    while i < n
      invariant 0 <= i <= n
      invariant g.a == old(g.a) && g.c == old(g.c) && g.m == old(g.m)
      invariant ok ==> out == BackOutputs(s0, g.a, g.c, g.m, i) && g.state == IterateBack(s0, g.a, g.c, g.m, i)
      invariant !ok ==> out == [] && g.state == s0
    {
      var y := g.Prev();
      if y.Some? {
        BackOutputsSnoc(s0, g.a, g.c, g.m, i);
        out := out + [y.value];
      }
      i := i + 1;
    }
  }

  /**
    The generator's own test, on any valid generator with an invertible
    multiplier no larger than the modulus: take `n` outputs, step once more,
    then step back `n` times; the values come back in reverse order.
   */
  method ForwardAndBackward(g: LCG, n: nat) returns (forward: seq<int>, backward: seq<int>)
    requires g.Valid() && Gcd(g.a, g.m) == 1 && g.a <= g.m
    modifies g
    ensures g.a == old(g.a) && g.c == old(g.c) && g.m == old(g.m)
    ensures forward == Outputs(old(g.state), g.a, g.c, g.m, n)
    ensures backward == Reverse(forward)
  {
    ghost var s0 := g.state;
    forward := Take(g, n);
    var _ := g.Rand();
    backward := TakeBack(g, n);
    ReplayBackwards(s0, g.a, g.c, g.m, n);
  }

  /** The same test on the generator `(32760, 5039, 76581, 479001599)` and ten outputs. */
  method ForwardAndBackwardVector() returns (forward: seq<int>, backward: seq<int>)
    ensures forward ==
      [165154221, 186418737, 41956685, 180107137, 330911418,
       58145764, 326604388, 389095148, 96982646, 113998795]
    ensures backward == Reverse(forward)
  {
    var s, a, c, m := 32760, 5039, 76581, 479001599;
    var g := new LCG(s, a, c, m);
    CoprimeByBezout(a, m, 49810843, -524);
    forward, backward := ForwardAndBackward(g, 10);
    ForwardVector();
  }

  /** The first ten outputs of the generator `(32760, 5039, 0, 479001599)`. */
  lemma RecoveryRun()
    ensures Outputs(32760, 5039, 0, 479001599, 10) ==
      [165077640, 279452096, 373412283, 106213165, 163352352,
       207754646, 257167379, 167097486, 398422511, 155331520]
  {
    var a, c, m := 5039, 0, 479001599;
    var v := [165077640, 279452096, 373412283, 106213165, 163352352,
              207754646, 257167379, 167097486, 398422511, 155331520];
    StepIs(32760, a, c, m, 165077640);
    StepIs(165077640, a, c, m, 279452096);
    StepIs(279452096, a, c, m, 373412283);
    StepIs(373412283, a, c, m, 106213165);
    StepIs(106213165, a, c, m, 163352352);
    StepIs(163352352, a, c, m, 207754646);
    StepIs(207754646, a, c, m, 257167379);
    StepIs(257167379, a, c, m, 167097486);
    StepIs(167097486, a, c, m, 398422511);
    StepIs(398422511, a, c, m, 155331520);
    assert forall j :: 0 <= j < |v| - 1 ==> v[j + 1] == Step(v[j], a, c, m);
    OutputsFromSteps(32760, a, c, m, v);
  }

  /**
    The candidate modulus recovered from those ten outputs is the true
    modulus: it is a multiple of 479001599 (`ModulusDividesRecovered`) and
    divides a combination of the first two products equal to 479001599.
   */
  lemma RecoveryModulus()
    ensures RecoveredModulus(Outputs(32760, 5039, 0, 479001599, 10)) == 479001599
  {
    var a, c, m := 5039, 0, 479001599;
    RecoveryRun();
    var v := Outputs(32760, a, c, m, 10);
    OutputsAreRun(32760, a, c, m, 10);
    ModulusDividesRecovered(v, a, c, m);
    var z := Products(Diffs(v));
    FirstProducts(v);
    var r := RecoveredModulus(v);
    DividesLinear(r, z[0], z[1], -30326217, 18091622);
    assert -30326217 * z[0] + 18091622 * z[1] == m;
    DividesAntisymmetric(r, m);
  }

  /** The first two products of those outputs. */
  lemma FirstProducts(v: seq<int>)
    requires v == [165077640, 279452096, 373412283, 106213165, 163352352,
                   207754646, 257167379, 167097486, 398422511, 155331520]
    ensures |Products(Diffs(v))| == 7
    ensures Products(Diffs(v))[0] == -39389270506004777 && Products(Diffs(v))[1] == -66026559964429955
  {
    var d := Diffs(v);
    assert d[0] == 114374456 && d[1] == 93960187 && d[2] == -267199118 && d[3] == 57139187;
  }

  /**
    Recovery from the first ten outputs of `(32760, 5039, 0, 479001599)`
    yields exactly that generator, positioned at the tenth output.
   */
  lemma RecoveryVector()
    ensures CrackLcg(Outputs(32760, 5039, 0, 479001599, 10)) == Some(Snapshot(155331520, 5039, 0, 479001599))
  {
    var a, c, m := 5039, 0, 479001599;
    RecoveryRun();
    RecoveryModulus();
    var v := Outputs(32760, a, c, m, 10);
    OutputsAreRun(32760, a, c, m, 10);
    CoprimeByBezout(v[1] - v[0], m, -51574493, 12314791);
    CrackExact(v, a, c, m);
    ModuloIdentity(a, m);
    ModuloIdentity(c, m);
  }
}
