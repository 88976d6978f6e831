# lcg-tools, modelled in Dafny

lcg-tools works with linear congruential generators (LCGs): `state := (state * a + c) mod m`.
It steps a generator forward (`rand`, and the iterator's `next`) and backward (`prev`, through
the modular inverse of the multiplier). It also recovers ("cracks") the modulus, multiplier and
increment of an unknown generator from a few consecutive outputs (`crack_lcg`). The arithmetic
works on arbitrary-precision integers, except the difference stage of `crack_lcg`, which works on
`isize` (see "Left out"). It rests on two helpers:
- `modulo`, a non-negative residue built from the big-integer truncating remainder;
- `modinv`, a modular inverse taken from the extended Euclidean algorithm.

The model has four modules:

- `ModArith` (`modarith.dfy`) covers the pure arithmetic:
  - the truncating quotient and remainder of a big-integer type (`Quot`, `Rem`);
  - `Modulo`;
  - an extended Euclidean algorithm (`ExtGcd`) and `Gcd`;
  - the inverse as the code computes it (`ModInv`), and the corrected inverse (`ModInverse`).

  Divisibility and congruence are defined independently of `%` (`Divides`, `Congruent`, `IsGcd`).
  These definitions are the reference the operations are proved against.
- `Lcg` (`lcg.dfy`) is the generator. The `LCG` class holds the four fields (`state`, `a`, `c`,
  `m`). Its methods `Rand`, `Next` and `Prev` update `state` in place. Each is proved against a
  step function:
  - `Step` and `StepBack`, one step each way (`StepBack` through `modinv` as written, and
    `StepBackCorrected` through the corrected inverse);
  - `Iterate` and `IterateBack`, several steps;
  - `Outputs` and `BackOutputs`, the sequences of results.

  The lemmas beside them prove the round trips between forward and backward steps.
- `Crack` (`crack.dfy`) is the recovery:
  - first differences (`Diffs`);
  - the products `d[i+2]*d[i] - d[i+1]^2` (`Products`);
  - their gcd fold from 0 (`GcdFold`);
  - `CrackLcg`.

  It proves why the procedure works: the modulus of any generator divides the recovered
  modulus. When the two moduli coincide, the first difference is invertible modulo it and the
  first value is a residue, recovery returns the generator itself and continues its sequence.
- `Vectors` (`vectors.dfy`) states the repository's two tests on the model:
  - the ten outputs forward and the same ten replayed backward;
  - recovery of the generator `(32760, 5039, 0, 479001599)` from ten outputs.

  It also holds the iterator adaptors those tests use (`take`, `filter_map(prev)`), modelled as
  loops over the generator object.

`modinv` takes the Bézout coefficient of `min(a, m)`. It is guaranteed to return the inverse of
`a` only when `a <= m`; above the modulus it may or may not (`modinv(7, 3)` happens to be correct,
`modinv(10, 3)` is not). The model keeps that code as written (`ModInv`) and so do its callers:
`StepBack`, `LCG.Prev` and `CrackLcg` go through `ModInv`, and their round-trip properties are
guaranteed only for `a <= m` (for recovery: the second observed step, when the first difference is
no larger than the candidate modulus; the first step always holds). The
discrepancy is under "Findings", with the corrected inverse (`ModInverse`) and the corrected
backward step (`StepBackCorrected`), whose round trip holds for every invertible multiplier. For
`a <= m` the two versions are proved equal (`ModInverseAgrees`, `StepBackAgrees`).

## Model

| member | source | states |
|---|---|---|
| ModArith.Rem | src/lib.rs:7 | the big-integer `%`: smaller than the divisor in magnitude, with the sign of the dividend |
| ModArith.QuotRem | src/lib.rs:7 | truncating quotient times divisor plus remainder gives back the dividend |
| ModArith.Modulo | src/lib.rs:5-8 | `((a % m) + m) % m` lies in `[0, m)` and is congruent to `a` modulo `m` |
| ModArith.ModuloEuclidean | src/lib.rs:5-8 | the result equals the mathematical (Euclidean) `a mod m` |
| ModArith.ModuloCongruent | src/lib.rs:5-8 | two numbers have the same residue exactly when they are congruent modulo `m` |
| ModArith.ModuloIdempotent | src/lib.rs:5-8 | reducing an already reduced value changes nothing |
| ModArith.ModuloIdentity | src/lib.rs:5-8 | values in `[0, m)` are their own residue |
| ModArith.LeastResidue | src/lib.rs:5-8 | the only residue in `[0, m)` congruent to `x` is `x mod m` |
| ModArith.ExtGcd | src/lib.rs:11 | the extended gcd is non-negative |
| ModArith.ExtGcdBezout | src/lib.rs:11 | the returned coefficients combine the two arguments into the gcd (Bézout) |
| ModArith.ExtGcdDivides | src/lib.rs:11 | the returned gcd divides both arguments |
| ModArith.Gcd | src/lib.rs:12 | the gcd is a non-negative common divisor |
| ModArith.GcdGreatest | src/lib.rs:12 | every common divisor divides the gcd |
| ModArith.GcdIsGcd | src/lib.rs:12 | the gcd meets the full definition of the greatest common divisor |
| ModArith.GcdUnique | src/lib.rs:12 | the greatest common divisor is unique |
| ModArith.GcdSymmetric | src/lib.rs:11 | the gcd does not depend on argument order, so `max`/`min` do not change the gcd test |
| ModArith.GcdModulo | src/lib.rs:10-17 | reducing `a` modulo `m` keeps `gcd(a, m)` |
| ModArith.GcdWithZero | src/lib.rs:49 | the fold's start value 0 gives `gcd(0, z) == abs(z)` |
| ModArith.CoprimeByBezout | src/lib.rs:12 | a Bézout combination equal to 1 proves the gcd is 1 |
| ModArith.ModInv | src/lib.rs:10-17 | `None` exactly when `gcd(a, m) != 1`; otherwise a result in `[0, m)`, an inverse of `a` when `a <= m` |
| ModArith.ModInvAboveModulus | src/lib.rs:10-17 | `modinv(10, 3)` is `Some(0)`, which is not an inverse of 10 modulo 3 (1 is) |
| ModArith.ModInverse | src/lib.rs:10-17 | corrected inverse: `None` exactly when `gcd(a, m) != 1`; otherwise `r` in `[0, m)` with `a * r ≡ 1 (mod m)` |
| ModArith.ModInverseAgrees | src/lib.rs:10-17 | for `a <= m` the corrected inverse equals `modinv` |
| ModArith.InverseUnique | src/lib.rs:15 | an inverse in `[0, m)` is unique, so the normalised coefficient is the inverse |
| Lcg.Step | src/lib.rs:83-86 | one forward step lands in `[0, m)` and is congruent to `state * a + c` |
| Lcg.StepIs | src/lib.rs:84 | a step equals the Euclidean remainder of `s * a + c` |
| Lcg.StepResidues | src/lib.rs:84 | a step depends on `a` and `c` only through their residues modulo `m` |
| Lcg.StepBack | src/lib.rs:91-97 | as written, through `modinv`: `None` exactly when `gcd(a, m) != 1`; otherwise a state in `[0, m)`, whose forward step is congruent to `s` when `a <= m` |
| Lcg.ModInvUndoesStep | src/lib.rs:93 | `modinv`'s answer times `state - c`, reduced, is a state whose forward step is congruent to `state` when `a <= m` |
| Lcg.StepBackCorrected | src/lib.rs:88-90 | the backward step the comment describes: `None` exactly when `gcd(a, m) != 1`; otherwise a state in `[0, m)` whose forward step is congruent to `s` |
| Lcg.StepBackAgrees | src/lib.rs:91-97 | for `a <= m` the as-written and corrected backward steps coincide |
| Lcg.StepBackZeroInverse | src/lib.rs:93 | when `modinv` answers 0, `prev` lands on state 0 whatever the state |
| Lcg.StepBackAboveModulus | src/lib.rs:91-97 | on `a = 10`, `c = 0`, `m = 3`: `rand` takes 1 to 1, `prev` takes 1 to 0, and `rand` takes 0 to 0, so `prev` does not undo `rand` |
| Lcg.StepBackCorrectedAboveModulus | src/lib.rs:88-90 | on the same generator the corrected backward step takes 1 back to 1 |
| Lcg.UndoStep | src/lib.rs:89 | `inv * (state - c)` undoes `state * a + c` when `inv` inverts `a` |
| Lcg.StepBackCorrectedAfterStep | src/lib.rs:88-90 | the corrected backward step after a forward step restores any state in `[0, m)`, for every invertible `a` |
| Lcg.StepBackAfterStep | src/lib.rs:83-97 | the as-written `prev` after `rand` restores any state in `[0, m)` when `a <= m` |
| Lcg.StepAfterStepBack | src/lib.rs:83-97 | a forward step after the as-written backward step restores any state in `[0, m)` when `a <= m` |
| Lcg.SharedFactorCannotStepBack | src/lib.rs:90 | a multiplier sharing a factor greater than 1 with the modulus cannot step back |
| Lcg.IterateInRange | src/lib.rs:84 | repeated forward steps from a state in `[0, m)` stay in `[0, m)` |
| Lcg.IterateBackUndoes | src/lib.rs:83-97 | for `a <= m`, `j` backward steps undo the last `j` of `k` forward steps |
| Lcg.OutputsFromSteps | src/lib.rs:75-86 | a list of successive steps from `s` is the generator's output list from `s` |
| Lcg.Reverse | src/lib.rs:132 | reversal keeps the length and maps index `i` to `n - 1 - i` |
| Lcg.ReplayAt | src/lib.rs:132-137 | for `a <= m`, the `i`-th backward result after `n + 1` forward steps is forward output `n - 1 - i` |
| Lcg.ReplayBackwards | src/lib.rs:115-137 | for `a <= m`, `n` backward steps after `n + 1` forward steps give the `n` forward outputs in reverse |
| Lcg.LCG.constructor | src/lib.rs:19-28 | the four fields take the given values |
| Lcg.LCG.Value | src/lib.rs:19-28 | field-by-field value of the generator, used for its structural equality |
| Lcg.LCG.Rand | src/lib.rs:83-86 | the state becomes `Step(old state)` and is returned; the parameters are unchanged and the state is in `[0, m)` |
| Lcg.LCG.Next | src/lib.rs:75-77 | always `Some`, with the value and effect of `Rand` |
| Lcg.LCG.Prev | src/lib.rs:91-97 | returns `StepBack(old state)`, through `modinv` as written; on `None` the state is untouched, on `Some` it becomes the returned value |
| Lcg.RandThenPrev | src/lib.rs:83-97 | `rand` then `prev` leaves a generator exactly as it was when its multiplier is invertible and `a <= m` |
| Crack.Diffs | src/lib.rs:41-43 | one difference per adjacent pair |
| Crack.Products | src/lib.rs:44-46 | one product per three adjacent differences |
| Crack.GcdFold | src/lib.rs:47-50 | the fold result is non-negative and divides every product |
| Crack.GcdFoldGreatest | src/lib.rs:47-50 | every common divisor of the products divides the fold result |
| Crack.CrackLcg | src/lib.rs:33-68 | `None` exactly for fewer than 3 values, a zero modulus, or a first difference that is not invertible; otherwise state = last value, modulus = the fold, `a` and `c` in `[0, m)`, the first observed step `v0 -> v1` always reproduced modulo `m`, and the second step `v1 -> v2` as well when the first difference is at most the modulus |
| Crack.RecoverParameters | src/lib.rs:52-67 | given the candidate modulus: `None` exactly when `v1 - v0` is not invertible modulo it; otherwise the generator at the last value with residue multiplier and increment reproducing `v0 -> v1`, and `v1 -> v2` when `v1 - v0 <= m` |
| Crack.RecoveredSteps | src/lib.rs:52-61 | the increment fitted by `modulo(v1 - v0 * a, m)` always completes `v0 -> v1`; the multiplier from `modinv` also reproduces `v1 -> v2` when `v1 - v0 <= m` |
| Crack.FirstStepsAgree | src/lib.rs:52-61 | the computed multiplier and increment reproduce `v0 -> v1 -> v2` modulo the candidate |
| Crack.OutputsAreRun | src/lib.rs:75-86 | a generator's outputs are a run of successive steps |
| Crack.DifferenceRecurrence | src/lib.rs:41-43 | in a run each difference is `a` times the previous one modulo `m` |
| Crack.ProductVanishes | src/lib.rs:44-46 | that recurrence makes `m` divide `d2 * d0 - d1^2` |
| Crack.ProductsDivisible | src/lib.rs:44-46 | the true modulus divides every product computed from a run |
| Crack.ProductDivisibleAt | src/lib.rs:44-46 | the true modulus divides the `i`-th product computed from a run |
| Crack.ModulusDividesRecovered | src/lib.rs:41-50 | the true modulus divides the recovered modulus |
| Crack.ThreeValuesDegenerate | src/lib.rs:38-50 | exactly three values give no product, a zero modulus, and no result |
| Crack.StepsDetermineParameters | src/lib.rs:52-61 | two generators that agree on `v0 -> v1 -> v2` with an invertible `v1 - v0` have congruent multipliers and increments |
| Crack.CrackExact | src/lib.rs:52-67 | when the recovered modulus is the true one, `v1 - v0` is invertible and `v0` is a residue, recovery returns the generator itself, with `a` and `c` reduced, at the last value |
| Crack.CrackContinues | src/lib.rs:52-67 | under the same conditions the recovered generator's next output equals the original generator's next output |
| Vectors.ForwardVector | src/lib.rs:115-131 | the first ten outputs of `(32760, 5039, 76581, 479001599)` are the ten listed in the test |
| Vectors.Take | src/lib.rs:115 | `take(n).collect()` returns `Outputs` and leaves the generator `n` steps on |
| Vectors.TakeBack | src/lib.rs:135 | `n` calls of `prev` under `filter_map` return `BackOutputs` when the multiplier is invertible, and nothing otherwise |
| Vectors.ForwardAndBackward | src/lib.rs:107-137 | on any valid generator with an invertible multiplier `a <= m`, the backward values are the forward ones reversed |
| Vectors.ForwardAndBackwardVector | src/lib.rs:107-137 | the forward/backward test on its own generator: the listed ten outputs, then the same ten reversed |
| Vectors.RecoveryRun | src/lib.rs:141-153 | the first ten outputs of `(32760, 5039, 0, 479001599)` |
| Vectors.FirstProducts | src/lib.rs:44-46 | the first two products of those outputs |
| Vectors.RecoveryModulus | src/lib.rs:47-50 | the modulus recovered from them is exactly 479001599 |
| Vectors.RecoveryVector | src/lib.rs:141-156 | recovery from those ten outputs yields the generator itself, positioned at the tenth output |

## Left out

- ModArith.Modulo: requires `m > 0`. The source panics for `m == 0` and returns a value in `(m, 0]` for negative `m`. No caller in the model needs a non-positive modulus.
- ModArith.ModInv: requires `m > 0`, like `Modulo`, which it calls. The inverse property is stated only for `a <= m`, because for `a > m` the code does not return an inverse (see Findings).
- Lcg.LCG.Rand: requires `m > 0`. The source panics on a zero modulus; for a negative modulus it runs and returns a value in `(m, 0]`, which the model does not cover. `Lcg.LCG.Next` and `Lcg.LCG.Prev` require the same.
- Lcg.StepBack: the forward step from the result is guaranteed to be congruent to `s` only when `a <= m`, because above the modulus `modinv` is not guaranteed to return the inverse (it does for `modinv(7, 3)`, not for `modinv(10, 3)`; see Findings).
- Lcg.LCG.Prev: like `Lcg.StepBack`, whose value it returns, it is guaranteed to undo `rand` only when `a <= m`.
- Crack.CrackLcg: returns `None` when the recovered modulus is 0. The source returns `None` there, except when `|v1 - v0| == 1`: then `modulo` is asked to reduce by 0 and panics.
- Crack.CrackLcg: the second step `v1 -> v2` is guaranteed only when `v1 - v0` is at most the candidate modulus, because the multiplier comes from `modinv` (see Findings). The first step always holds, because the increment is fitted to it.
- Crack.RecoverParameters: like `Crack.CrackLcg`, of which it is the last stage, it guarantees the second step only when `v1 - v0 <= m`.
- Crack.RecoveredSteps: the second step is stated only for `v1 - v0 <= m`, for the same reason.
- Crack.CrackExact: requires `0 <= v0 < m`, as holds for every output of a generator. Then `v1 - v0 < m`, the range where `modinv` returns the inverse. `Crack.CrackContinues` requires the same.
- Crack.CrackLcg: the differences and products are `isize` values in the source and can overflow for large inputs. The model uses unbounded integers, as if that stage were performed in arbitrary precision.
- Crack.GcdFold: uses the model's own Euclidean gcd instead of the library's `isize` gcd (a binary algorithm). Only the result, the non-negative gcd, is relied on.
- Exactness of recovery is not claimed: the recovered modulus is only shown to be a multiple of the true one. `Crack.CrackExact` assumes the two coincide.
- The library's `extended_gcd` is not part of this model. `ExtGcd` is an ordinary Euclidean recursion with the same contract: a non-negative gcd, and Bézout coefficients with `y` belonging to the second argument.
- `#[derive(Debug)]` and the `#[cfg(test)]` scaffolding are not modelled. Structural equality of generators is equality of `Snapshot` values (`LCG.Value`).

## Findings

| source | as written | input that shows it | evidently intended | confidence | as-written member | corrected member |
|---|---|---|---|---|---|---|
| src/lib.rs:11-15 | takes the Bézout coefficient of `min(a, m)` from `extended_gcd(max(a, m), min(a, m))` and reduces it modulo `m` | `modinv(10, 3)` returns `Some(0)`, and `10 * 0` is not 1 modulo 3. So `prev` on the generator `a = 10`, `c = 0`, `m = 3` takes state 1 to 0, although `rand` takes 1 to 1 | the inverse of `a` modulo `m` for every `a` coprime to `m`, e.g. by reducing `a` modulo `m` first | not executed | ModArith.ModInv, ModArith.ModInvAboveModulus, Lcg.StepBack, Lcg.StepBackAboveModulus | ModArith.ModInverse, ModArith.ModInverseAgrees, Lcg.StepBackCorrected, Lcg.StepBackCorrectedAfterStep |
