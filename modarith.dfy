/**
  Exact modular arithmetic on unbounded integers: the truncating remainder of
  an arbitrary-precision integer type, the "true modulus" built from it, an
  extended Euclidean algorithm, and the modular inverse derived from it.
 */
module ModArith {

  datatype Option<T> = None | Some(value: T)

  function Abs(x: int): (r: nat)
    ensures r == x || r == -x
  {
    if x < 0 then -x else x
  }

  /** The product `k * d`, named so that it can serve as a trigger. */
  function Times(k: int, d: int): int {
    k * d
  }

  /** `d` divides `n`: some integer multiple of `d` equals `n` (0 divides only 0). */
  ghost predicate Divides(d: int, n: int) {
    exists k :: n == Times(k, d)
  }

  /** `x` and `y` are congruent modulo `m`. */
  ghost predicate Congruent(x: int, y: int, m: int) {
    Divides(m, x - y)
  }

  /** `g` is the non-negative greatest common divisor of `a` and `b`. */
  ghost predicate IsGcd(g: int, a: int, b: int) {
    && g >= 0
    && Divides(g, a)
    && Divides(g, b)
    && forall d :: Divides(d, a) && Divides(d, b) ==> Divides(d, g)
  }

  // ---------------------------------------------------------------------
  // Divisibility facts

  /** Every multiple of `d` is divisible by `d`. */
  lemma DividesMultiple(d: int, k: int)
    ensures Divides(d, k * d)
  {
    assert k * d == Times(k, d);
  }

  /** Divisibility by `d` is closed under integer linear combinations. */
  lemma DividesLinear(d: int, x: int, y: int, p: int, q: int)
    requires Divides(d, x) && Divides(d, y)
    ensures Divides(d, p * x + q * y)
  {
    var kx :| x == Times(kx, d);
    var ky :| y == Times(ky, d);
    assert p * x + q * y == Times(p * kx + q * ky, d) by {
      calc {
        p * x + q * y;
        p * (kx * d) + q * (ky * d);
        (p * kx + q * ky) * d;
      }
    }
  }

  lemma DividesSum(d: int, x: int, y: int)
    requires Divides(d, x) && Divides(d, y)
    ensures Divides(d, x + y) && Divides(d, x - y)
  {
    DividesLinear(d, x, y, 1, 1);
    DividesLinear(d, x, y, 1, -1);
  }

  lemma DividesScale(d: int, x: int, p: int)
    requires Divides(d, x)
    ensures Divides(d, p * x)
  {
    DividesMultiple(d, 0);
    DividesLinear(d, x, 0 * d, p, 0);
  }

  lemma DividesLe(d: int, n: int)
    requires d > 0 && n > 0 && Divides(d, n)
    ensures d <= n
  {
    var k :| n == Times(k, d);
    assert (k - 1) * d >= 0;
  }

  /** Two non-negative numbers that divide each other are equal. */
  lemma DividesAntisymmetric(x: int, y: int)
    requires x >= 0 && y >= 0 && Divides(x, y) && Divides(y, x)
    ensures x == y
  {
    if x > 0 && y > 0 {
      DividesLe(x, y);
      DividesLe(y, x);
    }
  }

  lemma {:induction false} GcdUnique(g1: int, g2: int, a: int, b: int)
    requires IsGcd(g1, a, b) && IsGcd(g2, a, b)
    ensures g1 == g2
  {
    assert Divides(g1, g2);
    assert Divides(g2, g1);
    DividesAntisymmetric(g1, g2);
  }

  // ---------------------------------------------------------------------
  // Truncating division, as the native operators of a big-integer type

  /** Quotient rounded toward zero. */
  function Quot(a: int, b: int): int
    requires b != 0
  {
    if (a >= 0) == (b > 0) then Abs(a) / Abs(b) else -(Abs(a) / Abs(b))
  }

  /**
    Remainder whose sign follows the dividend, the `%` of a big-integer type:
    it completes the truncating quotient and is smaller than the divisor in
    magnitude.
   */
  function Rem(a: int, b: int): (r: int)
    requires b != 0
    ensures Abs(r) < Abs(b)
    ensures a >= 0 ==> r >= 0
    ensures a < 0 ==> r <= 0
  {
    if a >= 0 then a % Abs(b) else -((-a) % Abs(b))
  }

  /** The truncating quotient and remainder recompose the dividend. */
  lemma QuotRem(a: int, b: int)
    requires b != 0
    ensures a == Quot(a, b) * b + Rem(a, b)
  {
  }

  /**
    The least non-negative residue of `a` modulo `m`, built as
    `((a rem m) + m) rem m` from the truncating remainder. It lies in
    `[0, m)`, differs from `a` by a multiple of `m`, and so coincides with
    the Euclidean `a % m` (`ModuloEuclidean`).
   */
  function Modulo(a: int, m: int): (r: int)
    requires m > 0
    ensures 0 <= r < m
    ensures Congruent(r, a, m)
  {
    var ra := Rem(a, m);
    var t := ra + m;
    var r := Rem(t, m);
    var qa, qt := Quot(a, m), Quot(t, m);
    QuotRem(a, m);
    QuotRem(t, m);
    assert r - a == Times(1 - qa - qt, m) by {
      assert a == qa * m + ra && t == qt * m + r;
      assert r - a == (1 - qa - qt) * m;
    }
    r
  }

  /** The residue is Dafny's Euclidean remainder. */
  lemma ModuloEuclidean(a: int, m: int)
    requires m > 0
    ensures Modulo(a, m) == a % m
  {
    LeastResidue(Modulo(a, m), a, m);
  }

  /** A multiple of `m` strictly between `-m` and `m` is zero. */
  lemma ZeroMultiple(j: int, m: int)
    requires m > 0 && -m < j * m < m
    ensures j == 0
  {
  }

  /** Quotient and remainder of Euclidean division are unique. */
  lemma DivModUnique(x: int, m: int, q: int, r: int)
    requires m > 0 && x == q * m + r && 0 <= r < m
    ensures q == x / m && r == x % m
  {
    var q', r' := x / m, x % m;
    assert x == q' * m + r';
    assert (q - q') * m == r' - r;
    ZeroMultiple(q - q', m);
  }

  /** The only residue in `[0, m)` congruent to `x` is `x % m`. */
  lemma LeastResidue(r: int, x: int, m: int)
    requires m > 0 && 0 <= r < m && Congruent(r, x, m)
    ensures r == x % m
  {
    var k :| r - x == Times(k, m);
    DivModUnique(x, m, -k, r);
  }

  /** Residues agree exactly when the numbers are congruent. */
  lemma ModuloCongruent(x: int, y: int, m: int)
    requires m > 0
    ensures Modulo(x, m) == Modulo(y, m) <==> Congruent(x, y, m)
  {
    var rx, ry := Modulo(x, m), Modulo(y, m);
    if rx == ry {
      DividesSum(m, rx - y, rx - x);
      assert x - y == (rx - y) - (rx - x);
    } else if Congruent(x, y, m) {
      DividesSum(m, rx - x, x - y);
      assert rx - y == (rx - x) + (x - y);
      LeastResidue(rx, y, m);
      LeastResidue(ry, y, m);
      assert false;
    }
  }

  /** Taking the residue twice changes nothing. */
  lemma ModuloIdempotent(a: int, m: int)
    requires m > 0
    ensures Modulo(Modulo(a, m), m) == Modulo(a, m)
  {
    ModuloIdentity(Modulo(a, m), m);
  }

  /** On `[0, m)` the residue is the identity. */
  lemma ModuloIdentity(a: int, m: int)
    requires m > 0 && 0 <= a < m
    ensures Modulo(a, m) == a
  {
    DividesMultiple(m, 0);
    LeastResidue(a, a, m);
  }

  // ---------------------------------------------------------------------
  // Extended Euclid

  /** The result of an extended gcd: `gcd == x * self + y * other`. */
  datatype ExtendedGcd = ExtendedGcd(gcd: int, x: int, y: int)

  /**
    Extended Euclidean algorithm with the contract of the big-integer
    library's `extended_gcd`: a non-negative gcd and Bezout coefficients,
    `y` being the coefficient of the second argument. Each step divides
    with the truncating quotient, as the library does.
   */
  function ExtGcd(a: int, b: int): (e: ExtendedGcd)
    ensures e.gcd >= 0
    decreases Abs(b)
  {
    if b == 0 then
      if a >= 0 then ExtendedGcd(a, 1, 0) else ExtendedGcd(-a, -1, 0)
    else
      // The guard repeats the outer test, so that when the verifier unfolds
      // this definition on constant arguments the unfolding ends at the base case.
      var e := ExtGcd(b, if b == 0 then 0 else Rem(a, b));
      ExtendedGcd(e.gcd, e.y, e.x - Quot(a, b) * e.y)
  }

  /** The coefficients `ExtGcd` returns combine its arguments into the gcd. */
  lemma {:induction false} ExtGcdBezout(a: int, b: int)
    ensures ExtGcd(a, b).gcd == ExtGcd(a, b).x * a + ExtGcd(a, b).y * b
    decreases Abs(b)
  {
    if b != 0 {
      var q, r := Quot(a, b), Rem(a, b);
      var e := ExtGcd(b, r);
      ExtGcdBezout(b, r);
      QuotRem(a, b);
      BezoutStep(a, b, q, r, e.gcd, e.x, e.y);
    }
  }

  /** Bezout coefficients of `(b, a - q * b)` give those of `(a, b)`. */
  lemma BezoutStep(a: int, b: int, q: int, r: int, g: int, x: int, y: int)
    requires a == q * b + r && g == x * b + y * r
    ensures g == y * a + (x - q * y) * b
  {
  }

  /** The gcd that `ExtGcd` returns divides both arguments. */
  lemma {:induction false} ExtGcdDivides(a: int, b: int)
    ensures Divides(ExtGcd(a, b).gcd, a) && Divides(ExtGcd(a, b).gcd, b)
    decreases Abs(b)
  {
    var g := ExtGcd(a, b).gcd;
    if b == 0 {
      DividesMultiple(g, 0);
      assert a == Times(if a < 0 then -1 else 1, g);
    } else {
      var q, r := Quot(a, b), Rem(a, b);
      QuotRem(a, b);
      ExtGcdDivides(b, r);
      assert g == ExtGcd(b, r).gcd;
      DividesLinear(g, b, r, q, 1);
    }
  }

  /** The greatest common divisor, as `Integer::gcd` computes it: a non-negative common divisor. */
  function Gcd(a: int, b: int): (g: int)
    ensures g >= 0 && Divides(g, a) && Divides(g, b)
  {
    ExtGcdDivides(a, b);
    ExtGcd(a, b).gcd
  }

  /** Every common divisor divides the gcd, which is a combination of the arguments. */
  lemma GcdGreatest(a: int, b: int, d: int)
    requires Divides(d, a) && Divides(d, b)
    ensures Divides(d, Gcd(a, b))
  {
    var e := ExtGcd(a, b);
    ExtGcdBezout(a, b);
    DividesLinear(d, a, b, e.x, e.y);
  }

  lemma GcdIsGcd(a: int, b: int)
    ensures IsGcd(Gcd(a, b), a, b)
  {
    forall d | Divides(d, a) && Divides(d, b) ensures Divides(d, Gcd(a, b)) {
      GcdGreatest(a, b, d);
    }
  }

  /** The fold's first step: `gcd(0, z) == |z|`. */
  lemma GcdWithZero(z: int)
    ensures Gcd(0, z) == Abs(z)
  {
    assert Divides(Abs(z), z) by {
      assert z == Times(if z < 0 then -1 else 1, Abs(z));
    }
    GcdGreatest(0, z, Abs(z)) by { DividesMultiple(Abs(z), 0); }
    DividesScale(Gcd(0, z), z, if z < 0 then -1 else 1);
    assert Abs(z) == (if z < 0 then -1 else 1) * z;
    DividesAntisymmetric(Gcd(0, z), Abs(z));
  }

  /** Numbers with a Bezout combination equal to 1 are coprime. */
  lemma CoprimeByBezout(a: int, b: int, x: int, y: int)
    requires x * a + y * b == 1
    ensures Gcd(a, b) == 1
  {
    var g := Gcd(a, b);
    DividesLinear(g, a, b, x, y);
    if g == 0 {
      assert false;
    }
    DividesLe(g, 1);
  }

  lemma GcdSymmetric(a: int, b: int)
    ensures Gcd(a, b) == Gcd(b, a)
  {
    GcdIsGcd(a, b);
    GcdIsGcd(b, a);
    GcdUnique(Gcd(a, b), Gcd(b, a), a, b);
  }

  /** Reducing one argument modulo the other leaves the gcd unchanged. */
  lemma GcdModulo(a: int, m: int)
    requires m > 0
    ensures Gcd(Modulo(a, m), m) == Gcd(a, m)
  {
    var r, g, h := Modulo(a, m), Gcd(a, m), Gcd(Modulo(a, m), m);
    var k :| r - a == Times(k, m);
    assert r == 1 * a + k * m && a == 1 * r + (-k) * m;
    DividesLinear(g, a, m, 1, k);
    DividesLinear(h, r, m, 1, -k);
    GcdGreatest(r, m, g);
    GcdGreatest(a, m, h);
    DividesAntisymmetric(g, h);
  }

  // ---------------------------------------------------------------------
  // Modular inverse

  /**
    The modular inverse AS WRITTEN: extended gcd of `(max(a, m), min(a, m))`,
    `None` unless the gcd is 1, else the coefficient of `min(a, m)` reduced
    modulo `m`. That coefficient belongs to `a` only when `a <= m`.
   */
  function ModInv(a: int, m: int): (r: Option<int>)
    requires m > 0
    ensures r.None? <==> Gcd(a, m) != 1
    ensures r.Some? ==> 0 <= r.value < m
    ensures r.Some? && a <= m ==> Congruent(a * r.value, 1, m)
  {
    var e := ExtGcd(if a < m then m else a, if a < m then a else m);
    GcdSymmetric(a, m);
    if e.gcd != 1 then None
    else
      var r := Modulo(e.y, m);
      if a <= m then
        ExtGcdBezout(if a < m then m else a, if a < m then a else m);
        BezoutInverse(a, m, e.x, e.y, r);
        Some(r)
      else
        Some(r)
  }

  /** From `1 == x * m + y * a`, any `r` congruent to `y` is an inverse of `a` modulo `m`. */
  lemma BezoutInverse(a: int, m: int, x: int, y: int, r: int)
    requires 1 == x * m + y * a && Congruent(r, y, m)
    ensures Congruent(a * r, 1, m)
  {
    var k :| r - y == Times(k, m);
    assert a * r - 1 == Times(a * k - x, m) by {
      calc {
        a * r - 1;
        a * (y + k * m) - (x * m + y * a);
        (a * k - x) * m;
      }
    }
  }

  /** `modinv(10, 3)` yields 0, yet `10 * 0` is not 1 modulo 3 (10 * 1 is). */
  lemma ModInvAboveModulus()
    ensures ModInv(10, 3) == Some(0)
    ensures !Congruent(10 * 0, 1, 3) && Congruent(10 * 1, 1, 3)
  {
    assert Quot(10, 3) == 3 && Rem(10, 3) == 1;
    assert Quot(3, 1) == 3 && Rem(3, 1) == 0;
    var e1 := ExtGcd(1, 0);
    assert e1 == ExtendedGcd(1, 1, 0);
    var e3 := ExtGcd(3, 1);
    assert e3 == ExtendedGcd(e1.gcd, e1.y, e1.x - 3 * e1.y);
    var e10 := ExtGcd(10, 3);
    assert e10 == ExtendedGcd(e3.gcd, e3.y, e3.x - 3 * e3.y);
    assert Modulo(-3, 3) == 0;
    assert 10 * 1 - 1 == Times(3, 3);
    assert !Divides(3, -1);
  }

  /**
    The corrected inverse: reduce `a` modulo `m` first, so that the
    coefficient returned is always the one of `a`.
   */
  function ModInverse(a: int, m: int): (r: Option<int>)
    requires m > 0
    ensures r.None? <==> Gcd(a, m) != 1
    ensures r.Some? ==> 0 <= r.value < m && Congruent(a * r.value, 1, m)
  {
    var a' := Modulo(a, m);
    GcdModulo(a, m);
    var r := ModInv(a', m);
    if r.Some? then
      InverseCongruent(a', a, m, r.value);
      r
    else
      r
  }

  /** An inverse of `a'` is an inverse of every `a` congruent to `a'`. */
  lemma InverseCongruent(a': int, a: int, m: int, r: int)
    requires Congruent(a', a, m) && Congruent(a' * r, 1, m)
    ensures Congruent(a * r, 1, m)
  {
    DividesLinear(m, a' - a, a' * r - 1, -r, 1);
    assert a * r - 1 == -r * (a' - a) + 1 * (a' * r - 1);
  }

  /** An inverse modulo `m` is unique in `[0, m)`. */
  lemma InverseUnique(a: int, m: int, r1: int, r2: int)
    requires m > 0 && 0 <= r1 < m && 0 <= r2 < m
    requires Congruent(a * r1, 1, m) && Congruent(a * r2, 1, m)
    ensures r1 == r2
  {
    DividesLinear(m, a * r2 - 1, a * r1 - 1, -r1, r2);
    assert r1 - r2 == -r1 * (a * r2 - 1) + r2 * (a * r1 - 1);
    LeastResidue(r1, r2, m);
    LeastResidue(r2, r2, m) by { DividesMultiple(m, 0); }
  }

  /** Whenever `a <= m` the source's inverse is already right. */
  lemma ModInverseAgrees(a: int, m: int)
    requires m > 0 && a <= m
    ensures ModInverse(a, m) == ModInv(a, m)
  {
    var r1, r2 := ModInverse(a, m), ModInv(a, m);
    if r1.Some? {
      InverseUnique(a, m, r1.value, r2.value);
    }
  }
}
