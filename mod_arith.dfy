/**
 * Arithmetic on unbounded naturals that the proof's big-integer library
 * provides: exponentiation, reduction modulo a positive number, and the
 * library's modular exponentiation (BigUint::modpow), which is modelled
 * here by repeated squaring and proved equal to `Pow(b, e) % m`.
 */
module ModArith {

  /** Mathematical power `b^e`; the reference against which modpow is proved. */
  function Pow(b: nat, e: nat): nat
    decreases e
  {
    if e == 0 then 1 else b * Pow(b, e - 1)
  }

  /** The quotient and remainder of Euclidean division are unique. */
  lemma DivModUnique(a: int, m: int, d: int, r: int)
    requires m > 0
    requires a == m * d + r && 0 <= r < m
    ensures a / m == d && a % m == r
  {
    var d0, r0 := a / m, a % m;
    assert m * (d - d0) == r0 - r;
    if d - d0 >= 1 {
      MulAtLeast(m, d - d0);
      assert false;
    } else if d0 - d >= 1 {
      MulAtLeast(m, d0 - d);
      assert false;
    }
  }

  lemma MulAtLeast(m: int, t: int)
    requires m > 0 && t >= 1
    ensures m * t >= m
  {
  }

  /** Adding a multiple of the modulus does not change the remainder. */
  lemma ModAddMultiple(a: int, m: int, n: int)
    requires m > 0
    ensures (a + m * n) % m == a % m
  {
    DivModUnique(a + m * n, m, a / m + n, a % m);
  }

  /** Reduction commutes with addition. */
  lemma ModAdd(a: int, b: int, m: int)
    requires m > 0
    ensures (a + b) % m == (a % m + b % m) % m
  {
    var s := a % m + b % m;
    assert a + b == s + m * (a / m + b / m);
    ModAddMultiple(s, m, a / m + b / m);
  }

  /** Reduction commutes with multiplication. */
  lemma ModMul(a: nat, b: nat, m: nat)
    requires m > 0
    ensures (a * b) % m == ((a % m) * (b % m)) % m
  {
    var qa, ra, qb, rb := a / m, a % m, b / m, b % m;
    calc {
      a * b;
      (m * qa + ra) * (m * qb + rb);
      ra * rb + m * (qa * m * qb + qa * rb + ra * qb);
    }
    ModAddMultiple(ra * rb, m, qa * m * qb + qa * rb + ra * qb);
  }

  /** Reducing twice is reducing once. */
  lemma ModIdempotent(a: nat, m: nat)
    requires m > 0
    ensures (a % m) % m == a % m
  {
  }

  /** Multiplication respects congruence modulo `m`. */
  lemma ModMulCongruent(a1: nat, a2: nat, b1: nat, b2: nat, m: nat)
    requires m > 0
    requires a1 % m == a2 % m && b1 % m == b2 % m
    ensures (a1 * b1) % m == (a2 * b2) % m
  {
    ModMul(a1, b1, m);
    ModMul(a2, b2, m);
  }

  /** Exponents add: `b^(i+j) == b^i * b^j`. */
  lemma {:induction false} PowAdd(b: nat, i: nat, j: nat)
    ensures Pow(b, i + j) == Pow(b, i) * Pow(b, j)
    decreases i
  {
    if i > 0 {
      var x, y := Pow(b, i - 1), Pow(b, j);
      calc {
        Pow(b, i + j);
        b * Pow(b, i - 1 + j);
        { PowAdd(b, i - 1, j); }
        b * (x * y);
        (b * x) * y;
        Pow(b, i) * y;
      }
    }
  }

  /** Exponents multiply: `b^(i*j) == (b^i)^j`. */
  lemma {:induction false} PowMul(b: nat, i: nat, j: nat)
    ensures Pow(b, i * j) == Pow(Pow(b, i), j)
    decreases j
  {
    if j > 0 {
      var bi, rest := Pow(b, i), i * (j - 1);
      assert i * j == rest + i;
      calc {
        Pow(b, i * j);
        Pow(b, rest + i);
        { PowAdd(b, rest, i); }
        Pow(b, rest) * bi;
        { PowMul(b, i, j - 1); }
        Pow(bi, j - 1) * bi;
        bi * Pow(bi, j - 1);
        Pow(bi, j);
      }
    }
  }

  /** Every power of one is one. */
  lemma {:induction false} PowOfOne(e: nat)
    ensures Pow(1, e) == 1
    decreases e
  {
    if e > 0 {
      PowOfOne(e - 1);
    }
  }

  /** The base may be reduced before exponentiating: `(b mod m)^e ≡ b^e`. */
  lemma {:induction false} PowMod(b: nat, e: nat, m: nat)
    requires m > 0
    ensures Pow(b % m, e) % m == Pow(b, e) % m
    decreases e
  {
    if e > 0 {
      PowMod(b, e - 1, m);
      ModIdempotent(b, m);
      ModMulCongruent(b % m, b, Pow(b % m, e - 1), Pow(b, e - 1), m);
    }
  }

  /**
   * If `g^q ≡ 1 (mod m)`, that is, the order of `g` divides `q`, then an
   * exponent only matters modulo `q`.
   */
  lemma ExponentModOrder(g: nat, e: nat, m: nat, q: nat)
    requires m > 0 && q > 0
    requires Pow(g, q) % m == 1
    ensures Pow(g, e) % m == Pow(g, e % q) % m
  {
    var n := e / q;
    assert e == q * n + e % q;
    PowAdd(g, q * n, e % q);
    PowMul(g, q, n);
    calc {
      Pow(g, e) % m;
      (Pow(Pow(g, q), n) * Pow(g, e % q)) % m;
      { ModMul(Pow(Pow(g, q), n), Pow(g, e % q), m); }
      ((Pow(Pow(g, q), n) % m) * (Pow(g, e % q) % m)) % m;
      { PowMod(Pow(g, q), n, m); PowOfOne(n); }
      ((1 % m) * (Pow(g, e % q) % m)) % m;
      { ModMul(1, Pow(g, e % q), m); }
      Pow(g, e % q) % m;
    }
  }

  /** Exponents congruent modulo the order give congruent powers. */
  lemma CongruentExponents(g: nat, e1: nat, e2: nat, m: nat, q: nat)
    requires m > 0 && q > 0
    requires Pow(g, q) % m == 1
    requires e1 % q == e2 % q
    ensures Pow(g, e1) % m == Pow(g, e2) % m
  {
    ExponentModOrder(g, e1, m, q);
    ExponentModOrder(g, e2, m, q);
  }

  /**
   * BigUint::modpow: `b^e mod m`, computed by repeated squaring of the base
   * and halving of the exponent. A zero modulus makes the library panic,
   * so `m > 0` is the caller's obligation.
   */
  function ModPow(b: nat, e: nat, m: nat): (r: nat)
    requires m > 0
    ensures r == Pow(b, e) % m
    ensures r < m
    decreases e
  {
    if e == 0 then
      1 % m
    else
      var h := ModPow((b * b) % m, e / 2, m);
      SquareStep(b, e, m);
      if e % 2 == 0 then h else ((b % m) * h) % m
  }

  /** The step that justifies one round of repeated squaring. */
  lemma SquareStep(b: nat, e: nat, m: nat)
    requires m > 0 && e > 0
    ensures Pow((b * b) % m, e / 2) % m == Pow(b, 2 * (e / 2)) % m
    ensures e % 2 == 0 ==> Pow(b, e) % m == Pow(b, 2 * (e / 2)) % m
    ensures e % 2 == 1 ==> Pow(b, e) % m == ((b % m) * (Pow(b, 2 * (e / 2)) % m)) % m
  {
    var half := e / 2;
    PowMod(b * b, half, m);
    assert Pow(b, 2) == b * b by {
      assert Pow(b, 1) == b;
    }
    PowMul(b, 2, half);
    if e % 2 == 1 {
      assert e == 2 * half + 1;
      PowAdd(b, 1, 2 * half);
      assert Pow(b, 1) == b;
      ModMul(b, Pow(b, 2 * half), m);
    }
  }

  /** `modpow(v, 1, m)`, the idiom the source uses for `v mod m`. */
  function ModReduce(v: nat, m: nat): (r: nat)
    requires m > 0
    ensures r == v % m
  {
    assert Pow(v, 1) == v * Pow(v, 0);
    ModPow(v, 1, m)
  }
}
