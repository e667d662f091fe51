/**
 * The arithmetic of a Chaum-Pedersen proof of knowledge of `x` with
 * `y1 = alpha^x mod p` and `y2 = beta^x mod p`: deriving powers, the
 * prover's response `s = k - c*x mod q` computed with unsigned integers
 * only, and the verifier's check of the two commitments.
 *
 * All parameters are arbitrary-precision unsigned integers, modelled as `nat`.
 */
module ChaumPedersen {
  import opened ModArith

  /** `n^exponent mod p`: public keys `y = g^x` and commitments `r = g^k`. */
  function Exponentiate(n: nat, exponent: nat, p: nat): (r: nat)
    requires p > 0
    ensures r < p
    ensures r == Pow(n, exponent) % p
  {
    ModPow(n, exponent, p)
  }

  /**
   * The prover's response `k - c*x mod q`. Because the integers are
   * unsigned, the difference is formed in whichever direction is
   * non-negative; in the negative case the remainder is subtracted from `q`
   * without a guard, so the result is `q` itself, not `0`, when `c*x - k`
   * is a multiple of `q`.
   */
  function Solve(k: nat, c: nat, x: nat, q: nat): (s: nat)
    requires q > 0
    // s is congruent to k - c*x: the fact the verifier relies on
    ensures (s + c * x) % q == k % q
    // s represents the signed residue (k - c*x) mod q ...
    ensures s % q == (k - c * x) % q
    // ... and is reduced except in one case
    ensures k >= c * x ==> s < q
    ensures k < c * x ==> 1 <= s <= q
    ensures s == q <==> k < c * x && (c * x - k) % q == 0
  {
    var cx := c * x;
    ResidueFacts(k, cx, q);
    if k >= cx then ModReduce(k - cx, q) else q - ModReduce(cx - k, q)
  }

  /** The arithmetic behind both branches of `Solve`, with `cx` standing for `c*x`. */
  lemma ResidueFacts(k: nat, cx: nat, q: nat)
    requires q > 0
    ensures k >= cx ==> ((k - cx) % q + cx) % q == k % q
    ensures k >= cx ==> ((k - cx) % q) % q == (k - cx) % q
    ensures k < cx ==> (q - (cx - k) % q + cx) % q == k % q
    ensures k < cx ==> (q - (cx - k) % q) % q == (k - cx) % q
    ensures k < cx ==> (cx - k) % q != 0 ==> q - (cx - k) % q == (k - cx) % q
    ensures k < cx ==> (cx - k) % q == 0 ==> (k - cx) % q == 0 && cx % q == k % q
  {
    if k >= cx {
      ModAdd(k - cx, cx, q);
      ModAdd((k - cx) % q, cx, q);
      ModIdempotent(k - cx, q);
      ModIdempotent(cx, q);
    } else {
      var d := cx - k;
      var n := d / q;
      assert q - d % q == (k - cx) + q * (n + 1);
      ModAddMultiple(k - cx, q, n + 1);
      assert q - d % q + cx == k + q * (n + 1);
      ModAddMultiple(k, q, n + 1);
      if d % q != 0 {
        DivModUnique(q - d % q, q, 0, q - d % q);
      } else {
        assert k - cx == q * (-n);
        ModAddMultiple(0, q, -n);
        assert cx == k + q * n;
        ModAddMultiple(k, q, n);
      }
    }
  }

  /**
   * One of the verifier's two conditions: `r = g^s * y^c mod p`, with both
   * powers reduced, multiplied and reduced again, then compared exactly.
   */
  function Condition(r: nat, g: nat, y: nat, s: nat, c: nat, p: nat): (ok: bool)
    requires p > 0
    ensures ok <==> r == (Pow(g, s) * Pow(y, c)) % p
  {
    ProductReduced(g, s, y, c, p);
    r == ModReduce(ModPow(g, s, p) * ModPow(y, c, p), p)
  }

  /** Reducing each power, multiplying, then reducing again, is reducing the product. */
  lemma ProductReduced(g: nat, s: nat, y: nat, c: nat, p: nat)
    requires p > 0
    ensures ModReduce(ModPow(g, s, p) * ModPow(y, c, p), p) == (Pow(g, s) * Pow(y, c)) % p
  {
    var a, b := ModPow(g, s, p), ModPow(y, c, p);
    ModIdempotent(Pow(g, s), p);
    ModIdempotent(Pow(y, c), p);
    ModMulCongruent(a, Pow(g, s), b, Pow(y, c), p);
  }

  /**
   * The verifier's decision: `r1 = alpha^s * y1^c mod p` and
   * `r2 = beta^s * y2^c mod p`.
   */
  function Verify(r1: nat, r2: nat, alpha: nat, beta: nat, y1: nat, y2: nat, s: nat, c: nat, p: nat): (ok: bool)
    requires p > 0
    ensures ok <==> (r1 == (Pow(alpha, s) * Pow(y1, c)) % p
                     && r2 == (Pow(beta, s) * Pow(y2, c)) % p)
  {
    var cond1 := Condition(r1, alpha, y1, s, c, p);
    var cond2 := Condition(r2, beta, y2, s, c, p);
    cond1 && cond2
  }

  /**
   * One commitment is reconstructed from any response `s` with
   * `s + c*x ≡ k (mod q)`, provided the order of `g` divides `q`:
   * `g^s * (g^x mod p)^c ≡ g^k (mod p)`.
   */
  lemma Reconstruct(g: nat, x: nat, k: nat, c: nat, s: nat, p: nat, q: nat)
    requires p > 0 && q > 0
    requires Pow(g, q) % p == 1
    requires (s + c * x) % q == k % q
    ensures (Pow(g, s) * Pow(Pow(g, x) % p, c)) % p == Pow(g, k) % p
  {
    CongruentExponents(g, s + c * x, k, p, q);
    PowOfReducedPower(g, x, c, p);
    PowProductMod(g, s, c, x, Pow(Pow(g, x) % p, c), p);
  }

  /** `(g^x mod p)^c ≡ g^(c*x) (mod p)`. */
  lemma PowOfReducedPower(g: nat, x: nat, c: nat, p: nat)
    requires p > 0
    ensures Pow(Pow(g, x) % p, c) % p == Pow(g, c * x) % p
  {
    PowMod(Pow(g, x), c, p);
    PowMul(g, x, c);
  }

  /** `g^s * b ≡ g^(s + c*x) (mod p)` whenever `b ≡ g^(c*x)`. */
  lemma PowProductMod(g: nat, s: nat, c: nat, x: nat, b: nat, p: nat)
    requires p > 0
    requires b % p == Pow(g, c * x) % p
    ensures (Pow(g, s) * b) % p == Pow(g, s + c * x) % p
  {
    PowAdd(g, s, c * x);
    ModMulCongruent(Pow(g, s), Pow(g, s), b, Pow(g, c * x), p);
  }

  /**
   * Any response congruent to `k - c*x` modulo `q` is accepted for honestly
   * derived public keys and commitments, when both generators have order
   * dividing `q`.
   */
  lemma CongruentResponseVerifies(p: nat, q: nat, alpha: nat, beta: nat, x: nat, k: nat, c: nat, s: nat)
    requires p > 0 && q > 0
    requires Pow(alpha, q) % p == 1 && Pow(beta, q) % p == 1
    requires (s + c * x) % q == k % q
    ensures Verify(Exponentiate(alpha, k, p), Exponentiate(beta, k, p), alpha, beta,
                   Exponentiate(alpha, x, p), Exponentiate(beta, x, p), s, c, p)
  {
    Reconstruct(alpha, x, k, c, s, p, q);
    Reconstruct(beta, x, k, c, s, p, q);
  }

  /**
   * Completeness: an honest prover always convinces the verifier, for every
   * commitment `k` and every challenge `c`, including the case where `Solve`
   * returns `q` instead of `0`.
   */
  lemma Completeness(p: nat, q: nat, alpha: nat, beta: nat, x: nat, k: nat, c: nat)
    requires p > 0 && q > 0
    requires Pow(alpha, q) % p == 1 && Pow(beta, q) % p == 1
    ensures var y1, y2 := Exponentiate(alpha, x, p), Exponentiate(beta, x, p);
            var r1, r2 := Exponentiate(alpha, k, p), Exponentiate(beta, k, p);
            Verify(r1, r2, alpha, beta, y1, y2, Solve(k, c, x, q), c, p)
  {
    CongruentResponseVerifies(p, q, alpha, beta, x, k, c, Solve(k, c, x, q));
  }

  /**
   * The verifier's decision depends on the response only modulo `q` when
   * both generators have order dividing `q`; this is why the unreduced
   * response `q` from `Solve` is accepted exactly when `0` would be.
   */
  lemma VerifyDependsOnResponseModOrder(r1: nat, r2: nat, alpha: nat, beta: nat, y1: nat, y2: nat,
                                        s1: nat, s2: nat, c: nat, p: nat, q: nat)
    requires p > 0 && q > 0
    requires Pow(alpha, q) % p == 1 && Pow(beta, q) % p == 1
    requires s1 % q == s2 % q
    ensures Verify(r1, r2, alpha, beta, y1, y2, s1, c, p) == Verify(r1, r2, alpha, beta, y1, y2, s2, c, p)
  {
    CongruentExponents(alpha, s1, s2, p, q);
    CongruentExponents(beta, s1, s2, p, q);
    ModMulCongruent(Pow(alpha, s1), Pow(alpha, s2), Pow(y1, c), Pow(y1, c), p);
    ModMulCongruent(Pow(beta, s1), Pow(beta, s2), Pow(y2, c), Pow(y2, c), p);
  }

  /**
   * The response reduced into `[0, q)`, with the guard that turns a zero
   * remainder into `0` in the negative branch.
   */
  function SolveReduced(k: nat, c: nat, x: nat, q: nat): (s: nat)
    requires q > 0
    ensures s < q
    ensures s == (k - c * x) % q
    ensures (s + c * x) % q == k % q
  {
    var cx := c * x;
    ResidueFacts(k, cx, q);
    if k >= cx then
      ModReduce(k - cx, q)
    else
      var m := ModReduce(cx - k, q);
      if m == 0 then 0 else q - m
  }

  /**
   * `Solve` and its reduced form differ only in the unguarded case, where
   * `Solve` gives `q` and the reduced form `0`; the verifier cannot tell
   * them apart.
   */
  lemma SolveMatchesReduced(p: nat, q: nat, alpha: nat, beta: nat, r1: nat, r2: nat,
                            y1: nat, y2: nat, k: nat, c: nat, x: nat)
    requires p > 0 && q > 0
    requires Pow(alpha, q) % p == 1 && Pow(beta, q) % p == 1
    ensures Solve(k, c, x, q) == SolveReduced(k, c, x, q)
            || (Solve(k, c, x, q) == q && SolveReduced(k, c, x, q) == 0)
    ensures Verify(r1, r2, alpha, beta, y1, y2, Solve(k, c, x, q), c, p)
            == Verify(r1, r2, alpha, beta, y1, y2, SolveReduced(k, c, x, q), c, p)
  {
    var s, t := Solve(k, c, x, q), SolveReduced(k, c, x, q);
    ModIdempotent(t, q);
    VerifyDependsOnResponseModOrder(r1, r2, alpha, beta, y1, y2, s, t, c, p, q);
  }
}
