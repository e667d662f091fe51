# Chaum-Pedersen proof arithmetic in Dafny

This project models the arithmetic core of a Chaum-Pedersen
non-interactive proof of knowledge of a secret exponent `x` with
`y1 = alpha^x mod p` and `y2 = beta^x mod p`:

- `exponetiate`: modular exponentiation, used for public keys and commitments;
- `solve`: the prover's response `s = k - c*x mod q`, computed with unsigned
  big integers through a two-way comparison;
- `verify`: the verifier's check of `r1 = alpha^s * y1^c mod p` and
  `r2 = beta^s * y2^c mod p`;
- the fixed and random scenarios of the source's tests.

Big unsigned integers (`BigUint`) are Dafny `nat`. The library's `modpow` is
`ModArith.ModPow`. It is written as repeated squaring and proved equal to the
mathematical `Pow(b, e) % m`. Everything is pure, so the model is made of
functions and lemmas.

Files:
- `mod_arith.dfy`: module `ModArith`, with `Pow`, `ModPow` and the modular
  arithmetic lemmas (sums, products, powers, exponents reduced modulo the
  order of the base).
- `chaum_pedersen.dfy`: module `ChaumPedersen`, with `Exponentiate`, `Solve`
  and `Verify`, the completeness theorem and the reduced response.
- `chaum_pedersen_tests.dfy`: module `ChaumPedersenTests`, with the test
  scenarios over `p = 23`, `q = 11`, `alpha = 4`, `beta = 9`.

The order of a generator is never checked by the code. It enters the model
as the hypothesis `Pow(g, q) % p == 1`, which says the order of `g` divides `q`.

## Model

| member | source | states |
|---|---|---|
| `ModArith.ModPow` | src/lib.rs:5 | repeated squaring gives exactly `b^e mod m`, a value below `m`, for every `m > 0` |
| `ModArith.ModReduce` | src/lib.rs:11 | `modpow(v, 1, m)`, the source's reduction idiom, equals `v mod m` |
| `ModArith.ExponentModOrder` | src/lib.rs:20-21 | if `g^q ≡ 1 (mod m)`, then `g^e ≡ g^(e mod q)`, so an exponent matters only modulo `q` |
| `ChaumPedersen.Exponentiate` | src/lib.rs:3-6 | the result is `n^exponent mod p` and lies in `[0, p)` |
| `ChaumPedersen.Solve` | src/lib.rs:8-15 | `s + c*x ≡ k (mod q)` in both branches; `s mod q` is the signed residue `(k - c*x) mod q`; `s < q` when `k >= c*x`; `1 <= s <= q` when `k < c*x`; `s == q` exactly when `k < c*x` and `q` divides `c*x - k` |
| `ChaumPedersen.Condition` | src/lib.rs:20-21 | one condition holds iff `r == g^s * y^c mod p` |
| `ChaumPedersen.ProductReduced` | src/lib.rs:20-21 | reducing both powers, multiplying, then reducing with `modpow(_, 1, p)` gives the product of the powers modulo `p` |
| `ChaumPedersen.Verify` | src/lib.rs:17-24 | true iff `r1 == alpha^s * y1^c mod p` and `r2 == beta^s * y2^c mod p` |
| `ChaumPedersen.Reconstruct` | src/lib.rs:20-21 | if the order of `g` divides `q` and `s + c*x ≡ k (mod q)`, then `g^s * (g^x mod p)^c ≡ g^k (mod p)` |
| `ChaumPedersen.CongruentResponseVerifies` | src/lib.rs:19-24 | every response congruent to `k - c*x` modulo `q` is accepted against honest keys and commitments |
| `ChaumPedersen.Completeness` | src/lib.rs:74-96 | honest `y1 = alpha^x`, `y2 = beta^x`, `r1 = alpha^k`, `r2 = beta^k` (all mod `p`) and `s = Solve(k, c, x, q)` always verify, for every `x`, `k` and `c`, when both generators have order dividing `q` |
| `ChaumPedersen.VerifyDependsOnResponseModOrder` | src/lib.rs:14-21 | if both generators have order dividing `q`, responses congruent modulo `q` get the same verdict, so the unreduced response `q` is as good as `0` |
| `ChaumPedersen.SolveReduced` | src/lib.rs:14 | corrected response: always in `[0, q)`, equal to the signed residue `(k - c*x) mod q`, and congruent to `k - c*x` |
| `ChaumPedersen.SolveMatchesReduced` | src/lib.rs:9-15 | `Solve` equals the reduced response, except that it gives `q` where the reduced one gives `0`; `Verify` cannot tell them apart |
| `ChaumPedersenTests.GroupOrder` | src/lib.rs:38-41 | `4^11 ≡ 1` and `9^11 ≡ 1 (mod 23)`, the hypothesis of completeness for the test group |
| `ChaumPedersenTests.PublicKeys` | src/lib.rs:48-51 | `exponetiate` gives the public keys `y1 = 2` and `y2 = 3` for the secret `6` |
| `ChaumPedersenTests.Commitments` | src/lib.rs:53-56 | `exponetiate` gives the commitments `r1 = 8` and `r2 = 4` for `k = 7` |
| `ChaumPedersenTests.HonestResponse` | src/lib.rs:58-59 | `solve` gives `s = 5` for `k = 7`, `c = 4`, `x = 6`, `q = 11` |
| `ChaumPedersenTests.HonestAccepted` | src/lib.rs:61-62 | `verify` accepts `r1 = 8`, `r2 = 4`, `y1 = 2`, `y2 = 3`, `s = 5`, `c = 4` |
| `ChaumPedersenTests.FakeSecretRejected` | src/lib.rs:64-69 | with the fake secret `7` the response is `1` and `verify` rejects |
| `ChaumPedersenTests.RandomCommitmentAndChallenge` | src/lib.rs:74-96 | for every `k < 11` and `c < 11` the proof for `x = 6` is accepted, and `y1 = 2`, `y2 = 3` |
| `ChaumPedersenTests.UnreducedResponse` | src/lib.rs:14 | `Solve(7, 4, 10, 11) == 11`, outside `[0, 11)`, while the reduced response is `0` |
| `ChaumPedersenTests.UnreducedResponseAccepted` | src/lib.rs:14-21 | the unreduced response `11` still verifies for `x = 10`, `k = 7`, `c = 4` |

## Findings

| source | as written | input that shows it | evidently intended | confidence | as-written member | corrected member |
|---|---|---|---|---|---|---|
| src/lib.rs:14 | `q - (c*x - k) mod q` without a guard, so the result is `q` when `q` divides `c*x - k` | `k = 7`, `c = 4`, `x = 10`, `q = 11`: `c*x - k = 33`, result `11` | the response `k - c*x mod q`, reduced into `[0, q)`, here `0` | medium: harmless for `verify` (see `VerifyDependsOnResponseModOrder`); not executed | `ChaumPedersenTests.UnreducedResponse` | `ChaumPedersen.SolveReduced` |

`Solve` keeps the code as written, because the source's tests call it. The
completeness results hold for both forms. `CongruentResponseVerifies` covers
every response that is congruent to `k - c*x`. `SolveMatchesReduced` shows that
`Verify` cannot tell the two forms apart.

## Left out

- `generate_random_below` (src/lib.rs:26-29): it depends on the thread-local
  random generator of the `rand` crate, which is nondeterministic and foreign.
  The random test quantifies over every `k` and `c` below `q` instead.
  Uniformity and the absence of modulo bias are statistical properties, outside
  what the verifier can state.
- The internals of `num_bigint` (`BigUint` limbs, the library's own `modpow`
  algorithm): modelled as mathematical operations on `nat`.
- A zero modulus: `modpow` panics on it, so every member that reduces by `p`
  or `q` requires a positive modulus. The model has no `InvalidModulus` error
  value, because the code never returns one.
- Soundness in general, and zero knowledge: probabilistic properties. Only the
  fixed fake-secret scenario is modelled.
- Validation of the group parameters, such as the primality of `p` and `q`,
  `q` dividing `p - 1`, or the order of the generators: the code does none.
  The order facts are hypotheses of the lemmas.
- Constant-time behaviour and side channels: not expressible in this model.
- The comment on `solve` (src/lib.rs:8) gives the response as `k - c*x mod q`;
  when `q` divides `c*x - k` the code yields `q`, not the reduced `0`. The
  model follows the code; see Findings.
