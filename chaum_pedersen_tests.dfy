/**
 * The scenarios of the source's own tests, over the small group with
 * `p = 23`, `q = 11`, `alpha = 4`, `beta = 9`, and the counterexample
 * that shows the unreduced response of `Solve`.
 */
module ChaumPedersenTests {
  import opened ModArith
  import opened ChaumPedersen

  /** Both generators have order dividing 11 modulo 23. */
  lemma GroupOrder()
    ensures Pow(4, 11) % 23 == 1 && Pow(9, 11) % 23 == 1
  {
  }

  /** The public keys of the secret `6`. */
  lemma PublicKeys()
    ensures Exponentiate(4, 6, 23) == 2 && Exponentiate(9, 6, 23) == 3
  {
    assert Pow(4, 6) == 4096;
    assert Pow(9, 6) == 531441;
  }

  /** The commitments for `k = 7`. */
  lemma Commitments()
    ensures Exponentiate(4, 7, 23) == 8 && Exponentiate(9, 7, 23) == 4
  {
    assert Pow(4, 7) == 16384;
    assert Pow(9, 7) == 4782969;
  }

  /** The honest response for `x = 6`, `k = 7`, `c = 4`: `7 - 24 ≡ 5 (mod 11)`. */
  lemma HonestResponse()
    ensures Solve(7, 4, 6, 11) == 5
  {
  }

  /** The verifier accepts the honest transcript. */
  lemma HonestAccepted()
    ensures Verify(8, 4, 4, 9, 2, 3, 5, 4, 23)
  {
    assert Pow(4, 5) * Pow(2, 4) == 16384;
    assert Pow(9, 5) * Pow(3, 4) == 4782969;
  }

  /** A prover who uses the wrong secret `7` answers `1` and is rejected. */
  lemma FakeSecretRejected()
    ensures Solve(7, 4, 7, 11) == 1
    ensures !Verify(8, 4, 4, 9, 2, 3, Solve(7, 4, 7, 11), 4, 23)
  {
    assert Pow(4, 1) * Pow(2, 4) == 64;
  }

  /**
   * The test with random `k` and `c` below `q`: every such draw yields an
   * accepted proof for the secret `6`.
   */
  lemma RandomCommitmentAndChallenge(k: nat, c: nat)
    requires k < 11 && c < 11
    ensures Verify(Exponentiate(4, k, 23), Exponentiate(9, k, 23), 4, 9,
                   Exponentiate(4, 6, 23), Exponentiate(9, 6, 23), Solve(k, c, 6, 11), c, 23)
    ensures Exponentiate(4, 6, 23) == 2 && Exponentiate(9, 6, 23) == 3
  {
    GroupOrder();
    PublicKeys();
    Completeness(23, 11, 4, 9, 6, k, c);
  }

  /**
   * With `k = 7`, `c = 4`, `x = 10` and `q = 11`, `c*x - k = 33` is a
   * multiple of 11: `Solve` answers `11`, outside `[0, 11)`, where the
   * reduced response is `0`.
   */
  lemma UnreducedResponse()
    ensures Solve(7, 4, 10, 11) == 11
    ensures SolveReduced(7, 4, 10, 11) == 0
  {
  }

  /** The unreduced response of `UnreducedResponse` is still accepted. */
  lemma UnreducedResponseAccepted()
    ensures Verify(Exponentiate(4, 7, 23), Exponentiate(9, 7, 23), 4, 9,
                   Exponentiate(4, 10, 23), Exponentiate(9, 10, 23), 11, 4, 23)
  {
    GroupOrder();
    UnreducedResponse();
    Completeness(23, 11, 4, 9, 10, 7, 4);
  }
}
