/** The proof-of-work puzzle: a proof is valid for the previous proof when the
    hex SHA-256 digest of the two numbers' decimal forms, written one after
    the other, starts with "0000". Mining searches upward from 0 for the
    first such proof. */
module Mining {
  import opened Blocks
  import opened Decimal

  /** Leading digest characters the puzzle demands: a fixed difficulty. */
  const Target: string := "0000"

  /** The string hashed by the puzzle: `fmt.Sprintf("%d%d", lastProof, proof)`. */
  function Guess(lastProof: int, proof: int): string {
    IntToDecimal(lastProof) + IntToDecimal(proof)
  }

  /** Split after the previous proof's digits, the guess reads back as the
      two numbers it was written from. */
  lemma GuessReadsBack(lastProof: int, proof: int)
    ensures var g, k := Guess(lastProof, proof), |IntToDecimal(lastProof)|;
      && k < |g|
      && (g[0] == '-' || IsDigit(g[0])) && AllDigits(g[1..k])
      && (g[k] == '-' || IsDigit(g[k])) && AllDigits(g[k + 1..])
      && ParseInt(g[..k]) == lastProof
      && ParseInt(g[k..]) == proof
  {
    var a := IntToDecimal(lastProof);
    var b := IntToDecimal(proof);
    IntToDecimalRoundTrip(lastProof);
    IntToDecimalRoundTrip(proof);
    assert (a + b)[..|a|] == a && (a + b)[|a|..] == b;
    assert (a + b)[1..|a|] == a[1..] && (a + b)[|a| + 1..] == b[1..];
  }

  /** The digest of the guess starts with four zero hex characters. */
  predicate ValidProof(h: Hasher, lastProof: int, proof: int) {
    h.sha256Hex(Guess(lastProof, proof))[..4] == Target
  }

  /** `proof` is the least non-negative proof that is valid for `lastProof`. */
  predicate IsLeastProof(h: Hasher, lastProof: int, proof: int) {
    && 0 <= proof
    && ValidProof(h, lastProof, proof)
    && forall q :: 0 <= q < proof ==> !ValidProof(h, lastProof, q)
  }

  /** Linear search from 0 for the first valid proof. The Go code loops for
      ever when no proof exists; the precondition states that one does, which
      is what makes the search terminate. */
  method ProofOfWork(h: Hasher, lastProof: int) returns (p: int)
    requires exists w :: 0 <= w && ValidProof(h, lastProof, w)
    ensures IsLeastProof(h, lastProof, p)
  {
    ghost var w :| 0 <= w && ValidProof(h, lastProof, w);
    p := 0;
    while !ValidProof(h, lastProof, p)
      invariant 0 <= p <= w
      invariant forall q :: 0 <= q < p ==> !ValidProof(h, lastProof, q)
      decreases w - p
    {
      p := p + 1;
    }
  }

  /** The two numbers are written without a separator, so different pairs can
      produce the same guess: moving the last digit `d` of the previous proof
      to the front of the proof leaves the guess unchanged. */
  lemma ProofGuessCollision(a: nat, d: int, q: nat, p: int)
    requires a >= 1 && 1 <= d <= 9
    requires p == d * Pow10(|NatToDecimal(q)|) + q
    ensures Guess(10 * a + d, q) == Guess(a, p)
  {
    AppendDigit(a, d);
    PrependDigit(d, q);
    assert IntToDecimal(p) == NatToDecimal(p);
    assert NatToDecimal(a) + [DigitChar(d)] + NatToDecimal(q)
        == NatToDecimal(a) + ([DigitChar(d)] + NatToDecimal(q));
  }

  /** Hence, whatever the digest, such pairs are valid or invalid together:
      (12, 3) and (1, 23) are an instance. */
  lemma ValidProofCollision(h: Hasher, a: nat, d: int, q: nat, p: int)
    requires a >= 1 && 1 <= d <= 9
    requires p == d * Pow10(|NatToDecimal(q)|) + q
    ensures ValidProof(h, 10 * a + d, q) <==> ValidProof(h, a, p)
  {
    ProofGuessCollision(a, d, q, p);
  }

  lemma ProofGuessCollisionExample(h: Hasher)
    ensures Guess(12, 3) == Guess(1, 23)
    ensures ValidProof(h, 12, 3) <==> ValidProof(h, 1, 23)
  {
  }

  /** With the previous proof fixed, distinct proofs give distinct guesses:
      the collision needs both numbers to move. */
  lemma GuessInjectiveInProof(lastProof: int, p1: int, p2: int)
    requires Guess(lastProof, p1) == Guess(lastProof, p2)
    ensures p1 == p2
  {
    var pre := IntToDecimal(lastProof);
    assert IntToDecimal(p1) == Guess(lastProof, p1)[|pre|..];
    assert IntToDecimal(p2) == Guess(lastProof, p2)[|pre|..];
    IntToDecimalInjective(p1, p2);
  }
}
