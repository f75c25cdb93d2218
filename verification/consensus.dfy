/** Conflict resolution by the longest-valid-chain rule. Each peer is asked
    for its chain; a reply is adopted when its reported length beats the
    longest seen so far (starting from the local length) and its chain
    passes validation. The network is replaced by a `fetch` function from
    request address to outcome, and Go's randomised map iteration by an
    arbitrary duplicate-free ordering of the peer set. */
module Consensus {
  import opened Blocks
  import opened Validation

  /** What a request for a peer's chain yields: a transport error, or an
      HTTP reply with its status and the decoded `Chain` and `Length`
      fields. A body that fails to decode leaves the fields at whatever was
      decoded, typically an empty chain and length 0. */
  datatype FetchOutcome =
    | TransportError
    | Reply(status: int, chain: seq<Block>, length: int)

  /** The Go code panics on a transport error, and on a reply whose length
      beats the running maximum but whose chain is empty (validation reads
      its first block). */
  datatype Resolution =
    | Panic
    | Resolved(ledger: BlockChain, replaced: bool)

  /** State of the selection loop after a run over some replies. */
  datatype Selection =
    | Aborted
    | Selected(maxLength: int, newChain: seq<Block>)

  /** The address queried for a peer. */
  function ChainAddress(node: string): string {
    node + "/chain"
  }

  /** The replies, in visiting order. */
  function Outcomes(order: seq<string>, fetch: string -> FetchOutcome): seq<FetchOutcome> {
    seq(|order|, i requires 0 <= i < |order| => fetch(ChainAddress(order[i])))
  }

  /** The selection loop, one reply at a time, with the running maximum
      length and the chain adopted so far. */
  function Select(h: Hasher, outs: seq<FetchOutcome>, maxLength: int, newChain: seq<Block>): (r: Selection)
    ensures r.Selected? ==> r.maxLength == RunningMax(h, outs, maxLength)
    ensures r.Selected? ==> r.newChain == newChain || (|r.newChain| > 0 && ChainLinked(h, r.newChain))
    decreases |outs|
  {
    if |outs| == 0 then Selected(maxLength, newChain)
    else
      match outs[0]
      case TransportError => Aborted
      case Reply(status, chain, length) =>
        if status != 200 then Select(h, outs[1..], maxLength, newChain)
        else if length > maxLength then
          if |chain| == 0 then Aborted
          else if ChainLinked(h, chain) then Select(h, outs[1..], length, chain)
          else Select(h, outs[1..], maxLength, newChain)
        else Select(h, outs[1..], maxLength, newChain)
  }

  /** A reply that could replace a chain of length `bound`: a 200 reply
      whose reported length exceeds `bound` and whose chain is non-empty
      and valid. */
  predicate Candidate(h: Hasher, o: FetchOutcome, bound: int) {
    && o.Reply?
    && o.status == 200
    && o.length > bound
    && |o.chain| > 0
    && ChainLinked(h, o.chain)
  }

  /** The running maximum after a run of replies: it moves to the length of
      each reply that is a candidate against the current maximum. */
  function RunningMax(h: Hasher, outs: seq<FetchOutcome>, bound: int): int
    decreases |outs|
  {
    if |outs| == 0 then bound
    else RunningMax(h, outs[1..], if Candidate(h, outs[0], bound) then outs[0].length else bound)
  }

  /** The running maximum is the longest reported length among candidates
      against the starting bound, or the bound itself when there is none. */
  lemma {:induction false} RunningMaxIsLongestCandidate(h: Hasher, outs: seq<FetchOutcome>, bound: int)
    ensures RunningMax(h, outs, bound) >= bound
    ensures forall i :: 0 <= i < |outs| && Candidate(h, outs[i], bound) ==> outs[i].length <= RunningMax(h, outs, bound)
    ensures RunningMax(h, outs, bound) == bound
         || exists i :: 0 <= i < |outs| && Candidate(h, outs[i], bound) && outs[i].length == RunningMax(h, outs, bound)
    decreases |outs|
  {
    if |outs| > 0 {
      var o := outs[0];
      var rest := outs[1..];
      var b' := if Candidate(h, o, bound) then o.length else bound;
      var m := RunningMax(h, outs, bound);
      assert m == RunningMax(h, rest, b');
      RunningMaxIsLongestCandidate(h, rest, b');
      forall i | 0 <= i < |outs| && Candidate(h, outs[i], bound)
        ensures outs[i].length <= m
      {
        if i > 0 && outs[i].length > b' {
          assert Candidate(h, rest[i - 1], b');
        }
      }
      if m != b' {
        var j :| 0 <= j < |rest| && Candidate(h, rest[j], b') && rest[j].length == m;
        assert Candidate(h, outs[j + 1], bound) && outs[j + 1].length == m;
      } else if m != bound {
        assert Candidate(h, outs[0], bound) && outs[0].length == m;
      }
    }
  }

  predicate HasCandidate(h: Hasher, outs: seq<FetchOutcome>, bound: int) {
    exists i :: 0 <= i < |outs| && Candidate(h, outs[i], bound)
  }

  /** Reply `k` is the first candidate of greatest reported length. */
  predicate FirstLongest(h: Hasher, outs: seq<FetchOutcome>, bound: int, k: int) {
    && 0 <= k < |outs|
    && Candidate(h, outs[k], bound)
    && (forall j :: 0 <= j < |outs| && Candidate(h, outs[j], bound) ==> outs[j].length <= outs[k].length)
    && (forall j :: 0 <= j < k && Candidate(h, outs[j], bound) ==> outs[j].length < outs[k].length)
  }

  /** No reply is a transport error, and no 200 reply claiming more than
      `bound` blocks comes with an empty chain. */
  predicate NoPanicPossible(outs: seq<FetchOutcome>, bound: int) {
    forall i :: 0 <= i < |outs| ==>
      && !outs[i].TransportError?
      && (outs[i].status == 200 && outs[i].length > bound ==> |outs[i].chain| > 0)
  }

  predicate PanicCause(o: FetchOutcome, bound: int) {
    o.TransportError? || (o.status == 200 && o.length > bound && |o.chain| == 0)
  }

  /** Some reply is a panic cause against the running maximum reached just
      before it. */
  predicate PanicReached(h: Hasher, outs: seq<FetchOutcome>, start: int) {
    exists i :: 0 <= i < |outs| && PanicCause(outs[i], RunningMax(h, outs[..i], start))
  }

  /** A transport error anywhere aborts the loop, whether it is reached or an
      earlier reply aborts first. */
  lemma {:induction false} SelectAbortsOnTransportError(h: Hasher, outs: seq<FetchOutcome>, maxLength: int, newChain: seq<Block>, i: int)
    requires 0 <= i < |outs| && outs[i].TransportError?
    ensures Select(h, outs, maxLength, newChain).Aborted?
    decreases |outs|
  {
    if i > 0 && !outs[0].TransportError? {
      assert outs[1..][i - 1] == outs[i];
      var o := outs[0];
      if o.status != 200 || o.length <= maxLength || (|o.chain| > 0 && !ChainLinked(h, o.chain)) {
        SelectAbortsOnTransportError(h, outs[1..], maxLength, newChain, i - 1);
      } else if |o.chain| > 0 {
        SelectAbortsOnTransportError(h, outs[1..], o.length, o.chain, i - 1);
      }
    }
  }

  /** The loop aborts only at a transport error or at an empty chain whose
      claimed length beats a bound the running maximum never falls below. */
  lemma {:induction false} SelectAbortsOnlyOnPanicCause(h: Hasher, outs: seq<FetchOutcome>, maxLength: int, newChain: seq<Block>, bound: int)
    requires bound <= maxLength
    requires Select(h, outs, maxLength, newChain).Aborted?
    ensures exists i :: 0 <= i < |outs| && PanicCause(outs[i], bound)
    decreases |outs|
  {
    var o := outs[0];
    if PanicCause(o, bound) {
      assert PanicCause(outs[0], bound);
    } else {
      var m := if o.status == 200 && o.length > maxLength && ChainLinked(h, o.chain) then o.length else maxLength;
      var nc := if o.status == 200 && o.length > maxLength && ChainLinked(h, o.chain) then o.chain else newChain;
      SelectAbortsOnlyOnPanicCause(h, outs[1..], m, nc, bound);
      var i :| 0 <= i < |outs[1..]| && PanicCause(outs[1..][i], bound);
      assert outs[1..][i] == outs[i + 1];
    }
  }

  /** The loop aborts exactly when some reply is a transport error, or a
      200 reply with an empty chain claiming more than the running maximum
      reached just before it. A later empty reply that claims less than an
      already adopted length is never validated and causes nothing. */
  lemma {:induction false} SelectAbortsExactly(h: Hasher, outs: seq<FetchOutcome>, maxLength: int, newChain: seq<Block>)
    ensures Select(h, outs, maxLength, newChain).Aborted?
        <==> exists i :: 0 <= i < |outs| && PanicCause(outs[i], RunningMax(h, outs[..i], maxLength))
    decreases |outs|
  {
    if |outs| == 0 {
      return;
    }
    var o := outs[0];
    var rest := outs[1..];
    assert outs[..0] == [];
    if PanicCause(o, maxLength) {
      assert PanicCause(outs[0], RunningMax(h, outs[..0], maxLength));
      return;
    }
    var m' := if Candidate(h, o, maxLength) then o.length else maxLength;
    var nc' := if Candidate(h, o, maxLength) then o.chain else newChain;
    assert Select(h, outs, maxLength, newChain) == Select(h, rest, m', nc');
    SelectAbortsExactly(h, rest, m', nc');
    forall j | 0 <= j < |rest|
      ensures RunningMax(h, outs[..j + 1], maxLength) == RunningMax(h, rest[..j], m')
      ensures outs[j + 1] == rest[j]
    {
      assert outs[..j + 1][1..] == rest[..j];
    }
    if Select(h, outs, maxLength, newChain).Aborted? {
      var j :| 0 <= j < |rest| && PanicCause(rest[j], RunningMax(h, rest[..j], m'));
      assert PanicCause(outs[j + 1], RunningMax(h, outs[..j + 1], maxLength));
    } else {
      forall i | 0 <= i < |outs|
        ensures !PanicCause(outs[i], RunningMax(h, outs[..i], maxLength))
      {
        if i > 0 {
          assert !PanicCause(rest[i - 1], RunningMax(h, rest[..i - 1], m'));
        }
      }
    }
  }

  /** A later empty reply claiming less than an adopted length is harmless:
      the first reply is adopted and the second is never validated. */
  lemma LaterShortEmptyReplyIgnored(h: Hasher, block: Block)
    ensures Select(h, [Reply(200, [block], 10), Reply(200, [], 5)], 3, []) == Selected(10, [block])
  {
    var outs := [Reply(200, [block], 10), Reply(200, [], 5)];
    assert ChainLinked(h, [block]);
    assert Select(h, outs, 3, []) == Select(h, outs[1..], 10, [block]);
    assert Select(h, outs[1..], 10, [block]) == Select(h, [], 10, [block]);
  }

  /** When nothing can panic, the loop runs to completion. */
  lemma SelectCompletes(h: Hasher, outs: seq<FetchOutcome>, maxLength: int, newChain: seq<Block>, bound: int)
    requires bound <= maxLength && NoPanicPossible(outs, bound)
    ensures Select(h, outs, maxLength, newChain).Selected?
  {
    if Select(h, outs, maxLength, newChain).Aborted? {
      SelectAbortsOnlyOnPanicCause(h, outs, maxLength, newChain, bound);
    }
  }

  lemma CandidateAtHigherBound(h: Hasher, o: FetchOutcome, bound: int, bound': int)
    requires Candidate(h, o, bound) && o.length > bound'
    ensures Candidate(h, o, bound')
  {
  }

  /** A completed loop keeps its starting state when no reply beats the
      starting maximum, and otherwise ends holding the chain and length of
      the first longest candidate. */
  lemma {:induction false} SelectPicksFirstLongest(h: Hasher, outs: seq<FetchOutcome>, maxLength: int, newChain: seq<Block>)
    requires Select(h, outs, maxLength, newChain).Selected?
    ensures var s := Select(h, outs, maxLength, newChain);
      && (!HasCandidate(h, outs, maxLength) ==> s.maxLength == maxLength && s.newChain == newChain)
      && (HasCandidate(h, outs, maxLength) ==>
            exists k :: FirstLongest(h, outs, maxLength, k)
                     && s.newChain == outs[k].chain && s.maxLength == outs[k].length)
    decreases |outs|
  {
    if |outs| == 0 {
      return;
    }
    var o := outs[0];
    var rest := outs[1..];
    var s := Select(h, outs, maxLength, newChain);
    assert forall j :: 0 < j < |outs| ==> outs[j] == rest[j - 1];
    if !Candidate(h, o, maxLength) {
      assert s == Select(h, rest, maxLength, newChain);
      SelectPicksFirstLongest(h, rest, maxLength, newChain);
      if HasCandidate(h, outs, maxLength) {
        var i :| 0 <= i < |outs| && Candidate(h, outs[i], maxLength);
        assert Candidate(h, rest[i - 1], maxLength);
        var k :| FirstLongest(h, rest, maxLength, k) && s.newChain == rest[k].chain && s.maxLength == rest[k].length;
        assert FirstLongest(h, outs, maxLength, k + 1);
      }
    } else {
      assert s == Select(h, rest, o.length, o.chain);
      SelectPicksFirstLongest(h, rest, o.length, o.chain);
      if HasCandidate(h, rest, o.length) {
        var k :| FirstLongest(h, rest, o.length, k) && s.newChain == rest[k].chain && s.maxLength == rest[k].length;
        assert Candidate(h, outs[k + 1], maxLength);
        forall j | 0 <= j < |outs| && Candidate(h, outs[j], maxLength)
          ensures outs[j].length <= outs[k + 1].length
          ensures j < k + 1 ==> outs[j].length < outs[k + 1].length
        {
          if j > 0 && outs[j].length > o.length {
            CandidateAtHigherBound(h, outs[j], maxLength, o.length);
            assert Candidate(h, rest[j - 1], o.length);
          }
        }
        assert FirstLongest(h, outs, maxLength, k + 1);
      } else {
        assert FirstLongest(h, outs, maxLength, 0);
      }
    }
  }

  /** Queries the peers in the given order, stopping at the first panic, and adopts the first
      longest valid chain whose reported length beats the local length.
      The pending pool and the peer set are kept. */
  method ResolveConflicts(h: Hasher, b: BlockChain, order: seq<string>, fetch: string -> FetchOutcome)
    returns (r: Resolution)
    requires multiset(order) == multiset(b.nodes)
    ensures (exists i :: 0 <= i < |order| && Outcomes(order, fetch)[i].TransportError?) ==> r.Panic?
    ensures r.Panic? ==> exists i :: 0 <= i < |order| && PanicCause(Outcomes(order, fetch)[i], |b.chain|)
    ensures r.Panic? <==> PanicReached(h, Outcomes(order, fetch), |b.chain|)
    ensures NoPanicPossible(Outcomes(order, fetch), |b.chain|) ==> r.Resolved?
    ensures r.Resolved? ==> (r.replaced <==> HasCandidate(h, Outcomes(order, fetch), |b.chain|))
    ensures r.Resolved? && !r.replaced ==> r.ledger == b
    ensures r.Resolved? && r.replaced ==>
      exists k :: FirstLongest(h, Outcomes(order, fetch), |b.chain|, k) && r.ledger == b.(chain := Outcomes(order, fetch)[k].chain)
    ensures r.Resolved? ==> r.ledger.currentTransactions == b.currentTransactions && r.ledger.nodes == b.nodes
    ensures r.Resolved? && r.replaced ==> |r.ledger.chain| > 0 && ChainLinked(h, r.ledger.chain)
  {
    ghost var outs := Outcomes(order, fetch);
    ghost var outcome := Select(h, outs, |b.chain|, []);
    SelectFacts(h, outs, |b.chain|);
    var newChain: seq<Block> := [];
    var maxLength := |b.chain|;
    var i := 0;
    while i < |order|
      invariant 0 <= i <= |order|
      invariant Select(h, outs[i..], maxLength, newChain) == outcome
    {
      assert outs[i..][1..] == outs[i + 1..];
      var res := fetch(ChainAddress(order[i]));
      if res.TransportError? {
        return Panic;
      }
      if res.status == 200 && res.length > maxLength {
        if |res.chain| == 0 {
          // validation would read the first block of an empty chain
          return Panic;
        }
        var ok := ValidChain(h, res.chain);
        if ok {
          maxLength := res.length;
          newChain := res.chain;
        }
      }
      i := i + 1;
    }
    assert outs[i..] == [];
    if |newChain| != 0 {
      r := Resolved(b.(chain := newChain), true);
    } else {
      r := Resolved(b, false);
    }
  }

  /** The reported length is trusted, not measured: a single valid block
      claiming a length of 5 replaces a local chain of 3 blocks. */
  lemma ReportedLengthTrusted(h: Hasher, block: Block)
    ensures Select(h, [Reply(200, [block], 5)], 3, []) == Selected(5, [block])
  {
  }

  /** An adopted chain keeps only the links: a valid one-block reply whose
      block is not the genesis block (index 7, proof 5) replaces a ledger
      that satisfied the invariant, and the result no longer does. */
  lemma AdoptedChainMayLackGenesis(h: Hasher, b: BlockChain, block: Block)
    requires LedgerInvariant(h, b) && |b.chain| == 3
    requires block.index == 7 && block.proof == 5
    ensures Select(h, [Reply(200, [block], 10)], |b.chain|, []) == Selected(10, [block])
    ensures !LedgerInvariant(h, b.(chain := [block]))
  {
    var outs := [Reply(200, [block], 10)];
    assert ChainLinked(h, [block]);
    assert Select(h, outs, 3, []) == Select(h, outs[1..], 10, [block]);
  }

  /** Everything ResolveConflicts promises, stated of the selection loop run
      from the local length with nothing adopted yet. */
  lemma SelectFacts(h: Hasher, outs: seq<FetchOutcome>, len: int)
    ensures var s := Select(h, outs, len, []);
      && ((exists i :: 0 <= i < |outs| && outs[i].TransportError?) ==> s.Aborted?)
      && (s.Aborted? ==> exists i :: 0 <= i < |outs| && PanicCause(outs[i], len))
      && (s.Aborted? <==> PanicReached(h, outs, len))
      && (NoPanicPossible(outs, len) ==> s.Selected?)
      && (s.Selected? ==> (|s.newChain| != 0 <==> HasCandidate(h, outs, len)))
      && (s.Selected? && HasCandidate(h, outs, len) ==>
            exists k :: FirstLongest(h, outs, len, k) && s.newChain == outs[k].chain)
  {
    var s := Select(h, outs, len, []);
    SelectAbortsExactly(h, outs, len, []);
    if i :| 0 <= i < |outs| && outs[i].TransportError? {
      SelectAbortsOnTransportError(h, outs, len, [], i);
    }
    if s.Aborted? {
      SelectAbortsOnlyOnPanicCause(h, outs, len, [], len);
    } else {
      SelectPicksFirstLongest(h, outs, len, []);
    }
    if NoPanicPossible(outs, len) {
      SelectCompletes(h, outs, len, [], len);
    }
  }
}
