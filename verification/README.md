# A verified model of the blockchain-go ledger

This project models the in-memory ledger of `blockchain.go`: a chain of
blocks, each holding a batch of transactions, linked by the hash of the
previous block and by a proof-of-work puzzle; a pool of pending transactions
that the next block drains; a set of peer addresses; and conflict resolution
by the longest-valid-chain rule.

Modules, one per component:

- `Blocks` (`blocks.dfy`): `Transaction`, `Block`, `BlockChain`, and the block hash.
  `Hash` is a plain definition, the digest of the encoding.
  The JSON encoder and SHA-256 are library code. They are passed in as an
  uninterpreted `Hasher` value: a `marshal` function and a `sha256Hex`
  function returning 64 lower-case hex characters.
- `Decimal` (`decimal.dfy`): Go's `%d` formatting of integers, with its parsing
  inverse.
- `Ledger` (`ledger.dfy`): `NewBlockChain`, `NewBlock`, `NewTransaction`,
  `LastBlock`, `RegisterNode`. These are pure transitions between
  `BlockChain` values. The clock reading `time.Now()` is a `now` parameter.
- `Mining` (`mining.dfy`): `ValidProof` and the `ProofOfWork` search.
  `ValidProof` is a plain definition over the uninterpreted `Hasher`: the
  digest of the `%d%d` guess starts with "0000". What it depends on is
  stated by the lemmas about the guess.
- `Validation` (`validation.dfy`): `ValidChain`, and the ledger invariant kept
  by the node's own call sequences: the genesis ledger, queuing a
  transaction, a mining round and peer registration. `NewBlock` with an
  explicit previous hash need not keep it. A chain adopted by
  `ResolveConflicts` keeps only the links.
- `Consensus` (`consensus.dfy`): the selection loop of `ResolveConflicts`.
  The network is a `fetch` function from request address to outcome.
  Go's randomised map iteration is an arbitrary duplicate-free ordering
  of the peer set.

Behaviour of the Go code that is easy to miss (the model follows the code):

- `ResolveConflicts` panics on a transport error; it does not skip the peer.
- It also panics when a 200 reply claims a length above the running
  maximum but carries an empty chain, because `ValidChain` reads `chain[0]`.
  An empty reply claiming no more than an already adopted length is never
  validated and causes nothing.
- The reported `Length` is trusted and never compared with the chain's real
  length. A single valid block claiming length 5 replaces a local chain of 3.
- An adopted chain need not start with the genesis block (proof 100,
  previous hash "1") nor have indices 1, 2, 3, ...: only links and proofs
  are checked.
- After a replacement the pending pool and the peer set are kept.
- `NewTransaction` returns `LastBlock().Index + 1`, not the chain length plus one.
  They agree exactly when the tail's index equals the chain length, which
  holds while indices run 1, 2, 3, ... An adopted peer chain need not have
  that shape, because `ValidChain` never checks indices.
- `ValidProof` writes the two numbers with no separator. So the pairs
  (12, 3) and (1, 23) hash the same string and are valid or invalid together.

## Model

| member | source | states |
|---|---|---|
| Decimal.NatToDecimal | blockchain.go:93 | the decimal form of a natural number is a non-empty digit string without a leading zero, and it has exactly as many digits as the number's magnitude demands |
| Decimal.IntToDecimal | blockchain.go:93 | `%d` output is non-empty; it starts with '-' exactly for negative numbers and with a digit otherwise |
| Decimal.IntToDecimalRoundTrip | blockchain.go:93 | parsing the `%d` output gives back the number |
| Decimal.IntToDecimalInjective | blockchain.go:93 | distinct integers print differently |
| Decimal.PrependDigit | blockchain.go:93 | a leading digit d before the decimal form of q is the decimal form of d*10^k + q, where k is q's digit count |
| Decimal.AppendDigit | blockchain.go:93 | a trailing digit d after the decimal form of a positive a is the decimal form of 10a + d |
| Ledger.NewBlockChain | blockchain.go:36-46 | a fresh ledger has exactly one block: index 1, proof 100, previous hash "1", no transactions. The pool is empty and there are no peers |
| Ledger.NewBlockChainWellIndexed | blockchain.go:36-46 | a fresh ledger's indices run from 1 and its tail has index 1 |
| Ledger.NewBlock | blockchain.go:48-66 | exactly one block is appended and earlier blocks are kept. Its index is the old length + 1 and its transactions are exactly the old pool, in order. Its proof and timestamp are the given ones. Its previous hash is the given one when non-empty, else the tail's hash. The pool ends empty and the peers are unchanged. An empty previous hash needs a non-empty chain |
| Ledger.NewBlockKeepsIndices | blockchain.go:48-66 | appending a block keeps indices running 1, 2, 3, ... |
| Ledger.LastBlock | blockchain.go:80-82 | the result is the tail: the chain is its other blocks followed by it. While indices run 1, 2, 3, ..., its index is the chain length |
| Ledger.NewTransaction | blockchain.go:68-82 | one transaction is added at the end of the pool. Chain and peers are unchanged. The result is the tail's index + 1, so the chain must be non-empty |
| Ledger.NewTransactionReportsNextIndex | blockchain.go:68-82 | while indices run 1, 2, 3, ..., the reported index is the chain length + 1, which is the index of the next appended block |
| Ledger.AddTransactions | blockchain.go:68-78 | queuing a run of transactions leaves chain and peers unchanged |
| Ledger.AddTransactionsQueues | blockchain.go:68-78 | queuing a run of transactions appends exactly them, in order, to the pool |
| Ledger.PoolDrainsIntoNewBlock | blockchain.go:54-63 | after N transactions are queued on an empty pool, the next block holds exactly those N, in order. The pool ends empty and earlier blocks are unchanged |
| Ledger.RegisterNode | blockchain.go:99-105 | the peer set gains the address and nothing else changes |
| Ledger.RegisterNodeIdempotent | blockchain.go:99-105 | registering an address twice is the same as once, and registering a known address is a no-op |
| Mining.GuessReadsBack | blockchain.go:93 | the string hashed by the puzzle is the previous proof's `%d` form followed by the proof's; split after the first part, each part parses back to its number |
| Mining.ProofOfWork | blockchain.go:84-90 | when a valid proof exists, the search returns the least non-negative proof valid for the previous proof, and every smaller non-negative proof fails |
| Mining.ProofGuessCollision | blockchain.go:93 | moving the non-zero last digit of a previous proof of at least 10 to the front of a non-negative proof leaves the hashed string unchanged |
| Mining.ValidProofCollision | blockchain.go:92-97 | whatever the digest, such pairs are valid or invalid together |
| Mining.ProofGuessCollisionExample | blockchain.go:92-97 | (12, 3) and (1, 23) hash the same string, so they are valid or invalid together |
| Mining.GuessInjectiveInProof | blockchain.go:93 | with the previous proof fixed, distinct proofs hash distinct strings |
| Validation.ValidChain | blockchain.go:107-126 | on a non-empty chain, the walk accepts exactly when every adjacent pair has the predecessor's hash as previous hash and a proof valid for the predecessor's proof |
| Validation.SingleBlockIsValid | blockchain.go:107-126 | a one-block chain is accepted whatever it holds |
| Validation.TailIndexNotChecked | blockchain.go:107-126 | indices are never checked: the tail's index can be changed to anything and the chain stays valid |
| Validation.TamperedLinkDetected | blockchain.go:111-115 | changing the previous hash of any block after the first to a different value makes a valid chain invalid |
| Validation.NewBlockKeepsChainLinked | blockchain.go:107-126 | a valid chain stays valid after appending a block with the tail's hash (empty previous hash) and a proof valid for the tail's proof |
| Validation.GenesisSatisfiesInvariant | blockchain.go:36-46 | a fresh ledger has the genesis block first, indices 1, 2, 3, ... and valid links |
| Validation.MiningKeepsInvariant | blockchain.go:203-211 | queuing the reward and then appending a block with a valid proof keeps that invariant. The new block holds the old pool with the reward last and extends the old chain. The reported index equals the new block's index |
| Validation.NewTransactionKeepsInvariant | blockchain.go:68-82 | queuing a transaction alone keeps the ledger invariant, and the reported index is the chain length + 1 |
| Validation.RegisterNodeKeepsInvariant | blockchain.go:99-105 | registering a peer keeps the ledger invariant |
| Consensus.Select | blockchain.go:134-155 | a completed run of the selection loop ends with the running maximum, and with either the chain it started with or a non-empty valid chain |
| Consensus.RunningMaxIsLongestCandidate | blockchain.go:151-153 | the running maximum is at least the starting length. It is the longest reported length among candidates against that length, or the starting length itself when there is no candidate |
| Consensus.SelectAbortsExactly | blockchain.go:136-151 | the loop panics exactly when some reply is a transport error, or is a 200 reply with an empty chain claiming more than the running maximum just before it |
| Consensus.LaterShortEmptyReplyIgnored | blockchain.go:151 | from local length 3, a valid one-block reply claiming 10 is adopted; a later empty reply claiming 5 is never validated and causes no panic |
| Consensus.SelectAbortsOnTransportError | blockchain.go:136-139 | a transport error anywhere in the replies makes the loop panic |
| Consensus.SelectAbortsOnlyOnPanicCause | blockchain.go:136-151 | the loop panics only on a transport error, or on a 200 reply claiming more than the local length but carrying an empty chain |
| Consensus.SelectCompletes | blockchain.go:134-155 | when no reply can cause a panic, the loop finishes |
| Consensus.SelectPicksFirstLongest | blockchain.go:151-154 | with no candidate, the running state is unchanged. A candidate is a 200 reply whose length beats the start and whose chain is non-empty and valid. Otherwise the loop ends on the first candidate of greatest reported length |
| Consensus.ReportedLengthTrusted | blockchain.go:151-158 | a one-block valid chain claiming length 5 is adopted over a local chain of 3 |
| Consensus.AdoptedChainMayLackGenesis | blockchain.go:151-158 | from a 3-block ledger satisfying the invariant, a valid one-block reply claiming 10 whose block has index 7 and proof 5 is adopted, and the resulting ledger violates the invariant |
| Consensus.SelectFacts | blockchain.go:128-163 | every outcome property above, including the exact panic condition, stated for a run from the local length with nothing adopted |
| Consensus.ResolveConflicts | blockchain.go:128-163 | it panics exactly when some reply is a transport error, or is a 200 reply with an empty chain claiming more than the running maximum just before it. So any transport error gives a panic, and with neither cause present against the local length the call completes. It replaces the chain exactly when a candidate exists, and then only with the first longest one. Otherwise the ledger is unchanged. Pool and peers are always kept, and an adopted chain is non-empty and valid |

## Left out

- HTTP handlers, `main`, flag parsing, the global ledger and the uuid node id (blockchain.go:173-322) are transport and process plumbing. The mining handler's sequence of calls is stated only as the lemma `Validation.MiningKeepsInvariant`.
- JSON encoding of blocks, SHA-256 and `%x` formatting (blockchain.go:92-96, 165-171) are library code. They are the uninterpreted `Hasher`. `hash` cannot fail on a well-formed block, so its panic branch is not modelled.
- `http.Get`, `ioutil.ReadAll` and `json.Unmarshal` in `ResolveConflicts` are replaced by the `fetch` outcomes. A body that does not decode is whatever partial `(Chain, Length)` the caller's `fetch` returns.
- `time.Now()` is the `now` parameter.
- Go map iteration order over the peers is the `order` argument: any duplicate-free listing of the peer set.
- Concurrency: the shared ledger is unsynchronised, and locking is not part of the logic.
- Mining.ProofOfWork: terminates only under its precondition that some valid proof exists. The Go code loops for ever otherwise, and this model does not describe that non-terminating run.
- Go `int` is 64 bits; indices, proofs, amounts and lengths are unbounded integers here. The proof search overflowing after 2^63 candidates is not modelled.
