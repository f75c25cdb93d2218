/** Whole-chain validation: each block must carry the hash of its
    predecessor and a proof that is valid for the predecessor's proof.
    Indices, timestamps and transactions are not inspected. */
module Validation {
  import opened Blocks
  import opened Mining
  import opened Ledger

  /** `curr` may follow `prev` in a valid chain. */
  predicate Linked(h: Hasher, prev: Block, curr: Block) {
    curr.previousHash == Hash(h, prev) && ValidProof(h, prev.proof, curr.proof)
  }

  /** Every adjacent pair of blocks is linked. */
  predicate ChainLinked(h: Hasher, chain: seq<Block>) {
    forall i :: 0 < i < |chain| ==> Linked(h, chain[i - 1], chain[i])
  }

  /** The Go code's pairwise walk, stopping at the first broken link. It reads
      `chain[0]` unconditionally, so the chain must not be empty. */
  method ValidChain(h: Hasher, chain: seq<Block>) returns (ok: bool)
    requires |chain| > 0
    ensures ok <==> ChainLinked(h, chain)
  {
    var lastBlock := chain[0];
    var currentIndex := 1;
    while currentIndex < |chain|
      invariant 1 <= currentIndex <= |chain|
      invariant lastBlock == chain[currentIndex - 1]
      invariant forall i :: 0 < i < currentIndex ==> Linked(h, chain[i - 1], chain[i])
    {
      var block := chain[currentIndex];
      if block.previousHash != Hash(h, lastBlock) {
        return false;
      }
      if !ValidProof(h, lastBlock.proof, block.proof) {
        return false;
      }
      lastBlock := block;
      currentIndex := currentIndex + 1;
    }
    return true;
  }

  /** A lone block is accepted whatever it holds: a forged single block
      cannot be rejected. */
  lemma SingleBlockIsValid(h: Hasher, block: Block)
    ensures ChainLinked(h, [block])
  {
  }

  /** Indices are never checked: the tail block's index can be replaced by
      any value without the chain losing validity. */
  lemma TailIndexNotChecked(h: Hasher, chain: seq<Block>, index: int)
    requires |chain| > 0 && ChainLinked(h, chain)
    ensures ChainLinked(h, chain[..|chain| - 1] + [chain[|chain| - 1].(index := index)])
  {
  }

  /** Changing one block's previous-hash field to anything other than the
      true hash of its predecessor is detected. */
  lemma TamperedLinkDetected(h: Hasher, chain: seq<Block>, i: int, forgedHash: string)
    requires 0 < i < |chain| && ChainLinked(h, chain)
    requires forgedHash != chain[i].previousHash
    ensures !ChainLinked(h, chain[i := chain[i].(previousHash := forgedHash)])
  {
    var forged := chain[i := chain[i].(previousHash := forgedHash)];
    assert Linked(h, chain[i - 1], chain[i]);
    assert !Linked(h, forged[i - 1], forged[i]);
  }

  /** Appending a block that carries the hash of the tail and a proof valid
      for the tail's proof keeps a valid chain valid. */
  lemma NewBlockKeepsChainLinked(h: Hasher, b: BlockChain, proof: int, now: Timestamp)
    requires |b.chain| > 0 && ChainLinked(h, b.chain)
    requires ValidProof(h, LastBlock(b).proof, proof)
    ensures ChainLinked(h, NewBlock(h, b, proof, "", now).0.chain)
  {
  }

  /** What holds of every ledger built only by the ledger's own operations:
      the genesis block first, indices 1, 2, 3, ..., and every link valid. */
  predicate LedgerInvariant(h: Hasher, b: BlockChain) {
    && |b.chain| > 0
    && b.chain[0].proof == GenesisProof
    && b.chain[0].previousHash == GenesisPreviousHash
    && WellIndexed(b.chain)
    && ChainLinked(h, b.chain)
  }

  lemma GenesisSatisfiesInvariant(h: Hasher, now: Timestamp)
    ensures LedgerInvariant(h, NewBlockChain(h, now))
  {
  }

  /** One round of mining as the node performs it: queue the reward
      transaction, then append a block carrying a proof valid for the tail's
      proof. The invariant survives, the new block holds the pool with the
      reward last, and the reported index is the new block's index. */
  lemma MiningKeepsInvariant(h: Hasher, b: BlockChain, miner: string, reward: int, proof: int, now: Timestamp)
    requires LedgerInvariant(h, b)
    requires ValidProof(h, LastBlock(b).proof, proof)
    ensures var (b1, index) := NewTransaction(b, "0", miner, reward);
            var (b2, block) := NewBlock(h, b1, proof, "", now);
            && LedgerInvariant(h, b2)
            && block.transactions == b.currentTransactions + [Transaction("0", miner, reward)]
            && block.index == index
            && b2.chain[..|b.chain|] == b.chain
  {
    var (b1, index) := NewTransaction(b, "0", miner, reward);
    NewBlockKeepsIndices(h, b1, proof, "", now);
    NewBlockKeepsChainLinked(h, b1, proof, now);
    NewTransactionReportsNextIndex(h, b, "0", miner, reward, proof, now);
  }

  /** Queuing a transaction on its own, as the transaction handler does,
      keeps the invariant and reports the index of the next block. */
  lemma NewTransactionKeepsInvariant(h: Hasher, b: BlockChain, sender: string, recipient: string, amount: int)
    requires LedgerInvariant(h, b)
    ensures LedgerInvariant(h, NewTransaction(b, sender, recipient, amount).0)
    ensures NewTransaction(b, sender, recipient, amount).1 == |b.chain| + 1
  {
  }

  lemma RegisterNodeKeepsInvariant(h: Hasher, b: BlockChain, address: string)
    requires LedgerInvariant(h, b)
    ensures LedgerInvariant(h, RegisterNode(b, address))
  {
  }
}
