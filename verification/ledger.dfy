/** The in-memory ledger: construction with a genesis block, appending a
    block that drains the pending pool, queuing a transaction, reading the
    tail block and registering peers. Every operation is a pure transition
    from one `BlockChain` value to the next. */
module Ledger {
  import opened Blocks

  /** Proof and previous-hash sentinel of the hard-coded genesis block. */
  const GenesisProof: int := 100
  const GenesisPreviousHash: string := "1"

  /** Indices run 1, 2, 3, ... along the chain. */
  predicate WellIndexed(chain: seq<Block>) {
    forall i :: 0 <= i < |chain| ==> chain[i].index == i + 1
  }

  /** The tail block. The Go code indexes `Chain[len-1]`, so the chain must
      not be empty. */
  function LastBlock(b: BlockChain): (r: Block)
    requires |b.chain| > 0
    ensures b.chain == b.chain[..|b.chain| - 1] + [r]
    ensures WellIndexed(b.chain) ==> r.index == |b.chain|
  {
    b.chain[|b.chain| - 1]
  }

  /** Appends a block holding the whole pending pool and empties the pool.
      An empty `previousHash` stands for "hash of the current tail", which
      needs a non-empty chain. Returns the new ledger and the new block. */
  function NewBlock(h: Hasher, b: BlockChain, proof: int, previousHash: string, now: Timestamp)
    : (r: (BlockChain, Block))
    requires previousHash != "" || |b.chain| > 0
    ensures r.0.chain == b.chain + [r.1]
    ensures r.0.currentTransactions == [] && r.0.nodes == b.nodes
    ensures r.1.index == |b.chain| + 1
    ensures r.1.transactions == b.currentTransactions
    ensures r.1.proof == proof && r.1.timestamp == now
    ensures previousHash != "" ==> r.1.previousHash == previousHash
    ensures previousHash == "" ==> r.1.previousHash == Hash(h, LastBlock(b))
  {
    var ph := if |previousHash| == 0 then Hash(h, LastBlock(b)) else previousHash;
    var block := Block(|b.chain| + 1, now, b.currentTransactions, proof, ph);
    (BlockChain(b.chain + [block], [], b.nodes), block)
  }

  /** A fresh ledger: the genesis block, an empty pool, no peers. */
  function NewBlockChain(h: Hasher, now: Timestamp): (r: BlockChain)
    ensures |r.chain| == 1
    ensures r.chain[0] == Block(1, now, [], GenesisProof, GenesisPreviousHash)
    ensures r.currentTransactions == [] && r.nodes == {}
  {
    var empty := BlockChain([], [], {});
    NewBlock(h, empty, GenesisProof, GenesisPreviousHash, now).0.(nodes := {})
  }

  /** Queues a transaction and returns the index of the block that will hold
      it, read as the tail block's index plus one. */
  function NewTransaction(b: BlockChain, sender: string, recipient: string, amount: int)
    : (r: (BlockChain, int))
    requires |b.chain| > 0
    ensures r.0.currentTransactions == b.currentTransactions + [Transaction(sender, recipient, amount)]
    ensures r.0.chain == b.chain && r.0.nodes == b.nodes
    ensures r.1 == LastBlock(b).index + 1
  {
    var t := Transaction(sender, recipient, amount);
    (b.(currentTransactions := b.currentTransactions + [t]), LastBlock(b).index + 1)
  }

  /** Adds a peer address; registering a known address changes nothing. */
  function RegisterNode(b: BlockChain, address: string): (r: BlockChain)
    ensures r.nodes == b.nodes + {address}
    ensures r.chain == b.chain && r.currentTransactions == b.currentTransactions
  {
    if address in b.nodes then b else b.(nodes := b.nodes + {address})
  }

  lemma RegisterNodeIdempotent(b: BlockChain, address: string)
    ensures RegisterNode(RegisterNode(b, address), address) == RegisterNode(b, address)
    ensures address in b.nodes ==> RegisterNode(b, address) == b
  {
  }

  /** While indices run 1, 2, 3, ..., the index NewTransaction reports is the
      chain length plus one: the index the next appended block gets. */
  lemma NewTransactionReportsNextIndex(h: Hasher, b: BlockChain, sender: string, recipient: string,
                                       amount: int, proof: int, now: Timestamp)
    requires |b.chain| > 0 && WellIndexed(b.chain)
    ensures NewTransaction(b, sender, recipient, amount).1 == |b.chain| + 1
    ensures NewTransaction(b, sender, recipient, amount).1
         == NewBlock(h, NewTransaction(b, sender, recipient, amount).0, proof, "", now).1.index
  {
  }

  /** Appending a block keeps indices running 1, 2, 3, ... */
  lemma NewBlockKeepsIndices(h: Hasher, b: BlockChain, proof: int, previousHash: string, now: Timestamp)
    requires previousHash != "" || |b.chain| > 0
    requires WellIndexed(b.chain)
    ensures WellIndexed(NewBlock(h, b, proof, previousHash, now).0.chain)
  {
  }

  /** Queues the given transactions one by one, in order. */
  function AddTransactions(b: BlockChain, txs: seq<Transaction>): (r: BlockChain)
    requires |b.chain| > 0
    ensures r.chain == b.chain && r.nodes == b.nodes
    decreases |txs|
  {
    if |txs| == 0 then b
    else AddTransactions(NewTransaction(b, txs[0].sender, txs[0].recipient, txs[0].amount).0, txs[1..])
  }

  lemma {:induction false} AddTransactionsQueues(b: BlockChain, txs: seq<Transaction>)
    requires |b.chain| > 0
    ensures AddTransactions(b, txs).currentTransactions == b.currentTransactions + txs
    decreases |txs|
  {
    if |txs| > 0 {
      var t := txs[0];
      var b' := NewTransaction(b, t.sender, t.recipient, t.amount).0;
      AddTransactionsQueues(b', txs[1..]);
      assert b.currentTransactions + [t] + txs[1..] == b.currentTransactions + txs;
    }
  }

  /** Queuing transactions one by one and then appending a block moves exactly
      those transactions, in order, into the block and leaves the pool empty;
      the earlier blocks are untouched. */
  lemma PoolDrainsIntoNewBlock(h: Hasher, b: BlockChain, txs: seq<Transaction>, proof: int, now: Timestamp)
    requires |b.chain| > 0 && b.currentTransactions == []
    ensures var r := NewBlock(h, AddTransactions(b, txs), proof, "", now);
      && r.1.transactions == txs
      && r.0.currentTransactions == []
      && r.0.chain[..|b.chain|] == b.chain
      && |r.0.chain| == |b.chain| + 1
  {
    AddTransactionsQueues(b, txs);
  }

  /** The genesis block has index 1, so a fresh ledger is well indexed. */
  lemma NewBlockChainWellIndexed(h: Hasher, now: Timestamp)
    ensures WellIndexed(NewBlockChain(h, now).chain)
    ensures LastBlock(NewBlockChain(h, now)).index == 1
  {
  }
}
