/** The ledger's records (Transaction, Block, BlockChain) and the block hash.

    The hash of a block is the lower-case hex SHA-256 digest of its JSON
    encoding. Both the JSON encoder and SHA-256 are foreign library code, so
    they are carried as an uninterpreted `Hasher` value that every operation
    needing a digest receives as a parameter.
 */
module Blocks {

  /** A point in time, as supplied by the caller's clock. */
  type Timestamp = int

  predicate IsHexDigit(ch: char) {
    ('0' <= ch <= '9') || ('a' <= ch <= 'f')
  }

  /** A SHA-256 digest printed with `%x`: 64 lower-case hex characters. */
  type HexDigest = s: string | |s| == 64 && forall i :: 0 <= i < |s| ==> IsHexDigit(s[i])
    witness seq(64, i => '0')

  datatype Transaction = Transaction(sender: string, recipient: string, amount: int)

  datatype Block = Block(
    index: int,
    timestamp: Timestamp,
    transactions: seq<Transaction>,
    proof: int,
    previousHash: string)

  /** The ledger state: the chain, the pending-transaction pool and the set
      of registered peer addresses (a Go map whose values are always 1). */
  datatype BlockChain = BlockChain(
    chain: seq<Block>,
    currentTransactions: seq<Transaction>,
    nodes: set<string>)

  /** The two library functions the hashes are built from, left uninterpreted:
      `marshal` is the JSON encoding of a block and `sha256Hex` the hex
      SHA-256 digest of a byte string. */
  datatype Hasher = Hasher(marshal: Block -> string, sha256Hex: string -> HexDigest)

  /** The hash of a block: the hex digest of its JSON encoding. */
  function Hash(h: Hasher, block: Block): HexDigest {
    h.sha256Hex(h.marshal(block))
  }
}
