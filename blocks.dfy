/**
 * The ledger's data model: transactions, blocks, the block hash and the
 * fixed genesis block.
 */
module Blocks {

  /** Seconds since the epoch, as `time()` reports them; supplied by the caller. */
  type Timestamp = real

  /** The amount of a transaction; the core never inspects it. */
  type Amount = int

  datatype Transaction = Transaction(sender: string, recipient: string, amount: Amount)

  datatype Block = Block(
    index: int,
    timestamp: Timestamp,
    transactions: seq<Transaction>,
    proof: int,
    previousHash: string
  )

  /** The Python exceptions the core can raise on its own. */
  datatype Error =
    | IndexError   // indexing an empty list
    | TypeError    // slicing something that is not a sequence

  /**
   * The two foreign functions behind hashing: the canonical serialisation
   * of a block (JSON with sorted keys) and the hexadecimal SHA-256 digest of
   * a string. Both are deterministic, which is all the core relies on.
   */
  datatype Crypto = Crypto(serialize: Block -> string, sha256: string -> string)

  /** The hash of a block: the digest of its canonical serialisation. */
  function Hash(c: Crypto, b: Block): string
  {
    c.sha256(c.serialize(b))
  }

  const GenesisProof: int := 100
  const GenesisPreviousHash: string := "1"

  /** The first block every ledger seals: index 1, no transactions, seed proof and sentinel hash. */
  function Genesis(t: Timestamp): Block
  {
    Block(1, t, [], GenesisProof, GenesisPreviousHash)
  }

  /** Every block's index is its 1-based position in the chain. */
  predicate IndexedByPosition(chain: seq<Block>)
  {
    forall i :: 0 <= i < |chain| ==> chain[i].index == i + 1
  }
}
