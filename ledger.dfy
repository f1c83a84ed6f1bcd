/**
 * The ledger itself: one node's chain and pending-transaction pool, with the
 * operations that append to them, mine, validate and resolve conflicts.
 */
module Ledger {
  import opened Wrappers
  import opened Blocks
  import opened Puzzle
  import opened Validation
  import opened Consensus

  /** Python truthiness of an optional previous hash: None and "" are false. */
  predicate Truthy(h: Option<string>)
  {
    h.Some? && h.value != ""
  }

  class Blockchain {
    /** The hashing functions this node uses. */
    const crypto: Crypto
    /** The chain, oldest block first. */
    var chain: seq<Block>
    /** Transactions submitted since the last block was sealed, in submission order. */
    var currentTransactions: seq<Transaction>

    /** The chain always holds at least the genesis block. */
    ghost predicate Valid()
      reads this
    {
      chain != []
    }

    /** The most recently appended block. */
    function LastBlock(): Block
      reads this
      requires Valid()
    {
      chain[|chain| - 1]
    }

    /** A new ledger seals the genesis block and has nothing pending. */
    constructor (crypto: Crypto, timestamp: Timestamp)
      ensures Valid()
      ensures this.crypto == crypto
      ensures chain == [Genesis(timestamp)]
      ensures currentTransactions == []
      ensures IsValidChain(crypto, chain) && IndexedByPosition(chain)
    {
      this.crypto := crypto;
      chain := [];
      currentTransactions := [];
      new;
      var _ := NewBlock(GenesisProof, Some(GenesisPreviousHash), timestamp);
    }

    /**
     * Seals every pending transaction into a new block, appends it and
     * empties the pool. Without a truthy previous hash the block links to
     * the hash of the current last block, which must then exist.
     */
    method NewBlock(proof: int, previousHash: Option<string>, timestamp: Timestamp) returns (block: Block)
      requires chain != [] || Truthy(previousHash)
      modifies this
      ensures Valid()
      ensures chain == old(chain) + [block]
      ensures LastBlock() == block
      ensures block.index == |old(chain)| + 1
      ensures block.timestamp == timestamp
      ensures block.transactions == old(currentTransactions)
      ensures block.proof == proof
      ensures block.previousHash ==
        if Truthy(previousHash) then previousHash.value else Hash(crypto, old(chain)[|old(chain)| - 1])
      ensures currentTransactions == []
      ensures IndexedByPosition(old(chain)) ==> IndexedByPosition(chain)
      ensures old(chain) != [] ==>
        (IsValidChain(crypto, chain) <==>
         IsValidChain(crypto, old(chain)) && Linked(crypto, old(chain)[|old(chain)| - 1], block))
      ensures old(chain) == [] ==> IsValidChain(crypto, chain)
    {
      var prev := if Truthy(previousHash) then previousHash.value else Hash(crypto, chain[|chain| - 1]);
      block := Block(|chain| + 1, timestamp, currentTransactions, proof, prev);
      currentTransactions := [];
      if chain != [] {
        ExtendedChainValid(crypto, chain, block);
      }
      chain := chain + [block];
    }

    /**
     * Adds a transaction to the end of the pending pool and returns the
     * index after the last block's, the block that will hold it.
     */
    method NewTransaction(sender: string, recipient: string, amount: Amount) returns (index: int)
      requires Valid()
      modifies this`currentTransactions
      ensures Valid()
      ensures currentTransactions == old(currentTransactions) + [Transaction(sender, recipient, amount)]
      ensures index == LastBlock().index + 1
      ensures IndexedByPosition(chain) ==> index == |chain| + 1
    {
      currentTransactions := currentTransactions + [Transaction(sender, recipient, amount)];
      index := chain[|chain| - 1].index + 1;
    }

    /**
     * Walks the candidate chain pair by pair and stops at the first pair
     * that is not linked. An empty candidate raises IndexError.
     */
    method ValidChain(candidate: seq<Block>) returns (r: Result<bool, Error>)
      ensures candidate == [] ==> r == Failure(IndexError)
      ensures candidate != [] ==> r == Success(IsValidChain(crypto, candidate))
    {
      if candidate == [] {
        return Failure(IndexError);
      }
      var currentIndex := 1;
      var lastBlock := candidate[0];
      while currentIndex < |candidate|
        invariant 1 <= currentIndex <= |candidate|
        invariant lastBlock == candidate[currentIndex - 1]
        invariant forall i :: 0 < i < currentIndex ==> Linked(crypto, candidate[i - 1], candidate[i])
      {
        var block := candidate[currentIndex];
        var lastBlockHash := Hash(crypto, lastBlock);
        if block.previousHash != lastBlockHash {
          return Success(false);
        }
        if !ValidProof(crypto, lastBlock.proof, block.proof, lastBlockHash) {
          return Success(false);
        }
        lastBlock := block;
        currentIndex := currentIndex + 1;
      }
      return Success(true);
    }

    /**
     * Counts up from 0 to the first proof that solves the puzzle posed by
     * the given block. The search ends only when some proof solves it.
     */
    method ProofOfWork(lastBlock: Block) returns (proof: nat)
      requires exists p: nat :: ValidProof(crypto, lastBlock.proof, p, Hash(crypto, lastBlock))
      ensures ValidProof(crypto, lastBlock.proof, proof, Hash(crypto, lastBlock))
      ensures forall q: nat :: q < proof ==> !ValidProof(crypto, lastBlock.proof, q, Hash(crypto, lastBlock))
    {
      var lastProof := lastBlock.proof;
      var lastHash := Hash(crypto, lastBlock);
      ghost var solution: nat :| ValidProof(crypto, lastProof, solution, lastHash);
      proof := 0;
      while !ValidProof(crypto, lastProof, proof, lastHash)
        invariant proof <= solution
        invariant forall q: nat :: q < proof ==> !ValidProof(crypto, lastProof, q, lastHash)
        decreases solution - proof
      {
        proof := proof + 1;
      }
    }

    /**
     * Scans the peers' responses in order, keeps the first chain whose
     * reported length beats every length seen so far (starting from the
     * local length) and that is valid, and adopts it. Returns whether the
     * chain was replaced; an IndexError from validating an empty peer chain
     * aborts the pass and leaves the chain as it was.
     */
    method ResolveConflicts(responses: seq<PeerResponse>) returns (r: Result<bool, Error>)
      requires Valid()
      modifies this`chain
      ensures Valid()
      ensures var s := Scan(crypto, |old(chain)|, None, responses);
        && (s.Failure? ==> r == Failure(s.error) && chain == old(chain))
        && (s == Success(None) ==> r == Success(false) && chain == old(chain))
        && (s.Success? && s.value.Some? ==> r == Success(true) && chain == s.value.value)
    {
      var newChain: Option<seq<Block>> := None;
      var maxLength := |chain|;
      var i := 0;
      while i < |responses|
        invariant 0 <= i <= |responses|
        invariant chain == old(chain)
        invariant Scan(crypto, |chain|, None, responses) == Scan(crypto, maxLength, newChain, responses[i..])
        invariant newChain.Some? ==> newChain.value != []
      {
        var response := responses[i];
        assert responses[i..][1..] == responses[i + 1..];
        if response.status == StatusOk && response.length > maxLength {
          var valid := ValidChain(response.chain);
          match valid
          case Failure(e) =>
            return Failure(e);
          case Success(ok) =>
            if ok {
              maxLength := response.length;
              newChain := Some(response.chain);
            }
        }
        i := i + 1;
      }
      // `if new_chain:` tests the list's truthiness; an adopted chain is never empty.
      if newChain.Some? && newChain.value != [] {
        chain := newChain.value;
        return Success(true);
      }
      return Success(false);
    }
  }

  /**
   * Two transactions submitted to a fresh ledger and then sealed land in
   * block 2, in submission order, linked to the genesis block; sealing again
   * with nothing pending yields an empty block.
   */
  method PendingPoolScenario(crypto: Crypto, t0: Timestamp, t1: Timestamp, proof: int)
  {
    var ledger := new Blockchain(crypto, t0);
    var first := ledger.NewTransaction("A", "B", 5);
    var second := ledger.NewTransaction("B", "C", 3);
    assert first == 2 && second == 2;
    var block := ledger.NewBlock(proof, None, t1);
    assert block.transactions == [Transaction("A", "B", 5), Transaction("B", "C", 3)];
    assert block.index == 2;
    assert block.previousHash == Hash(crypto, Genesis(t0));
    var next := ledger.NewBlock(proof, None, t1);
    assert next.transactions == [] && next.index == 3;
  }
}
