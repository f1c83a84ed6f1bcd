/**
 * Chain validity: every block after the first names the hash of its
 * predecessor and carries a proof that solves the puzzle posed by it.
 */
module Validation {
  import opened Blocks
  import opened Puzzle

  /** The check the validator applies to each adjacent pair (last, block). */
  predicate Linked(c: Crypto, last: Block, block: Block)
  {
    && block.previousHash == Hash(c, last)
    && ValidProof(c, last.proof, block.proof, Hash(c, last))
  }

  /** A chain is valid when every adjacent pair is linked; the first block is never checked itself. */
  predicate IsValidChain(c: Crypto, chain: seq<Block>)
  {
    forall i :: 0 < i < |chain| ==> Linked(c, chain[i - 1], chain[i])
  }

  /** Any one-block chain is valid, whatever its proof and previous hash. */
  lemma SingleBlockChainValid(c: Crypto, b: Block)
    ensures IsValidChain(c, [b])
  {
  }

  /** Appending a block keeps a chain valid exactly when the new block is linked to the old last block. */
  lemma ExtendedChainValid(c: Crypto, chain: seq<Block>, b: Block)
    requires chain != []
    ensures IsValidChain(c, chain + [b]) <==> IsValidChain(c, chain) && Linked(c, chain[|chain| - 1], b)
  {
    var ext := chain + [b];
    if IsValidChain(c, ext) {
      forall i | 0 < i < |chain|
        ensures Linked(c, chain[i - 1], chain[i])
      {
        assert ext[i - 1] == chain[i - 1] && ext[i] == chain[i];
      }
      assert ext[|chain| - 1] == chain[|chain| - 1] && ext[|chain|] == b;
    }
  }

  /** Every prefix of a valid chain is valid (the empty one vacuously, although validating it raises IndexError). */
  lemma ValidPrefix(c: Crypto, chain: seq<Block>, n: nat)
    requires IsValidChain(c, chain)
    requires n <= |chain|
    ensures IsValidChain(c, chain[..n])
  {
  }

  /**
   * Replacing a block that has a successor by one with a different hash
   * breaks the successor's link.
   */
  lemma TamperedBlockBreaksChain(c: Crypto, chain: seq<Block>, i: nat, b: Block)
    requires IsValidChain(c, chain)
    requires i + 1 < |chain|
    requires Hash(c, b) != Hash(c, chain[i])
    ensures !IsValidChain(c, chain[i := b])
  {
    var t := chain[i := b];
    assert t[i] == b && t[i + 1] == chain[i + 1];
    assert !Linked(c, t[i], t[i + 1]);
  }

  /**
   * Replacing a non-first block by one whose previous hash or proof does not
   * fit its predecessor makes the chain invalid.
   */
  lemma TamperedLinkBreaksChain(c: Crypto, chain: seq<Block>, i: nat, b: Block)
    requires 0 < i < |chain|
    requires !Linked(c, chain[i - 1], b)
    ensures !IsValidChain(c, chain[i := b])
  {
    var t := chain[i := b];
    assert t[i - 1] == chain[i - 1] && t[i] == b;
  }

  /**
   * Nothing follows the last block, so only its previous hash and proof are
   * checked: its transactions, timestamp and index can change freely.
   */
  lemma LastBlockContentsUnchecked(c: Crypto, chain: seq<Block>, b: Block)
    requires IsValidChain(c, chain)
    requires chain != []
    requires b.previousHash == chain[|chain| - 1].previousHash
    requires b.proof == chain[|chain| - 1].proof
    ensures IsValidChain(c, chain[|chain| - 1 := b])
  {
  }
}
