# A verified model of a proof-of-work ledger node

This project models in Dafny the ledger engine of a small Python blockchain node: the `Blockchain` class of `blockchain.py`. A node keeps a chain of blocks and a pool of pending transactions. It seals the pool into a new block, mines proofs of work, validates chains and adopts the longest valid chain that its peers report.

The model has one module per component:

- `Blocks` (`blocks.dfy`): the transaction and block records, the block hash, and the genesis block (index 1, proof 100, previous hash `"1"`, no transactions).
- `Puzzle` (`puzzle.dfy`): the proof-of-work predicate. It takes the digest of the decimal text of the last proof, then the decimal text of the proof, then the last hash, and accepts when the first four characters are `"0000"`. Python's `str` of an integer and its `[:4]` slice are written out.
- `Validation` (`validation.dfy`): chain validity, meaning every adjacent pair is linked, and lemmas on what tampering does to a valid chain.
- `Consensus` (`consensus.dfy`): the longest-valid-chain rule as a scan over the peers' responses, with lemmas that describe its result without reference to the scan.
- `Ledger` (`ledger.dfy`): the `Blockchain` class, whose fields `chain` and `currentTransactions` are changed in place. It holds the constructor, `NewBlock`, `NewTransaction`, `LastBlock`, `ValidChain`, `ProofOfWork` and `ResolveConflicts`, and a client method `PendingPoolScenario` that runs two transactions through a fresh ledger.
- `Wrappers` (`wrappers.dfy`): `Option` and `Result`.

SHA-256 and the sorted-key JSON serialisation are foreign libraries. They are the two fields of a `Crypto` value, `serialize: Block -> string` and `sha256: string -> string`, which the ledger holds as a constant. `Hash(c, b)` is `c.sha256(c.serialize(b))`. Because these fields are total functions, the same block always hashes to the same digest, and the model needs nothing more about them. The timestamp (`time()` in the source) is a parameter. So are the peers' answers: `ResolveConflicts` gets a sequence of `(status, reported length, chain)` responses in the order the node iterates over its peers.

Python exceptions that the core can raise are modelled as `Result` failures:

- `IndexError` comes from `valid_chain` on an empty list.
- `TypeError` comes from the `valid_proof` defect described under Findings.

Facts about the code that a reader might not expect:

- `new_transaction` returns the last block's index plus one. On a position-indexed chain that is `|chain| + 1`, the index of the next block to be sealed.
- The genesis blocks of two nodes can differ: each carries its node's construction time as timestamp (blockchain.py:82), so they agree only when the timestamps do.
- Changing the transactions of the *last* block does not make a chain invalid, because no later block commits to its hash (`Validation.LastBlockContentsUnchecked`). Changing any earlier block to one with a different hash does (`Validation.TamperedBlockBreaksChain`).
- Peers are compared by the length they *report*, not by the length of the chain they send (`Consensus.ReportedLengthIsTrusted`). With honest peers the adopted chain is strictly longer (`Consensus.HonestPeersGiveLongerChain`).

## Model

| member | source | states |
|---|---|---|
| `Ledger.Blockchain.constructor` | blockchain.py:15-21 | the new chain is exactly the genesis block (index 1, proof 100, previous hash "1", no transactions); the pool is empty; the chain is valid and indexed by position |
| `Ledger.Blockchain.NewBlock` | blockchain.py:71-92 | appends exactly one block, leaving earlier blocks unchanged; its index is the old length + 1 and its transactions are the old pool in submission order; its previous hash is the given one when truthy, otherwise the hash of the old last block; the pool is then empty; the block is the new last block; indexing by position is preserved; the new chain is valid iff the old one was and the block is linked to the old last block |
| `Ledger.Blockchain.NewTransaction` | blockchain.py:94-110 | appends one (sender, recipient, amount) record at the end of the pool; the chain is unchanged; returns the last block's index + 1, which is `|chain| + 1` on a position-indexed chain |
| `Ledger.Blockchain.ValidChain` | blockchain.py:39-69 | an empty candidate raises IndexError; otherwise returns true exactly when every adjacent pair has the predecessor's hash as previous hash and a proof that solves the predecessor's puzzle; returns false at the first failing pair |
| `Ledger.Blockchain.ProofOfWork` | blockchain.py:131-150 | when some non-negative proof solves the block's puzzle, returns the least such proof: it solves the puzzle and no smaller non-negative proof does |
| `Ledger.Blockchain.ResolveConflicts` | blockchain.py:169-202 | the chain is replaced by the scan's chosen peer chain and true is returned exactly when the scan picks one; otherwise it returns false and the chain is unchanged; an IndexError from an empty peer chain aborts the pass with the chain unchanged; the chain stays non-empty |
| `Puzzle.Digits` | blockchain.py:164 | the decimal text of a non-negative integer is non-empty, made of digits only, with no leading zero, and is one character long exactly for values below 10 |
| `Puzzle.DigitsSpellValue` | blockchain.py:164 | the digits of n, read back most significant first, spell n |
| `Puzzle.Decimal` | blockchain.py:164 | the decimal text of an integer is an optional '-' followed by digits, with '-' exactly for negative numbers |
| `Puzzle.DecimalSpellsValue` | blockchain.py:164 | the decimal text of n denotes n |
| `Puzzle.DecimalInjective` | blockchain.py:164 | different integers have different decimal texts |
| `Puzzle.Head` | blockchain.py:166 | Python's `s[:n]` is a prefix of s, of length n or all of s when s is shorter |
| `Puzzle.ValidProofIsZeroPrefix` | blockchain.py:164-166 | a proof is valid exactly when "0000" is a prefix of the digest of last proof, proof and last hash |
| `Puzzle.PuzzleInputAmbiguous` | blockchain.py:164 | the puzzle text does not separate the two proofs: for every a >= 1 and digits d >= 1 and b, the different pairs (10a + d, b) and (a, 10d + b), such as (12, 3) and (1, 23), pose the same puzzle and are valid together or not at all |
| `Puzzle.AsWrittenRejectsSolvedPuzzle` | blockchain.py:165-166 | as written, the predicate does not return true even for a proof that solves the intended puzzle; it raises instead |
| `Validation.SingleBlockChainValid` | blockchain.py:47-51 | any one-block chain is valid; its own proof and previous hash are never checked |
| `Validation.ExtendedChainValid` | blockchain.py:51-67 | appending a block keeps a chain valid exactly when the block is linked to the old last block (both directions) |
| `Validation.ValidPrefix` | blockchain.py:51-69 | every prefix of a valid chain is valid |
| `Validation.TamperedBlockBreaksChain` | blockchain.py:56-59 | replacing a block that has a successor by a block with a different hash makes a valid chain invalid |
| `Validation.TamperedLinkBreaksChain` | blockchain.py:56-63 | replacing a non-first block by one whose previous hash or proof does not fit its predecessor makes the chain invalid |
| `Validation.LastBlockContentsUnchecked` | blockchain.py:51-69 | a valid chain stays valid when its last block's transactions, timestamp or index change, as long as its previous hash and proof stay |
| `Consensus.ScanPicksFirstLongest` | blockchain.py:182-195 | a successful scan either keeps its starting candidate when no eligible peer beats the starting length, or picks the first eligible peer whose reported length is maximal and beats the starting length |
| `Consensus.ScanFailsOnEmptyChain` | blockchain.py:188-193 | the scan fails only with IndexError, and only when some 200 response with an empty chain reports a length above the starting length |
| `Consensus.ResolveSelectsLongestValid` | blockchain.py:182-202 | the local chain is kept exactly when no eligible peer reports more than the local length; otherwise the adopted chain is that of the first eligible peer with the largest reported length, which is strictly greater than the local length, so ties never replace it |
| `Consensus.AdoptedChainValid` | blockchain.py:193-199 | an adopted chain is non-empty and valid |
| `Consensus.HonestPeersGiveLongerChain` | blockchain.py:189-195 | when every peer reports its chain's true length, an adopted chain is strictly longer than the local chain |
| `Consensus.ReportedLengthIsTrusted` | blockchain.py:189-195 | any valid non-empty chain whose reported length beats the local length is adopted, whatever its true length, so a one-block chain reported as length 4 replaces a chain of three blocks |
| `Consensus.LongestValidWins` | blockchain.py:193-195 | against a local length of 3, with peers reporting 2, 3 and 4 and a valid length-4 chain, exactly the length-4 chain is adopted |
| `Consensus.TiesAndShorterChainsLose` | blockchain.py:193 | against a local length of 3, a length-3 chain (valid or not) and a length-2 chain leave the local chain in place |

The following are definitions; what they mean is stated by the members above: `Blocks.Hash` (blockchain.py:118-129), `Blocks.Genesis` (blockchain.py:21), `Ledger.Blockchain.LastBlock` (blockchain.py:113-115), `Ledger.Truthy` (the `or` of blockchain.py:85), `Puzzle.PuzzleInput` (the f-string of blockchain.py:164), `Puzzle.ValidProof` (blockchain.py:153-166), `Puzzle.ValidProofAsWritten` (blockchain.py:164-166, see Findings), `Validation.Linked` (the per-pair checks of blockchain.py:56-63), `Validation.IsValidChain` (blockchain.py:47-69) and `Consensus.Scan` (blockchain.py:178-195). `Puzzle.DigitsValue` and `Puzzle.DecimalValue` read decimal text back as a number, to state what `Digits` and `Decimal` produce.

## Findings

| source | as written | input that shows it | evidently intended | confidence | as-written member | corrected member |
|---|---|---|---|---|---|---|
| blockchain.py:165-166 | `guess_hash = hashlib.sha256(guess).hexdigest` binds the method itself, so `guess_hash[:4]` slices a method object and raises TypeError | any arguments, e.g. last proof 100, proof 0, last hash "1": the slice raises before any comparison, so mining never returns a proof, and validation never accepts a chain of two or more blocks: it returns False on a hash mismatch and raises TypeError otherwise | call `hexdigest()` and compare the digest's first four characters with "0000" | high (not executed) | `Puzzle.ValidProofAsWritten`, shown by `Puzzle.AsWrittenRejectsSolvedPuzzle` | `Puzzle.ValidProof`, characterised by `Puzzle.ValidProofIsZeroPrefix` and used by `Ledger.Blockchain.ProofOfWork` and `Validation.Linked` |

## Left out

- The Flask application, the node identifier and the global instance (blockchain.py:205-212) are process bootstrap and HTTP plumbing.
- `register_node` and the `nodes` set (blockchain.py:17, 23-37) are left out: they wrap `urllib.parse.urlparse`, which is not part of this model. `ResolveConflicts` takes the peers' responses directly, in iteration order.
- `requests.get` (blockchain.py:186) is network I/O. Each response is given as its status code, reported length and chain. A peer that cannot be reached, raises, or answers JSON without `length` or `chain` is not modelled. Blocks of a peer chain are assumed to have all five fields.
- SHA-256 and `json.dumps(..., sort_keys=True)` (blockchain.py:128-129, 164-165) are foreign libraries. They are the uninterpreted fields of `Crypto`. The byte encoding via `.encode()` is folded into `sha256`.
- `time()` (blockchain.py:82) is a clock. The timestamp is a `real` parameter, and amounts are integers.
- The `print` calls in `valid_chain` (blockchain.py:53-55) are debugging output. Because of that, the early exit of the walk is observable only through its result.
- Ledger.Blockchain.ProofOfWork: does not model a search that never ends, because the loop is proved to terminate under the precondition that some non-negative proof solves the puzzle. The source loops forever when none does.
- Python aliasing is not modelled: the sealed block shares the list object that was the pool. This is harmless because the pool attribute is rebound afterwards, not cleared.
- Concurrency, locking and cancellable mining do not occur in the source.
