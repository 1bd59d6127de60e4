# A verified model of a minimal blockchain ledger node

This project models the ledger core of a small Python blockchain node: the
`Blockchain` class that keeps an append-only chain of blocks and a pending
list of transactions (the mempool), mines blocks by a proof-of-work search,
and links each block to its predecessor by a SHA-256 digest. It also mirrors
the `/mine` request handler as a client of that class.

- `decimal.dfy` (module `Decimal`): Python's `str(n)` for integers, used to build
  the puzzle input `f'{last_proof}{proof}'`, with its inverse and round trip.
- `records.dfy` (module `Records`): transactions, blocks, the two-kind
  `previous_hash` field (the integer sentinel 1 of the genesis block, or a hex
  digest), and Python truthiness of a supplied `previous_hash`.
- `hashing.dfy` (module `Hashing`): `hash` and `valid_proof`. SHA-256 and the
  key-sorted JSON encoder are foreign library calls. They enter as the two
  function-valued fields of `Primitives`. Nothing is assumed about them beyond
  being functions, which gives determinism. `BlockHash` is their composition
  and has no contract of its own.
- `ledger.dfy` (module `Ledger`): the class `Blockchain` with fields `chain`
  and `currentTransactions`, its invariant `Valid()` (non-empty chain, genesis
  block first, block i has index i + 1), the hash-linkage predicate `Linked`,
  and `AllTransactions()`, the mined transactions followed by the pending ones.
- `node.dfy` (module `Node`): the `/mine` sequence. It searches for a proof,
  queues the reward from `"0"`, and calls `new_block` with the digest of the
  last block.

Choices the code makes that a reader might not expect:

- The difficulty is the hard-coded 4 hex zeros, not a parameter.
- `new_block` accepts any supplied `previous_hash`. Linkage is therefore not
  an invariant of the class. It is kept whenever the caller passes nothing, a
  falsy value, or the right digest, and `/mine` always does.
- The code has no chain validator, peer registry or consensus resolution, so
  none is modelled.

## Model

| member | source | states |
|---|---|---|
| Decimal.NatToDecimal | blockchain.py:97 | the rendering of a non-negative int is non-empty, all digits, and starts with '0' exactly when the number is 0 (no leading zeros) |
| Decimal.IntToDecimal | blockchain.py:97 | the rendering starts with '-' exactly for negative ints; the rest is a canonical digit string |
| Decimal.ParseNatOfDecimal | blockchain.py:97 | reading the digits of a non-negative int back gives the same number |
| Decimal.ParseIntOfDecimal | blockchain.py:97 | round trip `int(str(n)) == n` for every int |
| Decimal.DecimalInjective | blockchain.py:97 | distinct ints render as distinct strings |
| Records.Supplied | blockchain.py:48 | Python truthiness of the optional `previous_hash`: false exactly for `None`, the integer 0 and the empty string |
| Hashing.BlockHash | blockchain.py:60-70 | SHA-256 hex digest of the key-sorted JSON text of the block; deterministic, and with no further contract by design since both primitives are foreign |
| Hashing.Guess | blockchain.py:97 | the puzzle input: the decimal rendering of the previous proof followed by that of the candidate |
| Hashing.ValidProof | blockchain.py:88-99 | the first min(4, \|digest\|) characters of the digest of the guess equal "0000" |
| Hashing.ValidProofMeansLeadingZeros | blockchain.py:88-99 | `valid_proof` holds exactly when the hex digest of the guess starts with 4 zeros; a digest shorter than 4 never passes the `[:4]` comparison |
| Hashing.GuessDeterminesProof | blockchain.py:97-98 | for a fixed previous proof, distinct candidate proofs give distinct guess strings (the inputs to SHA-256) |
| Hashing.GuessIsAmbiguous | blockchain.py:97-99 | the guess does not separate its two parts: (1, 23) and (12, 3) both hash "123", so one is valid exactly when the other is |
| Ledger.CommittedAppend | blockchain.py:43-53 | appending a block appends exactly its transactions, in order, to the mined ones |
| Ledger.LinkedByIndex | blockchain.py:44-48 | in an indexed, linked chain a block with index k > 1 names the digest of the block with index k - 1 |
| Ledger.Blockchain.constructor | blockchain.py:11-16 | the chain is exactly the genesis block (index 1, proof 100, previous hash the sentinel 1, no transactions), the mempool is empty, the invariant and linkage hold |
| Ledger.Blockchain.LastBlock | blockchain.py:56-58 | the last block of a non-empty chain; under the index invariant its index is the chain length |
| Ledger.Blockchain.NewTransaction | blockchain.py:18-33 | appends exactly the one `{sender, recipient, amount}` record to the mempool, leaves the chain unchanged, keeps the invariant, and returns chain length + 1, the index the next block will get |
| Ledger.Blockchain.NewBlock | blockchain.py:35-54 | appends exactly one block with index old length + 1, holding the old mempool, with the supplied previous hash when truthy and otherwise the digest of the old last block; returns it as the new last block; empties the mempool; loses and duplicates no transaction; keeps the invariant and, given a correct or absent previous hash, the linkage; on an empty chain a truthy previous hash is required |
| Ledger.Blockchain.ProofOfWork | blockchain.py:72-86 | returns a proof p >= 0 that `valid_proof` accepts and that no q with 0 <= q < p passes, that is the least valid proof |
| Node.Reward | app.py:28-32 | the mining reward: one coin from the pseudo-sender "0" to this node |
| Node.Mine | app.py:19-36 | appends one block whose proof is the least non-negative valid one for the last proof, whose previous hash is the digest of the old last block, and whose transactions are the old mempool followed by the reward from "0"; the mempool is left empty, the reward is the only new transaction, and invariant and linkage are kept |

## Left out

- Ledger.Blockchain.ProofOfWork: requires that some non-negative proof is valid. The Python loop runs forever otherwise, and a verified method must terminate, so that divergence is not modelled. Node.Mine carries the same requirement.
- SHA-256 and `json.dumps(sort_keys=True)` are library code. They are the function-valued fields of `Primitives`, so no property of the digests (length, hex alphabet, collision resistance) is used.
- `time()` is a wall-clock read. It is a `real` parameter of the constructor, `NewBlock` and `Mine`. Float rounding is not modelled.
- Ledger.Blockchain.LastBlock and Ledger.Blockchain.NewBlock: the `IndexError` that `last_block` and `new_block` raise on an empty chain is excluded by their requires. No call reaches it: the only call on an empty chain is the constructor's, which passes the truthy value 1.
- Aliasing is not modelled. Python's `new_block` returns the same dict object it stores in the chain, so a caller that mutated it would change the chain. The model works on values.
- Python's `amount` and `previous_hash` may be any JSON-able or truthy-testable value. The model fixes `amount` as an int. A supplied `previous_hash` is an int or a string. Other kinds of value are not modelled.
- The HTTP layer of app.py is not part of this model: routes, request parsing, the missing-field check, JSON responses, the `uuid4` node identifier (a parameter of `Mine`), and `app.run`.
- Concurrency is not modelled: blockchain.py has no threads or locks, and the model assumes the ledger's methods are called one at a time.
