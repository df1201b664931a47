# Block-Chain-App ledger, modelled in Dafny

This project models the `BlockChain` class of `blockchain/index.js`: the ledger
that holds a hash-linked chain of blocks starting at a fixed genesis block. The
class has three operations:

- `addBlock` mines a block on the current tail and appends it;
- `isValidChain` checks an untrusted candidate chain: its first block must be
  structurally equal to genesis, and every later block must point at its
  predecessor's hash and carry the hash recomputed from its own fields;
- `replaceChain` is the fork choice: a candidate is adopted, wholesale, only
  when it is strictly longer than the current chain and valid.

Files:

- `block.dfy` (module `Blocks`): the `Block` record and the block collaborator
  (`./block`, which is not part of this model). It becomes a `BlockFactory` value holding
  the genesis block and an arbitrary digest function. `BlockHash` applies the
  digest to every field except the stored hash. `MineBlock` builds the
  successor block with that digest. Every ledger operation takes the factory as
  a parameter, so each property below holds for every genesis block and every
  hash function.
- `chain.dfy` (module `Chain`): the declarative validity predicate
  `ValidChain`, the validation loop `IsValidChain` proved equal to it, the
  ledger state `Ledger`, and the operations `New`, `AddBlock` and
  `ReplaceChain` as pure functions from one state to the next. It also holds
  the lemmas about validity: extension, prefixes, substitution of one block,
  tamper and reorder detection.
- `history.dfy` (module `History`): runs of appends and replacement requests
  from a fresh ledger. It proves that every reachable chain is valid and that
  the chain never shrinks. It also proves the two worked scenarios: an
  equal-length rival is refused and a longer one is adopted.
- `objects.dfy` (module `Objects`): the class `BlockChain` with a mutable
  `chain` field. Its methods delegate to `Chain`, and `ReplaceChain` runs the
  validation loop as the source does.

Any clock reading the block collaborator takes when mining is the `time`
parameter of `AddBlock`. The outcome of `replaceChain`, which the source
only logs, is the enumeration `Outcome = Accepted | TooShort | Invalid`.

## Model

| member | source | states |
|---|---|---|
| `Blocks.MineBlock` | blockchain/index.js:10 | The mined block points at its predecessor's hash, has the next index, carries the given data and time, and its stored hash equals the hash recomputed from its fields. |
| `Chain.IsValidChain` | blockchain/index.js:15-30 | The short-circuiting loop answers true exactly when the candidate is valid: non-empty, first block equal to genesis, every later block linked and hash-intact. An empty candidate is rejected. |
| `Chain.BrokenLinkInvalid` | blockchain/index.js:20-27 | One non-genesis block with a wrong `lastHash` or a stale `hash` makes the whole candidate invalid. |
| `Chain.ValidChainSnoc` | blockchain/index.js:20-27 | A chain extended by one block is valid exactly when the chain is valid and the new block links correctly to its tail. |
| `Chain.ValidChainPrefix` | blockchain/index.js:20-27 | Every non-empty prefix of a valid chain is valid. |
| `Chain.ReplaceBlockValid` | blockchain/index.js:24 | Swapping one non-genesis block of a valid chain for another keeps it valid exactly when the substitute links to its predecessor, its hash is intact, and its successor points at its hash. |
| `Chain.TamperDetected` | blockchain/index.js:24 | With a collision-free digest, replacing a non-genesis block of a valid chain by any different block that keeps the stored hash makes the chain invalid. |
| `Chain.SwapDetected` | blockchain/index.js:24 | Reordering two adjacent non-genesis blocks of a valid chain leaves it valid only if both blocks and their predecessor share one hash. |
| `Chain.SwapOnlyOfEqualBlocks` | blockchain/index.js:24 | With a collision-free digest, swapping two adjacent non-genesis blocks of a valid chain leaves it valid only when the two blocks are identical, so the swap changed nothing. |
| `Chain.New` | blockchain/index.js:4-6 | A new ledger's chain is exactly the genesis block, of length 1, and it is valid. |
| `Chain.AddBlock` | blockchain/index.js:8-12 | The chain grows by exactly one block. Earlier blocks are unchanged. The new tail is the block mined from the old tail and is the block returned. It links to the old tail. The new chain is valid exactly when the old one was. |
| `Chain.ReplaceChain` | blockchain/index.js:32-44 | A candidate no longer than the chain is refused as too short, whatever its validity. A longer invalid one is refused as invalid and the ledger is unchanged. Acceptance happens exactly for longer valid candidates and makes the chain exactly the candidate. The result is never a mix of the two chains, never shorter, and valid whenever the old chain was. |
| `Chain.ReplaceChainIdempotent` | blockchain/index.js:34-43 | Offering the same candidate a second time leaves the ledger as the first offer left it. |
| `History.Step` | blockchain/index.js:8-43 | Any single call keeps a valid chain valid and never shortens it. An append lengthens it by one. |
| `History.Run` | blockchain/index.js:4-43 | Every state reached from the constructor by any sequence of appends and replacement requests has a valid chain that starts with genesis. |
| `History.RunLengthMonotone` | blockchain/index.js:34-43 | Along any history the chain length never decreases. |
| `History.RunAppendsLength` | blockchain/index.js:8-12 | After n appends on a fresh ledger the chain has n + 1 blocks. |
| `History.EqualLengthRivalRefused` | blockchain/index.js:34-36 | After one append, a correctly mined rival chain of the same length is valid, but it is refused as too short and the ledger keeps its own chain. |
| `History.LongerRivalAdopted` | blockchain/index.js:37-43 | The rival extended by one more mined block is accepted, and the ledger's chain becomes exactly that rival. |
| `Objects.BlockChain.AddBlock` | blockchain/index.js:8-12 | The object's chain becomes the old chain plus the returned block. That block is mined from the old tail, and the chain stays valid. |
| `Objects.BlockChain.ReplaceChain` | blockchain/index.js:32-44 | The object's new chain and the reported outcome are those of `Chain.ReplaceChain`, and the chain stays valid. |

## Left out

- The `console.log` messages and the `debugger` statement of `replaceChain`: they have no effect on state. The outcome they describe is returned as `Outcome`.
- `JSON.stringify` comparison of the first block with genesis is modelled as structural equality of `Block` values. Serialisation details are not modelled: key order, dropped `undefined` fields, extra properties on untrusted objects.
- Candidate chains are sequences of well-formed `Block` values. Untrusted JavaScript values with missing or extra fields are not modelled.
- The block collaborator's internals are not modelled: the hash algorithm, proof-of-work mining, the genesis field values, and reading the clock. The hash is an arbitrary digest function, genesis an arbitrary block, and the time a parameter. The `index` field and the digest covering it are assumptions about that collaborator.
- `Chain.AddBlock` requires a non-empty chain. On an empty chain blockchain/index.js:9 passes `undefined` to `Block.mineBlock`, whose behaviour there is not modelled. No ledger reachable from the constructor is empty, as `History.Run` shows.
- `Chain.TamperDetected`: assumes a collision-free digest (`Blocks.CollisionFree`). For an arbitrary digest a hash collision can hide an edit.
- `Chain.SwapDetected`: for an arbitrary digest it only shows that a valid swap needs the three adjacent hashes to coincide; `Chain.SwapOnlyOfEqualBlocks` adds the collision-free assumption to conclude that the swap changed nothing.
- Chains and blocks are modelled as values, not shared objects. In the source, `this.chain = newChain` adopts the caller's own array, `push` then grows that shared array, and `addBlock` returns the very object stored in the chain, so outside code could make the chain invalid without calling the ledger. The validity invariant (`History.Run`) assumes callers never mutate an adopted array or a returned block.
- Concurrency and exchange of chains between peers: the class has none. Every call is modelled as one atomic step.
