/**
 The block collaborator of the ledger.

 The ledger only consumes blocks: it needs the canonical genesis block, a way to
 build the successor of a block, and a pure function that recomputes a block's
 hash from its fields. How the hash is computed, how mining searches for it and
 what the genesis fields hold are not part of this model, so the collaborator is
 a value of type `BlockFactory` that every operation takes as a parameter: all
 properties proved about the ledger hold for every genesis block and every
 digest function.
 */
module Blocks {

  /** Hash values are opaque strings compared for exact equality. */
  type Hash = string

  /** The payload of a block; the ledger never looks inside it. */
  type Data = string

  /** Creation time, informational only: the ledger never validates it. */
  type Timestamp = int

  datatype Block = Block(
    index: nat,
    timestamp: Timestamp,
    lastHash: Hash,
    hash: Hash,
    data: Data)

  /** A deterministic hash over every field of a block except its stored hash. */
  type Digest = (nat, Timestamp, Hash, Data) -> Hash

  /** The collaborator: the canonical first block and the hash function. */
  datatype BlockFactory = BlockFactory(genesis: Block, digest: Digest)

  /** Recomputes the hash a block should carry from its own fields. */
  function BlockHash(f: BlockFactory, b: Block): Hash
  {
    f.digest(b.index, b.timestamp, b.lastHash, b.data)
  }

  /**
   Builds the block that follows `last` and carries `data`. The clock reading
   the collaborator would take itself is the parameter `time`.
   */
  function MineBlock(f: BlockFactory, last: Block, data: Data, time: Timestamp): (b: Block)
    ensures b.lastHash == last.hash
    ensures b.index == last.index + 1
    ensures b.hash == BlockHash(f, b)
    ensures b.data == data && b.timestamp == time
  {
    var index := last.index + 1;
    Block(index, time, last.hash, f.digest(index, time, last.hash, data), data)
  }

  /** Two blocks agree on every field the digest covers: all but the stored hash. */
  predicate SameContent(b1: Block, b2: Block)
  {
    && b1.index == b2.index
    && b1.timestamp == b2.timestamp
    && b1.lastHash == b2.lastHash
    && b1.data == b2.data
  }

  /**
   The digest is collision-free: blocks with equal recomputed hashes agree on
   every hashed field. Tamper and reorder detection are stated under this
   assumption, since an arbitrary digest may hide an edit behind a collision.
   */
  ghost predicate CollisionFree(f: BlockFactory)
  {
    forall b1: Block, b2: Block {:trigger BlockHash(f, b1), BlockHash(f, b2)} ::
      BlockHash(f, b1) == BlockHash(f, b2) ==> SameContent(b1, b2)
  }
}
