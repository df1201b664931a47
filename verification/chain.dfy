/**
 The ledger: a sequence of blocks starting at genesis, with the three
 operations of the `BlockChain` class — append a locally mined block, validate
 an untrusted candidate chain, and adopt a candidate when it is strictly longer
 and valid.

 The ledger state is an immutable value; each operation returns the next state.
 The class in module `Objects` wraps these functions in a mutable object.
 */
module Chain {
  import opened Blocks

  /** `b` may follow `prev`: it points at `prev`'s hash and its own hash is intact. */
  predicate ValidLink(f: BlockFactory, prev: Block, b: Block)
  {
    b.lastHash == prev.hash && b.hash == BlockHash(f, b)
  }

  /**
   What it means for a candidate chain to be acceptable: it starts with a block
   structurally equal to genesis, and every later block links to its
   predecessor and carries its recomputed hash. The genesis block's own hash is
   not checked.
   */
  predicate ValidChain(f: BlockFactory, chain: seq<Block>)
  {
    && |chain| > 0
    && chain[0] == f.genesis
    && forall i :: 1 <= i < |chain| ==> ValidLink(f, chain[i - 1], chain[i])
  }

  /**
   The validation loop: reject when the first block is missing or differs from
   genesis, then scan the pairs in order and stop at the first broken link or
   stale hash.
   */
  method IsValidChain(f: BlockFactory, chain: seq<Block>) returns (ok: bool)
    ensures ok <==> ValidChain(f, chain)
    ensures |chain| == 0 ==> !ok
    ensures ok ==> chain[0] == f.genesis
  {
    if |chain| == 0 || chain[0] != f.genesis {
      return false;
    }
    var i := 1;
    while i < |chain|
      invariant 1 <= i <= |chain|
      invariant forall j :: 1 <= j < i ==> ValidLink(f, chain[j - 1], chain[j])
    {
      var block := chain[i];
      var lastBlock := chain[i - 1];
      if block.lastHash != lastBlock.hash || block.hash != BlockHash(f, block) {
        return false;
      }
      i := i + 1;
    }
    return true;
  }

  /** A chain is rejected as soon as one non-genesis block breaks its link or its hash. */
  lemma BrokenLinkInvalid(f: BlockFactory, chain: seq<Block>, i: nat)
    requires 1 <= i < |chain|
    requires chain[i].lastHash != chain[i - 1].hash || chain[i].hash != BlockHash(f, chain[i])
    ensures !ValidChain(f, chain)
  {
  }

  /** Validity of a chain extended by one block is validity of the chain plus one link. */
  lemma ValidChainSnoc(f: BlockFactory, chain: seq<Block>, b: Block)
    requires |chain| > 0
    ensures ValidChain(f, chain + [b]) <==> ValidChain(f, chain) && ValidLink(f, chain[|chain| - 1], b)
  {
    var ext := chain + [b];
    assert forall i :: 0 <= i < |chain| ==> ext[i] == chain[i];
    if ValidChain(f, ext) {
      forall i | 1 <= i < |chain|
        ensures ValidLink(f, chain[i - 1], chain[i])
      {
        assert ValidLink(f, ext[i - 1], ext[i]);
      }
      assert ValidLink(f, ext[|chain| - 1], ext[|chain|]);
    }
  }

  /** Every non-empty prefix of a valid chain is itself valid. */
  lemma ValidChainPrefix(f: BlockFactory, chain: seq<Block>, k: nat)
    requires ValidChain(f, chain)
    requires 0 < k <= |chain|
    ensures ValidChain(f, chain[..k])
  {
    var pre := chain[..k];
    forall i | 1 <= i < k
      ensures ValidLink(f, pre[i - 1], pre[i])
    {
      assert pre[i - 1] == chain[i - 1] && pre[i] == chain[i];
    }
  }

  /**
   Substituting the non-genesis block at `i` of a valid chain keeps the chain
   valid exactly when the substitute links to its predecessor, carries its own
   recomputed hash, and has the hash its successor (if any) points at.
   */
  lemma ReplaceBlockValid(f: BlockFactory, chain: seq<Block>, i: nat, b: Block)
    requires ValidChain(f, chain)
    requires 1 <= i < |chain|
    ensures ValidChain(f, chain[i := b]) <==>
              ValidLink(f, chain[i - 1], b) && (i + 1 < |chain| ==> chain[i + 1].lastHash == b.hash)
  {
    var edited := chain[i := b];
    if ValidChain(f, edited) {
      assert ValidLink(f, edited[i - 1], edited[i]);
      if i + 1 < |chain| {
        assert ValidLink(f, edited[i], edited[i + 1]);
      }
    }
    if ValidLink(f, chain[i - 1], b) && (i + 1 < |chain| ==> chain[i + 1].lastHash == b.hash) {
      forall j | 1 <= j < |edited|
        ensures ValidLink(f, edited[j - 1], edited[j])
      {
        if j != i {
          assert ValidLink(f, chain[j - 1], chain[j]);
        }
      }
    }
  }

  /**
   Tampering: with a collision-free digest, replacing a non-genesis block of a
   valid chain by any different block that keeps the stored hash is rejected.
   */
  lemma TamperDetected(f: BlockFactory, chain: seq<Block>, i: nat, b: Block)
    requires CollisionFree(f)
    requires ValidChain(f, chain)
    requires 1 <= i < |chain|
    requires b != chain[i] && b.hash == chain[i].hash
    ensures !ValidChain(f, chain[i := b])
  {
    assert ValidLink(f, chain[i - 1], chain[i]);
    assert !SameContent(b, chain[i]);
    assert BlockHash(f, b) != BlockHash(f, chain[i]);
    ReplaceBlockValid(f, chain, i, b);
  }

  /**
   Reordering: swapping two adjacent non-genesis blocks of a valid chain yields
   a valid chain only if those two blocks and their predecessor share one hash.
   */
  lemma SwapDetected(f: BlockFactory, chain: seq<Block>, i: nat)
    requires ValidChain(f, chain)
    requires 1 <= i && i + 1 < |chain|
    ensures ValidChain(f, chain[i := chain[i + 1]][i + 1 := chain[i]]) ==>
              chain[i - 1].hash == chain[i].hash == chain[i + 1].hash
  {
    var swapped := chain[i := chain[i + 1]][i + 1 := chain[i]];
    if ValidChain(f, swapped) {
      assert ValidLink(f, chain[i - 1], chain[i]);
      assert ValidLink(f, chain[i], chain[i + 1]);
      assert ValidLink(f, swapped[i - 1], swapped[i]);
      assert ValidLink(f, swapped[i], swapped[i + 1]);
    }
  }

  /**
   With a collision-free digest, swapping two adjacent non-genesis blocks of a
   valid chain keeps it valid only when the two blocks are identical, so that
   the swap changes nothing.
   */
  lemma SwapOnlyOfEqualBlocks(f: BlockFactory, chain: seq<Block>, i: nat)
    requires CollisionFree(f)
    requires ValidChain(f, chain)
    requires 1 <= i && i + 1 < |chain|
    ensures ValidChain(f, chain[i := chain[i + 1]][i + 1 := chain[i]]) ==> chain[i] == chain[i + 1]
  {
    if ValidChain(f, chain[i := chain[i + 1]][i + 1 := chain[i]]) {
      SwapDetected(f, chain, i);
      assert ValidLink(f, chain[i - 1], chain[i]);
      assert ValidLink(f, chain[i], chain[i + 1]);
      assert SameContent(chain[i], chain[i + 1]);
    }
  }

  /** The state of the ledger: its current chain. */
  datatype Ledger = Ledger(chain: seq<Block>)

  /** How a replacement request ended. */
  datatype Outcome = Accepted | TooShort | Invalid

  /** A new ledger holds the genesis block and nothing else, and is valid. */
  function New(f: BlockFactory): (l: Ledger)
    ensures l.chain == [f.genesis]
    ensures |l.chain| == 1
    ensures ValidChain(f, l.chain)
  {
    Ledger([f.genesis])
  }

  /**
   Mines a block on top of the current tail and appends it; returns the new
   ledger together with the new block.
   */
  function AddBlock(f: BlockFactory, l: Ledger, data: Data, time: Timestamp): (r: (Ledger, Block))
    requires |l.chain| > 0
    ensures |r.0.chain| == |l.chain| + 1
    ensures r.0.chain[..|l.chain|] == l.chain
    ensures r.0.chain[|l.chain|] == r.1
    ensures r.1 == MineBlock(f, l.chain[|l.chain| - 1], data, time)
    ensures r.1.lastHash == l.chain[|l.chain| - 1].hash
    ensures ValidChain(f, r.0.chain) <==> ValidChain(f, l.chain)
  {
    var lastBlock := l.chain[|l.chain| - 1];
    var block := MineBlock(f, lastBlock, data, time);
    ValidChainSnoc(f, l.chain, block);
    assert (l.chain + [block])[..|l.chain|] == l.chain;
    (Ledger(l.chain + [block]), block)
  }

  /**
   Fork choice. A candidate no longer than the current chain is refused as too
   short whatever its content; a longer one that fails validation is refused as
   invalid; otherwise the candidate replaces the chain wholesale.
   */
  function ReplaceChain(f: BlockFactory, l: Ledger, newChain: seq<Block>): (r: (Ledger, Outcome))
    ensures |newChain| <= |l.chain| ==> r == (l, TooShort)
    ensures |newChain| > |l.chain| && !ValidChain(f, newChain) ==> r == (l, Invalid)
    ensures r.1 == Accepted <==> |newChain| > |l.chain| && ValidChain(f, newChain)
    ensures r.1 == Accepted ==> r.0.chain == newChain
    ensures r.0 == l || r.0.chain == newChain
    ensures |r.0.chain| >= |l.chain|
    ensures ValidChain(f, l.chain) ==> ValidChain(f, r.0.chain)
  {
    if |newChain| <= |l.chain| then
      (l, TooShort)
    else if !ValidChain(f, newChain) then
      (l, Invalid)
    else
      (Ledger(newChain), Accepted)
  }

  /** Presenting the same candidate twice: the second request leaves the ledger as the first left it. */
  lemma ReplaceChainIdempotent(f: BlockFactory, l: Ledger, newChain: seq<Block>)
    ensures var once := ReplaceChain(f, l, newChain).0;
            ReplaceChain(f, once, newChain).0 == once
  {
  }
}
