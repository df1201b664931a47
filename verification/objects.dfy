/**
 The ledger as a mutable object whose field `chain` is reassigned by each
 call, delegating every decision to the functions of module `Chain`.
 */
module Objects {
  import opened Blocks
  import opened Chain

  class BlockChain {
    const factory: BlockFactory
    var chain: seq<Block>

    /** The object's invariant: its chain is valid. */
    ghost predicate Valid()
      reads this
    {
      ValidChain(factory, chain)
    }

    constructor(f: BlockFactory)
      ensures factory == f
      ensures chain == [f.genesis]
      ensures Valid()
    {
      factory := f;
      chain := New(f).chain;
    }

    /** Appends a block mined on the current tail and returns it. */
    method AddBlock(data: Data, time: Timestamp) returns (block: Block)
      requires Valid()
      modifies this
      ensures Valid()
      ensures chain == old(chain) + [block]
      ensures block == MineBlock(factory, old(chain)[|old(chain)| - 1], data, time)
    {
      var next := Chain.AddBlock(factory, Ledger(chain), data, time);
      chain := next.0.chain;
      block := next.1;
    }

    /**
     Offers a candidate chain: the length guard first, then the validation loop,
     then the wholesale swap.
     */
    method ReplaceChain(newChain: seq<Block>) returns (outcome: Outcome)
      requires Valid()
      modifies this
      ensures Valid()
      ensures (Ledger(chain), outcome) == Chain.ReplaceChain(factory, Ledger(old(chain)), newChain)
    {
      if |newChain| <= |chain| {
        return TooShort;
      }
      var ok := IsValidChain(factory, newChain);
      if !ok {
        return Invalid;
      }
      chain := newChain;
      return Accepted;
    }
  }
}
