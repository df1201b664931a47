/**
 Histories of a ledger: every state a ledger can reach from its constructor by
 a sequence of appends and replacement requests, and what stays true along the
 way.
 */
module History {
  import opened Blocks
  import opened Chain

  /** One call on the ledger: append locally mined data, or offer a candidate chain. */
  datatype Op = Append(data: Data, time: Timestamp) | Replace(candidate: seq<Block>)

  /** The state after one call. */
  function Step(f: BlockFactory, l: Ledger, op: Op): (r: Ledger)
    requires |l.chain| > 0
    ensures ValidChain(f, l.chain) ==> ValidChain(f, r.chain)
    ensures |r.chain| >= |l.chain|
    ensures op.Append? ==> |r.chain| == |l.chain| + 1
  {
    match op
    case Append(data, time) => AddBlock(f, l, data, time).0
    case Replace(candidate) => ReplaceChain(f, l, candidate).0
  }

  /**
   The state reached from a fresh ledger by the calls in `ops`, in order. The
   ledger never produces an invalid chain: whatever the appends and whatever
   candidates are offered, the chain stays valid and starts with genesis.
   */
  function Run(f: BlockFactory, ops: seq<Op>): (l: Ledger)
    ensures ValidChain(f, l.chain)
    ensures l.chain[0] == f.genesis
    decreases |ops|
  {
    if |ops| == 0 then New(f)
    else Step(f, Run(f, ops[..|ops| - 1]), ops[|ops| - 1])
  }

  /** The chain never gets shorter: a later state is at least as long as an earlier one. */
  lemma {:induction false} RunLengthMonotone(f: BlockFactory, ops: seq<Op>, k: nat)
    requires k <= |ops|
    ensures |Run(f, ops[..k]).chain| <= |Run(f, ops).chain|
    decreases |ops| - k
  {
    if k < |ops| {
      var n := |ops| - 1;
      assert ops[..n][..k] == ops[..k];
      RunLengthMonotone(f, ops[..n], k);
      assert ops[..|ops|] == ops;
    } else {
      assert ops[..k] == ops;
    }
  }

  /** With appends only, the chain grows by exactly one block per call. */
  lemma {:induction false} RunAppendsLength(f: BlockFactory, ops: seq<Op>)
    requires forall i :: 0 <= i < |ops| ==> ops[i].Append?
    ensures |Run(f, ops).chain| == |ops| + 1
    decreases |ops|
  {
    if |ops| > 0 {
      var n := |ops| - 1;
      RunAppendsLength(f, ops[..n]);
    }
  }

  /**
   A fresh ledger with one appended block keeps its chain when offered a
   correctly built rival chain of the same length: equal length is not enough.
   */
  lemma EqualLengthRivalRefused(f: BlockFactory, a: Data, z: Data, t1: Timestamp, t2: Timestamp)
    ensures var l := AddBlock(f, New(f), a, t1).0;
            var rival := [f.genesis, MineBlock(f, f.genesis, z, t2)];
            ValidChain(f, rival) && ReplaceChain(f, l, rival) == (l, TooShort)
  {
    var rival := [f.genesis, MineBlock(f, f.genesis, z, t2)];
    ValidChainSnoc(f, [f.genesis], rival[1]);
    assert [f.genesis] + [rival[1]] == rival;
  }

  /** The same rival chain extended by one more mined block is adopted in full. */
  lemma LongerRivalAdopted(f: BlockFactory, a: Data, z: Data, y: Data, t1: Timestamp, t2: Timestamp, t3: Timestamp)
    ensures var l := AddBlock(f, New(f), a, t1).0;
            var x := MineBlock(f, f.genesis, z, t2);
            var rival := [f.genesis, x, MineBlock(f, x, y, t3)];
            ReplaceChain(f, l, rival) == (Ledger(rival), Accepted)
  {
    var x := MineBlock(f, f.genesis, z, t2);
    var rival := [f.genesis, x, MineBlock(f, x, y, t3)];
    ValidChainSnoc(f, [f.genesis], x);
    assert [f.genesis] + [x] == rival[..2];
    ValidChainSnoc(f, rival[..2], rival[2]);
    assert rival[..2] + [rival[2]] == rival;
  }
}
