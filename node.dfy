/** The `/mine` sequence of app.py, as a client of the ledger: search for
    the next proof, queue the reward transaction, then seal a block linked
    to the previous one. */
module Node {
  import opened Records
  import opened Hashing
  import opened Ledger

  /** The reward: one coin from the pseudo-sender "0" to this node. */
  function Reward(nodeIdentifier: string): Transaction {
    Transaction("0", nodeIdentifier, 1)
  }

  method Mine(bc: Blockchain, nodeIdentifier: string, timestamp: real) returns (block: Block)
    requires bc.Valid()
    requires Solvable(bc.hashing, bc.LastBlock().proof)
    modifies bc
    ensures bc.Valid() && bc.chain == old(bc.chain) + [block]
    ensures block.index == |old(bc.chain)| + 1 && block.timestamp == timestamp
    ensures block.proof >= 0 && ValidProof(bc.hashing, old(bc.LastBlock()).proof, block.proof)
    ensures forall q :: 0 <= q < block.proof ==> !ValidProof(bc.hashing, old(bc.LastBlock()).proof, q)
    ensures block.previousHash == Digest(BlockHash(bc.hashing, old(bc.LastBlock())))
    ensures block.transactions == old(bc.currentTransactions) + [Reward(nodeIdentifier)]
    ensures bc.currentTransactions == []
    ensures bc.AllTransactions() == old(bc.AllTransactions()) + [Reward(nodeIdentifier)]
    ensures old(bc.ChainLinked()) ==> bc.ChainLinked()
  {
    var lastBlock := bc.LastBlock();
    var proof := bc.ProofOfWork(lastBlock.proof);
    var _ := bc.NewTransaction("0", nodeIdentifier, 1);
    var previousHash := BlockHash(bc.hashing, lastBlock);
    block := bc.NewBlock(proof, Some(Digest(previousHash)), timestamp);
  }
}
