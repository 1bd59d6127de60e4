/** The `Blockchain` class of blockchain.py: the committed chain of blocks
    and the pending transactions (the mempool), with the operations that
    append to each and the proof-of-work search. */
module Ledger {
  import opened Records
  import opened Hashing

  /** Every transaction mined into `chain`, block by block, in order. */
  function Committed(chain: seq<Block>): seq<Transaction> {
    if chain == [] then [] else chain[0].transactions + Committed(chain[1..])
  }

  /** Appending a block appends its transactions to the committed ones. */
  lemma {:induction false} CommittedAppend(chain: seq<Block>, b: Block)
    ensures Committed(chain + [b]) == Committed(chain) + b.transactions
  {
    if chain == [] {
      assert chain + [b] == [b];
      assert Committed([b]) == b.transactions + Committed([]);
    } else {
      assert (chain + [b])[1..] == chain[1..] + [b];
      CommittedAppend(chain[1..], b);
    }
  }

  /** The block at position i carries the 1-based index i + 1. */
  predicate Indexed(chain: seq<Block>) {
    forall i :: 0 <= i < |chain| ==> chain[i].index == i + 1
  }

  /** The block built by the constructor. */
  predicate IsGenesis(b: Block) {
    && b.index == 1
    && b.transactions == []
    && b.proof == 100
    && b.previousHash == Sentinel(1)
  }

  /** Every block after the first names the digest of its predecessor. */
  predicate Linked(h: Primitives, chain: seq<Block>) {
    forall i :: 1 <= i < |chain| ==> chain[i].previousHash == Digest(BlockHash(h, chain[i - 1]))
  }

  /** In an indexed, linked chain, a block with index k > 1 names the
      digest of the block with index k - 1. */
  lemma LinkedByIndex(h: Primitives, chain: seq<Block>, b: Block)
    requires Indexed(chain) && Linked(h, chain)
    requires b in chain && b.index > 1
    ensures b.previousHash == Digest(BlockHash(h, chain[b.index - 2]))
  {
  }

  class Blockchain {
    /** `self.chain` */
    var chain: seq<Block>
    /** `self.current_transactions` */
    var currentTransactions: seq<Transaction>
    /** The foreign SHA-256 and JSON primitives used by `hash` and `valid_proof`. */
    const hashing: Primitives

    /** The chain is never empty, starts with the genesis block, and block
        i carries index i + 1. */
    ghost predicate Valid()
      reads this
    {
      && |chain| > 0
      && IsGenesis(chain[0])
      && Indexed(chain)
    }

    /** Every transaction the ledger holds, mined or pending, in arrival order. */
    ghost function AllTransactions(): seq<Transaction>
      reads this
    {
      Committed(chain) + currentTransactions
    }

    ghost predicate ChainLinked()
      reads this
    {
      Linked(hashing, chain)
    }

    /** `__init__`: an empty chain and mempool, then `new_block(previous_hash=1,
        proof=100)` builds the genesis block. */
    constructor (hashing: Primitives, timestamp: real)
      ensures Valid() && ChainLinked()
      ensures chain == [Block(1, timestamp, [], 100, Sentinel(1))]
      ensures currentTransactions == [] && AllTransactions() == []
      ensures this.hashing == hashing
    {
      this.hashing := hashing;
      chain := [];
      currentTransactions := [];
      new;
      var _ := NewBlock(100, Some(Sentinel(1)), timestamp);
    }

    /** `last_block`: the most recent block, whose index is the chain length. */
    function LastBlock(): (b: Block)
      reads this
      requires chain != []
      ensures b == chain[|chain| - 1]
      ensures Indexed(chain) ==> b.index == |chain|
    {
      chain[|chain| - 1]
    }

    /** `new_transaction`: queue one transfer and report the index of the
        block that will hold it. */
    method NewTransaction(sender: string, recipient: string, amount: int) returns (index: int)
      requires Valid()
      modifies this
      ensures Valid() && chain == old(chain)
      ensures currentTransactions == old(currentTransactions) + [Transaction(sender, recipient, amount)]
      ensures AllTransactions() == old(AllTransactions()) + [Transaction(sender, recipient, amount)]
      ensures index == |chain| + 1
    {
      currentTransactions := currentTransactions + [Transaction(sender, recipient, amount)];
      index := LastBlock().index + 1;
    }

    /** `new_block`: seal the mempool into a block linked to the last one,
        append it and empty the mempool. A falsy `previous_hash` (absent, 0
        or "") is replaced by the digest of the last block, which therefore
        must exist. */
    method NewBlock(proof: int, previousHash: Option<PrevHash>, timestamp: real) returns (block: Block)
      requires Indexed(chain)
      requires chain != [] || Supplied(previousHash)
      modifies this
      ensures block.index == |old(chain)| + 1
      ensures block.timestamp == timestamp && block.proof == proof
      ensures block.transactions == old(currentTransactions)
      ensures Supplied(previousHash) ==> block.previousHash == previousHash.value
      ensures !Supplied(previousHash) ==>
                block.previousHash == Digest(BlockHash(hashing, old(LastBlock())))
      ensures chain == old(chain) + [block] && LastBlock() == block
      ensures currentTransactions == []
      ensures AllTransactions() == old(AllTransactions())
      ensures Indexed(chain) && (old(Valid()) ==> Valid())
      ensures old(ChainLinked())
              && (old(chain) != [] && Supplied(previousHash) ==>
                    previousHash.value == Digest(BlockHash(hashing, old(LastBlock()))))
              ==> ChainLinked()
    {
      var prev := if Supplied(previousHash) then previousHash.value
                  else Digest(BlockHash(hashing, LastBlock()));
      block := Block(|chain| + 1, timestamp, currentTransactions, proof, prev);
      currentTransactions := [];
      CommittedAppend(chain, block);
      chain := chain + [block];
    }

    /** `proof_of_work`: count up from 0 until `valid_proof` accepts. The
        loop ends exactly when some non-negative proof is valid. */
    method ProofOfWork(lastProof: int) returns (proof: nat)
      requires Solvable(hashing, lastProof)
      ensures ValidProof(hashing, lastProof, proof)
      ensures forall q :: 0 <= q < proof ==> !ValidProof(hashing, lastProof, q)
    {
      ghost var bound: nat :| ValidProof(hashing, lastProof, bound);
      proof := 0;
      while !ValidProof(hashing, lastProof, proof)
        invariant proof <= bound
        invariant forall q :: 0 <= q < proof ==> !ValidProof(hashing, lastProof, q)
        decreases bound - proof
      {
        proof := proof + 1;
      }
    }
  }
}
