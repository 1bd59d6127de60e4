/** The records the ledger stores: the `{sender, recipient, amount}`
    transaction dictionaries and the five-field block dictionaries of
    blockchain.py. */
module Records {

  datatype Option<T> = None | Some(value: T)

  /** One pending or mined transfer. */
  datatype Transaction = Transaction(sender: string, recipient: string, amount: int)

  /** The `previous_hash` field: the genesis block stores the integer 1,
      every mined block the hex digest of its predecessor. */
  datatype PrevHash = Sentinel(n: int) | Digest(hex: string)

  /** One block. `timestamp` is the value of `time()` at creation. */
  datatype Block = Block(
    index: int,
    timestamp: real,
    transactions: seq<Transaction>,
    proof: int,
    previousHash: PrevHash)

  /** Python truthiness of a supplied `previous_hash`: the integer 0 and the
      empty string are false, every other value of these two kinds is true. */
  predicate Truthy(p: PrevHash) {
    match p
    case Sentinel(n) => n != 0
    case Digest(hex) => hex != ""
  }

  /** Truthiness of the optional argument, where `None` is Python's `None`. */
  predicate Supplied(p: Option<PrevHash>): (ok: bool)
    ensures ok <==> p != None && p != Some(Sentinel(0)) && p != Some(Digest(""))
  {
    p.Some? && Truthy(p.value)
  }
}
