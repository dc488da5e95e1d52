/** The values the ledger stores: transactions, blocks, and the few JavaScript
    values that flow through the untyped parameters of the ledger's functions. */
module Types {

  /** JavaScript's `undefined` (None) or a defined value (Some). Used for peer
      addresses, which come from a request body or the command line and may be
      absent. */
  datatype Option<T> = None | Some(value: T)

  /** An amount is carried verbatim as the numeric literal it was sent as;
      the ledger does no arithmetic on amounts. */
  datatype Amount = Amount(literal: string)

  /** `{amount, sender, recipient, transactionId}` built by createNewTransaction. */
  datatype Transaction = Transaction(
    amount: Amount,
    sender: string,
    recipient: string,
    transactionId: string)

  /** `{transactions, index}`: the block data the /mine handler prepares for hashing. */
  datatype BlockData = BlockData(transactions: seq<Transaction>, index: int)

  /** The JavaScript values that reach the untyped `nonce` slot of a block and
      the two untyped slots of hashBlock: `undefined` (the stub proofOfWork's
      result), an integer, or a block-data object literal. */
  datatype Value = Undefined | Number(n: int) | Record(data: BlockData)

  /** `{index, timestamp, transactions, nonce, hash, previousBlockHash}` built by
      createNewBlock. The timestamp is `Date.now()` at sealing time. */
  datatype Block = Block(
    index: int,
    timestamp: int,
    transactions: seq<Transaction>,
    nonce: Value,
    hash: string,
    previousBlockHash: string)
}
