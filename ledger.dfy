/** The `Blockchain` object of dev/blockchain.js: the chain of sealed blocks,
    the pool of pending transactions, this node's address and its peer list.
    `Date.now()` and `uuid()` are passed in as parameters. */
module Ledger {
  import opened Types
  import Ids

  const GenesisNonce := Number(100)
  const GenesisHash := "0"
  const GenesisPreviousHash := "0"

  /** The fixed first block (its timestamp aside). */
  predicate IsGenesis(b: Block)
  {
    b.index == 1 && b.nonce == GenesisNonce && b.previousBlockHash == GenesisPreviousHash &&
    b.hash == GenesisHash && b.transactions == []
  }

  /** Every block's index is its position plus one. */
  predicate WellIndexed(chain: seq<Block>)
  {
    forall i :: 0 <= i < |chain| ==> chain[i].index == i + 1
  }

  class Blockchain {
    var chain: seq<Block>
    var pendingTransactions: seq<Transaction>
    const currentNodeUrl: Option<string>
    var networkNodes: seq<Option<string>>

    /** Every reachable state: the chain starts with the genesis block and is
        numbered from 1. */
    ghost predicate Valid()
      reads this`chain
    {
      |chain| > 0 && IsGenesis(chain[0]) && WellIndexed(chain)
    }

    /** `new Blockchain()`: empty pool and peer list, and the genesis block
        sealed through createNewBlock(100, '0', '0'). */
    constructor (currentNodeUrl: Option<string>, now: int)
      ensures Valid()
      ensures chain == [Block(1, now, [], GenesisNonce, GenesisHash, GenesisPreviousHash)]
      ensures pendingTransactions == [] && networkNodes == []
      ensures this.currentNodeUrl == currentNodeUrl
    {
      chain := [];
      pendingTransactions := [];
      this.currentNodeUrl := currentNodeUrl;
      networkNodes := [];
      new;
      var genesis := CreateNewBlock(GenesisNonce, GenesisPreviousHash, GenesisHash, now);
    }

    /** createNewBlock(nonce, previousBlockHash, hash): seals the whole pool into
        a block numbered after the chain's length, appends it and empties the
        pool. The nonce and both hashes are stored as given, unchecked. */
    method CreateNewBlock(nonce: Value, previousBlockHash: string, hash: string, now: int)
      returns (newBlock: Block)
      modifies this`chain, this`pendingTransactions
      ensures newBlock == Block(|old(chain)| + 1, now, old(pendingTransactions), nonce, hash, previousBlockHash)
      ensures chain == old(chain) + [newBlock]
      ensures pendingTransactions == []
      ensures WellIndexed(old(chain)) ==> WellIndexed(chain)
      ensures old(Valid()) ==> Valid() && GetLastBlock() == newBlock
    {
      newBlock := Block(|chain| + 1, now, pendingTransactions, nonce, hash, previousBlockHash);
      pendingTransactions := [];
      chain := chain + [newBlock];
    }

    /** getLastBlock(): defined in every reachable state; the head of the chain,
        whose index is the chain's length. */
    function GetLastBlock(): (last: Block)
      reads this`chain
      requires Valid()
      ensures last in chain && last.index == |chain|
      ensures |chain| == 1 ==> IsGenesis(last)
    {
      chain[|chain| - 1]
    }

    /** createNewTransaction(amount, sender, recipient): appends the new
        transaction to the pool and returns it (not a block index). */
    method CreateNewTransaction(amount: Amount, sender: string, recipient: string, uuid: string)
      returns (newTransaction: Transaction)
      modifies this`pendingTransactions
      ensures newTransaction == Transaction(amount, sender, recipient, Ids.Undashed(uuid))
      ensures '-' !in newTransaction.transactionId
      ensures pendingTransactions == old(pendingTransactions) + [newTransaction]
    {
      newTransaction := Transaction(amount, sender, recipient, Ids.Undashed(uuid));
      pendingTransactions := pendingTransactions + [newTransaction];
    }
  }
}
