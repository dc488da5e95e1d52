/** Runs of the ledger as its clients drive it: the script of dev/reserved.js
    and a mining round from a fresh node. */
module Scenarios {
  import opened Types
  import Ids
  import Hashing
  import opened Ledger
  import NetworkNode

  /** dev/reserved.js: construct, seal an empty block, record one transaction,
      seal again. Blocks are numbered 1, 2, 3; the second is empty, the third
      holds exactly the transaction, and the pool ends empty. */
  method ReservedScript(currentNodeUrl: Option<string>, t0: int, t1: int, t2: int, uuid: string)
    returns (chain: seq<Block>, pending: seq<Transaction>)
    ensures |chain| == 3 && WellIndexed(chain) && IsGenesis(chain[0])
    ensures chain[1] == Block(2, t1, [], Number(1), "1", "1")
    ensures chain[2].transactions
         == [Transaction(Amount("20"), "John#hashed", "Jill#hashed", Ids.Undashed(uuid))]
    ensures chain[2].nonce == Number(2) && chain[2].hash == "2" && chain[2].previousBlockHash == "2"
    ensures pending == []
  {
    var bitcoin := new Blockchain(currentNodeUrl, t0);
    var b2 := bitcoin.CreateNewBlock(Number(1), "1", "1", t1);
    var tx := bitcoin.CreateNewTransaction(Amount("20"), "John#hashed", "Jill#hashed", uuid);
    var b3 := bitcoin.CreateNewBlock(Number(2), "2", "2", t2);
    chain, pending := bitcoin.chain, bitcoin.pendingTransactions;
  }

  /** A fresh node records one transaction and mines: block 2 links to the
      genesis hash "0", holds the transaction followed by the reward, carries
      the stub's undefined nonce, and the pool ends empty. */
  method MineAfterOneTransaction(lib: Hashing.HashLib, nodeAddress: string, txUuid: string,
                                 rewardUuid: string, t0: int, t1: int)
    returns (chain: seq<Block>, pending: seq<Transaction>)
    ensures |chain| == 2 && IsGenesis(chain[0])
    ensures chain[1].index == 2 && chain[1].previousBlockHash == "0" && chain[1].nonce == Undefined
    ensures chain[1].transactions == [
              Transaction(Amount("20"), "A", "B", Ids.Undashed(txUuid)),
              Transaction(Amount("12.5"), "00", nodeAddress, Ids.Undashed(rewardUuid))]
    ensures chain[1].hash == lib.sha256("0[object Object]undefined")
    ensures pending == []
  {
    var bitcoin := new Blockchain(None, t0);
    var tx := bitcoin.CreateNewTransaction(Amount("20"), "A", "B", txUuid);
    ghost var genesis := bitcoin.chain[0];
    ghost var pool := bitcoin.pendingTransactions;
    assert pool == [tx];
    var block := NetworkNode.Mine(bitcoin, lib, nodeAddress, rewardUuid, t1);
    assert bitcoin.chain == [genesis, block];
    assert block.transactions == [tx, NetworkNode.RewardTransaction(nodeAddress, rewardUuid)];
    MinedTextOnGenesis();
    chain, pending := bitcoin.chain, bitcoin.pendingTransactions;
  }

  /** The text the /mine call hashes on top of the genesis block. */
  lemma MinedTextOnGenesis()
    ensures GenesisHash + Hashing.ObjectText + Hashing.UndefinedText == "0[object Object]undefined"
  {
  }
}
