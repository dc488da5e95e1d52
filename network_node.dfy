/** The state-changing handler bodies of dev/networkNode.js, acting on the
    node's one Blockchain object. Routing, responses and the broadcasts to
    peers are not modelled; `Date.now()`, `uuid()` and the node's reward
    address are parameters. */
module NetworkNode {
  import opened Types
  import Ids
  import Hashing
  import Peers
  import opened Ledger

  /** The miner reward: 12.5 from the reserved sender '00'. */
  const RewardAmount := Amount("12.5")
  const RewardSender := "00"

  /** `createNewTransaction(12.5, '00', nodeAddress)`: the reward is paid from
      the reserved sender to this node, under a dash-free id. */
  function RewardTransaction(nodeAddress: string, uuid: string): (t: Transaction)
    ensures t.amount == Amount("12.5") && t.sender == "00" && t.recipient == nodeAddress
    ensures '-' !in t.transactionId && |t.transactionId| == |uuid| - Ids.DashCount(uuid)
  {
    Transaction(RewardAmount, RewardSender, nodeAddress, Ids.Undashed(uuid))
  }

  /** GET /mine as written: read the head, build the block data, take the
      stub's nonce, hash with the arguments in the call site's order (block data
      in the nonce slot, nonce in the data slot), push the reward, seal. */
  method Mine(bitcoin: Blockchain, lib: Hashing.HashLib, nodeAddress: string, rewardUuid: string, now: int)
    returns (newBlock: Block)
    requires bitcoin.Valid()
    modifies bitcoin`chain, bitcoin`pendingTransactions
    ensures bitcoin.Valid()
    ensures bitcoin.chain == old(bitcoin.chain) + [newBlock]
    ensures bitcoin.pendingTransactions == []
    ensures newBlock.index == |old(bitcoin.chain)| + 1 == old(bitcoin.GetLastBlock()).index + 1
    ensures newBlock.previousBlockHash == old(bitcoin.GetLastBlock()).hash
    ensures newBlock.transactions
         == old(bitcoin.pendingTransactions) + [RewardTransaction(nodeAddress, rewardUuid)]
    ensures newBlock.nonce == Hashing.ProofOfWork() == Undefined
    ensures Hashing.Hashed(newBlock.hash)
         == Hashing.HashBlock(lib, newBlock.previousBlockHash,
                              Record(BlockData(old(bitcoin.pendingTransactions), newBlock.index)),
                              Hashing.ProofOfWork())
    ensures newBlock.hash == lib.sha256(newBlock.previousBlockHash + Hashing.ObjectText + Hashing.UndefinedText)
    ensures newBlock.timestamp == now
  {
    var lastBlock := bitcoin.GetLastBlock();
    var previousBlockHash := lastBlock.hash;
    var currentBlockData := BlockData(bitcoin.pendingTransactions, lastBlock.index + 1);
    var nonce := Hashing.ProofOfWork();
    var hashed := Hashing.HashBlock(lib, previousBlockHash, Record(currentBlockData), nonce);
    var blockHash := hashed.digest;
    var reward := bitcoin.CreateNewTransaction(RewardAmount, RewardSender, nodeAddress, rewardUuid);
    newBlock := bitcoin.CreateNewBlock(nonce, previousBlockHash, blockHash, now);
  }

  /** GET /mine as evidently intended: a nonce (which a real proofOfWork would
      search for) is hashed in the nonce slot and the block data in the data
      slot, so the stored hash is taken over the block data the block is
      sealed with, the reward excepted. */
  method MineIntended(bitcoin: Blockchain, lib: Hashing.HashLib, nonce: int,
                      nodeAddress: string, rewardUuid: string, now: int)
    returns (newBlock: Block)
    requires bitcoin.Valid()
    modifies bitcoin`chain, bitcoin`pendingTransactions
    ensures bitcoin.Valid()
    ensures bitcoin.chain == old(bitcoin.chain) + [newBlock]
    ensures bitcoin.pendingTransactions == []
    ensures newBlock.index == |old(bitcoin.chain)| + 1
    ensures newBlock.previousBlockHash == old(bitcoin.GetLastBlock()).hash
    ensures newBlock.transactions
         == old(bitcoin.pendingTransactions) + [RewardTransaction(nodeAddress, rewardUuid)]
    ensures newBlock.nonce == Number(nonce)
    ensures newBlock.hash == lib.sha256(
              Hashing.HashInput(lib, newBlock.previousBlockHash, Number(nonce),
                                Record(BlockData(old(bitcoin.pendingTransactions), newBlock.index))).value)
    ensures newBlock.timestamp == now
  {
    var lastBlock := bitcoin.GetLastBlock();
    var previousBlockHash := lastBlock.hash;
    var currentBlockData := BlockData(bitcoin.pendingTransactions, lastBlock.index + 1);
    var hashed := Hashing.HashBlock(lib, previousBlockHash, Number(nonce), Record(currentBlockData));
    var blockHash := hashed.digest;
    var reward := bitcoin.CreateNewTransaction(RewardAmount, RewardSender, nodeAddress, rewardUuid);
    newBlock := bitcoin.CreateNewBlock(Number(nonce), previousBlockHash, blockHash, now);
  }

  /** The local part of POST /register-and-broadcast-node. */
  method RegisterAndBroadcastNode(bitcoin: Blockchain, newNodeUrl: Option<string>)
    modifies bitcoin`networkNodes
    ensures bitcoin.networkNodes == Peers.RegisterAndBroadcast(old(bitcoin.networkNodes), newNodeUrl)
  {
    if Peers.NodeNotAlreadyPresent(bitcoin.networkNodes, None) {
      bitcoin.networkNodes := bitcoin.networkNodes + [newNodeUrl];
    }
  }

  /** POST /register-node. */
  method RegisterNode(bitcoin: Blockchain, newNodeUrl: Option<string>)
    modifies bitcoin`networkNodes
    ensures bitcoin.networkNodes == Peers.RegisterNode(old(bitcoin.networkNodes), bitcoin.currentNodeUrl, newNodeUrl)
  {
    if Peers.NodeNotAlreadyPresent(bitcoin.networkNodes, None) && Peers.NotCurrentNode(bitcoin.currentNodeUrl, None) {
      bitcoin.networkNodes := bitcoin.networkNodes + [newNodeUrl];
    }
  }

  /** POST /register-nodes-bulk: the guarded push for each requested address. */
  method RegisterNodesBulk(bitcoin: Blockchain, allNetworkNodes: seq<Option<string>>)
    modifies bitcoin`networkNodes
    ensures bitcoin.networkNodes
         == Peers.RegisterNodesBulk(old(bitcoin.networkNodes), bitcoin.currentNodeUrl, allNetworkNodes)
  {
    for i := 0 to |allNetworkNodes|
      invariant bitcoin.networkNodes
             == Peers.RegisterNodesBulk(old(bitcoin.networkNodes), bitcoin.currentNodeUrl, allNetworkNodes[..i])
    {
      assert allNetworkNodes[..i + 1][..i] == allNetworkNodes[..i];
      var networkNodeUrl := allNetworkNodes[i];
      if Peers.NodeNotAlreadyPresent(bitcoin.networkNodes, None) && Peers.NotCurrentNode(bitcoin.currentNodeUrl, None) {
        bitcoin.networkNodes := bitcoin.networkNodes + [networkNodeUrl];
      }
    }
    assert allNetworkNodes[..|allNetworkNodes|] == allNetworkNodes;
  }
}
