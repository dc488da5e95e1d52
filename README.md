# In-memory blockchain ledger node, modelled in Dafny

This project models the ledger of a small blockchain node written in JavaScript.

- The `Blockchain` object in `dev/blockchain.js` holds the chain of sealed blocks, the pool of pending transactions, the node's own address and its list of peers.
- Its operations are: construction with a fixed genesis block, `createNewBlock`, `getLastBlock`, `createNewTransaction`, `hashBlock`, and the `proofOfWork` stub.
- The handler bodies of `dev/networkNode.js` drive that object: the `/mine` step and the three peer-registration updates.

Modules:

- `Types` (types.dfy): transactions, blocks, block data, and the JavaScript values that reach the untyped slots (`undefined`, an integer, a block-data object).
- `Ids` (ids.dfy): `uuid().split('-').join('')`, which builds transaction ids.
- `Hashing` (hashing.dfy): `hashBlock` and `proofOfWork`.
- `Ledger` (ledger.dfy): the `Blockchain` class. Its invariant `Valid()` says the chain is never empty, starts with the genesis block and numbers every block with its position plus one.
- `Peers` (peers.dfy): the registration guards and appends, as functions on the peer list.
- `NetworkNode` (network_node.dfy): the handler bodies, as methods on the node's `Blockchain` object.
- `Scenarios` (scenarios.dfy): the `dev/reserved.js` script and one mining round.

A reader might expect a proof-of-work search, a block index returned for each transaction, idempotent peer registration, and chain validation. The code has none of these, and the model follows the code:

- `proofOfWork` has an empty body. It returns `undefined` and searches no nonce, so no mined hash is known to start with `0000`.
- `createNewTransaction` returns the transaction object, not the index of the block it will land in.
- The registration guards are called with no argument. They therefore test `undefined`, and re-registering a known address is not a no-op.
- Chain validation, longest-chain consensus, acceptance of blocks from peers, and lookups by hash, by transaction id or by address do not exist in the code. They are not modelled.

Foreign behaviour appears as parameters:

- SHA-256, `Number.prototype.toString` and `JSON.stringify` of a block-data object are the function fields of `Hashing.HashLib` and are left uninterpreted.
- What JavaScript itself fixes is modelled: a plain object's `toString()` is `"[object Object]"`, `JSON.stringify(undefined)` concatenates as `"undefined"`, and `undefined.toString()` throws a TypeError.
- `Date.now()`, `uuid()` and the node's reward address are method parameters.

## Model

| member | source | states |
|---|---|---|
| `Ids.Undashed` | dev/blockchain.js:50 | a character is in the id exactly when it is a non-dash character of the uuid; the id's length is the uuid's minus its dashes |
| `Ids.UndashedMultiset` | dev/blockchain.js:50 | the id holds every non-dash character of the uuid exactly as often as the uuid does, and no dash |
| `Ids.UndashedConcat` | dev/blockchain.js:50 | stripping distributes over concatenation, so the non-dash characters keep their order |
| `Ids.UndashedWithoutDashes` | dev/blockchain.js:50 | stripping a dash-free string leaves it unchanged |
| `Hashing.NonceText` | dev/blockchain.js:63 | `nonce.toString()` fails exactly when the nonce slot holds `undefined` |
| `Hashing.DataText` | dev/blockchain.js:63 | `+ JSON.stringify(data)` never fails: it appends the literal "undefined" for an `undefined` data slot, the serialisation of a block-data object, or a number's text |
| `Hashing.HashInput` | dev/blockchain.js:62-63 | the hashed text is the previous hash, then the nonce's text, then the data's text, in that order; there is none when the nonce slot is `undefined` |
| `Hashing.HashBlock` | dev/blockchain.js:57-67 | hashBlock throws a TypeError exactly when the nonce slot is `undefined`; otherwise it is SHA-256 of the hashed text, so equal arguments give equal digests |
| `Hashing.ProofOfWork` | dev/blockchain.js:69-74 | the stub returns `undefined`, never a number |
| `Hashing.SwappedCallIgnoresBlockData` | dev/networkNode.js:46-51 | with the call site's argument order and the stub's nonce, the digest is SHA-256 of the previous hash + "[object Object]undefined", the same for every block data |
| `Hashing.IntendedCallCommitsToBlockData` | dev/blockchain.js:57-66 | with the declared argument order and an integer nonce, block data that serialise differently give different hashed texts |
| `Peers.NodeNotAlreadyPresent` | dev/networkNode.js:59-61 | `indexOf(newNodeUrl) === -1` holds exactly when no position of the list holds the address; called without an argument, exactly when every listed address is defined |
| `Peers.NotCurrentNode` | dev/networkNode.js:63-65 | holds exactly when the address differs from this node's own; called without an argument, exactly when this node's address is defined |
| `Peers.RegisterGuard` | dev/networkNode.js:104 | the argument-less guard of /register-node and /register-nodes-bulk holds exactly when every listed address and this node's own address are defined, whatever address is being registered |
| `Peers.RegisterAndBroadcast` | dev/networkNode.js:69-70 | the list only grows by the submitted address at its end, and it grows exactly when `undefined` is not yet in the list |
| `Peers.RegisterNode` | dev/networkNode.js:102-105 | the list only grows by the submitted address at its end, and it grows exactly when `undefined` is not in the list and this node's address is defined, whatever address is submitted |
| `Peers.RegisterNodesBulk` | dev/networkNode.js:111-116 | the old list stays a prefix, no more entries are appended than the request holds, and every appended entry is a requested address; `Peers.RegisterNodesBulkClosedForm` gives the exact result |
| `Peers.RegisterNodesBulkClosedForm` | dev/networkNode.js:111-116 | the bulk update changes nothing when the guard is closed; otherwise it appends the requested addresses up to and including the first `undefined` |
| `Peers.RegisterNodesBulkAppendsAll` | dev/networkNode.js:113-116 | with the guard open and no `undefined` address, every requested address is appended, known ones and this node's own included |
| `Peers.RegisterNodeDuplicates` | dev/networkNode.js:104-105 | a known address registered again is listed twice, and a node lists its own address |
| `Peers.RegisterNodeIntended` | dev/networkNode.js:59-65 | with the guards given the address, the old list is kept and grows only by the address at its end, exactly when the address is neither listed nor this node's own; so any other address ends up listed and this node's own is never added |
| `Peers.RegisterNodeIntendedClean` | dev/networkNode.js:59-65 | the intended guards keep the list free of duplicates and of this node's address, and registering twice equals registering once |
| `Peers.RegisterNodesBulkIntended` | dev/networkNode.js:111-116 | the bulk update with the guards given each address: the old list stays a prefix, no more entries are appended than the request holds, and every appended entry is a requested address other than this node's own |
| `Peers.RegisterNodesBulkIntendedClean` | dev/networkNode.js:111-116 | the intended bulk update keeps the list clean and ends with every requested address other than this node's listed |
| `Ledger.Blockchain.constructor` | dev/blockchain.js:5-14 | a new node holds exactly the genesis block (index 1, nonce 100, hash "0", previous hash "0", no transactions), with an empty pool and an empty peer list |
| `Ledger.Blockchain.CreateNewBlock` | dev/blockchain.js:16-34 | appends one block numbered length + 1 that holds the old pool in order and stores nonce and both hashes unchecked; earlier blocks are unchanged, the pool is emptied, the invariant holds, and the returned block is what getLastBlock then returns |
| `Ledger.Blockchain.GetLastBlock` | dev/blockchain.js:36-38 | defined in every reachable state; returns a block of the chain whose index is the chain's length, the genesis block on a fresh node |
| `Ledger.Blockchain.CreateNewTransaction` | dev/blockchain.js:40-55 | appends exactly one transaction with a dash-free id to the end of the pool, leaves the chain unchanged and returns that transaction |
| `NetworkNode.RewardTransaction` | dev/networkNode.js:52 | the miner reward pays 12.5 from the reserved sender "00" to this node's address, under a dash-free id one character shorter per dash of the uuid |
| `NetworkNode.Mine` | dev/networkNode.js:36-57 | appends one block and empties the pool; the block links to the old head's hash; its index is both the head's index + 1 and the old length + 1; it holds the old pool followed by the 12.5 reward from "00" to the node; its nonce is `undefined`; its hash is hashBlock with the block data in the nonce slot |
| `NetworkNode.MineIntended` | dev/networkNode.js:37-54 | the same step with a given nonce and the arguments in the declared order: the stored hash is taken over the previous hash, the nonce and the block data before the reward |
| `NetworkNode.RegisterAndBroadcastNode` | dev/networkNode.js:68-70 | the peer list becomes `Peers.RegisterAndBroadcast` of the old list; the chain and the pool are untouched |
| `NetworkNode.RegisterNode` | dev/networkNode.js:102-108 | the peer list becomes `Peers.RegisterNode` of the old list; the chain and the pool are untouched |
| `NetworkNode.RegisterNodesBulk` | dev/networkNode.js:111-119 | the `forEach` loop leaves the peer list equal to `Peers.RegisterNodesBulk` of the old list and the request |
| `Scenarios.ReservedScript` | dev/reserved.js:3-10 | blocks are numbered 1, 2, 3; block 2 is empty, block 3 holds exactly the 20-unit transaction, and the pool ends empty |
| `Scenarios.MineAfterOneTransaction` | dev/networkNode.js:37-54 | mining on a fresh node gives block 2, linked to "0", holding the transaction and then the reward, with an `undefined` nonce and an empty pool afterwards |

## Findings

| source | as written | input that shows it | evidently intended | confidence | as-written member | corrected member |
|---|---|---|---|---|---|---|
| dev/networkNode.js:47-51 | `hashBlock(previousBlockHash, currentBlockData, nonce)` with `nonce` from the empty `proofOfWork`: the hashed text is the previous hash + "[object Object]" + "undefined" | two `/mine` calls on the same head, one with an empty pool and one with a 20-unit transaction pending, store the same hash | `hashBlock(previousBlockHash, nonce, currentBlockData)` with a searched integer nonce, so the hash covers the block data | high; not executed | `Hashing.SwappedCallIgnoresBlockData` | `NetworkNode.MineIntended` |
| dev/networkNode.js:104 | `nodeNotAlreadyPresent()` and `notCurrentNode()` are called without the address, so they test `undefined` (the same at lines 70 and 114) | list `["http://localhost:3002"]`, own address `"http://localhost:3001"`, register `"http://localhost:3002"`: it is listed twice | the guards receive `newNodeUrl`, so the list has no duplicates, never holds this node's address, and registration is idempotent | high; not executed | `Peers.RegisterNodeDuplicates` | `Peers.RegisterNodeIntended` |

The handlers `NetworkNode.Mine`, `NetworkNode.RegisterNode` and `NetworkNode.RegisterNodesBulk` model the code as written. For the first finding, the property of the corrected call is proved in `Hashing.IntendedCallCommitsToBlockData`. For the second, it is proved in `Peers.RegisterNodeIntendedClean` and `Peers.RegisterNodesBulkIntendedClean`.

## Left out

- HTTP routing, responses and `app.listen` are network I/O. One consequence: the `/transaction` response prints the returned transaction object where it means a block index.
- The `request-promise` broadcasts of `/register-and-broadcast-node` and their `Promise.all` chain are network I/O. Only the local update of that handler is modelled.
- `process.argv` parsing is process plumbing. The port is not modelled, and the node's address is a constructor parameter.
- SHA-256, number-to-text conversion and `JSON.stringify` of block data are foreign library behaviour, so they stay uninterpreted.
- `Date.now()` and `uuid()` are clock and randomness, so they are parameters. The reward address, derived once from `uuid()` at startup, is also a parameter.
- Amounts are kept as their numeric literal, such as `"12.5"`. The code does no arithmetic on them.
- Request-body values other than strings and `undefined` are not modelled as peer addresses. This covers numbers, `null` and objects. `undefined` is modelled because the guards depend on it. A JSON request body cannot carry `undefined` inside `allNetworkNodes`: an undefined own address sent by a broadcasting node with `json: true` arrives as `null`, which leaves the argument-less guard open. So the branch of `Peers.RegisterNodesBulkClosedForm` that stops after the first `undefined` is reached only by a caller in the same process, not over HTTP.
- A request body whose `allNetworkNodes` is not an array makes `forEach` throw a TypeError. The model takes the request as a sequence.
- The `hashBlock` calls in `dev/reserved.js` pass an array in the nonce slot. Arrays are not among the modelled values, and only that script's block and transaction steps are modelled.
- Arrays are modelled as values, which is faithful here. A sealed block shares the pool's array, but the pool is then reassigned rather than mutated. The block data built by `/mine` also shares the pool array, so it sees the reward pushed after hashing. The hash is already computed by then, so this changes nothing.
- Handlers run to completion one at a time on the JavaScript event loop, so each handler is modelled as one atomic method.
- A nonce search, chain validation, consensus, acceptance of peer blocks and the query operations are absent from the code, so they are not modelled.
