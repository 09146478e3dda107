# Peerster: verified model

A Dafny model of the Peerster node, a gossiping peer-to-peer application written in Go, and proofs of what
its protocols promise. `dafny verify dfyconfig.toml` checks everything.

- **Filename blockchain.** `BlockchainManager.dfy` and `BlockNode.dfy` are the block tree updated in place, with
  nodes compared by identity, and its three ways to append a block. `Ledger.dfy` is the same state as a value: every
  known block with the chain it stands on. `DeliveryOrder.dfy` says which blocks a node knows and which wait after any
  sequence of arrivals, `IntendedDrain.dfy` what the buffer's comments intend, and `ChainNetwork.dfy` is a network of nodes
  that share, gossip and mine, `NodeRuns.dfy` what each of them sees of it, `Dissemination.dfy` how blocks
  and claims get to all of them. `TransactionsSet.dfy` is the set of claims, `SharedVariable.dfy` its effect under older Go.
- **Rumor gossip.** `MessageStorage.dfy` holds logs and clocks with their 32-bit arithmetic; `GossipNetwork.dfy` is a
  network with loss, repetition and reordering; `AntiEntropy.dfy` the exchange of two nodes, `Exchange.dfy` that exchange within the network; `MongerRegistry.dfy` the
  registry of rumor-mongering goroutines as a state machine.
- **File transfer.** `SharedFile.dfy`, `DownloadingFile.dfy` and `FilesManagers.dfy` split, download, compose and
  re-serve files; `Merkle.dfy` builds the hash tree; `SearchBudget.dfy` splits the budget of a search.
- **Messages.** `Messages.dfy` has the hashed messages and the bytes their hashes cover.

## Hypotheses

- Hash functions are parameters. Collision freedom is assumed on a universe of values, the ones that occur in the run;
  `Ideal` adds that no block of the universe hashes to the fake root's zero hash. `Messages.BlockHashCollisionFree` derives it for
  block hashes from the same assumption on SHA-256. A transaction has only the fields its hash covers, name and metafile hash.
- Network theorems take distinct fixed node names, no restarts, rumor counters below 2^32 - 1, and at least one peer where the code
  divides by the number of peers.
- `k` in the ledger operations is the depth of the fork. `AppendToTheTree` proves it to be that of the deepest common
  ancestor node; the network theorems hold for any common prefix, which also covers the second nodes the drain makes for
  one block.

## Where the code and its comments differ

- Comments at lines 19 and 80 of `BlockchainManager.go` say that a buffered block waits for its parent, but line 77 looks up the
  buffered block's own hash. The model follows the code: `DeliveryOrder` states what tree and buffer then hold and exactly when the
  buffer does its job. `IntendedDrain` states what a look-up of the parent's hash would achieve, and when the code's tree is that one.
- `InitFromSlice` stores the address of its loop variable. The ledger follows Go 1.22 and later, with one variable per iteration;
  the `Shared...` members of `TransactionsSets` state what one shared variable does to the sets, and
  `SharedVariable` what that does to a node: once a block with two names is rolled back, a name can be lost and another claimed
  twice (`SharedRunBreaksNames`). `SharedRunKeepsNamesIff` says exactly when names are kept, `RollbackIff` where the damage starts.
- `AddBlock` does not look at the names a block claims. `ChainNetwork.AddBlockDoesNotCheckNames` has a block that repeats names,
  and `RunUniqueIff` the exact condition on the accepted blocks.
- The project's documentation speaks of a deadlock-free program. `MongerRegistry.LateStatusIsStuck` is a run into a hand-over that
  never ends, and `HandOverEndsIff` says exactly when a hand-over can end.

## Model

| member | source | states |
|---|---|---|
| ChainNetwork.NamesReservedOnce | src/github.com/SubutaiBogatur/Peerster/models/blockchain/BlockchainManager.go:89-161 | in every run of any number of nodes whose blocks come from mining, with messages lost, repeated and reordered, every chain known to any node claims each filename at most once, and no node's pending name is on its official chain |
| ChainNetwork.NetStep | src/github.com/SubutaiBogatur/Peerster/models/blockchain/BlockchainManager.go:89-161 | one step of any node (share, deliver a transaction, deliver a block, mine) keeps the two mutually dependent halves of that statement: names unique along every mined chain, pending names off the official chain |
| ChainNetwork.ReceivedPendingFree | src/github.com/SubutaiBogatur/Peerster/models/blockchain/BlockchainManager.go:108-124 | switching forks leaves no pending name on the new official chain, although the old branch's claims come back; needs the old branch's names to be unique |
| ChainNetwork.MinedOk | src/github.com/SubutaiBogatur/Peerster/models/blockchain/BlockchainManager.go:199-223 | a mined block claims names that nobody below it claims, each once; a block mined twice was mined on the same chain |
| ChainNetwork.NodesAgreeOnChains | src/github.com/SubutaiBogatur/Peerster/models/blockchain/BlockchainManager.go:89-126 | two nodes that know a block under the same hash agree on the whole chain below it |
| Dissemination.EverybodyGetsBlocks | src/github.com/SubutaiBogatur/Peerster/gossiper/Gossiper.go:404-416 | from every reachable network some deliveries of blocks alone, what has been sent being still available, end with every node knowing exactly the blocks mined anywhere |
| Dissemination.EverybodyGetsClaims | src/github.com/SubutaiBogatur/Peerster/gossiper/Gossiper.go:731-740 | from every reachable network some deliveries of transactions alone end with every node reserving exactly the names claimed anywhere, which are those of the claims sent out |
| Dissemination.BlockReaches | src/github.com/SubutaiBogatur/Peerster/gossiper/Gossiper.go:742-751 | one node and one mined block: parents first, from the first block the node lacks |
| Dissemination.ClaimSpreads | src/github.com/SubutaiBogatur/Peerster/gossiper/Gossiper.go:404-416 | a claim's whole way: a node given a claim with a free name can mine a good block of what it keeps pending, and deliveries can bring that block, which claims the name, onto every node's tree |
| Dissemination.RunPublished | src/github.com/SubutaiBogatur/Peerster/gossiper/Gossiper.go:404-416 | in every run every mined block has been sent out and is good, every claim kept pending or mined has been sent out as it stands, and nobody sends a claim without keeping its name reserved |
| ChainNetwork.AddBlockDoesNotCheckNames | src/github.com/SubutaiBogatur/Peerster/models/blockchain/BlockchainManager.go:47-65 | without the hypothesis that blocks are mined the property fails: a good block that repeats its parent's claims is accepted |
| ChainNetwork.AddBlockUniqueIff | src/github.com/SubutaiBogatur/Peerster/models/blockchain/BlockchainManager.go:47-126 | when names are unique on every known chain and a block is accepted, at the tail, on a short fork or by a switch of forks, they stay unique exactly when the block claims each name once and none that its parent's chain claims |
| ChainNetwork.RunUniqueIff | src/github.com/SubutaiBogatur/Peerster/models/blockchain/BlockchainManager.go:34-226 | on every run of a node, fed with blocks of anybody's making: names have been unique on all known chains all along exactly when every accepted block passed that test at its acceptance |
| Ledgers.AppendConservesClaims | src/github.com/SubutaiBogatur/Peerster/models/blockchain/BlockchainManager.go:89-126 | for every block, whatever its names: names on the official chain or pending afterwards are those before plus the names of the newly applied branch, and unchanged for a short fork |
| Ledgers.MinedConservesClaims | src/github.com/SubutaiBogatur/Peerster/models/blockchain/BlockchainManager.go:216-219 | mining leaves the set of claimed names unchanged |
| Ledgers.ClaimableIffFree | src/github.com/SubutaiBogatur/Peerster/models/blockchain/BlockchainManager.go:129-161 | a transaction is accepted exactly when its name is not reserved |
| Ledgers.StepReserves | src/github.com/SubutaiBogatur/Peerster/models/blockchain/BlockchainManager.go:34-226 | what is reserved after any step is what was reserved before and what the step adds, nothing else and nothing less |
| Ledgers.MinedClaimsPending | src/github.com/SubutaiBogatur/Peerster/models/blockchain/BlockchainManager.go:199-223 | on every run a mined block claims exactly the pending names, and at least one |
| Ledgers.RunMonotone | src/github.com/SubutaiBogatur/Peerster/models/blockchain/BlockchainManager.go:34-226 | on every run of a node, fed with blocks of anybody's making, a claimed name stays claimed, a known block stays known, the tail's depth never decreases |
| Ledgers.ReceivedInv | src/github.com/SubutaiBogatur/Peerster/models/blockchain/BlockchainManager.go:35-126 | every AddBlock keeps the block-tree invariant: known parents, chain of a block is its parent's chain plus the block, one root, tail of maximal depth |
| Ledgers.MinedIsNew | src/github.com/SubutaiBogatur/Peerster/models/blockchain/BlockchainManager.go:216-218 | a freshly mined child of the tail cannot be in the block map already |
| Ledgers.ReappendChangesNothing | src/github.com/SubutaiBogatur/Peerster/models/blockchain/BlockchainManager.go:74-87 | appending a known block a second time, as the drain does, changes neither chains nor pending set |
| Ledgers.RunInv | src/github.com/SubutaiBogatur/Peerster/models/blockchain/BlockchainManager.go:34-226 | the block-tree invariant holds after every step of every run |
| Ledgers.FloodAtMostOnce | src/github.com/SubutaiBogatur/Peerster/gossiper/Gossiper.go:731-751 | over any run a node accepts, and so re-floods, a given filename's transaction at most once and a given block hash at most once |
| Ledgers.FloodsIffNew | src/github.com/SubutaiBogatur/Peerster/gossiper/Gossiper.go:731-751 | a node sends an item on exactly in the step in which it becomes new there: a block when it gets known, a transaction when its claim gets reserved |
| Ledgers.BlockSentOnce | src/github.com/SubutaiBogatur/Peerster/gossiper/Gossiper.go:742-751 | how often exactly: on every run, as many packets for a known block as the node had peers in the step in which it got to know it, none for an unknown one |
| Ledgers.ClaimSentOnce | src/github.com/SubutaiBogatur/Peerster/gossiper/Gossiper.go:731-740 | the same for the transaction that claims a name |
| Ledgers.SendsBounded | src/github.com/SubutaiBogatur/Peerster/gossiper/Gossiper.go:731-751 | over any run the packets a node sends for one transaction name or one block are at most as many as it ever has peers |
| NodeRuns.NetSendsBounded | src/github.com/SubutaiBogatur/Peerster/gossiper/Gossiper.go:731-751 | over any run of any number of nodes the packets all of them together send for one transaction name or one block are at most the sum of the nodes' greatest peer counts |
| NodeRuns.NodeRun | src/github.com/SubutaiBogatur/Peerster/models/blockchain/BlockchainManager.go:34-226 | in every run of the network each node goes through a run of its own |
| NodeRuns.NetMonotone | src/github.com/SubutaiBogatur/Peerster/models/blockchain/BlockchainManager.go:34-226 | at no node of the network a tail gets shorter, a known block unknown or a reserved name free |
| NodeRuns.NetKnownIff | src/github.com/SubutaiBogatur/Peerster/models/blockchain/BlockchainManager.go:34-226 | a node of the network knows exactly the linked chains of good blocks that it received or mined in chain order |
| DeliveryOrder.OrphansClosedIff | src/github.com/SubutaiBogatur/Peerster/models/blockchain/BlockchainManager.go:57-87 | from every state, also after a failure: whether no block waits beside its known parent after AddBlock; while that has held so far, it goes on exactly when the appended block is not the parent of a waiting block |
| DeliveryOrder.RunClosedIff | src/github.com/SubutaiBogatur/Peerster/models/blockchain/BlockchainManager.go:34-226 | on every run, mining included: no block has ever waited beside its known parent exactly when no block was appended that a buffered block was waiting for |
| DeliveryOrder.ChildFirstIsStuck | src/github.com/SubutaiBogatur/Peerster/models/blockchain/BlockchainManager.go:74-87 | the input on which that claim fails: child first, parent second leaves the child waiting beside its known parent |
| DeliveryOrder.KnownIffDeliveredInOrder | src/github.com/SubutaiBogatur/Peerster/models/blockchain/BlockchainManager.go:35-87 | the exact content of a node's tree: a chain is known if and only if it is a linked chain of good blocks that arrived in chain order |
| DeliveryOrder.RunTree | src/github.com/SubutaiBogatur/Peerster/models/blockchain/BlockchainManager.go:34-226 | on every run of a node the known blocks are the specified function of the blocks that arrived or were mined, in this order |
| DeliveryOrder.RunKnownIff | src/github.com/SubutaiBogatur/Peerster/models/blockchain/BlockchainManager.go:34-226 | on every run a chain is known exactly when it is a linked chain of good blocks that came in chain order |
| DeliveryOrder.CompleteIff | src/github.com/SubutaiBogatur/Peerster/models/blockchain/BlockchainManager.go:35-87 | every linked chain of arrived good blocks is known if and only if each of them arrived in chain order |
| DeliveryOrder.SameTreeIff | src/github.com/SubutaiBogatur/Peerster/models/blockchain/BlockchainManager.go:35-87 | two sequences of arrivals give equal trees if and only if the same linked chains arrived in chain order in both |
| DeliveryOrder.RunBufferExact | src/github.com/SubutaiBogatur/Peerster/models/blockchain/BlockchainManager.go:35-87 | on every run without mining the buffer holds exactly the good blocks that have arrived and are not known |
| DeliveryOrder.ClosedIffComplete | src/github.com/SubutaiBogatur/Peerster/models/blockchain/BlockchainManager.go:35-87 | on such runs, at every moment: no block waits beside its known parent if and only if the tree is complete |
| DeliveryOrder.ReceivedTree | src/github.com/SubutaiBogatur/Peerster/models/blockchain/BlockchainManager.go:47-65 | AddBlock's effect on the known blocks is the one the delivery theorems reason about |
| DeliveryOrder.ParentFirstComplete | src/github.com/SubutaiBogatur/Peerster/models/blockchain/BlockchainManager.go:35-87 | one order that suffices: when parents arrive first the tree is exactly the set of linked chains of arrived good blocks, repetitions and the rest of the order notwithstanding |
| DeliveryOrder.LinkedIsParentFirst | src/github.com/SubutaiBogatur/Peerster/models/blockchain/BlockchainManager.go:35-87 | such orders exist: a linked chain delivered from the root on |
| DeliveryOrder.OrderIndependent | src/github.com/SubutaiBogatur/Peerster/models/blockchain/BlockchainManager.go:35-87 | two deliveries of the same blocks with parents first give equal trees |
| IntendedDrain.KnownIffArrived | src/github.com/SubutaiBogatur/Peerster/models/blockchain/BlockchainManager.go:19 | what the buffer's comment intends, a drain that looks up the parent until nothing is left to do: at every moment the known chains are exactly the linked chains of good blocks that arrived or were mined, in any order, whatever order the drains go through the buffer in, and no block waits beside its parent |
| IntendedDrain.AnyOrder | src/github.com/SubutaiBogatur/Peerster/models/blockchain/BlockchainManager.go:19 | with that drain tree and buffer depend on the set of arrived blocks only, neither on their order nor on that of the drains |
| IntendedDrain.ReceptionExists | src/github.com/SubutaiBogatur/Peerster/models/blockchain/BlockchainManager.go:19 | that drain always comes to an end, whatever arrives |
| IntendedDrain.CodeAgreesIff | src/github.com/SubutaiBogatur/Peerster/models/blockchain/BlockchainManager.go:74-87 | on every run of the code, mining included, its tree is the intended one exactly when it is complete |
| BlockchainManagers.BlockchainManager.constructor | src/github.com/SubutaiBogatur/Peerster/models/blockchain/BlockchainManager.go:25-32 | a new manager knows the fake root only |
| BlockchainManagers.BlockchainManager.AppendToTheTree | src/github.com/SubutaiBogatur/Peerster/models/blockchain/BlockchainManager.go:89-126 | the three cases update nodes, tail, map and pending set in place to the specified ledger, the fork depth being that of the deepest common ancestor |
| BlockchainManagers.BlockchainManager.SwitchFork | src/github.com/SubutaiBogatur/Peerster/models/blockchain/BlockchainManager.go:108-124 | rewind and reapply: pending becomes pending plus the old branch's claims (the one nearest the root stands) minus the names of the new branch |
| BlockchainManagers.BlockchainManager.CheckPendingBlocks | src/github.com/SubutaiBogatur/Peerster/models/blockchain/BlockchainManager.go:74-87 | one pass forgets exactly the buffered blocks whose own hash is known, changes nothing else, and reports whether there were any |
| BlockchainManagers.BlockchainManager.AddBlock | src/github.com/SubutaiBogatur/Peerster/models/blockchain/BlockchainManager.go:35-72 | returns true exactly for a new good block with a known parent; the drain ends; the whole new state |
| BlockchainManagers.BlockchainManager.AddTransaction | src/github.com/SubutaiBogatur/Peerster/models/blockchain/BlockchainManager.go:129-161 | accepts exactly the names neither pending nor on the official chain; the whole new state |
| BlockchainManagers.BlockchainManager.TryMine | src/github.com/SubutaiBogatur/Peerster/models/blockchain/BlockchainManager.go:199-225 | under the lock: a block of all pending claims on the current tail, appended when good, with nothing pending afterwards; otherwise nothing changes |
| BlockNodes.BlockNode.Child | src/github.com/SubutaiBogatur/Peerster/models/blockchain/BlockNode.go:16-18 | a child is one deeper than its parent, on the parent's path and chain |
| BlockNodes.BlockNode.Fake | src/github.com/SubutaiBogatur/Peerster/models/blockchain/BlockNode.go:21-23 | the fake root: depth zero, no parent, the empty chain |
| BlockNodes.BlockNode.GetBlockHash | src/github.com/SubutaiBogatur/Peerster/models/blockchain/BlockNode.go:33-38 | the zero hash for the root and the last block's hash for any other node |
| BlockNodes.GetLSA | src/github.com/SubutaiBogatur/Peerster/models/blockchain/BlockNode.go:46-65 | returns the deepest common ancestor of two nodes of one tree and nil exactly for nodes of different trees; terminates |
| BlockNodes.ForkIsDeepest | src/github.com/SubutaiBogatur/Peerster/models/blockchain/BlockNode.go:46-65 | no common ancestor is deeper than the node found |
| BlockNodes.ForkDepthSymmetricAndUnique | src/github.com/SubutaiBogatur/Peerster/models/blockchain/BlockNode.go:46-65 | the result does not depend on the order of the arguments |
| BlockNodes.Rewind | src/github.com/SubutaiBogatur/Peerster/models/blockchain/BlockchainManager.go:110-116 | from the tail to the fork every claim is taken back into the pending set; the fork exists, so the walk never reaches the root's missing set |
| BlockNodes.RollBack | src/github.com/SubutaiBogatur/Peerster/models/blockchain/BlockchainManager.go:113-116 | the walk along the parents takes exactly the claims above the fork back |
| BlockNodes.ApplyHistory | src/github.com/SubutaiBogatur/Peerster/models/blockchain/BlockchainManager.go:122-124 | the walk along the parents removes exactly the names claimed above the fork |
| BlockNodes.ClaimedInHistory | src/github.com/SubutaiBogatur/Peerster/models/blockchain/BlockchainManager.go:145-155 | the walk from the tail finds a name exactly when some block of the chain claims it |
| TransactionsSets.TransactionsSet.Add | src/github.com/SubutaiBogatur/Peerster/models/blockchain/TransactionsSet.go:36-44 | adds under a free name, refuses a taken one |
| TransactionsSets.TransactionsSet.Union | src/github.com/SubutaiBogatur/Peerster/models/blockchain/TransactionsSet.go:47-51 | merge in which the other set's transactions win |
| TransactionsSets.TransactionsSet.Subtract | src/github.com/SubutaiBogatur/Peerster/models/blockchain/TransactionsSet.go:53-59 | removes exactly the other set's names |
| TransactionsSets.TransactionsSet.GetSliceCopy | src/github.com/SubutaiBogatur/Peerster/models/blockchain/TransactionsSet.go:61-67 | a slice with the value of every key once, in some order |
| TransactionsSets.InitFromSlice | src/github.com/SubutaiBogatur/Peerster/models/blockchain/TransactionsSet.go:14-21 | with a loop variable per iteration: the first claim of each name |
| TransactionsSets.RoundTripIffWellKeyed | src/github.com/SubutaiBogatur/Peerster/models/blockchain/TransactionsSet.go:14-67 | set to slice to set, which mining does, is the identity exactly when every transaction sits under its own name |
| TransactionsSets.SharedWellKeyedIffOneName | src/github.com/SubutaiBogatur/Peerster/models/blockchain/TransactionsSet.go:14-21 | with one loop variable for all iterations (Go before 1.22) the set built is well keyed exactly when the slice claims a single name |
| TransactionsSets.SharedVariableKeepsOneName | src/github.com/SubutaiBogatur/Peerster/models/blockchain/TransactionsSet.go:14-21 | what that loses: a rolled-back block mined again claims only the name of its last transaction |
| TransactionsSets.SharedVariableReclaims | src/github.com/SubutaiBogatur/Peerster/models/blockchain/TransactionsSet.go:14-21 | and worse: it can claim a name that is on the new chain already |
| SharedVariable.SharedRunBreaksNames | src/github.com/SubutaiBogatur/Peerster/models/blockchain/BlockchainManager.go:108-124 | where that ends on a node: a run with two claims, a switch of forks and a second mining, in which every delivered block claims new names only, ends with one name twice on the official chain and another, reserved before, free again |
| SharedVariable.SharedRunKeepsNamesIff | src/github.com/SubutaiBogatur/Peerster/models/blockchain/BlockchainManager.go:34-226 | on every run with one loop variable for all iterations: up to any moment names have been unique on all known chains and no reserved name has been lost exactly when every accepted block claims new names only and every mining starts from pending entries that claim their own keys |
| SharedVariable.MiningKeepsNamesIff | src/github.com/SubutaiBogatur/Peerster/models/blockchain/BlockchainManager.go:199-223 | the mining step of that: from a unique chain and pending names off it, the new chain is unique and no pending name is lost exactly when the pending entries claim exactly the names they are kept under |
| SharedVariable.RollbackIff | src/github.com/SubutaiBogatur/Peerster/models/blockchain/BlockchainManager.go:113-124 | where entries under other names come from: taking claims back and applying the new branch leaves entries under their own names, and is what it would be without the shared variable, exactly when every claim of a rolled-back block that the new branch does not make is its block's last |
| SharedVariable.SharedStepSameIff | src/github.com/SubutaiBogatur/Peerster/models/blockchain/BlockchainManager.go:89-124 | one step with the shared variable is a step without it exactly when it takes back no other claim |
| SharedVariable.SharedRunIsRunIff | src/github.com/SubutaiBogatur/Peerster/models/blockchain/BlockchainManager.go:34-226 | a run with the shared variable whose accepted blocks claim new names only is a run without it exactly when no switch of forks takes back another claim |
| Messages.BlockHashCollisionFree | src/github.com/SubutaiBogatur/Peerster/models/CommunicationModels.go:223-234 | Block.Hash inherits collision freedom from SHA-256 on the data of a run |
| Messages.BlockPreimageInjective | src/github.com/SubutaiBogatur/Peerster/models/CommunicationModels.go:223-234 | the bytes hashed determine previous hash, nonce and the ordered transactions |
| Messages.TxPreimageInjective | src/github.com/SubutaiBogatur/Peerster/models/CommunicationModels.go:214-221 | the length prefix separates name and metafile hash |
| Messages.GoodIffBelow | src/github.com/SubutaiBogatur/Peerster/models/CommunicationModels.go:236-245 | proof of work is a threshold: a block is good exactly when its 32-byte hash, read as a big-endian number, is below 256^30 |
| Messages.ReadInvertsTxPreimage | src/github.com/SubutaiBogatur/Peerster/models/CommunicationModels.go:214-221 | reading a transaction's hashed bytes, a little-endian length and so many bytes of name, gives the transaction back |
| Messages.ReadInvertsBlockPreimage | src/github.com/SubutaiBogatur/Peerster/models/CommunicationModels.go:223-234 | reading a block's hashed bytes gives previous hash, nonce, the number of transactions modulo 2^32 and their hashes in order |
| MessageStorages.MessageStorage.GetNextMessageId | src/github.com/SubutaiBogatur/Peerster/models/MessageStorage.go:33-38 | the number handed out is the one the storage accepts next, whatever the text |
| MessageStorages.MessageStorage.GetCurrentStatusPacket | src/github.com/SubutaiBogatur/Peerster/models/MessageStorage.go:40-50 | lists every origin once with the number of the next rumor wanted |
| MessageStorages.MessageStorage.IsNewMessage | src/github.com/SubutaiBogatur/Peerster/models/MessageStorage.go:116-131 | true exactly for the next rumor of an origin, wrap-around of uint32 included |
| MessageStorages.MessageStorage.AddRumorMessage | src/github.com/SubutaiBogatur/Peerster/models/MessageStorage.go:133-180 | stores exactly the next rumor of an origin; the clock keeps counting the log except for the one rumor that wraps the counter |
| MessageStorages.MessageStorage.Diff | src/github.com/SubutaiBogatur/Peerster/models/MessageStorage.go:79-114 | for any status, repeated and zero entries included, and any map order: a rumor returned is held and is the one an entry asks for (or the first of an unlisted origin); none is returned exactly when nothing can be sent; the flag is exact then; all indices in bounds |
| MessageStorages.DiffOnStatus | src/github.com/SubutaiBogatur/Peerster/models/MessageStorage.go:76-114 | against an honest status Diff compares clocks: (nil, true) when the other is ahead somewhere and behind nowhere, (nil, false) exactly when the clocks agree on all origins |
| MessageStorages.AddedOk | src/github.com/SubutaiBogatur/Peerster/models/MessageStorage.go:133-155 | logs stay free of gaps exactly when the counter does not wrap |
| GossipNetwork.PrefixSafety | src/github.com/SubutaiBogatur/Peerster/models/MessageStorage.go:133-180 | in every run of the network a node's log of an origin is a beginning of the origin's own log, so equal clocks mean equal logs |
| GossipNetwork.RepliesNeverPremature | src/github.com/SubutaiBogatur/Peerster/gossiper/Gossiper.go:537-559 | a rumor sent because of a status of a node, however stale, is old or exactly next at that node whenever it arrives |
| GossipNetwork.AnswersNeverPremature | src/github.com/SubutaiBogatur/Peerster/gossiper/Gossiper.go:537-559 | the same said of the run's own steps: whenever a status is answered with a rumor, the rumor is on its way, and at any later time old or exactly next at the node the status came from |
| GossipNetwork.AnyoneCanIssue | src/github.com/SubutaiBogatur/Peerster/gossiper/Gossiper.go:575-593 | a client can issue a rumor exactly while the counter is below the limit, and the rumor is the one thing that is new, at the end of its origin's log |
| GossipNetwork.StepInv | src/github.com/SubutaiBogatur/Peerster/gossiper/Gossiper.go:548-593 | every step keeps: logs are beginnings of what was issued, rumors in flight are genuine, statuses in flight are lower bounds, replies are not premature |
| GossipNetwork.ReplyNotPremature | src/github.com/SubutaiBogatur/Peerster/models/MessageStorage.go:87-114 | the rumor picked by Diff from a lower bound of a peer's clock is not beyond the peer's next |
| AntiEntropy.Converges | src/github.com/SubutaiBogatur/Peerster/gossiper/Gossiper.go:548-574 | an exchange of two nodes takes at most three times the clock gap plus one steps; once it cannot go on, both hold, for every origin, the longer of the two logs they started with |
| AntiEntropy.FinalIffInSync | src/github.com/SubutaiBogatur/Peerster/gossiper/Gossiper.go:548-564 | an exchange cannot go on exactly when the answering node is in sync with the status on its way |
| AntiEntropy.FinalReached | src/github.com/SubutaiBogatur/Peerster/gossiper/Gossiper.go:548-574 | from every state of an exchange some continuation comes to an end |
| AntiEntropy.StatusExists | src/github.com/SubutaiBogatur/Peerster/models/MessageStorage.go:40-50 | every storage has a status that lists its clock |
| AntiEntropy.DiffExists | src/github.com/SubutaiBogatur/Peerster/models/MessageStorage.go:79-114 | Diff has an answer to every status |
| AntiEntropy.StepConverges | src/github.com/SubutaiBogatur/Peerster/gossiper/Gossiper.go:912-927 | every step lowers the measure made of clock gap, lag of the status and whose turn it is, and keeps the longer logs |
| AntiEntropy.InSyncMeansEqual | src/github.com/SubutaiBogatur/Peerster/gossiper/Gossiper.go:923-927 | being in sync with a status, even a stale one, means holding the same |
| AntiEntropy.Progress | src/github.com/SubutaiBogatur/Peerster/gossiper/Gossiper.go:912-927 | whatever Diff answers, an exchange that is not in sync has a next step |
| AntiEntropy.AnyTwoNodesConverge | src/github.com/SubutaiBogatur/Peerster/gossiper/Gossiper.go:537-574 | any two nodes of any run of the network satisfy the convergence theorem's hypothesis |
| Exchanges.ExchangeRealised | src/github.com/SubutaiBogatur/Peerster/gossiper/Gossiper.go:548-574 | every exchange of two nodes is a sequence of deliveries of statuses and rumors in the network, in which no other node changes |
| Exchanges.PairConverges | src/github.com/SubutaiBogatur/Peerster/gossiper/Gossiper.go:548-574 | from every network that satisfies the invariant some continuation without new rumors leaves two given nodes with the longer log of every origin |
| Exchanges.OneRumor | src/github.com/SubutaiBogatur/Peerster/gossiper/Gossiper.go:825-846 | any node that holds more of an origin than another can monger to it the first rumor it lacks |
| Exchanges.EverybodyCanCatchUp | src/github.com/SubutaiBogatur/Peerster/gossiper/Gossiper.go:548-593 | whatever has been lost, repeated or delayed: every run of the network has a continuation by statuses and their answers alone, and another by mongering alone, after which every node holds all that any node has issued |
| MongerRegistry.OneMongerPerPeer | src/github.com/SubutaiBogatur/Peerster/gossiper/Gossiper.go:825-846 | in every interleaving at most one goroutine is waiting or timed out for a peer |
| MongerRegistry.TimeoutDeletesOwnEntry | src/github.com/SubutaiBogatur/Peerster/gossiper/Gossiper.go:900-911 | a timeout deletes its own goroutine's entry, so that the peer is free, and leaves all others registered |
| MongerRegistry.FreedIff | src/github.com/SubutaiBogatur/Peerster/gossiper/Gossiper.go:537-546 | on every run, at any moment: some continuation frees the lock and any given peer's entry exactly when the processor is not stuck |
| MongerRegistry.RegistryIsExact | src/github.com/SubutaiBogatur/Peerster/gossiper/Gossiper.go:537-546 | while the lock is free the registered peers are those of the active goroutines |
| MongerRegistry.SpreadsIffFree | src/github.com/SubutaiBogatur/Peerster/gossiper/Gossiper.go:825-846 | while the lock is free a peer without an entry can be given a new goroutine, whoever else has one, and a peer with one cannot; a peer's status is taken exactly when it has an active one |
| MongerRegistry.HandOverEndsIff | src/github.com/SubutaiBogatur/Peerster/gossiper/Gossiper.go:537-546 | on every run, while a status is being handed over: some continuation completes it exactly when the registered goroutine has not timed out |
| MongerRegistry.TakenForNothingIff | src/github.com/SubutaiBogatur/Peerster/gossiper/Gossiper.go:537-546 | a status taken for hand-over is lost for certain exactly when the goroutine had timed out by then |
| MongerRegistry.LateStatusIsStuck | src/github.com/SubutaiBogatur/Peerster/gossiper/Gossiper.go:900-911 | that state is reached: a status arriving between the goroutine's timeout and its clean-up, which needs the lock the processor then holds |
| MongerRegistry.TimedOutHandOffIsStuck | src/github.com/SubutaiBogatur/Peerster/gossiper/Gossiper.go:537-546 | from there on, in every continuation, the processor keeps the lock and no registry entry changes |
| SearchBudget.Split | src/github.com/SubutaiBogatur/Peerster/gossiper/Gossiper.go:880-893 | the loop over the peers computes quotient and residual shares |
| SearchBudget.SplitExactIff | src/github.com/SubutaiBogatur/Peerster/gossiper/Gossiper.go:883-891 | the shares add up to the budget exactly when it is not negative or divides evenly; they differ by at most one |
| SearchBudget.StepAccount | src/github.com/SubutaiBogatur/Peerster/gossiper/Gossiper.go:849-894 | the exact account of a step: but for the budget copied with a repeated packet and that wasted with a lost or ignored one, the budget on its way plus the deliveries made stay the same |
| SearchBudget.RunAccount | src/github.com/SubutaiBogatur/Peerster/gossiper/Gossiper.go:849-894 | and of every run: budget and copies are on their way, spent on deliveries, lost or ignored, and nothing else |
| SearchBudget.StepSpends | src/github.com/SubutaiBogatur/Peerster/gossiper/Gossiper.go:849-894 | delivery, loss and answering never increase the budget on its way plus the deliveries made; an answered delivery and a repetition keep the account exactly |
| SearchBudget.AlwaysDeliverable | src/github.com/SubutaiBogatur/Peerster/gossiper/Gossiper.go:849-894 | in every run any request on its way can be delivered, whoever the receiver's peers are, lost or repeated |
| SearchBudget.BoundAttained | src/github.com/SubutaiBogatur/Peerster/gossiper/Gossiper.go:849-894 | the bound on deliveries is attained for every budget |
| SearchBudget.OutgoingTotal | src/github.com/SubutaiBogatur/Peerster/gossiper/Gossiper.go:880-893 | what the peers read off the wire are the shares, and they add up to the budget that was split |
| SearchBudget.SearchBounded | src/github.com/SubutaiBogatur/Peerster/gossiper/Gossiper.go:849-894 | with packets lost, reordered and r of them repeated, a search with budget B is delivered with a positive budget at other nodes at most B(1 + r) times in the whole network, at most B times plus the budget in the copies, and no request ever carries more than B |
| SharedFiles.SplitChunks | src/github.com/SubutaiBogatur/Peerster/models/filesharing/SharedFile.go:68-77 | the byte loop cuts the file at the chunk boundaries |
| SharedFiles.ChunksRoundTrip | src/github.com/SubutaiBogatur/Peerster/models/filesharing/SharedFile.go:68-77 | the chunks concatenate to the file; all but the last have exactly the chunk size, none is empty |
| SharedFiles.ParseInvertsBuild | src/github.com/SubutaiBogatur/Peerster/models/filesharing/DownloadingFile.go:128-140 | reading a metafile in 32-byte groups inverts building it |
| SharedFiles.BuildInvertsParse | src/github.com/SubutaiBogatur/Peerster/models/filesharing/DownloadingFile.go:118-140 | and building inverts reading on every whole number of hashes |
| SharedFiles.MetafileFitsIff | src/github.com/SubutaiBogatur/Peerster/config/Constants.go:10-17 | the metafile fits one chunk exactly when the file is at most the maximal size |
| SharedFiles.StoreChunks | src/github.com/SubutaiBogatur/Peerster/models/filesharing/SharedFile.go:79-88 | the hashing loop: the merged hashes in file order, the set of hashes, and one chunk file under each hash |
| SharedFiles.ShareFile | src/github.com/SubutaiBogatur/Peerster/models/filesharing/SharedFile.go:29-93 | refuses exactly a missing file, a file whose chunk directory exists and too large a file; otherwise metafile, its hash, the hash set and a chunk file for every hash; the directory then exists, also when the size is refused |
| SharedFiles.SharedChunkServed | src/github.com/SubutaiBogatur/Peerster/models/filesharing/SharedFile.go:101-118 | a chunk's hash brings back the chunk, however often it occurs |
| DownloadingFiles.DownloadingFile.ProcessDataReply | src/github.com/SubutaiBogatur/Peerster/models/filesharing/DownloadingFile.go:73-116 | the state, the disk and the returned pointer after any reply |
| DownloadingFiles.DownloadingFile.GotMetafile | src/github.com/SubutaiBogatur/Peerster/models/filesharing/DownloadingFile.go:118-161 | accepts exactly a whole number of hashes under the metafile's hash and parses it; an existing directory is reported as an error all the same |
| DownloadingFiles.DownloadingFile.FinishDownloading | src/github.com/SubutaiBogatur/Peerster/models/filesharing/DownloadingFile.go:163-192 | writes the chunk files in metafile order, nothing if one is missing |
| DownloadingFiles.DownloadingFile.GetDataRequest | src/github.com/SubutaiBogatur/Peerster/models/filesharing/DownloadingFile.go:194-201 | asks for a missing hash while there is one |
| DownloadingFiles.FinishedFileIsShared | src/github.com/SubutaiBogatur/Peerster/models/filesharing/DownloadingFile.go:73-192 | for any sequence of replies, and any other downloads writing to the disk: when the download reports to be finished the file written is the file shared, and it was not empty |
| DownloadingFiles.ReceivedOk | src/github.com/SubutaiBogatur/Peerster/models/filesharing/DownloadingFile.go:73-116 | every reply keeps: missing hashes are the metafile's, all others lie on disk under their hash; it touches no other chunk file, no other finished file, and its own finished file on the last chunk only |
| DownloadingFiles.Progress | src/github.com/SubutaiBogatur/Peerster/models/filesharing/DownloadingFile.go:86-115 | a missing chunk takes one hash off the missing set, nothing else does, and the download finishes exactly on the last |
| DownloadingFiles.ServedHasHash | src/github.com/SubutaiBogatur/Peerster/models/filesharing/DownloadingFile.go:46-70 | a running or finished download serves only data with the requested hash |
| DownloadingFiles.ServedIffBrought | src/github.com/SubutaiBogatur/Peerster/models/filesharing/DownloadingFile.go:35-70 | at every moment of every run a download says it has, and serves under the right hash, exactly the metafile and the chunks that have arrived |
| DownloadingFiles.FinishedServes | src/github.com/SubutaiBogatur/Peerster/models/filesharing/DownloadingFile.go:35-70 | once finished it serves for ever the metafile and every chunk of the shared file under its hash |
| DownloadingFiles.HonestReplyAccepted | src/github.com/SubutaiBogatur/Peerster/models/filesharing/DownloadingFile.go:98-104 | the sharing node's answer to a request is always an accepted chunk |
| DownloadingFiles.HonestDownloadFinishes | src/github.com/SubutaiBogatur/Peerster/models/filesharing/DownloadingFile.go:73-201 | fed with the sharing node's answers to what it asks for, a download finishes after the metafile and one reply for every different chunk, in whatever order it asks |
| DownloadingFiles.HonestRunExists | src/github.com/SubutaiBogatur/Peerster/models/filesharing/DownloadingFile.go:73-201 | every shared file can be downloaded: honest answers exist up to the finishing one |
| DownloadingFiles.FullMatchIff | src/github.com/SubutaiBogatur/Peerster/models/filesharing/DownloadingFile.go:203-221 | the chunk map is as long as the chunk count exactly when nothing is missing, in particular before the metafile has arrived |
| FilesManagers.DownloadingFilesManager.StartDownloadingFromOrigin | src/github.com/SubutaiBogatur/Peerster/models/filesharing/DownloadingFilesManager.go:39-53 | starts exactly when nothing is being downloaded from the origin |
| FilesManagers.DownloadingFilesManager.ProcessDataReply | src/github.com/SubutaiBogatur/Peerster/models/filesharing/DownloadingFilesManager.go:56-74 | feeds the origin's download, moves it when finished, leaves every other download as it is |
| FilesManagers.DownloadingFilesManager.DropDownloading | src/github.com/SubutaiBogatur/Peerster/models/filesharing/DownloadingFilesManager.go:88-93 | forgets the origin's download only |
| FilesManagers.DownloadingFilesManager.GetDataRequestHash | src/github.com/SubutaiBogatur/Peerster/models/filesharing/DownloadingFilesManager.go:76-86 | the hash asked for next is still missing and belongs to the metafile |
| FilesManagers.DownloadingFilesManager.GetChunkOrMetafile | src/github.com/SubutaiBogatur/Peerster/models/filesharing/DownloadingFilesManager.go:95-118 | data served hashes to the requested value; served exactly when some download has it |
| FilesManagers.SharedFilesManager.Share | src/github.com/SubutaiBogatur/Peerster/models/filesharing/SharedFilesManager.go:42-67 | refuses exactly a missing file, one whose chunk directory exists, too large a file and a metafile hash shared before; a refusal leaves the shared files as they were but uses up the name of a file that exists; no two shared files ever have one name, so no chunk directory is written twice |
| FilesManagers.SharedFilesManager.GetChunkOrMetafile | src/github.com/SubutaiBogatur/Peerster/models/filesharing/SharedFilesManager.go:69-91 | data served hashes to the requested value; served exactly when some shared file has it |
| FilesManagers.AnswerDataRequest | src/github.com/SubutaiBogatur/Peerster/gossiper/Gossiper.go:624-641 | a node's answer is authentic, and given exactly when it shares or has downloaded the part |
| Merkle.ConstructInner | src/github.com/SubutaiBogatur/Peerster/models/filesharing/merkletree/MerkleNode.go:23-48 | nil exactly for no children, different heights or too much data; otherwise the node over the concatenated hashes |
| Merkle.BuildLevel | src/github.com/SubutaiBogatur/Peerster/models/filesharing/merkletree/MerkleSharedFile.go:97-113 | the loop groups a level by 256 and never meets an error path; parents are stored and listed under their hashes |
| Merkle.BuildTree | src/github.com/SubutaiBogatur/Peerster/models/filesharing/merkletree/MerkleSharedFile.go:95-124 | for any leaves: nil exactly for none; otherwise one root, uniform in height, at most 256 children a node, the leaves in order, every node stored and listed |
| Merkle.LevelsIsLeast | src/github.com/SubutaiBogatur/Peerster/models/filesharing/merkletree/MerkleSharedFile.go:95-113 | the tree's height is the least k with 256^k at least the number of leaves |
| Merkle.NextLevelLeaves | src/github.com/SubutaiBogatur/Peerster/models/filesharing/merkletree/MerkleSharedFile.go:98-112 | going up a level keeps the leaves in order |
| Merkle.GroupsFillChunks | src/github.com/SubutaiBogatur/Peerster/models/filesharing/merkletree/MerkleSharedFile.go:96 | every group of a level but the last stores exactly the bytes of one chunk, the last one at least one hash |
| Merkle.ExpandGivesLeaves | src/github.com/SubutaiBogatur/Peerster/models/filesharing/merkletree/MerkleNode.go:29-45 | expanding the stored inner data from the root hash gives back the list of leaf hashes |

## Left out

- Sockets, encoding, the web server, the command line, logging and printing; timers and randomness become arbitrary choices.
- The attempts of `DoMining` outside the lock: they only pick the nonce that the locked part checks again.
- `File.Size`, hop limits inside transactions and the private messages of the storage: nothing modelled reads them.
- A node's transaction set is an immutable map, because nothing changes it after construction; only the pending set is an object.
- The directories of downloads and the clearing of directories at the start, failing reads and writes: the disk is a map.
- Deadlock freedom beyond the registry of rumor-mongering goroutines, as of the channels of downloads.
- AntiEntropy.Converges: one status is on its way at a time and no rumor mongering with other peers interferes; the registry may make the code skip a spread, which the timer repeats.
- Exchanges.EverybodyCanCatchUp: says that the continuation exists, not that a fair scheduler takes it.
- Dissemination.EverybodyGetsBlocks: the same, and packets stay available for delivery; hop limits, which may end the flooding earlier, are not modelled.
- Which node of the network receives a search request: receivers and their peers are arbitrary, with at least one peer each.
- Merkle.BuildTree: starts from the leaf hashes; reading the file in parts is not modelled.
- The goroutine that repeats file requests, search result matching by regular expression, next-hop routing, flooding under hop limits: they would add easy members only.
