# Verified model of fragkv's replica management

fragkv cuts a value into fragments, places each fragment on several storage nodes, and keeps a replicated catalog of
who holds what. Background passes copy fragments when nodes die or join. This project models that protocol in Dafny,
together with the algorithms under it, and proves what holds over all inputs, all schedules and all runs. Where the
code falls short of what its callers would hope for, the model follows the code, and the exact condition under which
the hoped-for property holds is proved instead.

`dafny verify dfyconfig.toml` checks everything.

## How the model is laid out

| file | part of the system | form |
|---|---|---|
| `Placement.dfy` | the three placers | loops, each proved to choose the n best nodes by a rank that looks at one node at a time |
| `Ranking.dfy`, `PlacementLaws.dfy` | what follows for every placer | lemmas |
| `Catalog.dfy` | the seven log commands as a function on values | functions and lemmas about logs |
| `History.dfy` | what a log leaves behind, told by the positions of its commands | lemmas over whole logs |
| `Fsm.dfy` | the FSM object | classes; each command changes the heap in place and is proved equal to the function |
| `Planner.dfy` | fragment arithmetic of `PrepareKey` | 64-bit wrap-around and truncating division written out |
| `Repair.dfy` | what one recovery or rebalance pass may do | relations and lemmas about whole passes |
| `MetaStore.dfy` | `PrepareKey` and both passes | a class that keeps a trace of every request and proposal; the loops are proved to send out exactly what the relations of `Repair.dfy` say |
| `Headers.dfy`, `Quorum.dfy`, `Client.dfy` | the upload's headers, the concurrent fan-out, upload and read-any | a state machine over goroutine steps, and the handler under any schedule |
| `Runs.dfy`, `Protocol.dfy` | the whole system | a state machine: prepares, uploads with their fan-outs, commits, membership changes and any number of recovery and rebalance workers with stale views, failing copies and late or lost catalog updates |
| `Durability.dfy`, `PassRuns.dfy`, `EndToEnd.dfy` | reads over whole runs, the passes as runs, values from upload to download | lemmas, and the clients' puts and gets |
| `Layout.dfy` | splitter, planner and the two clients | loops over a reader, a buffer and a shared result array |
| `LocalStore.dfy`, `Names.dfy` | a node's files and index, fragment ids and chunk file names | a class refined to a plain map |
| `Collections.dfy` | shared value types and facts | |

Hash functions are parameters of which only the range is known; scores are exact reals; Go map iteration is an
arbitrary order; `sort.Slice` is any sorted rearrangement. Network calls, disk faults and refused Raft proposals are
arbitrary outcomes, with all their combinations covered, and they are inputs: the metadata store's `world` answers its
n-th request or proposal, a `fate` says what becomes of each replica write, a `fault` which system call fails.

The metadata store appends every replicate request (server asked, fragment, server to pull from) and every proposal,
with its answer, to `trace`. The contract of a pass gives the whole trace it adds, entry by entry and fragment by
fragment, and `PassRuns.RecoveryIsRun` and `PassRuns.RebalanceIsRun` find a run of the state machine whose copies and
write-backs are exactly that trace, but for errors reported on proposals that took effect all the same.

In `Protocol.dfy` the fields `plan`, `known`, `lists` and `acks` are history: every fragment ever prepared, every
(node id, base URL) ever registered, every replica list the catalog ever held, every replicate request acknowledged.
A worker may start from any list and any node view that ever existed; one that has not written back yet may do so at
any later time, as an update does that its proposer has given up on.

`GetValue` reports no error for a fragment without addresses and leaves zeros in its place. No such entry exists:
`PrepareKey` plans at least one address for every fragment (`MetaStore.Store.PrepareKey`), and in every reachable state
every fragment lists its planned addresses (`Protocol.CatalogSound`).

## Where the code falls short, and exactly when

- A placement is determined exactly when every tied pair of nodes has at least n nodes ranked strictly before it
  (`Ranking.ChoiceDeterminedIff`); then every placer ignores the order in which nodes arrive
  (`PlacementLaws.OrderIndependent`), and otherwise two answers are open (`Ranking.TieLeavesChoice`).
- An empty value: the planner plans one fragment of a full chunk, the splitter yields none. They agree exactly on
  non-empty values (`Layout.PlannerEqualsSplitterIff`, `Planner.PlanCoversIff`, `Layout.EmptyValue`), and kvctl put
  indexes a chunk that does not exist exactly on an empty file (`Layout.PutOutOfRangeIff`, `EndToEnd.KvctlPut`).
- Preparing a key panics exactly when the rounded-up size, wrapped to 64 bits, is minus one whole chunk or less, or
  more than the longest allocatable plan holds (`Planner.PlanPanicsIff`, `Planner.PlansThatPanic`,
  `MetaStore.Store.PrepareKey`).
- The write quorum is honest exactly when the primary and the replicas have different addresses
  (`Quorum.QuorumSoundIff`). Registration does not check addresses, and a storage node's default public address is the
  same everywhere (cmd/storaged/main.go:37); with a repeated one there is a run whose 201 claims a server too many
  (`Quorum.RepeatedAddressOvercounts`). The same goes for different addresses of one server (`Quorum.QuorumServersIff`).
- A write quorum of zero or less reaches the handler as 2 (`Headers.QuorumHeaderIff`).
- A 201 without a replica header promises W holders only if W is at most one (`Quorum.QuorumUncheckedIff`).
- The replica header carries a list of addresses intact exactly when each is non-empty, free of commas and of
  surrounding spaces (`Headers.HeaderRoundTripIff`).
- A catalog update replaces node ids but never the addresses that reads go by, so copies made by recovery and rebalance
  are not read: a read succeeds exactly when a planned address is reachable and holds the fragment
  (`Durability.ReadableIff`, with a failing run in `Durability.RecoveredCopyUnread`).
- Rebalance can empty a replica list. It is sure not to, whatever copies fail, exactly when some listed node is still
  wanted (`Repair.RebalanceSafeIff`).
- Rebalance copies from the first listed live node only: with a wanted live node missing and some listed live node
  addressed, it asks for copies exactly when that first node registered with an address (`Repair.RebalanceAsksIff`).
  Otherwise nothing is copied, and the list can be emptied although another listed node is live and has an address
  (`Repair.UnaddressedSourceEmpties`).
- `Split` takes a reader that ends with `io.ErrUnexpectedEOF` for a complete one (`Layout.Split`).
- A node's files and index stop agreeing exactly after a failed overwrite of an indexed fragment (unless it left the
  same bytes) or a delete that stops between file and index (`LocalStore.AgreementKeptIff`); an operation is safe
  whatever goes wrong exactly when its id is not indexed (`LocalStore.SafeUnderFaultsIff`).
- Two fragments share a chunk file exactly when their indices agree and their keys are alike but for "/" and "_"
  (`Names.SameChunkPathIff`, `LocalStore.CollisionFreeIff`). The metadata server cuts keys at a "/"
  (internal/metadata/server.go:42-44), but a storage node takes any decoded path for an id
  (internal/transport/storaged_server.go:45-58), and clients paste ids into paths unescaped (cmd/kvctl/main.go:308-337):
  the slash-free key `a%2F1` arrives there as `a/1` and shares its files with `a_1` (`Names.ChunkPathsCollide`).
- `getKey` and `allEntries` hand out copies that share the catalog's fragment array: later replica-list updates show
  through them, commits do not (`Fsm.CopySharesFragments`).
- The comments on `GetKey` and `ListKeys` speak of committed keys; the code does not look at the flag, nor does the
  model.

## Model

| member | source | states |
|---|---|---|
| Placement.PlaceConsistentHash | internal/placement/placement.go:37-74 | for every node list: one node for each of the min(n, ids) nearest ids, the last that carries it, nearest first and none left out nearer, where nearness is the clockwise distance to the hash of the id with "#" and a number, of 150 numbers when VNodes is not positive; it stays within one rotation and never takes a modulus of an empty ring |
| Placement.BuildRing | internal/placement/placement.go:46-53 | the ring has vn positions for each node, at the hashes of its id with "#" and each number below vn, and no others, sorted by hash |
| Placement.RingKeyInjective | internal/placement/placement.go:49 | ring keys of different nodes or different numbers are different |
| Placement.SearchRing | internal/placement/placement.go:56 | the first ring position at or after the fragment's hash |
| Placement.SortSlice | internal/placement/placement.go:53 | some ascending rearrangement of the input, nothing said about ties |
| Placement.TopScores | internal/placement/placement.go:97-103 | the result is the start of an ordering of all offered nodes by descending score, cut to n, also when ids repeat |
| Placement.SumFree | internal/placement/placement.go:121-124 | the loop's total is the sum over all nodes |
| Placement.WalkRing | internal/placement/placement.go:58-73 | the loop takes m nodes or all there are, each at its first meeting clockwise from the start; the guard on i ends it only when all have been taken |
| Placement.FirstMeeting | internal/placement/placement.go:62-68 | on the walk a node is first met at its position nearest to the fragment |
| Placement.FullRotation | internal/placement/placement.go:62-72 | one rotation has met every node, so the guard on i never cuts a result short |
| Placement.WalkVisit | internal/placement/placement.go:62-72 | a new owner is taken, a known one skipped, and past a full rotation none is new |
| Placement.NearestIsLeast | internal/placement/placement.go:46-56 | the rank of a node is the least clockwise distance over its virtual nodes, and is attained |
| Placement.PlaceRendezvous | internal/placement/placement.go:82-104 | the nodes with the highest hashes of node id and fragment id, highest first, and none left over has a higher one; the start of an ordering of all nodes |
| Placement.PlaceWeighted | internal/placement/placement.go:112-149 | likewise by share times a factor from one half to one in proportion to that hash, where the share is the manual weight, or the part of the total free space, or an equal part when there is none |
| Placement.HashFactorLinear | internal/placement/placement.go:138-140 | the hash as a factor runs from one half to one, in proportion |
| Placement.Place | internal/metadata/store.go:317-326 | whichever strategy is configured, its answer for any node list; the top n by that strategy's rank when ids do not repeat |
| Placement.PlacedTopN | internal/metadata/fsm.go:134-143 | on lists without repeated ids, as the catalog gives them, every strategy chooses the n best nodes |
| Placement.NodeByID | internal/placement/placement.go:163-169 | the ids of the list, each with the last node that carries it |
| Ranking.TopNUnique | internal/placement/placement.go:97-103 | when no tie reaches the n best, the choice depends only on which nodes are offered, not on their order |
| Ranking.BestOfBounds | internal/placement/placement.go:97-103 | the start of any ordering, told without it: best first, and nothing left over ranks better, also when nodes repeat |
| Ranking.TopNJoin | internal/placement/placement.go:80-104 | one more offer gives the old choice with it inserted somewhere, cut to length |
| Ranking.TieLeavesChoice | internal/placement/placement.go:97 | with a tie that reaches the n best the unstable sort leaves two different answers open |
| Ranking.ChoiceDeterminedIff | internal/placement/placement.go:97-103 | there is one answer exactly when every tied pair has at least n nodes ranked strictly before it |
| PlacementLaws.NoCollisionsNoTies | internal/placement/placement.go:46-53 | a ring without hash collisions between nodes has no ties, so one answer for every n |
| PlacementLaws.OrderIndependent | internal/metadata/fsm.go:134-143 | every placer gives the same list for every order of the same nodes, unless a tie reaches the n best |
| PlacementLaws.MinimalDisruption | internal/placement/placement.go:78-149 | a joining node only inserts itself: every other chosen node was already chosen, unless a tie reaches the n best; for weighted placement without manual weights, free space or not |
| PlacementLaws.FullNodesByHash | internal/placement/placement.go:131-141 | among nodes without free space the hash decides, or, when others have some, all of them tie |
| PlacementLaws.TotalFreeRearranged | internal/placement/placement.go:121-124 | the total free space does not depend on node order |
| PlacementLaws.Outranks | internal/placement/placement.go:127-141 | more than twice another's free bytes outweighs any hash |
| PlacementLaws.HashDecides | internal/placement/placement.go:91-97 | under rendezvous a node ranks better exactly when the hash of its id and the fragment id is higher |
| PlacementLaws.DominatedNeverChosen | internal/placement/placement.go:112-149 | a node that n others dominate this way is never chosen |
| Names.FragmentIDInjective | internal/fragment/fragment.go:11-13 | fragment ids are different for different keys or indices, whatever the keys contain |
| Names.SameChunkPathIff | internal/storage/storage.go:177-180 | two fragments share a chunk file exactly when their indices agree and their keys are alike but for "/" and "_" |
| Names.ChunkPathInjective | internal/storage/storage.go:177-180 | chunk files of slash-free keys are the same exactly for the same fragment |
| Names.ChunkPathsCollide | internal/storage/storage.go:177-180 | every key with a "/" shares its files with the key that has "_" instead |
| Names.DecimalInjective | internal/fragment/fragment.go:11-13 | different numbers print differently |
| Names.JoinedInjective | internal/fragment/fragment.go:11-13 | name, separator and number can be read back, whatever the name contains |
| Catalog.ReplayAppend | internal/metadata/fsm.go:23-72 | cutting the log anywhere and carrying on from the state at the cut changes nothing |
| Catalog.ReplayWellFormed | internal/metadata/store.go:164-199 | after any log with entries from PrepareKey each entry sits under its own key with its own fragment ids |
| Catalog.UpdateTouchesOne | internal/metadata/fsm.go:62-69 | an update rewrites the replica list of at most one fragment and nothing else, addresses included |
| Catalog.KeyProjection | internal/metadata/fsm.go:23-72 | the final entry of a key depends only on commands addressing the key or one of its fragments |
| Catalog.NodeProjection | internal/metadata/fsm.go:43-61 | the final record of a node depends only on commands addressing it |
| Catalog.CommittedIff | internal/metadata/fsm.go:33-42 | a key is present exactly when its last put has no later delete, committed exactly when a commit follows that put too |
| History.NodeKnownIff | internal/metadata/fsm.go:43-46 | a node is known exactly when the log ever registers it |
| History.NodeHistory | internal/metadata/fsm.go:43-61 | after any log, a node has the address of its last registration, the sizes and time of its last registration or heartbeat, and the status the last command about it gives: as registered, up after a heartbeat, down after a mark-down |
| History.NodeUpIff | internal/metadata/fsm.go:47-61 | a known node is up exactly when the last command about it is a heartbeat or a registration that says so |
| History.EntryHistory | internal/metadata/fsm.go:33-36 | after any log, an entry is the one last put, but for replica lists: each is that of the last update of its id since, or the one put when there is none |
| Catalog.NodeInfo.FreeBytes | internal/metadata/types.go:29-35 | free and used space add up to the total, and free space is never negative, whatever a node reports |
| Fsm.EntryRecord.RetargetFragments | internal/metadata/fsm.go:63-68 | in place, the fragments with the id get the new list, all others stay |
| Fsm.EntryRecord.ShallowCopy | internal/metadata/fsm.go:108-110 | the copy is a new object over the same fragments array |
| Fsm.EntryRecord.FromValue | internal/metadata/fsm.go:33-36 | a decoded entry has its value, in an array of its own |
| Fsm.NodeRecord.FromValue | internal/metadata/fsm.go:43-46 | a decoded node record has its value |
| Fsm.Machine.constructor | internal/metadata/fsm.go:18-20 | an empty catalog in fresh objects |
| Fsm.Machine.UpdateOne | internal/metadata/fsm.go:63-68 | retargeting one entry leaves every other entry alone |
| Fsm.Machine.Snapshot | internal/metadata/fsm.go:75-84 | every entry and node record written out under its key, and no others |
| Fsm.Machine.Put | internal/metadata/fsm.go:33-36 | the entry is stored under its own key; all else stays |
| Fsm.Machine.Commit | internal/metadata/fsm.go:37-40 | sets the flag of a present key; all else stays |
| Fsm.Machine.Delete | internal/metadata/fsm.go:41-42 | the key is gone; all else stays |
| Fsm.Machine.Register | internal/metadata/fsm.go:43-46 | the node record is replaced; all else stays |
| Fsm.Machine.Beat | internal/metadata/fsm.go:47-55 | a known node gets the beat's sizes and time and is up; an unknown one changes nothing |
| Fsm.Machine.MarkDown | internal/metadata/fsm.go:56-61 | a known node is down, unconditionally |
| Fsm.Machine.Update | internal/metadata/fsm.go:62-69 | in any map order, every entry gets its matching fragments retargeted |
| Fsm.Machine.Apply | internal/metadata/fsm.go:23-72 | the object moves as the catalog function says and stays free of sharing |
| Fsm.Machine.ApplyAll | internal/metadata/fsm.go:23-72 | likewise for any stretch of the log |
| Fsm.Machine.Restore | internal/metadata/fsm.go:87-97 | the state of the snapshot, in objects that are all new, whatever the object held before |
| Fsm.FreshEntries | internal/metadata/fsm.go:89-95 | decoded entries are new objects, no two sharing a fragments array |
| Fsm.FreshNodes | internal/metadata/fsm.go:89-95 | likewise for node records |
| Fsm.Clone | internal/metadata/fsm.go:75-97 | restoring a snapshot elsewhere gives an equal state that shares nothing and leaves the original alone |
| Fsm.Follow | internal/metadata/fsm.go:23-72 | two machines that share nothing follow the same log without disturbing each other |
| Fsm.Machine.GetKey | internal/metadata/fsm.go:101-111 | found exactly when present, as a new object sharing the fragments array |
| Fsm.CatchUp | internal/metadata/fsm.go:75-97 | a replica restored at any cut and fed the rest of the log ends where the original does, sharing no object with it |
| Fsm.CopySharesFragments | internal/metadata/workers.go:188-197 | updates show through an earlier copy, commits do not |
| Planner.CountIsCeiling | internal/metadata/store.go:159-162 | the fragment count is the size over the chunk size rounded up, one for an empty value, as long as rounding up stays within 64 bits |
| Planner.CountExact | internal/metadata/store.go:159-162 | the count for every size, overflow or not: one when the wrapped, rounded-up size is within a chunk of zero, otherwise the whole chunks in it |
| Planner.SizeExact | internal/metadata/store.go:168-174 | every fragment is a full chunk, but for the last of a positive size that is no multiple of the chunk size |
| Planner.WrapCongruent | internal/metadata/store.go:159 | wrapping to 64 bits moves a sum by whole multiples of 2 to the 64th |
| Planner.PlanCoversIff | internal/metadata/store.go:159-174 | the planned sizes add up to the value's size exactly when the value is not empty |
| Planner.LastChunk | internal/metadata/store.go:168-174 | the last fragment holds what the full chunks leave over, between one byte and a full chunk |
| Planner.PlanPanicsIff | internal/metadata/store.go:159-165 | the allocation panics exactly when the wrapped, rounded-up size is minus one chunk or less, or more than the longest plan holds |
| Planner.PlansThatPanic | internal/metadata/store.go:159-165 | a size for each of the two ways to panic |
| MetaStore.Store.constructor | internal/metadata/store.go:57-73 | non-positive settings fall back to 3 replicas and 8388608 bytes; the strategy is rendezvous, weighted, or consistent hashing for every other name; the catalog is what the log left behind |
| MetaStore.Store.Propose | internal/metadata/store.go:285-303 | the proposal is on the trace; it is applied unless it was refused, and an error leaves both open |
| MetaStore.Store.TriggerReplicate | internal/metadata/workers.go:219-231 | one request is on the trace: to the target, for the fragment, naming the source; good exactly when it was granted |
| MetaStore.Store.LiveNodes | internal/metadata/store.go:306-315 | every node whose record is up, once, in some order, with the total of its record and its total less what is used, or nothing, as free space |
| MetaStore.Store.PlanFragment | internal/metadata/store.go:166-193 | id, index and size of the plan, the strategy's placement, addresses parallel to the ids, and at least one of them when a node is live |
| MetaStore.Store.Resolve | internal/metadata/store.go:176-184 | the ids of the placed nodes, in order, each with the base URL of its record |
| MetaStore.Store.PrepareKey | internal/metadata/store.go:152-208 | without live nodes, or when the plan panics, exactly on a negative or too large count, nothing is sent out; otherwise the one proposal is an entry of planned fragments that all list an address, and the key is prepared exactly when it is accepted |
| MetaStore.Store.UpdateFragmentNodes | internal/metadata/store.go:279-281 | the one proposal is the new list; it replaces the old unless it was refused |
| MetaStore.Store.FilterLive | internal/metadata/workers.go:199-207 | the live ids in list order |
| MetaStore.Store.Candidates | internal/metadata/workers.go:75-80 | exactly the live nodes not holding a live replica, in map order |
| MetaStore.Store.CopyTo | internal/metadata/workers.go:86-95 | asks the first needed candidates once each, in order, to pull from the source; the acknowledged ones are appended in order, a failed one is not replaced |
| MetaStore.Store.Ask | internal/metadata/workers.go:87-95 | the candidate is asked at its own address, to pull from the source |
| MetaStore.Store.RecoverFragment | internal/metadata/workers.go:66-101 | one fragment's recovery on any node view, within the relation of a pass, with everything it sends out |
| MetaStore.Store.RecoverFrom | internal/metadata/workers.go:86-100 | with a live replica and candidates, the rest of recovery stays within the relation of a pass, with everything it sends out |
| MetaStore.Store.CopyAndPropose | internal/metadata/workers.go:85-100 | the first candidates are asked, in order, to pull from the first live replica, and then the live replicas and the acknowledged copies are proposed |
| MetaStore.Store.RecoverEntry | internal/metadata/workers.go:67-101 | one entry's fragments in turn, with everything sent out for them, no other entry touched |
| MetaStore.Store.RecoverUnderReplicated | internal/metadata/workers.go:58-103 | the whole pass over all entries in map order is a recovery pass, with everything it sends out, in order; when nothing fails nothing is owed at the end |
| MetaStore.Store.FirstLive | internal/metadata/workers.go:149-155 | the address of the first listed live node, empty when there is none |
| MetaStore.Store.LiveMap | internal/metadata/workers.go:133-138 | exactly the nodes whose record is up, each under its id |
| MetaStore.Store.CopyOne | internal/metadata/workers.go:148-166 | a missing node is asked exactly when a source has an address and the node is live, at its own address, to pull from the first listed live node |
| MetaStore.Store.KeepCurrent | internal/metadata/workers.go:171-177 | the desired ids that hold the fragment, in placement order |
| MetaStore.Store.CopyMissing | internal/metadata/workers.go:139-169 | with a source, asks exactly the desired live nodes that lack the fragment, in order, to pull from it; the current set gains exactly those that acknowledged |
| MetaStore.Store.RebalanceFragment | internal/metadata/workers.go:126-181 | one fragment's rebalance towards its placement on any node list, whatever is live now, with everything it sends out |
| MetaStore.Store.RebalanceTo | internal/metadata/workers.go:132-180 | towards given nodes: the requests, and then always the proposal of the desired nodes that hold the fragment |
| MetaStore.Store.RebalanceEntry | internal/metadata/workers.go:125-181 | one entry's fragments in turn, with everything sent out for them, no other entry touched |
| MetaStore.Store.RebalanceAll | internal/metadata/workers.go:116-184 | the whole pass is a rebalance pass, with everything it sends out, in order; with a source for every fragment and nothing failing every fragment ends on its placement; without live nodes nothing happens |
| Repair.PlacementIsGood | internal/metadata/store.go:175-176 | a placement lists min(RF, live) different nodes whose records are up, so at least one when any is |
| Repair.PlacementUnique | internal/metadata/store.go:306-315 | when no tie reaches the RF best there is one placement per node view |
| Repair.DominatedNeverPlaced | internal/metadata/types.go:29-43 | under the weighted strategy a live node is on no placement when RF other live nodes each have more than twice the free space that its record tells |
| Repair.RecoveredPays | internal/metadata/workers.go:68-96 | recovery of a fragment asks for exactly what is owed, and what is acknowledged is no longer owed |
| Repair.RecoveredKeeps | internal/metadata/workers.go:66-101 | recovery keeps lists duplicate-free and within RF, drops no live replica, leaves a fragment with none live alone |
| Repair.RebalancedKeeps | internal/metadata/workers.go:171-177 | rebalance keeps lists duplicate-free, adds only acknowledged nodes, keeps listed nodes that are still wanted |
| Repair.RebalanceEmptiesIff | internal/metadata/workers.go:149-180 | a list is emptied exactly when nothing on it is wanted and no copy was acknowledged |
| Repair.RebalanceSafeIff | internal/metadata/workers.go:139-180 | before the pass: the list is sure not to be emptied, whatever copies fail, exactly when some listed node is still wanted |
| Repair.RebalanceAsksIff | internal/metadata/workers.go:149-158 | with a wanted live node missing and some listed live node addressed, copies are asked for exactly when the first listed live node has an address |
| Repair.UnaddressedSourceEmpties | internal/metadata/workers.go:149-180 | nodes, list and placement for which nothing is copied and the list is emptied, though a listed node is live and has an address |
| Repair.RebalancedFully | internal/metadata/workers.go:144-177 | with a source and all copies acknowledged the list becomes the placement |
| Repair.RebalancedInPlace | internal/metadata/workers.go:144-177 | a fragment already on its placement costs no copy and stays |
| Repair.PlacementAfterJoin | internal/metadata/workers.go:107-114 | after a node joins or comes back every wanted node but that one was wanted before |
| Repair.StepKeepsGoodLists | internal/metadata/fsm.go:23-72 | every other command keeps all lists duplicate-free, within RF and on registered nodes |
| Repair.RecoveryKeepsGoodLists | internal/metadata/workers.go:58-103 | so does a recovery pass |
| Repair.RebalanceKeepsGoodLists | internal/metadata/workers.go:116-184 | so does a rebalance pass |
| Repair.RecoveryConserves | internal/metadata/workers.go:58-103 | over the whole catalog a pass asks for exactly the copies owed, and the amount owed falls by exactly those that landed |
| Repair.RecoveryCompletes | internal/metadata/workers.go:58-103 | when nothing fails, nothing is owed afterwards |
| Repair.RecoverySucceeds | internal/metadata/workers.go:58-103 | in terms of what was sent out: when no request and no proposal of the pass failed, nothing is owed afterwards |
| Repair.ScaleOut | internal/metadata/workers.go:116-184 | after one node joins or comes back each fragment is copied at most once, only to that node, and ends on the new placement when the copies succeed |
| Repair.FlawlessReachesPlacement | internal/metadata/workers.go:116-184 | a pass with a source for every fragment and no failure leaves every list on its placement |
| Repair.RebalanceSucceeds | internal/metadata/workers.go:116-184 | in terms of what was sent out: with a source for every fragment and no failed request or proposal every fragment ends on its placement |
| Repair.RebalanceFixpoint | internal/metadata/workers.go:116-184 | a pass over lists already on placement asks for no copy and changes nothing |
| Repair.SecondRebalanceIdle | internal/metadata/workers.go:116-184 | a second pass over the same nodes after a flawless one asks for nothing and changes nothing |
| Headers.ReplicaAddrs | internal/transport/storaged_server.go:95-104 | the addresses are the trimmed, non-empty parts of the header, in order |
| Headers.TrimsPadding | internal/transport/storaged_server.go:99-103 | blanks around an address are dropped and nothing else is |
| Headers.HeaderRoundTripIff | internal/transport/storaged_server.go:92-104 | the joined addresses come out of the header unchanged exactly when each is clean |
| Headers.ScanShown | internal/transport/storaged_server.go:234-244 | a printed 64-bit number is scanned back |
| Headers.ScansNumber | internal/transport/storaged_server.go:238-239 | a number is scanned after blanks, with or without a sign, whatever follows it, unless it does not fit 64 bits |
| Headers.ScansNothing | internal/transport/storaged_server.go:234-244 | a header that does not start like a number gives the default of 2 |
| Headers.QuorumHeaderIff | internal/transport/storaged_server.go:234-244 | the handler works with the client's write quorum exactly when it is positive; any other becomes 2 |
| Quorum.StepKeepsInv | internal/transport/storaged_server.go:105-112 | each goroutine step keeps the counter, the mutex and the holders in agreement |
| Quorum.CounterIsConfirmedIff | internal/transport/storaged_server.go:107-111 | the servers the counter stands for are holders, never more than it says, and exactly as many when no counted address repeats |
| Quorum.HoldersCounted | internal/transport/storaged_server.go:96-119 | with different addresses a checked 201 means W holders |
| Quorum.RunKeepsInv | internal/transport/storaged_server.go:96-115 | in every interleaving the counter is one plus the goroutines that counted, and each of those replicas holds the bytes |
| Quorum.QuorumSound | internal/transport/storaged_server.go:91-121 | on every schedule the primary and every counted replica hold the bytes, even when answers are lost; with different addresses the counter never exceeds the holders and a checked 201 means W of them |
| Quorum.QuorumSoundIff | internal/transport/storaged_server.go:91-121 | the counter is honest on every schedule, and every checked 201 means W holders, exactly when the addresses are all different |
| Quorum.RepeatedAddressOvercounts | internal/transport/storaged_server.go:99-113 | with a repeated address there is a run whose 201 claims more servers than hold the bytes |
| Quorum.QuorumServersIff | internal/transport/storaged_server.go:91-121 | whatever servers the addresses lead to, the counter never exceeds the servers that hold the bytes, on any schedule, exactly when those servers are all different |
| Quorum.QuorumUncheckedIff | internal/transport/storaged_server.go:94-121 | without a header a 201 promises W holders only for W at most one |
| Quorum.RefusedIff | internal/transport/storaged_server.go:115-119 | the handler refuses exactly when fewer than W writes were confirmed: no increment is lost |
| Quorum.NeverStuck | internal/transport/storaged_server.go:98-114 | while a goroutine is unfinished some step is possible |
| Quorum.RunsAreBounded | internal/transport/storaged_server.go:98-114 | every schedule is finite, so the wait ends |
| Quorum.FateDecides | internal/transport/storaged_server.go:96-119 | the schedule does not matter: exactly the acknowledged writes are counted, and exactly those that arrived hold the bytes |
| Quorum.AnySetCounted | internal/transport/storaged_server.go:107-112 | for every set of goroutines some schedule ends with exactly that set counted, and any of the others holding the bytes too: requests and answers are lost in every combination |
| Quorum.PutFragment | internal/transport/storaged_server.go:73-122 | under any schedule, and whatever becomes of the requests, the handler ends with exactly the acknowledged writes counted, and answers 201 exactly when no header came or, with its own, they are W |
| Client.UploadFragment | cmd/kvctl/main.go:308-337 | the first address is the target, the rest reach the handler intact exactly when clean, so does a positive quorum; good exactly on a 201 |
| Client.DownloadFragment | cmd/kvctl/main.go:340-370 | the body of the first address that answers; an error exactly when none does |
| Protocol.ExecKeepsInv | internal/metadata/workers.go:58-184 | every step of the system keeps the catalog, the history, the stored bytes and every worker in order |
| Protocol.ExecGrows | internal/metadata/workers.go:58-184 | no step forgets a registration, a plan or a stored fragment |
| Protocol.ExecKeepsPuts | internal/transport/storaged_server.go:73-122 | every step keeps each upload on the addresses its header carries, with its holders holding the bytes |
| Protocol.RunKeepsInv | internal/metadata/workers.go:58-184 | so does every run; registrations, plans and stored fragments only grow |
| Protocol.WrittenIsGood | internal/metadata/workers.go:86-177 | however stale its view, a worker writes back a duplicate-free list within RF of registered nodes that were planned or acknowledged a copy |
| Protocol.CatalogSound | internal/metadata/workers.go:58-184 | in every reachable state every replica list is such a list, the acknowledging nodes still serve the written bytes, and every fragment lists its planned addresses, at least one |
| Protocol.CataloguedNodesHold | internal/metadata/fsm.go:62-69 | once every planned server holds a fragment, every catalogued node holds it, byte for byte |
| Durability.ReadDurability | cmd/kvctl/main.go:340-370 | a fragment whose upload was answered 201 at quorum W is read back exactly, after any run, while fewer than W of its planned addresses are unreachable; the addresses are different and clean |
| Durability.AcknowledgedByAllHold | internal/metadata/fsm.go:62-69 | an upload acknowledged by as many servers as there are addresses: after any run every catalogued node holds the fragment |
| Durability.ReadableIff | internal/metadata/fsm.go:62-69 | in every reachable state a read returns the written bytes exactly when a planned address is reachable and holds the fragment, whatever copies were made elsewhere |
| Durability.RecoveredCopyUnread | internal/metadata/fsm.go:62-69 | a run after which a catalogued, reachable node holds the fragment and the read still fails |
| PassRuns.PrepareKeyFits | internal/metadata/store.go:152-208 | what PrepareKey computes is a prepare step of the state machine |
| PassRuns.RequestIsCopy | internal/metadata/workers.go:219-231 | a granted request makes the server it is sent to store what the server it names serves, and no other server or fragment is affected |
| PassRuns.WorkerRun | internal/metadata/workers.go:66-101 | a worker that begins, makes its copies and writes back is a run, with that effect on the catalog and those requests |
| PassRuns.RecoveryIsRun | internal/metadata/workers.go:58-103 | every recovery pass is the catalog's share of some run of workers whose copies and write-backs are, in order, the requests and proposals the pass sends out, given that the sources of acknowledged copies served the fragment |
| PassRuns.RebalanceIsRun | internal/metadata/workers.go:116-184 | so is every rebalance pass |
| Layout.ChunksConcat | internal/fragment/fragment.go:43-67 | the chunks joined give the value back |
| Layout.Reader.Read | internal/fragment/fragment.go:44 | a reader hands out its next bytes in pieces of any size, none at all only finitely often |
| Layout.Reader.ReadFull | internal/fragment/fragment.go:44 | however reads are broken up the buffer fills with the next bytes; a short fill reports the reader's end |
| Layout.Split | internal/fragment/fragment.go:35-69 | the chunks are the value cut every chunk size, up to the first the callback refuses; the plan lists them with ids, indices, sizes and their total; the errors are exactly a refusal and a reader fault |
| Layout.Assemble | internal/fragment/fragment.go:73-84 | the fetched bodies in order; an error exactly when one cannot be fetched or written |
| Layout.AssembleSplit | internal/fragment/fragment.go:35-84 | assembling what was split is the identity |
| Layout.ChunkAt | internal/fragment/fragment.go:43-60 | chunk i is the value's bytes from i chunk sizes on |
| Layout.ChunkCount | internal/fragment/fragment.go:43-60 | a non-empty value has its size over the chunk size, rounded up, chunks |
| Layout.PlannerEqualsSplitterIff | internal/metadata/store.go:158-193 | planner and splitter agree on count and sizes exactly when the value is not empty |
| Layout.PlanMatchesSplitIff | internal/metadata/store.go:185-192 | so do the fragment infos: same ids, indices and sizes |
| Layout.PutValue | experiments/harness/harness.go:548-557 | each fragment with an address gets the splitter's chunk, or the one empty body of an empty value; one without is skipped |
| Layout.OffsetSlicesAreChunks | experiments/harness/harness.go:548-554 | each offset slice is the splitter's chunk of that index |
| Layout.EmptyValue | internal/metadata/store.go:160-162 | on an empty value planner, splitter and the offset client part ways |
| Layout.CollectAndWrite | cmd/kvctl/main.go:136-162 | in any order of arrival the output is the bodies in index order; an error exactly when a read or a write failed |
| Layout.CmdPut | cmd/kvctl/main.go:71-97 | planned fragment i gets chunk i, however the file is read; an error exactly on a read fault, a chunk out of range exactly when more is planned than was split |
| Layout.PutOutOfRangeIff | cmd/kvctl/main.go:87-90 | planned for the file's size, that happens exactly on an empty file, and otherwise every chunk is uploaded |
| Layout.CopyInto | experiments/harness/harness.go:659 | the bytes from the offset on are the body's, as far as both reach; all others stay |
| Layout.WriteChunk | experiments/harness/harness.go:653-660 | a goroutine's copy writes its own chunk and no other byte |
| Layout.FetchFragment | experiments/harness/harness.go:632-652 | a body exactly when an address answers, the first that does; neither body nor error exactly without addresses |
| Layout.GetValue | experiments/harness/harness.go:618-669 | in any order of completion: an error exactly when some fragment's addresses all fail, and otherwise the value, when every fragment lists an address |
| Layout.ReadersAgree | experiments/harness/harness.go:618-669 | on an entry whose fragments all list an address both clients succeed on the same occasions, with the value |
| EndToEnd.KvctlPut | cmd/kvctl/main.go:65-97 | a put fails for want of a chunk exactly on an empty file, and otherwise the file's chunks are on record for the entry's fragments |
| EndToEnd.RoundTrip | cmd/kvctl/main.go:65-162 | put, any run, every fragment acknowledged at quorum W, any run with fewer than W of its addresses unreachable at the end: the reads all succeed and join up to the value |
| EndToEnd.KvctlGet | cmd/kvctl/main.go:136-162 | with every fragment of a value acknowledged at quorum W and fewer than W of its addresses unreachable, what kvctl writes out after any run is the value |
| EndToEnd.HarnessGet | experiments/harness/harness.go:600-670 | so is what GetValue returns |
| LocalStore.CollisionFreeIff | internal/storage/storage.go:177-180 | a set of fragments shares no file exactly when no two have keys alike but for "/" and "_" |
| LocalStore.FragmentIDsCollisionFree | internal/metadata/server.go:42-44 | fragments of slash-free keys never share a file |
| LocalStore.AgreementKeptIff | internal/storage/storage.go:69-132 | an operation keeps files, index and the plain map in agreement exactly when it is not a failed overwrite that changed the bytes or a half delete |
| LocalStore.SafeUnderFaultsIff | internal/storage/storage.go:69-132 | before the call: a put or delete keeps the agreement whatever goes wrong exactly when its id is not indexed |
| LocalStore.StoreRefinesMap | internal/storage/storage.go:69-132 | over any run of such operations the store is the plain map |
| LocalStore.BeforeIff | internal/storage/storage.go:148-157 | the index order: a proper start comes first, otherwise the lower character at the first difference decides |
| LocalStore.UsageIsStored | internal/storage/storage.go:160-173 | the indexed sizes add up to the stored lengths |
| LocalStore.Store.constructor | internal/storage/storage.go:41-61 | opening finds what the directory and the index hold |
| LocalStore.Store.Put | internal/storage/storage.go:69-91 | files and index after success and after each kind of failure, whatever a failed write leaves behind |
| LocalStore.Store.Delete | internal/storage/storage.go:125-132 | likewise; a missing file is no failure |
| LocalStore.Store.Get | internal/storage/storage.go:94-106 | what the plain map holds, or not found, or a read error |
| LocalStore.Store.GetStream | internal/storage/storage.go:109-122 | likewise, with the stored length while files and index agree |
| LocalStore.Store.List | internal/storage/storage.go:148-157 | every indexed id once, in the order of the index |
| LocalStore.Store.DiskUsage | internal/storage/storage.go:160-173 | the sum of the indexed sizes, which is that of the stored lengths while files and index agree |

## Left out

- Raft consensus, elections, the log store and the transport: one totally ordered log is taken as given.
- HTTP routing, status codes, JSON, YAML and bolt encoding: requests are calls, encoded values are copied values.
- SHA-256 and IEEE floating point: hashes are parameters, scores are exact reals; statistical balance is not stated.
- 64-bit overflow of the free-space and disk-usage totals: both are exact integers here.
- Clocks, tickers, creation times and the failure detector's threshold: a mark-down is a step that may happen at any time.
- The metadata store's one-line proposals (internal/metadata/store.go:211-276): they wrap one log command each; the status and time that a registration gets by default are not stated.
- Metrics, command-line output, experiment scenarios and plots.
- Two writers of one fragment with different bytes, and preparing a key again while its old fragments exist: ids are reused across versions and the code promises nothing then, so the protocol prepares each fragment id once.
- Deleting fragments from the nodes within a run: nothing in the catalog or the passes does it.
- Crashes in the middle of an overwrite; in the protocol a copy is stored whole or not at all.
- Durability.ReadDurability: a base URL stands for its server, in the protocol and in all that is said of its runs.
- Planner.PlanPanicsIff: running out of memory below the longest allocatable plan ends the process and is not stated.
- Layout.Reader.Read: a reader that keeps coming back with nothing keeps the splitter waiting.
- MetaStore.Store.Propose: an update that commits after its proposer has given up is a later write-back of the protocol.
- MetaStore.Store.RecoverEntry: with no other command in between; the protocol's workers interleave with everything.
- MetaStore.Store.RecoverUnderReplicated: likewise.
- MetaStore.Store.RebalanceEntry: likewise.
- MetaStore.Store.RebalanceAll: likewise.
