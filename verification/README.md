# A verified model of a versioned sparse Merkle tree

This project models the sparse Merkle tree of `zkbnb-smt` in Dafny and proves what its
documentation promises. The tree is logically binary, with one hash for each bit of the key, but
sixteen-way in memory and in the store: every node packs four binary levels into fourteen internal
slots and up to sixteen children, and keeps a list of `(version, hash)` pairs. Changes are made on
copies of nodes that wait in a journal; a commit writes the journal to a key-value store as a new
version, nodes are read back from the store when they are needed, and old versions can be read,
pruned, rolled back to, and released from memory.

Everything is measured against one plain definition, `MerkleSpec.BinHash`: the root of a binary
Merkle tree of fixed depth over a map from leaf index to leaf hash. On top of it stands a plain
history, a sequence of such maps, one for each version.

## How the project is built

| File | What it holds |
|---|---|
| `merkle_spec.dfy` | the binary Merkle tree, nil hashes, node keys and how they nest |
| `packed_node.dfy` | the fourteen slots of a node as four levels of the binary tree |
| `version_list.dfy` | version lists: lookup, publish, prune, truncate |
| `shared_list.dfy` | version lists as slices that share their cells, and why lists may be taken for values |
| `database.dfy` | the memory store and its write batch |
| `tree_node.dfy` | the node object and its methods |
| `history.dfy` | what a store must hold so that every version on offer can be read, and why commit and rollback keep it so |
| `node_state.dfy` | what a node object in memory must hold, node by node |
| `pending_update.dfy` | setting one leaf |
| `committing.dfy` | what a commit writes; releasing memory |
| `rolling_back.dfy` | taking a subtree back to an older version |
| `proofs.dfy` | Merkle proofs |
| `multiset_protocol.dfy` | the workers of a parallel set, as a state machine over single accesses |
| `stale_sibling.dfy` | when such a set loses updates, and that the condition is exact |
| `multiset_work.dfy`, `multiset_workers.dfy`, `multiset_placing.dfy` | the parallel set on the node objects, and that its steps are steps of the state machine |
| `sparse_merkle_tree.dfy` | the tree: all operations on the heap |
| `gc_status.dfy` | the scheduler that decides which version to release |
| `runs.dfy` | whole runs of operations against the plain history |

`SparseMerkleTree.Valid()` is the invariant every operation keeps. It says nothing about paths or
reachability: each node object is judged alone, against the store (committed nodes), against the
pending snapshot (nodes of the journal), or as a placeholder for what the store holds. The ghost
fields `hist`, `floor` and `pending` are the plain history; each operation states its effect on them.
`Kept()` is the part of it that concerns what is committed. `Reset` needs no more, and reads and
checks only that the root shows the pending snapshot, so these are also described where an operation
has left the tree out of order.

`Runs` ties whole runs to this history: `Execute` says that the tree is where `Step` leads, and the
laws (`CommitLaw`, `SetLaw`, `DropLaw`, `RollbackLaw`, `LookLaw`) say what that is, without reference
to `Step`. Opening a tree again rests on what the store has: a commit and a rollback write the version
there, and the initial version a caller asks for counts only while nothing has been committed.

Points where the code has an open edge, kept as it is:

- A commit assigns the oldest version on offer without a check, so it may be lowered again. Entries
  pruned before do not come back. `floor` is the highest value it ever had. A version is in reach
  (`History.InReach`) if it is not older than `floor`, or if the list of the root begins at or before
  it, which a caller sees in the first entry of `Versions()`: the root is pruned whenever any node is,
  so from the oldest entry of the root on every node reads right (`AllInReach`, kept by
  `CommitKeepsDb`). A rollback to a version on offer gives that tree back if the version is in reach;
  the root shows the right hash if and only if it is, or the tree was empty then, and with an
  injective hash the same holds of all nodes at once (`RootBackExactly`, `AllBackExactly`).
  `Runs.LoweredRollback` is a run that ends wrong. A read below `floor` is right if and only if the list of
  the leaf begins at or before the version, or the leaf had no value (`Get`).
- The version of a commit is compared with the oldest version, if one is given, and otherwise with the
  latest; it is not compared with the version the pending changes were made for. The tree is in order
  afterwards if and only if it is not older than the newest version there are changes for
  (`CommitWithNewVersion`). Otherwise the root shows changes that no version on offer has
  (`Runs.EarlyCommit`).
- All changes between two commits have to be made for one version (`SetWithVersion` requires it); an
  entry that is not newer than the newest one breaks the order of its list
  (`VersionList.OrderKeptExactly`).
- A parallel set takes a node that carries the pending version for finished. The workers always come
  to an end and publish a root (`AllFilled`), but with an injective hash every run, with exactly one
  worker for each leaf, gives the right root if and only if no interior node of the journal lies above
  a key of the set together with its binary sibling while its hash is going to change
  (`Job.NoStaleSibling`, `MultiSetRightExactly`). Otherwise some run ends with a root that lacks all
  updates below such a node (`MultiSetCanLose`), and the nodes in memory follow that run if the
  scheduler chooses it (`MultiSetWithVersion`). `Runs.UpdatesLost` is the shortest way there: set a
  key, then set it together with a key below the sibling. Distinct keys are asked for by a comment in
  the code.
- A parallel set with a key out of range is refused, but the items before that key are under way by
  then. Their copies are dropped, yet a leaf that was pending shares its version list with its copy
  and takes the item's value, while everything above it stays. The tree is still in order if and only
  if no item that got there changes a pending leaf (`MultiSetWithVersion`, `LeftBehind`);
  `Runs.RefusedButDone` is the shortest way to a tree whose leaf and root disagree. A reset mends it
  (`Runs.MultiSetThenReset`).
- A value of length zero reads as absent when a proof is checked: the check takes the nil hash
  instead. And a proof is made for the pending tree but checked with the committed value. With an
  injective hash the tree's own proof of a key is accepted if and only if the value the check takes for
  the committed one is the value pending for that key (`Proofs.ProofCompleteExactly`); a change pending
  on another key does no harm (`PendingElsewhere`), one on the key itself does (`PendingValueFails`).
- `Get` answers that the root is empty whenever the pending root is the nil root, also for older
  versions.

## Model

| member | source | states |
|---|---|---|
| MerkleSpec.ValidLeafHasRoot | smt.go:467-469 | a key passes the range check exactly when its path begins at the root |
| MerkleSpec.BinHashFrame | docs/design.md:46 | a subtree's native hash depends on the leaves below it and on nothing else |
| MerkleSpec.BinHashEmpty | smt.go:150-159 | a subtree without leaves has the nil hash of its level, wherever it is |
| SparseMerkleTrees.ConstructNilHashes | smt.go:150-159 | the table built from the leaf level up holds the nil hash of every level |
| PackedNode.SlotIsBinHash | docs/design.md:46-47 | each of the fourteen slots is the hash of the binary subtree one, two or three levels below the node |
| PackedNode.TopIsBinHash | tree_node.go:134-137 | the hash of the first two slots is the native hash of the node's subtree |
| PackedNode.OnPathIsAncestor | tree_node.go:452-469 | a slot is in the marking table of a child exactly when it is an ancestor of the child |
| PackedNode.SlotFrame | tree_node.go:119-132 | replacing one child changes no slot outside that child's way up |
| TreeNodes.LeafInternalMap | tree_node.go:452-469 | the table lists for every child exactly the slots above it |
| TreeNodes.NilSlotsArePacked | tree_node.go:27-35 | the slots of a new node are those of a subtree without leaves |
| TreeNodes.TreeNode.constructor | tree_node.go:17-38 | a new node has no children and no versions, and the nil hash of its level in every slot, none beyond the leaves |
| TreeNodes.TreeNode.FromRecord | tree_node.go:326-353 | reading a record gives back its versions, slots and path; children with a version list become placeholders, those without are dropped |
| NodeState.RecordRoundTrip | tree_node.go:292-353 | a node stored and read back shows the same hash for itself and all its children, although children without versions are dropped |
| TreeNodes.TreeNode.Copy | tree_node.go:162-179 | the copy is a new object that shows the same; what it goes on sharing is stated by the rows of SharedLists |
| SharedLists.NodeLists.PublishOn | tree_node.go:87-94 | the new list holds the published entry; at its address nothing changes before the end of the old list, and only the last cell of it if its newest entry is overwritten |
| SharedLists.JournalChanged | tree_node.go:87-94 | no list in use is longer than the one a copy is made from, so that growing into a free cell changes none of them, and it stays so |
| SharedLists.NodeLists.Change | smt.go:474-501 | of all lists in use on shared cells exactly the one published on changes, as if lists were values |
| SharedLists.NodeLists.Drop | smt.go:529-533 | what a dropped copy has published shows in the pending list it was made from, where an entry was overwritten, and nowhere else |
| SharedLists.NodeLists.Commit | smt.go:819-834 | pending lists become committed and cached ones, pruned; again as if lists were values |
| SharedLists.NodeLists.TakeBack | smt.go:888-898 | a list is cut and the cached leaf replaced, so that no list is left that reaches further |
| SharedLists.NodeLists.Load | smt.go:371-397 | a list read from the store, for a node or for the cache, is in cells of its own and changes no other |
| SharedLists.ThroughExactly | tree_node.go:87-94 | publishing on a copy leaves the original as it was if and only if the original does not end in that version with another hash |
| PendingUpdate.ReachOriginals | tree_node.go:87-94 | what has been published on the copies shows in the nodes they were made from, where an entry was overwritten |
| TreeNodes.TreeNode.SetChildren | tree_node.go:96-138 | re-hashing three slots after replacing a child leaves all fourteen slots in agreement with the children, if they agreed before, and publishes the hash of the top two |
| TreeNodes.TreeNode.ComputeInternalHash | tree_node.go:140-160 | all fourteen slots agree with the children afterwards, whatever they held |
| TreeNodes.TreeNode.Mark | tree_node.go:181-187 | exactly the slots above the child are emptied |
| TreeNodes.TreeNode.SetInternal | tree_node.go:428-438 | a slot is filled only if it was empty; a filled one keeps its hash, and the caller is told |
| TreeNodes.TreeNode.Prune | tree_node.go:189-211 | the list is cut as the pruning rule says, and the count is the size of the dropped entries |
| TreeNodes.TreeNode.Rollback | tree_node.go:213-231 | the entries newer than the target go, the caller learns whether there were any, and the count is their size |
| TreeNodes.TreeNode.Archive | tree_node.go:235-243 | slots and children are emptied, the versions stay, the node becomes a placeholder |
| VersionList.PublishTwice | tree_node.go:87-94 | of two publications of one version only the last remains: publishing the same hash twice is idempotent |
| VersionList.LookupFinds | smt.go:452-456 | a read finds the newest entry not newer than the version, and nothing exactly if all entries are newer |
| VersionList.PruneKeepsLookups | tree_node.go:189-211 | reads at the oldest version on offer and later do not change |
| VersionList.PruneKeepsFrom | tree_node.go:189-211 | from its oldest entry on a pruned list answers as before |
| VersionList.OrderKeptExactly | smt.go:810-817 | a list stays in order if and only if the new entry is newer than the newest one |
| VersionList.PruneIsTight | tree_node.go:189-211 | at most one kept entry is not newer than the oldest version; the newest entry always stays |
| VersionList.PruneOnlyDropsSuperseded | tree_node.go:189-211 | a dropped entry was superseded at or before the oldest version |
| VersionList.PruneKeepsExactly | smt.go:862-864 | a read below the oldest version survives pruning if and only if it found nothing or found what a read at the oldest version finds |
| VersionList.LoweredWindow | smt.go:862-864 | the list that two commits and a third with the second as the oldest version leave cannot be read at the first any more |
| VersionList.TruncateKeepsLookups | tree_node.go:213-231 | after a rollback reads up to the target are unchanged and later ones answer what the target answered |
| Database.Batch.Set | database/memory/memorydb.go:109-113 | the value will be stored at the next flush, and the size grows by its length |
| Database.Batch.Delete | database/memory/memorydb.go:116-120 | the key will be missing after the next flush |
| Database.Batch.Write | database/memory/memorydb.go:123-135 | the store becomes what the replayed writes make of it, later writes winning |
| History.ChainVersions | docs/design.md:56 | at every readable version a node is at least as new as everything below it |
| History.QuietSubtree | docs/design.md:56 | where a node did not change between two versions, no leaf below it did |
| History.CommitKeepsDb | smt.go:802-886 | however the journal's nodes were ordered, after the commit every version on offer, old or new, reads as its snapshot at every node |
| History.AllInReach | smt.go:416-422 | wherever the list of the root can be read, every node reads right and none is older than a child |
| History.NothingBetween | tree_node.go:189-211 | pruning drops no entry that a read below the oldest version needs, as long as the root can be read there: a node has no newer entry where the root has none |
| History.ReadsExactly | smt.go:452-458 | a node reads right at a version if and only if its list can be read there, or it was empty |
| History.CommitKeepsRecord | smt.go:773-792 | a stored record agrees with its children's newest entries although a child may be pruned after its parent was stored |
| History.RollbackKeepsDb | smt.go:936-981 | once every node has been taken back, every version up to the target reads as before |
| NodeState.TreeState.LiveRoot | docs/design.md:46-47 | the root of every node of the pending tree is the native binary hash of the pending leaves below it |
| NodeState.TreeState.PendingChildRoots | smt.go:490-500 | the slots of every pending node are the packed hashes of its children |
| NodeState.TreeState.CleanIsPending | smt.go:466-503 | a committed node that no pending change touched is at the same time right for the pending tree |
| NodeState.NewcomersSaved | smt.go:371-397 | a node read from the store, or made because there is none, is a right node of the committed tree, and so are the placeholders below it |
| NodeState.ExtensionKeeps | smt.go:371-397 | putting such a node below its parent leaves every other node as right as it was |
| PendingUpdate.OffPath | smt.go:494-500 | setting a leaf changes no hash and no slot off its path |
| PendingUpdate.SetKeepsNodes | smt.go:494-501 | with the rebuilt path in the journal all nodes fit the new pending snapshot |
| PendingUpdate.RebuildNode | tree_node.go:96-138 | a copied path node that takes its rebuilt child becomes right for the new snapshot |
| PendingUpdate.RebuildNodes | smt.go:490-502 | the loop from the leaf to the root leaves the journal with every path node right |
| Committing.CommitKeepsNodes | smt.go:819-874 | after the journal has been written, its nodes and the untouched old ones together are right for the new version |
| Committing.RecordOfNode | smt.go:778-786 | the record of a pruned journal node describes the node in the new snapshot, its children pruned or not |
| Committing.Release | tree_node.go:264-284 | below the node no stale node is left in memory: in place of one there is a placeholder, and every node that is not stale has been dealt with in the same way; only stale nodes have been emptied, and all nodes stay right for the same tree: what is dropped can be read again |
| Committing.HandledIsSwept | tree_node.go:269-281 | a set of nodes of which each has its stale children emptied and its other children in the set leaves nothing stale below any of them |
| RollingBack.QuietNodes | smt.go:888-893 | stopping at a node that is no newer than the target is sound: everything below is already as it was then |
| RollingBack.TurnedHash | smt.go:890-893 | after dropping newer entries a node shows what a read at the target version found |
| RollingBack.RootBackExactly | smt.go:936-981 | after a rollback the root shows the hash of the target version if and only if that version is in reach or was empty |
| RollingBack.AllBackExactly | smt.go:936-981 | with an injective hash the same condition decides whether every node does |
| RollingBack.RecordBack | smt.go:900-925 | the record stored for a rolled-back node has the slots and children that its children's lists show at the target version |
| RollingBack.AllTurned | smt.go:936-969 | once the root's subtree is done every list in the store is cut, and if the target is in reach, store and nodes stand for the history up to it |
| SparseMerkleTrees.InitFromStorage | smt.go:324-369 | version window and root node are recovered from the store |
| SparseMerkleTrees.SparseMerkleTree.constructor | smt.go:94-148 | a tree opened on a store stands for the same snapshots, window and pending leaves as the tree that wrote it |
| SparseMerkleTrees.SparseMerkleTree.LoadChild | smt.go:371-397 | the child is kept, read from the store, created, or left alone, as the cases of the code say |
| SparseMerkleTrees.SparseMerkleTree.ExtendNode | smt.go:371-397 | the child is in memory afterwards and the tree stands for the same history, pending or not |
| SparseMerkleTrees.SparseMerkleTree.CopyPath | smt.go:474-490 | the copies are those of the path's nodes, and the tree itself is unchanged |
| SparseMerkleTrees.SparseMerkleTree.SetWithVersion | smt.go:466-503 | key and version errors as in the code; otherwise exactly the one leaf of the pending snapshot changes, and no committed one |
| SparseMerkleTrees.SparseMerkleTree.Set | smt.go:461-463 | the same for the next version |
| SparseMerkleTrees.SparseMerkleTree.LetGo | smt.go:490-501 | the nodes replaced in the journal still change through shared lists, and the tree is as right as without |
| SparseMerkleTrees.SparseMerkleTree.RootHash | smt.go:631-633 | the root hash is the native binary root of the pending snapshot |
| SparseMerkleTrees.SparseMerkleTree.IsEmpty | smt.go:627-629 | true exactly when the pending snapshot's root is the nil root |
| SparseMerkleTrees.SparseMerkleTree.Get | smt.go:403-459 | the errors in the code's order; a key without a record is not found, and no other; otherwise the answer, from the cache or the store, is the value in that snapshot if and only if the list can be read there or the key had none, and always where the root can be read; whatever is pending |
| SparseMerkleTrees.SparseMerkleTree.ReadLeaf | smt.go:425-458 | the newest entry of the stored list not newer than the version, the nil hash if all are newer, and not found if and only if the store has no record of the leaf; a leaf that was found is cached |
| SparseMerkleTrees.SparseMerkleTree.GetProof | smt.go:635-680 | the sibling hashes of the key in the pending snapshot, leaf level first, also for absent keys; in an empty tree the nil hashes of all levels, for every key, in range or not |
| Proofs.ProofEntries | smt.go:635-680 | one entry for each level: the hash of the subtree beside the key's way there, or the nil hash of the level in an empty tree |
| SparseMerkleTrees.SparseMerkleTree.SlotSiblings | smt.go:658-666 | the three slots read inside a node are the sibling hashes of the key's three levels |
| SparseMerkleTrees.SparseMerkleTree.VerifyProof | smt.go:682-738 | accepted exactly if hashing up from the value a read finds at the newest version on offer along the key's bits gives the root; whatever is pending or was committed early |
| SparseMerkleTrees.Directions | smt.go:695-719 | the helper bits are the bits of the key, leaf level first |
| SparseMerkleTrees.ClimbUp | smt.go:724-735 | hashing with the proof's entries along the helper bits leads to the root the proof claims |
| SparseMerkleTrees.ReadAt | smt.go:452-456 | the loop from the newest entry back finds what the lookup finds |
| Proofs.SiblingSlot | smt.go:658-666 | the slot index the code computes is that of the sibling on the key's way |
| Proofs.SiblingInSlot | smt.go:664 | what that slot holds is the hash of the sibling subtree |
| Proofs.DirectionBits | smt.go:698-718 | the nibble divisions give the key's bits at the four levels |
| Proofs.Reverse | utils/utils.go:24-36 | the list is reversed |
| Proofs.ProofComplete | smt.go:635-738 | the tree's own proof of a key is accepted, present or absent and whatever is pending, if the value taken for the committed one is the pending one |
| Proofs.ProofCompleteExactly | smt.go:687-693 | with an injective hash, accepted if and only if that is so |
| Proofs.CommittedProofExactly | smt.go:691-693 | with nothing pending, accepted if and only if the value is not the empty byte string, or that is the nil leaf, or the tree is empty |
| Proofs.PendingValueFails | smt.go:687 | after committing one value and setting another no proof of the key is accepted |
| Proofs.PendingElsewhere | smt.go:687 | a change pending on another key does no harm |
| Proofs.ProofUnique | smt.go:682-738 | with an injective hash the proof the tree returns is the only one it accepts, whatever is pending, and only where committed and pending value agree |
| Proofs.ProofBinds | smt.go:724-737 | with an injective hash a proof leads to the root from the committed value only |
| Proofs.HashFixesLeaves | docs/design.md:46 | with an injective hash the hash of a subtree fixes every leaf below it |
| SparseMerkleTrees.SparseMerkleTree.WriteJournal | smt.go:824-834 | in any order and with any batch size limit every journal node is pruned and stored, and every leaf that stays in the cache agrees with the store |
| SparseMerkleTrees.SparseMerkleTree.WriteNode | smt.go:764-795 | one node is pruned and its record put into the batch, which is flushed when it has outgrown the limit, so that it never stays larger; a leaf enters the cache |
| SparseMerkleTrees.SparseMerkleTree.CommitWithNewVersion | smt.go:802-886 | the version errors, which change nothing; otherwise the history gains the pending snapshot from the version on it was made for, skipped versions repeat the one before, all older snapshots stay readable from the oldest version on; the store has the new version, the oldest one if given, a pruned list with the new entry for every node of the journal and the old list for every other; nothing stale is left in memory below a released version; and the tree is in order if and only if the new version is not older than the newest one there are changes for |
| SparseMerkleTrees.SparseMerkleTree.Commit | smt.go:797-799 | the same for the next version: in order if and only if the changes were made for it |
| SparseMerkleTrees.SparseMerkleTree.ReleaseNodes | smt.go:867-869 | whatever version is released, nodes and cache stand for the same tree, no stale node is left below the root, and no other node has been emptied |
| SparseMerkleTrees.SparseMerkleTree.Reset | smt.go:758-762 | the pending snapshot is the last committed one again, whatever state the pending nodes are in |
| SparseMerkleTrees.SparseMerkleTree.RollbackNode | smt.go:888-934 | the node's whole subtree, in store, batch, memory and cache, is as it was at the target; nothing outside it is touched |
| SparseMerkleTrees.SparseMerkleTree.Rollback | smt.go:936-981 | the version errors; otherwise every list in the store is cut, the target is stored as the latest version, every leaf keeps its record, in reach the tree stands for the history up to the target with nothing pending, and the root shows the target's hash if and only if that is in reach or was empty |
| MultiSetProtocol.StartInv | smt.go:555-563 | with one worker for each leaf every place that could be computed at once has a worker bound for it |
| MultiSetProtocol.StepInv | tree_node.go:371-444 | no step of any worker fills a wrong hash or drops a place that is ready to be computed |
| MultiSetProtocol.LookRight | tree_node.go:375-397 | a worker goes on only with two right hashes, and quits only if its parent cannot be computed yet |
| MultiSetProtocol.StepKeeps | tree_node.go:428-438 | what is filled never changes, whoever publishes it again |
| MultiSetProtocol.NothingLeft | smt.go:570-577 | when all workers have stopped, every emptied slot and every copied node holds its hash |
| MultiSetProtocol.MultiSetIsRight | smt.go:555-577 | for every order of workers and every interleaving of their steps the result is the tree of the new snapshot |
| MultiSetProtocol.AllFilled | smt.go:570-577 | also with a stale sibling in the way every emptied slot and every copied node is filled when all workers have stopped |
| MultiSetProtocol.FilledOnce | tree_node.go:428-438 | in every complete run exactly one step fills a given place |
| MultiSetProtocol.StepAdvances | smt.go:995-1014 | no worker ever waits: each of its steps brings the end nearer |
| MultiSetProtocol.MultiSetStops | smt.go:995-1014 | every run is over after at most two steps a level, plus one, for each worker |
| MultiSetProtocol.CanFinish | smt.go:570 | from every state the workers can be run to the end |
| StaleSibling.UpdatesGetLost | tree_node.go:379-382 | whenever a node to be recomputed carries the pending version with a hash that is going to change, and its sibling is recomputed too, some complete run with one worker for each leaf ends with a root that lacks all updates below such a node, which is a wrong root if the hash is injective |
| StaleSibling.RightExactly | tree_node.go:371-397 | with an injective hash every complete run with one worker for each leaf ends with the right root if and only if there is no such node |
| StaleSibling.LiftRun | smt.go:995-1014 | the workers that have nothing to do below the node make the same steps, and settle on the same root, as if nothing were set below it |
| SparseMerkleTrees.SparseMerkleTree.MultiSetCanLose | tree_node.go:379-392 | for every tree and every list of items outside the condition there is such a run; that the nodes follow it is in MultiSetWithVersion |
| SparseMerkleTrees.SparseMerkleTree.MultiSetRightExactly | smt.go:515-588 | with an injective hash the condition is exact for every tree and every list of items |
| MultiSetPlacing.StaleItems | tree_node.go:379-392 | a pending key set to another value together with a key below the sibling node: items outside the condition |
| MultiSetPlacing.NothingStamped | smt.go:520-588 | with nothing pending the condition always holds |
| MultiSetWork.SetIfNotExist | smt.go:227-241 | one copy for each node, linked below the copy of its parent |
| MultiSetWork.PlaceNode | smt.go:605-608 | the copied nodes and the emptied slots grow by exactly the node and the slots above the child |
| MultiSetWork.PlaceLeaf | smt.go:617-623 | the leaf's copy carries the new value and is linked below its parent; what shows in the leaf it was made from follows in LeaveItems and LetGo |
| MultiSetWork.FillNode | tree_node.go:428-438 | on the node object: a slot is filled once, and no other node is touched |
| MultiSetWork.PublishNode | tree_node.go:420-424 | on the node object: the hash is published, again if need be; what shows in the node it was made from follows in LetGo |
| MultiSetPlacing.MarksStep | smt.go:605-615 | one level further down, the emptied slots are exactly those on the ways of all keys so far |
| MultiSetPlacing.OrderIsIrrelevant | smt.go:520-521 | with distinct keys the order in which the items are set does not matter |
| MultiSetPlacing.SetAllMerges | smt.go:466-503 | setting items one by one overrides the snapshot at their keys and nowhere else |
| MultiSetWorkers.SeeNode | tree_node.go:379-383 | comparing versions tells whether the sibling has been published |
| MultiSetWorkers.LookBesideNode | tree_node.go:372-400 | on the nodes, the look beside a child is the step of the protocol |
| MultiSetWorkers.LookBesideSlot | tree_node.go:405-418 | the slot arithmetic of the loop leads to the sibling and the parent of the protocol |
| MultiSetWorkers.StepClimber | tree_node.go:371-426 | every atomic step on the node objects is one step of the protocol, with or without a stale sibling |
| MultiSetWorkers.RunClimbers | smt.go:555-570 | whichever worker moves next, the nodes go through a run of the protocol until all have stopped, the one the scheduler has chosen if it is complete |
| MultiSetWorkers.AllInTheEnd | smt.go:572-587 | the copies are then right nodes for the new snapshot, and so are the nodes that were pending before |
| MultiSetWorkers.OldInTheEnd | smt.go:579-583 | a pending node that was not copied fits the new snapshot as it is |
| SparseMerkleTrees.SparseMerkleTree.PlaceItems | smt.go:529-553 | in any order of single levels of all items: the copies are the ancestors of the keys, the emptied slots those above them; the items before the first key out of range are submitted, and no others |
| SparseMerkleTrees.SparseMerkleTree.LeaveItems | smt.go:531-533 | left where they are, the items show in the leaves that were pending, the root stays, and the tree is in order if and only if no value differs |
| MultiSetPlacing.DisturbingItems | smt.go:529-535 | an item that changes a pending leaf, followed by a key out of range: the failing input |
| SparseMerkleTrees.SparseMerkleTree.Placed | smt.go:546-557 | where phase one ends, phase two starts |
| SparseMerkleTrees.SparseMerkleTree.MultiSetWithVersion | smt.go:515-588 | with or without pending changes: the workers make a complete run of the protocol and the root shows what it ends with; unless a stale sibling is in the way, the tree is that of setting the items one after the other; a key out of range is reported, and then the tree is in order if and only if no item that got to its leaf changes a pending one; the committed part is never harmed |
| SparseMerkleTrees.SparseMerkleTree.MultiSet | smt.go:506-508 | the same for the next version |
| GcScheduler.StagesAscend | smt.go:243-248 | the recorded sizes increase from stage to stage |
| GcScheduler.StageOf | smt.go:261-264 | a size belongs to the stage it is recorded in |
| GcScheduler.GcStatus.Add | smt.go:257-267 | the version and size are recorded in the stage of the size, all other stages keep theirs; zero is ignored |
| GcScheduler.GcStatus.Pop | smt.go:269-295 | the version of the least recorded size that brings the tree below the threshold, otherwise of the largest; exactly the stages up to that size are forgotten, and the others keep version and size |
| GcScheduler.SomeEventRecorded | smt.go:257-295 | after any run of additions and picks, what a stage holds was added by some event and has been there since |
| GcScheduler.PickedWasAdded | smt.go:257-295 | a version that is picked was added before and not replaced or forgotten in between, and it is forgotten now |
| GcScheduler.TwoPicks | smt.go:281-302 | of two picks in a row the second takes what was recorded for a larger size, unharmed by the first |
| GcScheduler.GcStatus.Clean | smt.go:297-302 | the stages up to the index are emptied |
| Runs.Open | smt.go:94-148 | a tree opened on an empty store stands for a history without leaves up to the initial version |
| Runs.Execute | smt.go:403-981 | any sequence of changes for any version, single or parallel, commits, resets, rollbacks, reads, proofs and checks, with reopening in between from what the store has, leaves the tree where the plain history says; the laws below say where that is |
| Runs.OpenAgain | smt.go:94-148 | a tree opened on the store of another stands for its history with nothing pending, whatever initial version is asked for; and for an empty history if nothing was ever committed |
| Runs.CommitLaw | smt.go:802-886 | at the end of any run an accepted commit makes the pending snapshot the newest one, changes no older one, lets skipped versions repeat the last, and leaves nothing pending; a refused one changes nothing |
| Runs.SetLaw | smt.go:466-503 | at the end of any run a set changes one leaf of the pending snapshot and no committed one; with a key out of range or a version already taken it changes nothing |
| Runs.DropLaw | smt.go:758-762 | a reset, and opening the tree again once anything has been committed, keep the history and drop what is pending |
| Runs.RollbackLaw | smt.go:936-981 | a rollback to a version on offer cuts the history after it and drops what is pending; any other changes nothing |
| Runs.LookLaw | smt.go:403-738 | reads, proofs and checks change nothing |
| Runs.SetThenCommit | smt.go:461-886 | after setting a key and committing, the newest snapshot has its value, every other key keeps what was pending for it, and older snapshots stay |
| Runs.WriteThenRead | smt.go:403-886 | on the tree itself: after any run, setting a key and committing, a read of the key finds the value |
| Runs.RunBacked | smt.go:819-834 | if every key with a value in some snapshot has a record, or will have one with the next commit, it is so after any run |
| Runs.RunUntold | smt.go:435-439 | a key without a record that no operation of a run sets has none after it |
| Runs.ReadAfter | smt.go:403-459 | after any run a read at a version on offer and in reach gives the value of that snapshot; a key with a value in any committed snapshot is found at every version on offer, and one that has never been set is not |
| Runs.ProveAfter | smt.go:635-738 | after any run the tree's proof of a key passes its check if, and with an injective hash only if, the pending value is the one taken for the committed one |
| Runs.RefusedButDone | smt.go:529-535 | setting a key and then refusing a parallel set of the same key with a key out of range behind it leaves a leaf and a root that no snapshot has together |
| Runs.MultiSetThenReset | smt.go:758-762 | whatever a parallel set has left behind, a reset brings back the committed tree |
| Runs.CleanSetIsLegal | smt.go:515-588 | with nothing pending a parallel set of distinct keys is always safe |
| Runs.SomeChoiceLoses | tree_node.go:379-392 | some order of the workers' steps loses an update when a pending key is set again together with a key below the sibling node |
| Runs.UpdatesLost | tree_node.go:379-392 | setting a key and then, in that order of steps, the key and another one leaves the nodes in memory with a wrong root |
| Runs.LoweredRollback | smt.go:862-864 | three commits with the oldest version raised, one that lowers it, and a rollback that is not refused but leaves the root of an empty tree |
| Runs.EarlyCommit | smt.go:797-817 | a change made for a later version and committed as the next shows in the root and is not found by a read |
| Runs.SnapshotsStay | docs/design.md:45 | a committed snapshot never changes until a rollback goes below it, however often the tree is opened again once something has been committed |
| Runs.WindowIsFull | smt.go:862-864 | if no commit lowers the oldest version, every version from it on can be read |
| Runs.RollbackUndoes | smt.go:936-981 | rolling back to a version in reach undoes any run since it was committed, with the same proviso |
| Runs.MultiSetIsSets | smt.go:505-515 | a parallel set is the sequence of single sets, in any order |

## Left out

- SparseMerkleTrees.SparseMerkleTree.MultiSetWithVersion: requires distinct keys and a version newer than the latest and equal to that of the changes pending; the code checks none of these. With a stale sibling in the way it describes the root and the committed part, not the other pending nodes.
- SparseMerkleTrees.SparseMerkleTree.SetWithVersion: requires one version for all pending changes, which the code does not check; another one that is older breaks the order of the lists (`VersionList.OrderKeptExactly`).
- SparseMerkleTrees.SparseMerkleTree.CommitWithNewVersion: which version is released is an arbitrary input instead of the scheduler's choice; what changes and commits do after a commit that left the tree out of order, and what a commit does after a refused set that disturbed a leaf, is not modelled (reads, checks and `Reset` are).
- SparseMerkleTrees.SparseMerkleTree.Rollback: for a target out of reach only the lists and the root are described.
- SparseMerkleTrees.SparseMerkleTree.PlaceItems: after a key out of range the items under way may get to their leaves before the call returns or stop anywhere (`follow`); that they may also do so after it has returned is not modelled.
- PendingUpdate.ReachOriginals: what reaches a node through a shared list is applied at the end of the operation; nothing reads such a node before.
- Runs.Execute: requires that every operation leaves the tree in order: no stale sibling, no pending leaf disturbed by a refused set, no commit older than the changes, no rollback out of reach.
- Runs.SnapshotsStay, Runs.RollbackUndoes: require that a tree of which nothing has been committed is not opened again in the run; its store is empty and it starts afresh at whatever initial version is asked for (`OpenAgain`).
- MultiSetProtocol.StepInv: a slot access, a version read together with the hash read behind it, and a version publication are one step each; races below that grain, such as the publication without a lock, are not modelled.
- GcScheduler.GcStatus.Add: requires a threshold of at least ten, since the code divides by the tenth of it.
- Leaf nodes: what a rollback writes into their fourteen slots is not described; nothing reads it.
- The free cells behind a version list are not part of a node here; lists are values, which `SharedLists.NodeLists` shows to be no difference for the lists in use.
- Versions and sizes are unbounded numbers, except in the scheduler, where subtraction wraps around at 64 bits. The depth is below 64.
- The hash function is arbitrary; it is assumed to be injective only where a lemma says so.
- Record encoding: records are stored as values; a nil and an empty version list of a child mean the same.
- The cache of leaves may drop any entries at any time; the policy that picks them is not modelled.
- The sizes of trees (`Size`, the counts kept by commit and rollback) and metrics.
- Constructors without a database, the depth check, goroutine pools, closing a store, input and output errors, the LevelDB and Redis stores.
- `LatestVersion`, `RecentVersion` and `Versions`, which only return fields.
