# Trie engine: model and proofs

This project models the Merkle-Patricia trie engine under `depend/monad/category/mpt`, with the storage layout it
rests on under `depend/monad/category/async`, and proves what its operations promise. `dafny verify dfyconfig.toml`
checks all of it.

## What is modelled

A trie is given its meaning by `Trie.Tree`: a 16-ary, path-compressed tree whose lookups define a map from nibble
keys to values. Everything else is tied to that meaning or to another plain reference:

- **Memory over disk** (`TrieHeap`, `NodeBuilders`). A `Node` is an object whose children are resident pointers or
  disk offsets; the disk is an append-only sequence of node images. A node's meaning depends on its offsets only;
  the invariant `UpdateAux.Valid` says that every resident child means what its parent's offset stores, and that no
  node has two resident parents. `Exact` adds that every recorded minimum version is the true one.
- **Subtrie copy** (`CopySpec`, `VersionOrder`, `CopyTrie`, `CopyBuild`, `CopyRewrite`, `CopyMain`). The walk with its parent stack,
  the three ways of building the new node and the bottom-up rewrite are methods on that heap, proved against `Graft`
  on trees; `Graft` is proved to be a map update, with the exact condition.
- **Traversal** (`TraverseUtil`, `Traverse`, `TraverseSender`, `ParallelTraverse`, `Enumeration`). The recursive walk,
  and the parallel one with its bounded reads and bucket queue, whose reads come back in any order while the version
  may expire at any check. The machines' callbacks are then related to lookups.
- **Versions** (`RootOffsets`, `VersionHistory`, `RootLookup`). The ring of root offsets against a plain map, the
  bookkeeping of both metadata copies above it, and the lock-free reader as interleaved steps.
- **Coalesced lookups** (`Waiting`, `FindNotify`, `OwningFind`). The inflight tables, continuations and promises; in
  the second, a writer reuses places while lookups run, and its behaviour over time is a parameter (`Writer`)
  constrained only by `Disciplined`: versions come and go once, and a place is reused only when no live version
  needs it.
- **Bytes** (`NodeLayout`, `NodeCells`, `NodeBuffer`, `NodeReadBack`, `NodeSerialize`, `NodeRemake`, `PageCode`,
  `StorageLayout`, over `Arithmetic`). A node as an array of bytes with the addresses its accessors compute, its disk form cut into
  pieces, the 15-bit page-count code and the layout of chunks, counters and metadata on a device.
- **Hashes** (`Rlp`, `MerkleSpec`, `Merkle`, `MerkleCompute`; `RlpItems`, `VarLenSpec`, `VarLenRoot`, `VarLenMerkle` for
  keys of any length). Branch data computed from the children before a node exists, carried, and handed over; related to
  the structural composition function of the Ethereum Yellow Paper, Appendix D, on the key-value pairs that the trie
  holds. Keccak and the leaf encoding are parameters (`Scheme`); the recursive length prefix and hex-prefix encodings
  (Appendices B and C) are written out.

I/O is a parameter or a nondeterministic step: which read completes next, and whether the version is still valid at
each check, are arguments of the methods (`schedule`, `validAt`, `VersionClock`), so that the theorems hold for all
of them. A read never completes synchronously.

## What the proofs found

- A copy loses a value when its destination prefix ends one branch below a valued node other than the root: the new
  node is made without the old node's value. Otherwise the copy is a map update (`CopyIsMapUpdateIff`).
- A copy within one trie follows a null child when the source node is an ancestor, at least two levels up, of the
  place copied to (`NestedIsOnPath`, `CopyCanNestItself`); the copy also stops when the destination prefix ends inside a node's path.
- The copy leaves the version of the ancestors alone, although node.hpp lines 181-186 say an interior node's version
  is at least that of the leaves below it. The model follows the code; `GraftKeepsOrderIff` and `CopyKeepsOrderIff`
  say exactly when that order survives, and `CopyCanBreakOrder` shows a copy that breaks it.
- `RangedGetMachine` does not report a whole range: it prunes where a path shorter than the minimum is greater than
  it but no prefix of it (`RangedGetReports` gives the exact condition).
- With a concurrency limit of 0 the parallel walk never completes exactly when it needs a read and the version does
  not expire first (`TraverseOnDisk`, `WalkWithoutReads`).
- Clearing the only version empties the first metadata copy but not the second, since both look at the first; a
  later first version not past the cleared one then trips the assertion in `fast_forward_next_version`
  (`RecordRoot`, `RestartCanFail`). `move_trie_version_forward` admits a destination equal to the last version and then trips the same
  assertion (`MoveTrieVersionForward`, `MoveCanFail`).
- A lock-free lookup whose first load saw an empty database can return another version's offset when it asks for a
  version not below the capacity (`LookupCanBeWrong`), and only then (`LookupIsSafe`).
- The page code has no room for more than 1023*2^22 pages; no node that fits the disk format comes near (`ReadSpan`).
- In a variable-length trie a node with children, a path and a value is encoded with the leaf flag and its branch
  reference as a string, unlike the standard's extension over a branch (`EncodedAsStandardIff`,
  `ValuedIsCompositionIff`). At the root this also happens to an only child without a path, since the branch is put in
  front of it (`OnlyChildIsMarked`), and a value of the root is hashed with two or more branches but dropped with one
  (`RootValueIsDropped`). Where every node below is hashed as the standard has it, `RootIsCompositionIff` says exactly
  when the trie is.

## Model

| member | source | states |
|---|---|---|
| Trie.FindIsAt | depend/monad/category/mpt/find.cpp:41-86 | the nibble-at-a-time search succeeds exactly at the node whose root sits at the key, with that node; otherwise it ends with one of the three mismatch results |
| TrieHeap.UpdateAux.ReadNode | depend/monad/category/mpt/read_node_blocking.cpp:32-73 | a read gives a new node that means the subtrie stored at the offset, or nothing when the version is not valid |
| TrieHeap.UpdateAux.EnsureChild | depend/monad/category/mpt/find.cpp:50-63 | makes a child resident, changing no node's meaning; what is returned means the stored subtrie |
| TrieHeap.UpdateAux.FindBlocking | depend/monad/category/mpt/find.cpp:30-87 | the on-demand loop returns the node, prefix index and result of the search on the trie the root stands for; it gives up if and only if the way comes to a child that is not in memory at a nibble at which the version is found gone; nothing but residency changes: below the root exactly the nodes on the way come in, and nothing below other roots |
| TrieHeap.UpdateAux.Descend | depend/monad/category/mpt/find.cpp:50-63 | one step down: whether the child was in memory from the start decides whether a read is needed, and what has come in since then stays what lies on the way |
| TrieHeap.UpdateAux.SameWay | depend/monad/category/mpt/find.cpp:41-86 | no node in memory has two ways to it from one root, so that a load brings in one place only |
| TrieHeap.DiskTreeMono | depend/monad/category/mpt/copy_trie.cpp:174-283 | appending to the disk changes no stored subtrie |
| TrieHeap.SameEnd | depend/monad/category/mpt/find.cpp:41-86 | two resident ways down from parentless roots that end at the same node start at the same root with the same hops: memory never shares a node |
| NodeBuilders.RankInsert | depend/monad/category/mpt/node.cpp:90-96 | one more branch moves exactly the ranks above it by one |
| NodeBuilders.CalcMinVersion | depend/monad/category/mpt/node.cpp:645-652 | the least of the node's version and the recorded minima |
| NodeBuilders.MinIsExact | depend/monad/category/mpt/node.cpp:645-652 | over exact records that minimum is the true minimum version of the whole subtrie |
| NodeBuilders.WriteNode | depend/monad/category/mpt/copy_trie.cpp:50-56 | appends the image; the offset written to stands for what the node stands for, and an exact disk stays exact |
| NodeBuilders.MakeNodeFrom | depend/monad/category/mpt/node.cpp:491-531 | the new node means the old subtrie under another path, value and version; the old one keeps its meaning but gives up every resident child |
| NodeBuilders.MakeNode | depend/monad/category/mpt/node.cpp:533-591 | a node from children by ascending branch: offsets, minima and pointers of the valid children in order, exact if they are |
| NodeBuilders.MoveNext | depend/monad/category/mpt/node.cpp:407-410 | takes one resident child out; it still means what its recorded offset stores |
| NodeBuilders.NewBranchKids | depend/monad/category/mpt/copy_trie.cpp:41-73 | an offset array filled rank by rank for a mask with one more bit denotes the old kids with exactly that kid set |
| NodeBuilders.CreateNodeAddNewBranch | depend/monad/category/mpt/copy_trie.cpp:36-81 | the two-counter loop yields the old node with one more kid, whatever the mask; every other node keeps its meaning, exact summaries stay exact |
| NodeBuilders.CreateNodeWithTwoChildren | depend/monad/category/mpt/copy_trie.cpp:83-123 | a node with exactly these two kids, in either order of branches |
| NodeBuilders.CreateRoot | depend/monad/category/mpt/copy_trie.cpp:140-155 | the root made when there is no destination has exactly the one kid |
| CopySpec.FindCases | depend/monad/category/mpt/find.cpp:41-86 | the search decided by the common prefix of path and key: end, mismatch, missing branch, or on into the child |
| CopySpec.GraftDefined | depend/monad/category/mpt/copy_trie.cpp:252-254 | the copy exists exactly when the destination prefix does not end inside a node's path |
| CopySpec.GraftValue | depend/monad/category/mpt/copy_trie.cpp:174-260 | away from a dropped value, each key of the grafted trie answers as after writing the source's entries over everything below the prefix (the root's own key apart) |
| CopySpec.CopyIsMapUpdateIff | depend/monad/category/mpt/copy_trie.cpp:174-286 | for an empty-path destination root: the copy is a map update on all non-empty keys if and only if no valued node other than the root has to grow the new branch |
| CopySpec.DroppedKey | depend/monad/category/mpt/copy_trie.cpp:235-248 | when such a node grows the branch, its key, a proper prefix of the destination prefix, had a value and loses it |
| CopySpec.CopyCanDropAKey | depend/monad/category/mpt/copy_trie.cpp:235-248 | a concrete instance: copying below key 1 2 loses the value stored at key 1 |
| CopySpec.CopyCanNestItself | depend/monad/category/mpt/copy_trie.cpp:270-276 | a concrete instance of a copy within one trie that takes the children of an ancestor still to be gone through |
| VersionOrder.GraftKeepsOrderIff | depend/monad/category/mpt/node.hpp:181-186 | over tries whose nodes are at least as new as the leaves below them, the grafted trie is so too if and only if the nodes passed are at least as new as what is put below them and the new version is at least as new as everything below the node made with it |
| VersionOrder.GraftLeaves | depend/monad/category/mpt/copy_trie.cpp:190-260 | below a bound the old leaves keep, only the subtrie put there decides |
| VersionOrder.CopyCanBreakOrder | depend/monad/category/mpt/copy_trie.cpp:261-283 | a concrete pair of ordered tries whose copy leaves the root older than its leaf |
| VersionOrder.FreshRootOrderIff | depend/monad/category/mpt/copy_trie.cpp:134-155 | the same condition with no destination: nothing below the source node is newer than the new version |
| CopySpec.FreshRootIsMapUpdate | depend/monad/category/mpt/copy_trie.cpp:134-155 | with no destination the result holds exactly the source's entries below the prefix |
| CopySpec.SourceBelow | depend/monad/category/mpt/copy_trie.cpp:130-133 | what the found source subtrie answers is what the whole source answers below the source prefix |
| CopyTrie.GraftStep | depend/monad/category/mpt/copy_trie.cpp:216-231 | grafting below a matched child and plugging it back is grafting below its parent |
| CopyTrie.Walk | depend/monad/category/mpt/copy_trie.cpp:174-250 | the loop stops at the node, prefix positions and parent stack at which the graft has to be made; grafting there and plugging back is the graft of the whole; children loaded on the way change nothing; it is refused if and only if it comes to a child that is not in memory at a nibble at which the version is found gone |
| CopyBuild.GraftWhereStopped | depend/monad/category/mpt/copy_trie.cpp:176-260 | the graft read off the three ways the walk stops: split, new branch, replace |
| CopyBuild.BuildSplit | depend/monad/category/mpt/copy_trie.cpp:190-212 | the two halves hang below the shared part of the path, under the right branches; exact summaries stay exact |
| CopyBuild.BuildBranch | depend/monad/category/mpt/copy_trie.cpp:235-248 | the node with the source as one more kid |
| CopyBuild.Build | depend/monad/category/mpt/copy_trie.cpp:190-260 | what is built is the graft at the stopping place; nothing is built exactly when the prefix ends inside a path |
| CopyRewrite.Rewrite | depend/monad/category/mpt/copy_trie.cpp:273-280 | writing a changed child again makes the parent's offset, minimum and pointer agree on it |
| CopyRewrite.RewriteAncestors | depend/monad/category/mpt/copy_trie.cpp:270-282 | popping the stack, its last pair pushed twice, ends with every ancestor meaning the plugged-back trie and every other node keeping its meaning; disk image and resident child agree everywhere below the root |
| CopyMain.NestedIsOnPath | depend/monad/category/mpt/copy_trie.cpp:270-276 | the source node is on the stack above the last parent, so that the rewrite would follow a child pointer the copy took away, if and only if both tries share the root and the walk goes down at least twice below the source node |
| CopyMain.CopyTrieImpl | depend/monad/category/mpt/copy_trie.cpp:125-286 | the result means exactly the specified copy; memory and disk agree again; exact minima stay exact; over ordered inputs the result is ordered by version exactly under the condition of CopyKeepsOrder; another source root keeps its whole meaning; it aborts only for a failed source search, a prefix ending inside a path (or empty with no destination) or the self-nested case, and never otherwise; it gives up if and only if the search for the source does, or, with the source found, the way to the destination comes to a child that neither is in memory nor lies on the way to the source, at a nibble at which the version is found gone |
| CopyMain.RefusedAfter | depend/monad/category/mpt/copy_trie.cpp:129-223 | what the search for the source has brought in is what the destination walk no longer has to read, in the same trie, and has no influence on another |
| CopyMain.CopyAnswers | depend/monad/category/mpt/copy_trie.cpp:125-286 | lookups after the copy: the source's below the destination prefix, the destination's own elsewhere, for every non-empty key |
| CopyMain.CopyAnswersRoot | depend/monad/category/mpt/copy_trie.cpp:135-256 | the answer at the empty key: the source node's value where the root is replaced, the value of the source's root (an absent one as empty) where a root is made or grows the branch, else the destination's own |
| CopyMain.CopyKeepsOrderIff | depend/monad/category/mpt/copy_trie.cpp:125-286 | whether the copy of ordered tries is ordered by version, by a condition on the inputs alone |
| TraverseUtil.Machine.Down | depend/monad/category/mpt/traverse_util.hpp:65-83 | enters, extends the path and calls back exactly as the filter says for this visit (also lines 125-137) |
| TraverseUtil.Machine.Up | depend/monad/category/mpt/traverse_util.hpp:85-97 | undoes Down: the path is what it was before (also lines 139-147) |
| Traverse.PreorderBlocking | depend/monad/category/mpt/traverse.hpp:68-107 | makes exactly the preorder visits when it succeeds, a prefix of them when a read fails, and puts path and level back on every exit; it asks for the version once for each node visited that is not in memory, and stops at the first no |
| Traverse.PreorderTraverseBlocking | depend/monad/category/mpt/traverse.hpp:376-384 | the callbacks are the listing of the whole trie, or a prefix of it after a failed read; it succeeds if and only if as many questions as there are nodes to read are all answered yes |
| Traverse.ReadsOfRead | depend/monad/category/mpt/traverse.hpp:87-101 | below a node just read every further node has to be read |
| TraverseSender.Scheduler.InitiatePendingReads | depend/monad/category/mpt/traverse.hpp:249-271 | starts waiting reads strictly by priority until the limit or none is left; the window and the count stay right |
| TraverseSender.Scheduler.Enqueue | depend/monad/category/mpt/traverse.hpp:341-355 | a read goes to the end of its bucket: behind all of at least its priority and before the rest; every non-empty bucket stays in the window, inside the vector |
| TraverseSender.LeftAndDeepFirst | depend/monad/category/mpt/traverse.hpp:297-340 | reads of one node are queued in the order of its children, the first three before the rest, and deeper reads first unless the extra for the left side of a node above outweighs it |
| TraverseSender.QueueSplit | depend/monad/category/mpt/traverse.hpp:251-266 | the order of the bucket vector is that of its upper part followed by its lower part |
| ParallelTraverse.WorkOfConcat | depend/monad/category/mpt/traverse.hpp:159-198 | the visits a list of reads stands for add up |
| ParallelTraverse.Sender.Walk | depend/monad/category/mpt/traverse.hpp:291-372 | visits made plus visits still owed grow by exactly those of the subtrie, or after expiry by no more; one check and one read for each missing child come to; nothing waits while there is room; path and level come back |
| ParallelTraverse.Sender.ReadOrWait | depend/monad/category/mpt/traverse.hpp:325-359 | a read is started if there is room and else queued by its priority, never lost, and the limit is kept |
| ParallelTraverse.Sender.ReadMissing | depend/monad/category/mpt/traverse.hpp:315-361 | asks for the version once; if it is valid the read starts or waits by the level and by how many siblings have been read before, else the walk stops |
| ParallelTraverse.Sender.Expire | depend/monad/category/mpt/traverse.hpp:317-324 | drops what waits and keeps what is in flight |
| ParallelTraverse.Sender.Init | depend/monad/category/mpt/traverse.hpp:274-289 | after the start the walk rests: it has completed once if nothing is outstanding or pending, else not yet; it has asked once for each read |
| ParallelTraverse.Sender.SetValue | depend/monad/category/mpt/traverse.hpp:159-197 | every completion, in any order, keeps the walk at rest on the same visits, and the visits still owed strictly decrease; while the version has not expired, it has been asked for twice for each node read and visited and once for each read to come back |
| ParallelTraverse.Sender.Deliver | depend/monad/category/mpt/traverse.hpp:164-186 | a read that comes back is followed by a question of its own, and its node is visited only if the answer is yes |
| ParallelTraverse.Sender.PacedIff | depend/monad/category/mpt/traverse.hpp:159-197 | with nothing left the walk has not expired if and only if two questions for each node read were all answered yes, and then it has asked exactly those |
| ParallelTraverse.MissingVisited | depend/monad/category/mpt/traverse.hpp:308-369 | a walk visits the nodes in memory and at least the missing children it comes to |
| ParallelTraverse.SameVisitsSameCallbacks | depend/monad/category/mpt/traverse.hpp:291-372 | the same visits in any order make the same callbacks in some order |
| ParallelTraverse.TraverseOnDisk | depend/monad/category/mpt/traverse.hpp:386-426 | for every order of completions: completed at most once, and with a positive limit exactly once; with a limit of 0 never exactly when some child that the filter lets the walk come to through memory is not in memory and the version is valid at the check before each of them; on success the visits and callbacks are those of the recursive walk, on expiry no others; it succeeds if and only if the first 2n answers are yes, n being the nodes visited that are not in memory, and has then asked exactly 2n times; it fails only if one of the checks made during the walk found the version invalid |
| ParallelTraverse.WalkWithoutReads | depend/monad/category/mpt/traverse.hpp:332-357 | a concrete trie on which a limit of 0 leaves the walk uncompleted |
| Enumeration.LessByPrefix | depend/monad/category/mpt/nibbles_view.hpp:276-285 | the path order is decided by the first difference, or by which path ends first |
| Enumeration.ListingIsSorted | depend/monad/category/mpt/traverse.hpp:77-103 | keys are reported in strictly increasing order, each once |
| Enumeration.ListingIs | depend/monad/category/mpt/traverse_util.hpp:42-103 | a key is reported exactly when it is stored, long enough, and passes the filter at every place the walk checks on the way to it |
| Enumeration.GetAllReports | depend/monad/category/mpt/traverse_util.hpp:125-137 | reports exactly the non-root keys for which the lookup succeeds on a valued node, with that value |
| Enumeration.RangedGetReports | depend/monad/category/mpt/traverse_util.hpp:42-103 | reports a stored key exactly when it lies in [min, max) and no shorter prefix checked on the way already differs from min |
| Enumeration.RangedGetCoversAgreeing | depend/monad/category/mpt/traverse_util.hpp:42-53 | complete for the keys in range that agree with min on all but its last nibble |
| Enumeration.RangedGetCanMissAKey | depend/monad/category/mpt/traverse_util.hpp:42-53 | the range [1 0, 3 0) misses the stored key 2 0 |
| RootOffsets.SameSlot | depend/monad/category/mpt/trie.hpp:652-666 | two versions closer than the capacity never share a slot |
| RootOffsets.Ring.UpdateLowerBound | depend/monad/category/mpt/trie.hpp:603-622 | raises the bound over dead versions, or lowers it to the given one first, and leaves every slot below it in the window empty |
| RootOffsets.Ring.Push | depend/monad/category/mpt/trie.hpp:647-660 | adds one version to the map and, if it is live, raises the lower bound to a live one |
| RootOffsets.Ring.Assign | depend/monad/category/mpt/trie.hpp:662-670 | changes exactly one version of the map; no other version of the window is touched |
| RootOffsets.Ring.ResetAll | depend/monad/category/mpt/trie.hpp:687-697 | forgets everything and starts at the version |
| RootOffsets.Ring.RewindToVersion | depend/monad/category/mpt/trie.hpp:699-713 | keeps exactly the old live versions up to the given one; widening the window downwards brings nothing back |
| RootOffsets.Ring.StateIsBounded | depend/monad/category/mpt/trie.hpp:603-716 | all live versions lie from the lower bound to below the next version, at most the capacity apart |
| RootOffsets.Replay | depend/monad/category/mpt/trie.hpp:647-713 | any permitted sequence of the four operations leaves the ring holding what a plain map does, versions below the bound invalid |
| RootOffsets.PlainAgrees | depend/monad/category/mpt/trie.hpp:647-713 | the lower bound plays no part in what is live: dropping it gives the same map after every sequence |
| RootOffsets.LowerBoundAfter | depend/monad/category/mpt/trie.hpp:603-713 | where each operation leaves the lower bound: at the first live version, with none left at the last version, and after a reset or a version without an offset where it was put |
| RootOffsets.AlwaysBounded | depend/monad/category/mpt/trie.hpp:603-713 | the bounds hold after every permitted sequence |
| VersionHistory.FastForwardRing | depend/monad/category/mpt/update_aux.cpp:229-246 | skips to a version, by empty pushes or a reset when it is a capacity away; gives up exactly when the version is not past the last one |
| VersionHistory.Metadata.RangeLowerBound | depend/monad/category/mpt/update_aux.cpp:1433-1450 | the lower bound of the ring, which never lies below the history window, so that the assertion holds |
| VersionHistory.Metadata.GetRootOffsetAtVersion | depend/monad/category/mpt/trie.hpp:818-829 | an offset exactly for the live versions, the one recorded (also lines 831-835) |
| VersionHistory.Metadata.MinValidVersion | depend/monad/category/mpt/update_aux.cpp:1420-1431 | the first live version from the lower bound on |
| VersionHistory.Metadata.AppendRootOffset | depend/monad/category/mpt/update_aux.cpp:195-205 | pushes to both copies of the metadata |
| VersionHistory.Metadata.UpdateRootOffset | depend/monad/category/mpt/update_aux.cpp:207-223 | sets one version in both copies; clearing the only version left empties the first copy, but only the first |
| VersionHistory.Metadata.ClearUpTo | depend/monad/category/mpt/update_aux.cpp:1290-1298 | erases exactly the versions up to the given one |
| VersionHistory.Metadata.FastForwardNextVersion | depend/monad/category/mpt/update_aux.cpp:225-249 | both copies skip ahead, exactly when both are behind the version |
| VersionHistory.Metadata.MoveTrieVersionForward | depend/monad/category/mpt/update_aux.cpp:1300-1321 | moves one root to a later version and erases what falls out of the history; it gets through exactly when that version is past the last one |
| VersionHistory.MoveCanFail | depend/monad/category/mpt/update_aux.cpp:1306-1317 | a concrete run: moving to the last version itself trips the assertion |
| VersionHistory.Metadata.RecordRoot | depend/monad/category/mpt/trie.cpp:1708-1729 | records a first, repeated or next root; starting anew gets through exactly when the second copy is not past the version |
| VersionHistory.RestartCanFail | depend/monad/category/mpt/update_aux.cpp:233-234 | a concrete run: a version recorded, erased and recorded again trips the assertion |
| VersionHistory.Metadata.UpsertVersion | depend/monad/category/mpt/update_aux.cpp:1141-1156 | erasing what falls out of the history and recording the root never fails, and leaves the versions of the window and the new one |
| VersionHistory.AfterErasing | depend/monad/category/mpt/update_aux.cpp:1145-1155 | after erasing there is room for the new version in the history, and exactly the versions inside it are left |
| RootLookup.InvKept | depend/monad/category/mpt/trie.hpp:647-660 | every step of reader and writer keeps: slots of the window hold what was given to their own version, and what the reader holds can be trusted |
| RootLookup.InvOverRun | depend/monad/category/mpt/trie.hpp:818-829 | so does every interleaving of any length |
| RootLookup.LookupIsSafe | depend/monad/category/mpt/trie.hpp:818-829 | a reader whose first load found the database in use, or that asks below the capacity, gets nothing or an offset given to exactly its version |
| RootLookup.LookupIsComplete | depend/monad/category/mpt/trie.hpp:818-829 | in every interleaving a reader finds the offset of a version that was live when it started, unless the writer overwrites that version or raises the lower bound above it |
| RootLookup.LookupFinds | depend/monad/category/mpt/trie.hpp:818-829 | a lookup during which the version stays live finds an offset that stood in its slot meanwhile |
| RootLookup.LookupMisses | depend/monad/category/mpt/trie.hpp:818-829 | a lookup of a version that stays below the lower bound, or unpublished, or in an empty database, finds nothing, whatever its slot holds |
| RootLookup.StaysLive | depend/monad/category/mpt/trie.hpp:647-670 | nothing else the writer does takes the slot of a live version away |
| RootLookup.FourLoads | depend/monad/category/mpt/trie.hpp:818-829 | a reader that is not done can always go on, and four loads end the lookup |
| RootLookup.LookupCanBeWrong | depend/monad/category/mpt/trie.hpp:818-829 | for every other version there is an interleaving in which a reader that saw an empty database gets an offset of another version |
| Waiting.StoreKeeps | depend/monad/category/mpt/find_notify_fiber.cpp:260-270 | storing a continuation takes its promise out of hand and keeps exactly one holder for every unset promise |
| Waiting.SetKeeps | depend/monad/category/mpt/find_notify_fiber.cpp:212-239 | setting a promise in hand keeps it, and a promise once set has no holder left to set it again |
| Waiting.TakeKeeps | depend/monad/category/mpt/find_notify_fiber.cpp:98-101 | taking a list out of the table puts exactly its promises into hand |
| Waiting.NobodyWaits | depend/monad/category/mpt/find_notify_fiber.cpp:98-105 | with an empty table every promise is set |
| Waiting.ReadAdded | depend/monad/category/mpt/find_notify_fiber.cpp:266-273 | a read is started only for a key not under way: one read per inflight key |
| Waiting.ReadTaken | depend/monad/category/mpt/find_notify_fiber.cpp:91-101 | a read that comes back takes its key, and only that, out of the table |
| FindNotify.Finder.FindFrom | depend/monad/category/mpt/find_notify_fiber.cpp:207-280 | answers the request or stores it with a read; its promise leaves the hand either way, and the work left gets less; a search that stays in memory is answered with its result, and one that leaves memory waits on the I/O thread and elsewhere is sent there from the node whose child is missing |
| FindNotify.Finder.GoDown | depend/monad/category/mpt/find_notify_fiber.cpp:244-274 | a child in memory is gone to first; without one the caller is sent to the I/O thread or waits |
| FindNotify.GoesOn | depend/monad/category/mpt/find_notify_fiber.cpp:249-256 | a way leaves memory below a node if and only if the next child is not there or the way below that child does |
| FindNotify.Finder.WaitFor | depend/monad/category/mpt/find_notify_fiber.cpp:259-273 | merges with a read under way or starts one, keeping every table invariant |
| FindNotify.Finder.SetValue | depend/monad/category/mpt/find_notify_fiber.cpp:84-106 | a completed read puts its node into memory and runs everybody waiting for it; answers already given stay, and the work left strictly decreases |
| FindNotify.Finder.Request | depend/monad/category/mpt/find_notify_fiber.cpp:207-241 | a new request adds exactly one promise: answered as there being no root, answered with the search's result if the search stays in memory, and otherwise unanswered on the I/O thread and sent there from elsewhere |
| FindNotify.Finder.Drain | depend/monad/category/mpt/find_notify_fiber.cpp:84-106 | whatever was merged and in whatever order reads come back: every promise gets set, to the node, index and result the blocking search finds on the trie asked about |
| OwningFind.StillInPlace | depend/monad/category/mpt/find_notify_fiber.cpp:330-338 | a version live before and after the translation needed the node in between, so the translated name is the node's |
| OwningFind.ContentIs | depend/monad/category/mpt/find_notify_fiber.cpp:155-166 | a place that held the write before the read and after it held it when the data were taken |
| OwningFind.Finder.AsyncReadWithContinuation | depend/monad/category/mpt/find_notify_fiber.cpp:177-200 | on the I/O thread the continuation is stored, with one read per key; elsewhere the promise says so at once |
| OwningFind.Finder.FindFrom | depend/monad/category/mpt/find_notify_fiber.cpp:284-385 | answers, goes on through the cache, or stores; a version not live at the first check is answered at once as expired, with the node and index the search was at; expired is the answer if and only if the version was not live at some moment meanwhile, and otherwise the search is answered with its result exactly if every node on the way is cached |
| OwningFind.GapBelow | depend/monad/category/mpt/find_notify_fiber.cpp:340-352 | the way below a node comes to a node that is not cached if and only if the next one is not, or the way below that does |
| OwningFind.Finder.Translate | depend/monad/category/mpt/find_notify_fiber.cpp:330-338 | the name of a place is the child's if the version is live at the check that follows; nothing is returned exactly if it is not, or the place holds nothing |
| OwningFind.Finder.GoDown | depend/monad/category/mpt/find_notify_fiber.cpp:330-378 | a version not live after the translation, or a place that holds nothing, is answered as expired with the start node; otherwise on through the cache, and only for a child that is not cached through a read or to the I/O thread |
| OwningFind.Finder.Request | depend/monad/category/mpt/find_notify_fiber.cpp:284-297 | adds one promise; without a start node the answer is that there is no root, and an expired version comes first; with one, what FindFrom states |
| OwningFind.Finder.LoadRoot | depend/monad/category/mpt/find_notify_fiber.cpp:387-426 | adds one promise for the root of a version: answered as expired exactly if the version was not live at some moment meanwhile, else with the root if it is cached, and otherwise unanswered on the I/O thread and sent there from elsewhere |
| OwningFind.Finder.CacheAndTable | depend/monad/category/mpt/find_notify_fiber.cpp:153-160 | no key is both cached and in flight, so the assertion on arrival cannot fail |
| OwningFind.Finder.StaleForAll | depend/monad/category/mpt/find_notify_fiber.cpp:153-172 | if the place was reused, every version anybody waits for has expired since it was asked for |
| OwningFind.Finder.SetValue | depend/monad/category/mpt/find_notify_fiber.cpp:146-174 | if the place still holds the same write, the node is cached; if it was reused nothing is cached and the promise of every waiter is set to version no longer exists, without a node; the work left strictly decreases |
| OwningFind.Finder.GoOn | depend/monad/category/mpt/find_notify_fiber.cpp:169-173 | every continuation taken out is run once; without a node each of their promises gets version no longer exists |
| OwningFind.Finder.Resume | depend/monad/category/mpt/find_notify_fiber.cpp:353-370 | without a node the promise is set to version no longer exists and nothing else changes (also lines 408-417); with one the search goes on there |
| OwningFind.Finder.Drain | depend/monad/category/mpt/find_notify_fiber.cpp:146-174 | whatever the writer does within its discipline: every promise gets set, to what the search finds in the trie of its version as written, or to expired when the version did expire since it was asked for; everybody who ever waited at a reused place keeps the answer that the version no longer exists |
| PageCode.Encode | depend/monad/category/mpt/node.hpp:69-85 | encodes exactly the counts up to 1023*2^22; the decoded count is never smaller, equal up to 1023, and above that exceeds by less than a 512th; no code that stands for enough pages stands for fewer than the chosen one |
| PageCode.PackFits | depend/monad/category/mpt/node.hpp:82-95 | the packed code fits 15 bits and unpacks to the same |
| PageCode.ReadSpan | depend/monad/category/mpt/traverse.hpp:147-156 | reading the decoded pages from the rounded-down offset covers every node that fits the disk format, and wastes less than two pages while the code is exact (page count: trie.hpp lines 1161-1166) |
| StorageLayout.ChunksIsMost | depend/monad/category/async/storage_pool.hpp:104-119 | the count is the largest that leaves a page between the chunks and the mapped metadata |
| StorageLayout.ChunksVectors | depend/monad/category/async/storage_pool.hpp:104-119 | concrete devices with just enough room for one and for two chunks, and with one byte less |
| StorageLayout.CnvCountIs | depend/monad/category/async/storage_pool.cpp:527-533 | the number of conventional chunks is the first device's; a device set up before the field existed has three |
| StorageLayout.FillChunks | depend/monad/category/async/storage_pool.cpp:636-653 | both zones list device after device, numbered in order; it fails exactly when a device has too few chunks |
| StorageLayout.ZoneCovers | depend/monad/category/async/storage_pool.cpp:636-653 | a zone holds every chunk of its range exactly once, at its own number |
| StorageLayout.PoolIsComplete | depend/monad/category/async/storage_pool.cpp:636-653 | together the zones use every device and index exactly once |
| StorageLayout.PoolIsSound | depend/monad/category/async/storage_pool.cpp:843-872 | no two chunks share a byte, and all end before the page-rounded start of the mapped metadata (storage_pool.cpp line 489) |
| StorageLayout.Counters.CountersAreMapped | depend/monad/category/async/storage_pool.hpp:122-135 | the usage counters lie one after the other between the mapped start and the metadata |
| StorageLayout.Counters.WriteFd | depend/monad/category/async/storage_pool.cpp:150-177 | gives out consecutive ranges inside the chunk, and stops the program when one would not fit |
| NodeLayout.LoadStore | depend/monad/category/mpt/node.hpp:486-493 | little-endian numbers are read back |
| NodeLayout.HeaderRoundTrip | depend/monad/category/mpt/node.hpp:164-185 | mask, flags, nibble range, lengths and signed version are read back from the 16 header bytes |
| NodeLayout.HeaderVector | depend/monad/category/mpt/node.hpp:164-185 | the sixteen bytes of a concrete header |
| NodeCells.AllocatedSize | depend/monad/category/mpt/node.hpp:430-444 | the computed size is the rounded sum of the fields plus the child pointers |
| NodeCells.LayoutOfTwo | depend/monad/category/mpt/node.cpp:103-368 | the addresses of all fields of a node with two children, and its size, in numbers |
| NodeCells.CellsApart | depend/monad/category/mpt/node.cpp:103-368 | no two fields share a byte |
| NodeCells.CellOf | depend/monad/category/mpt/node.cpp:103-368 | every byte up to the end of the fields belongs to one |
| NodeBuffer.CellWritten | depend/monad/category/mpt/node.cpp:578-588 | writing a field puts it in place and leaves all others alone |
| NodeBuffer.Positions | depend/monad/category/mpt/node.cpp:119-242 | the addresses that the accessors compute from the header are those of the fields |
| NodeBuffer.DataOffsets | depend/monad/category/mpt/node.cpp:214-232 | the stored offsets are the ends of the child data, one after the other |
| NodeBuffer.ChildDataOffsets | depend/monad/category/mpt/node.cpp:545-553 | running totals over the valid children |
| NodeBuffer.MakeNode | depend/monad/category/mpt/node.cpp:533-591 | every field but the branch data is in place, in exactly the allocated size; the pointers are those of the valid children in order |
| NodeReadBack.FieldsReadBack | depend/monad/category/mpt/node.cpp:234-360 | header, path, value and branch data are read back, and walking the fields ends at the node's size |
| NodeReadBack.KidReadBack | depend/monad/category/mpt/node.cpp:103-202 | offset, both minimum offsets and minimum version of every child are read back at its index |
| NodeReadBack.KidDataReadBack | depend/monad/category/mpt/node.cpp:214-227 | so are the data of every child |
| NodeReadBack.ChildAtItsRank | depend/monad/category/mpt/node.cpp:90-96 | a child given for a branch of the mask sits at the index computed from the mask, also with erased children in between |
| NodeSerialize.SizeInFront | depend/monad/category/mpt/node.cpp:620-632 | the disk form starts with its own length in four bytes, the lowest first |
| NodeSerialize.GetDiskSize | depend/monad/category/mpt/node.cpp:370-378 | found by walking the fields, it is the size of the fields plus four |
| NodeSerialize.SerializeNodeToBuffer | depend/monad/category/mpt/node.cpp:620-643 | writes exactly the asked-for bytes of the node's disk form, wherever the cut falls in the length or the fields |
| NodeSerialize.SerializeInPieces | depend/monad/category/mpt/node.cpp:620-643 | any cutting into consecutive pieces yields the disk form |
| NodeSerialize.DeserializeNodeFromBuffer | depend/monad/category/mpt/node.hpp:478-518 | gives the same fields and only null child pointers, and the allocated size is the size recomputed from the header |
| NodeSerialize.WriteAndRead | depend/monad/category/mpt/node.cpp:620-643 | out in any pieces and back in is the same node without its child pointers |
| NodeRemake.MakeNodeWithData | depend/monad/category/mpt/node.cpp:593-601 | a complete node with the given branch data |
| NodeRemake.BlockWritten | depend/monad/category/mpt/node.cpp:510-520 | copying a stretch that holds whole fields puts exactly those in place |
| NodeRemake.MakeNodeFrom | depend/monad/category/mpt/node.cpp:491-531 | the same children and data behind another path, value and version, in exactly the allocated size; the pointers move over |
| Rlp.EncodedLengths | depend/monad/category/core/rlp/encode.hpp:69-80 | the announced lengths of strings and lists are those of the encodings (lists: lines 122-130) |
| Rlp.StringRoundTrip | depend/monad/category/core/rlp/encode.hpp:82-117 | an encoded string shows where it ends and gives back what it encodes |
| Rlp.ListRoundTrip | depend/monad/category/core/rlp/encode.hpp:132-163 | so does a list |
| Rlp.PutPrefixed | depend/monad/category/core/rlp/encode.hpp:44-63 | the eight bytes always stored for a length leave no trace behind the significant ones |
| Rlp.CompactRoundTrip | depend/monad/category/mpt/merkle/compact_encode.hpp:36-58 | path and kind are read back from the hex-prefix form, which is half the nibbles plus one byte long |
| Rlp.CompactFirstByte | depend/monad/category/mpt/merkle/compact_encode.hpp:43-49 | the first byte is 32 for a leaf, and has 16 and the first nibble added for an odd path |
| Rlp.CompactByte | depend/monad/category/mpt/merkle/compact_encode.hpp:51-54 | every further byte holds the next two nibbles, the first one high |
| Rlp.CompactVectors | depend/monad/category/mpt/merkle/compact_encode.hpp:36-58 | concrete encodings of the four kinds of paths |
| Rlp.StringVectors | depend/monad/category/core/test/encode_test.cpp:118-152 | the strings of the tests and their encodings |
| Rlp.ListVectors | depend/monad/category/core/test/encode_test.cpp:174-203 | the lists of the tests and their encodings |
| Rlp.LengthVectors | depend/monad/category/core/test/encode_test.cpp:29-90 | the lengths of the tests and their big-endian bytes |
| MerkleCompute.NibblesAreUnpacked | depend/monad/category/mpt/nibbles_view.hpp:127-131 | the nibbles of a view are those of its bytes, two to a byte, the high one first, from its start on |
| Merkle.ItemsLength | depend/monad/category/mpt/compute.hpp:126-132 | sixteen items of at most 33 bytes fit the buffer |
| Merkle.ListFits | depend/monad/category/mpt/compute.hpp:88-96 | the list of them and the empty value fits 532 bytes |
| Merkle.EncodeChildren | depend/monad/category/mpt/compute.cpp:74-101 | over children in branch order, erased ones skipped and gaps filled, emits the sixteen items that the mask and the kept data define, and writes nothing else |
| Merkle.EncodeNodeChildren | depend/monad/category/mpt/compute.cpp:103-129 | over a finished node emits the same sixteen items |
| Merkle.ItemsAreSlots | depend/monad/category/mpt/compute.cpp:74-129 | these are the items of the subtries when the kept data are their references |
| MerkleCompute.EncodeTwoPieces | depend/monad/category/mpt/compute.cpp:34-66 | the reference of the leaf or extension, with the buffers filled to the announced length |
| MerkleCompute.InternalMerkleState.KeccakInplaceToRootHash | depend/monad/category/mpt/compute.hpp:41-48 | the result is the hash of the encoding, whether that was hashed already or was short |
| MerkleCompute.MerkleComputeBase.ComputeLen | depend/monad/category/mpt/compute.hpp:101-145 | without a value nothing is announced or carried; with one, the carried 32 bytes are the root hash of the branches, single or many |
| MerkleCompute.MerkleComputeBase.HashWithExtraNibble | depend/monad/category/mpt/compute.hpp:199-218 | the reference the only child has one nibble further up, whichever of its three kinds it is |
| MerkleCompute.MerkleComputeBase.ComputeBranch | depend/monad/category/mpt/compute.hpp:147-174 | hands over what is carried, or recomputes from the node; nothing is carried afterwards |
| MerkleCompute.MerkleComputeBase.Compute | depend/monad/category/mpt/compute.hpp:176-194 | what is written for the parent is the reference of the subtrie |
| MerkleCompute.MerkleComputeBase.CreateNodeWithChildren | depend/monad/category/mpt/node.cpp:605-618 | the new node holds the root hash of its branches and the references of its children, and the state is empty again |
| MerkleCompute.MerkleComputeBase.Finalize | depend/monad/category/mpt/node.cpp:458-465 | a finished child is kept under the reference of its subtrie, so that trees built from the leaves up are right throughout |
| MerkleCompute.StoredIsRecomputed | depend/monad/category/mpt/compute.hpp:147-174 | what a valued node with at least two branches stores is the hash of the list its finished form yields again |
| MerkleSpec.NodeIsComposition | depend/monad/category/mpt/compute.hpp:176-194 | for a canonical trie with keys of one length the encoding of a node is the structural composition function of the Yellow Paper, Appendix D, applied to the key-value pairs it holds |
| MerkleSpec.DataIsRootHash | depend/monad/category/mpt/compute.hpp:101-145 | the data of a valued node is the Keccak root hash of the pairs nested below it, in the single-branch case too |
| MerkleSpec.EntryIsFound | depend/monad/category/mpt/compute.hpp:179-185 | the hashed pairs are the values the lookup finds, each as its leaf |
| MerkleSpec.LeadIs | depend/monad/category/mpt/compute.hpp:187-192 | the longest common prefix of the pairs of a branching node is its path |
| MerkleCompute.RootHash | depend/monad/category/mpt/compute.hpp:176-194 | the hash of a whole trie, taken of the root's encoding as lines 414-427 of test/test_fixtures_base.hpp do, is the root hash of its pairs |
| VarLenMerkle.VarLenMerkleCompute.ComputeLen | depend/monad/category/mpt/compute.hpp:256-268 | announces and carries the reference of the branches and value exactly when there is a path (also lines 326-349) |
| VarLenMerkle.VarLenMerkleCompute.ComputeBranch | depend/monad/category/mpt/compute.hpp:270-296 | hands over what is carried or recomputes the same list from the node, value item included |
| VarLenMerkle.VarLenMerkleCompute.Compute | depend/monad/category/mpt/compute.hpp:298-321 | the reference of a leaf, of an extension around the kept branch data, or of the branch |
| VarLenMerkle.VarLenMerkleCompute.CreateNodeWithChildren | depend/monad/category/mpt/node.cpp:605-618 | the new node keeps the reference of its branches where a path hides them, and the state is empty again; made over the references of the subtries of a tree, it stands for that tree and is encoded as the tree is |
| VarLenMerkle.KeptIsRecomputed | depend/monad/category/mpt/compute.hpp:270-296 | what is kept is what the branches hash to when asked again |
| VarLenMerkle.EncodedAsStandardIff | depend/monad/category/mpt/compute.hpp:311-318 | a node is encoded as the standard has it if and only if it is not one with children, a path and a value: those are marked as leaves |
| VarLenMerkle.ValuedExtensionIsMarked | depend/monad/category/mpt/compute.hpp:311-318 | a concrete such node, encoded unlike the standard |
| VarLenMerkle.EncodingIsOfTree | depend/monad/category/mpt/compute.hpp:298-321 | over the references of its subtries a node is encoded as the subtrie is, so that tries built from the leaves up are right throughout |
| VarLenMerkle.EncodingIsComposition | depend/monad/category/mpt/compute.hpp:298-321 | with no node of children, path and value in it, the encoding is the structural composition function applied to the pairs of the subtrie |
| VarLenSpec.ValuedIsComposition | depend/monad/category/mpt/compute.hpp:270-321 | for tries whose keys may be prefixes of each other, without such a node: encoding and composition function agree, values at branches included |
| VarLenSpec.HeldIsFound | depend/monad/category/mpt/compute.hpp:298-308 | the hashed pairs are the values the lookup finds; an empty value at a node with two or more branches is no pair |
| VarLenSpec.InnerComposition | depend/monad/category/mpt/compute.hpp:309-321 | what the standard makes of the pairs of any node with children, marked or not: its branch, behind its path as an extension |
| VarLenRoot.ValuedIsCompositionIff | depend/monad/category/mpt/compute.hpp:298-321 | over subtries that are hashed as the standard has it, a node's encoding is the composition function of its pairs if and only if it is not one with children, a path and a value |
| RlpItems.SeventeenItems | depend/monad/category/mpt/compute.hpp:326-349 | the composition of a branch reads back as a list of seventeen items |
| RlpItems.PiecesItems | depend/monad/category/mpt/compute.hpp:392-409 | a leaf or an extension reads back as a list of two items, so that it never equals a branch |
| RlpItems.PiecesTellKind | depend/monad/category/mpt/compute.hpp:311-318 | whether the second piece is marked as a leaf's shows in the encoding |
| RlpItems.PiecesRoundTrip | depend/monad/category/mpt/compute.cpp:34-66 | a leaf or an extension gives back its path, its kind and its second piece |
| VarLenRoot.RootHeldIsFound | depend/monad/category/mpt/compute.hpp:326-349 | the pairs of a root are the values the lookup finds below it; its own value is one unless it is empty |
| VarLenRoot.ForkedRoot | depend/monad/category/mpt/compute.hpp:378-383 | a root with two or more branches is hashed from the composition function of all its pairs, its own among them |
| VarLenRoot.SoleRootIff | depend/monad/category/mpt/compute.hpp:368-377 | a root with one branch is hashed from the composition function of the pairs below it if and only if its child does not have both a value and children |
| VarLenRoot.OwnIsDropped | depend/monad/category/mpt/compute.hpp:368-377 | with one branch a value of the root is not hashed: what is hashed is never the composition of all pairs |
| VarLenRoot.RootIsCompositionIff | depend/monad/category/mpt/compute.hpp:363-384 | what the hash of a trie is taken of is the composition function of all its pairs if and only if the root has two or more branches, or has no value but an empty one and an only child without a value or without children |
| VarLenRoot.RootValueIsDropped | depend/monad/category/mpt/compute.hpp:368-377 | a concrete trie with the values of keys empty and 4, hashed without the first |
| VarLenRoot.OnlyChildIsMarked | depend/monad/category/mpt/compute.hpp:392-407 | a concrete trie with keys 4 and 4 0 and no node of children, path and value, hashed unlike the standard |
| VarLenMerkle.RootVarLenMerkleCompute.ComputeLen | depend/monad/category/mpt/compute.hpp:363-384 | the root always holds a hash: of its list of branches, or of the only child one nibble further up; over the references of the subtries of a tree this is the hash of the tree, with two or more branches the root hash of its pairs, and with one branch taken of the composition of all pairs, or of those below the root, under exactly the conditions of RootIsCompositionIff and SoleRootIff |
| VarLenMerkle.HiddenIsRaised | depend/monad/category/mpt/compute.hpp:392-409 | the only child behind one nibble more is encoded as its subtrie one nibble further up, and is marked exactly if it has a value and children |
| VarLenMerkle.RootVarLenMerkleCompute.HashWithExtraNibble | depend/monad/category/mpt/compute.hpp:392-409 | the same preimage whether the child's branch reference is kept in it or has to be recomputed |

## Left out

- CopyMain.CopyTrieImpl: a source trie that is also the destination trie is promised only through the result; where the original stops the program (a source that is not found, a failed read on the way) the method returns that outcome, and the state it leaves is not specified.
- ParallelTraverse.TraverseOnDisk: requires the trie to be at most 256 nodes deep, as the code asserts; the cloned machine of a read is kept as its level and path.
- RootOffsets.Ring.Push: requires room in the window, which the code leaves to the bookkeeping above it (`UpsertVersion` proves it there), and version numbers that do not wrap around at 2^64.
- RootOffsets.Ring.RewindToVersion: an empty ring, whose last version reads as the largest number, is excluded, as its callers only rewind to a valid version.
- RootOffsets.Ring.Assign: requires the version to lie in the window, as its callers have it; elsewhere the code would overwrite the slot of another version.
- OwningFind.Finder.Drain: the writer gives each version one root for ever; recording another root for a version while lookups of it run, or a version recorded again after a rewind, is not covered.
- OwningFind.Finder.SetValue: the cache may drop any entries at any insertion; its byte accounting and eviction order are not modelled.
- MerkleSpec.NodeIsComposition: stated for keys of one length, which is what fixed-length tries have; leaves with tries nested below them count as leaves there, and `DataIsRootHash` covers the nested trie.
- MerkleCompute.MerkleComputeBase.Compute: paths longer than 65 nibbles stop the original and are excluded; a leaf's encoding may depend on the node's value and data only.
- VarLenMerkle.RootVarLenMerkleCompute.ComputeLen: making the node around it is not repeated for the root's variant, and paths of the only child longer than 64 nibbles, which stop the original, are excluded.
- VarLenRoot.RootIsCompositionIff: assumes the nodes below the root, apart from an only child, to be hashed as the standard has it; that a marked node further down changes the hash would need a hash function without collisions. Keys are shorter than 2^48 nibbles.
- NodeSerialize.DeserializeNodeFromBuffer: buffers that do not hold a serialized node are excluded, apart from what may follow it.
- StorageLayout.ChunksIsMost: devices that cannot hold one chunk and a page are excluded.
- Upsert, erase, compaction and expiry of subtries; the write path with its buffers; chunk lists, reuse of chunks and virtual offset translation other than through `OwningFind.Writer`.
- In-memory-only tries: copying without a disk writes nothing, and offsets play no part.
- Minimum offsets and child hash data in the copied tries: the copy code does not carry the data, and treats the offsets differently from case to case.
- Writing the new root, locks, fibers, worker loops, and everything that only concerns threads other than the lock-free lookup.
- The interleaved placement of chunks, which rests on floating-point ratios.
- The inside of Keccak, and the nibble-by-nibble loop that fills the hex-prefix form.
- The metadata fields beside the root offsets (finalized, verified, voted and proposed versions, auto-expiry), and changes of the history length while running.
- Bindings, the command line tool, logging, statistics and operating system calls.
