# A verified model of GravTree

GravTree is a write-buffered search tree in the B-epsilon style: writes go to a skip list, are drained
into the root's buffer, and move down in batches (LocalFlush) into node files that are never edited
after a rewrite under a new id. This project models that machine in Dafny and proves what holds it
together: for every sequential run, every read returns what a plain map would return; no step loses or
reorders a version; the files on disk at a save point are the tree in memory; and the skip list, the
node file format, its checksum, the Bloom filter and the manifest do what the tree relies on.

Check everything with `dafny verify dfyconfig.toml`.

## How the model is laid out

| file | models |
|---|---|
| `Types.dfy`, `Entries.dfy` | entries, their order, newest version of a key, stable sort, dedupe, merge, the two routers, partitioning, byte counts |
| `TreeModel.dfy`, `TreeFlush.dfy`, `TreeSplit.dfy`, `TreeShape.dfy` | the tree as a value; LocalFlush, `split_leaf` and `insert_child` as functions on it; routing, version order and shape invariants |
| `TreeStore.dfy`, `FlushStore.dfy`, `SplitStore.dfy`, `FlushLoop.dfy` | how the id-keyed cache represents a tree, and what each step does to cache and files |
| `FlushLeaves.dfy`, `FlushHot.dfy`, `FlushTidy.dfy` | what a completed `do_flush` leaves behind: the leaves, the full inner nodes, the emptied buffers |
| `FlushOps.dfy`, `TreeOps.dfy` | the loops of `flush.cpp`, `node.cpp` and `insert_child`, each against the function it computes |
| `SkipList.dfy` | the linked structure with up to twelve forward lists |
| `GravTree.dfy`, `TreeRead.dfy`, `WriteView.dfy`, `Reference.dfy` | the tree object: reads, writes, draining, flushing, splitting, reopening, whole runs |
| `Interleaving.dfy`, `Conservation.dfy` | locked steps of clients, the flush thread and `flush()` in any order, with no routing assumption |
| `ManifestText.dfy`, `Manifest.dfy` | the manifest file, ids, records, garbage collection |
| `ByteCodec.dfy`, `Codec.dfy`, `Crc.dfy`, `CrcLaw.dfy`, `Bloom.dfy`, `NodeFile.dfy` | node files, sparse index, checksum, filter |
| `Witnesses.dfy` | concrete trees on which the code goes wrong |

The class `GravTreeModel.GravTree` keeps the tree it represents as ghost state (`tree`); its methods
work on the cache, the manifest and the skip list only. Randomness (skip-list heights), Bloom answers
and hash functions are parameters. A node's file is named after its id, so the directory is a map from
ids to nodes; `NodeFile.WriteAndLoad` is the reason a file may be treated as its node.

## Assumptions the code relies on, and where it breaks without them

* Sequence numbers only grow within a session. They start over on reopening; `WriteView.LateWriteExact`
  says exactly when a write with an arbitrary number is what reads return, `Witnesses.ReopenedWriteLost` is an
  instance of a lost one.
* A root leaf is sorted but not deduplicated before its first split. If one key straddles the cut, reads
  go stale: `TreeSplit.RootSplitExact` proves reads stay right if and only if none does,
  `Witnesses.SplitGoesStale` is an instance.
* `do_flush` keeps passing the parent's id after an earlier split in the same loop may have replaced that
  parent. `GravTreeModel.GravTree.DoFlush` returns normally if and only if `FlushLoop.Stuck` is false
  (above the leaves: children plus full children at most 17); `Witnesses.FlushFails` is a state
  that meets every other demand and on which the next round of the flush thread throws.
* Every entry is smaller than the 4 MB threshold (`FlushLoop.Small`), so a full leaf has two entries. Inserts
  accept larger ones; only flushing an inner node relies on it.
* File reads and writes succeed.

## Where the code differs from its comments

* `src/node.cpp:59` names ECMA-182, but the constant on line 61 is not that polynomial. The model uses the
  constant as written and claims no conformance.
* The code reads an empty cached minimum key as "not set" (`src/node.cpp:146`, `src/tree.cpp:363`), so once the
  empty key is stored a cached minimum may be larger than the smallest key. `TreeModel.MinOk` says so; the
  empty key can only be under the leftmost children, which are never routed to by their minimum.
* `src/flush.cpp:10-12` speaks of key ranges; the code compares minimum keys only, and so does the model.

## Model

| member | source | states |
|---|---|---|
| `GravTreeModel.GravTree.Run` | src/tree.cpp:190-311 | for every sequence of inserts, removes, reads, background rounds and flushes, the reads return what a plain map returns; the run stops early only at a background round that would, from the very state reached, split a root leaf inside a key or meet a replaced parent, so a run without such a round completes; the invariant holds at the end either way |
| `GravTreeModel.GravTree.Get` | src/tree.cpp:227-250 | the value of the newest write of the key, nothing if that was a remove or there was none, for any Bloom answers |
| `GravTreeModel.GravTree.GetFromTree` | src/tree.cpp:238-250 | the first hit on the path is the highest-numbered version stored anywhere in the tree, and the filter guard never hides it |
| `GravTreeModel.GravTree.FindPath` | src/tree.cpp:168-186 | the path is the scan's way down, and every cached node that holds a version of the key is on it |
| `GravTreeModel.GravTree.Insert` | src/tree.cpp:190-206 | the new write becomes the newest of its key, all others keep theirs, the whole invariant is kept |
| `GravTreeModel.GravTree.Remove` | src/tree.cpp:210-223 | the same for a tombstone |
| `GravTreeModel.GravTree.DrainToRoot` | src/tree.cpp:80-95 | the buffer ends up empty, the root holds its entries sorted, the newest write of every key is unchanged |
| `GravTreeModel.GravTree.BackgroundFlush` | src/tree.cpp:79-109 | completes exactly if no replaced parent is met; a completed round keeps every read and all invariants, leaves no full inner node (the root included), and has done exactly this: nothing if the root is not full, the split of a full root leaf, or a flush of a full inner root all the way down to the leaves |
| `GravTreeModel.GravTree.SplitRootLeaf` | src/tree.cpp:97-102 | the tree is exactly the one with the root leaf split in two, saved, with every newest version kept |
| `WriteView.RootSplitShape` | src/tree.cpp:402-443 | that tree has one level above two leaves, an empty root buffer, and in each leaf one half of the sorted entries, the halves equal in number up to one |
| `WriteView.InnerRoundDone` | src/tree.cpp:327-398 | after a full inner root was flushed no inner node is full and the leaf buffers are those of a flush all the way down |
| `GravTreeModel.GravTree.Flush` | src/tree.cpp:286-312 | the tree is the drained one with the root's buffer persisted, at a save point: files equal the cache, the manifest lists exactly the tree's nodes, the directory holds exactly their files, no read changed |
| `GravTreeModel.GravTree.FlushAndReopen` | src/tree.cpp:135-164 | a read after flush, close and open returns the newest write of the session before |
| `GravTreeModel.GravTree.Reopened` | src/tree.cpp:135-164 | at any save point opening the directory again reaches the same, closed tree, and its node files are all the directory holds |
| `GravTreeModel.GravTree.DoFlush` | src/tree.cpp:327-398 | returns normally if and only if no child must be split under a replaced parent; then the tree is well-formed, saved, holds the newest version of every key and nothing new, and every subtree apart from the flushed one is untouched; the flushed node is empty if still cached, its leaves have given way to the merged ones with every full one cut in two, and a full node with none above or below it leaves the tree with exactly one full inner node less |
| `FlushLeaves.AfterLeafCount` | src/tree.cpp:384-397 | the number of leaves grows by exactly the number of leaves that are full after the merges |
| `FlushLeaves.LaidReplace` | src/tree.cpp:387-397 | dealing with one child changes only that child's leaves in the leaf sequence, wherever earlier splits have moved the child |
| `FlushHot.HotInsertAt` | src/tree.cpp:468-564 | a split cascade below nodes that are not full makes none full |
| `FlushHot.FlushedHot` | src/tree.cpp:327-382 | one flush empties the node; full inner nodes below are then exactly the inner children that overflowed |
| `GravTreeModel.GravTree.Settle` | src/tree.cpp:387-397 | one round of the loop over overflowing children advances the loop's invariant or shows the failure condition |
| `GravTreeModel.GravTree.FlushOne` | src/tree.cpp:327-382 | partition, rewrite, pointer update, cache refresh and save give exactly the flushed tree, in the cache and on disk |
| `GravTreeModel.GravTree.RefreshChildren` | src/tree.cpp:356-371 | cache and files after the refresh loop, child by child |
| `GravTreeModel.GravTree.SplitLeaf` | src/tree.cpp:402-446 | the tree is the one with the leaf replaced by its halves, saved, other cached nodes untouched, new ids fresh |
| `GravTreeModel.GravTree.InsertChild` | src/tree.cpp:468-564 | shift, internal split or new root: the cache represents exactly the tree of the upward cascade, a full parent is gone, nodes off the path are untouched |
| `GravTreeModel.GravTree.SplitParent` | src/tree.cpp:488-535 | the full parent is replaced by two nodes with half of the children each and its buffer divided at the fence |
| `GravTreeModel.GravTree.Dfs` | src/tree.cpp:453-463 | the search finds the target exactly if it is in the subtree and returns the ids on the way |
| `TreeOps.ShiftIn` | src/tree.cpp:475-478 | the slot-by-slot shift puts both halves in the old child's place and keeps the other pointers in order |
| `TreeOps.DivideBuffer` | src/tree.cpp:506-509 | every entry goes to the side of the fence it belongs to, in order |
| `TreeModel.LookupIsBest` | src/tree.cpp:238-249 | with routing and version order, the first hit is the newest version in the tree |
| `TreeRead.OnPath` | src/tree.cpp:168-186 | a node anywhere in the tree that holds a version of the key lies on the way down that the key takes |
| `TreeModel.OffPath` | src/tree.cpp:177-182 | within one child list, only the child that the key routes to holds it |
| `TreeRead.LookupAlong` | src/tree.cpp:238-249 | reading the cached nodes along the path equals the recursive lookup |
| `TreeFlush.FlushNodeFacts` | src/flush.cpp:72-126 | LocalFlush preserves meaning: duplicates allowed in the parent, the newest version per key is unchanged, nothing is invented, children stay strictly sorted, fenced and of one level |
| `TreeFlush.FlushVersions` | src/tree.cpp:327-382 | versions of a key still get strictly older on the way down |
| `TreeFlush.FlushKidBest` | src/flush.cpp:103-112 | a rewritten child holds, per key, the newer of bucket and child |
| `TreeFlush.NewKidsSeparated` | src/tree.cpp:356-378 | cached minimum keys of the new children still fence them off |
| `FlushStore.FlushStepOk` | src/tree.cpp:327-382 | a flush anywhere in the tree keeps shape, routing, version order and the newest versions |
| `FlushStore.FlushHolds` | src/tree.cpp:342-382 | the cache after a flush represents exactly the flushed tree, under distinct ids below the counter |
| `TreeSplit.LeafSplitOk` | src/tree.cpp:402-419 | the two halves of a cleanly cut leaf are well-formed, fenced by the right half's minimum, and together stand for the leaf |
| `TreeSplit.ParentSplitOk` | src/tree.cpp:488-527 | the halves of a full internal node stand for it in the same way, with 8 and 9 children |
| `TreeSplit.InsertAtFacts` | src/tree.cpp:468-564 | however far the cascade climbs, the result is well-formed and keeps the newest version of every key |
| `TreeSplit.InsertAtVersions` | src/tree.cpp:468-564 | the cascade keeps version order |
| `TreeSplit.StrictCutsClean` | src/node.cpp:180-191 | a deduplicated leaf is always cut between two keys |
| `TreeSplit.RootSplitExact` | src/tree.cpp:402-443 | after splitting a root leaf every read is right if and only if no key straddles the cut |
| `TreeSplit.StaleAfterSplit` | src/tree.cpp:405-412 | a straddling key reads as an older version |
| `FlushLoop.SplitAtFacts` | src/tree.cpp:402-446 | a leaf split anywhere keeps shape, routing, version order and newest versions |
| `FlushLoop.FullLeafCuts` | src/tree.cpp:404-412 | a full leaf below the root has two entries and cuts cleanly |
| `FlushLoop.SplitKeeps` | src/tree.cpp:468-564 | a split touches only the way down to the leaf |
| `Witnesses.FlushFails` | src/tree.cpp:387-397 | a state that meets every demand of a round (well-formed, cached under distinct ids, ordered versions, small entries, a session's writes) on which the round throws |
| `Witnesses.ReopenedWriteLost` | include/gravtree/tree.h:116-116 | a root holding a key under number 5: the next session's first write of it, numbered 1, is not what reads return once it is merged |
| `Witnesses.SplitGoesStale` | src/tree.cpp:92-102 | a root leaf with two versions of one key reads stale after its split |
| `WriteView.LateWriteExact` | src/tree.cpp:92-95 | exactly when a drained write with an arbitrary number is what reads return, and when the read is the highest-numbered version |
| `WriteView.DrainBest` | src/tree.cpp:92-95 | draining changes no newest version |
| `WriteView.PersistKeeps` | src/node.cpp:141-156 | writing the root's buffer to its file keeps newest versions and version order |
| `TreeShape.LevelIsDepth` | src/tree.cpp:384-397 | a node's level fixes its depth; all leaves are equally deep |
| `TreeShape.InsertAtLeaves` | src/tree.cpp:468-564 | the leaf sequence changes only in that the old subtree's leaves give way to the left then the right half's |
| `TreeShape.SplitLeafLeaves` | src/tree.cpp:402-446 | splitting a leaf replaces it by its two halves, order and all other leaves unchanged |
| `TreeShape.RootLeafCount` | src/tree.cpp:471-503 | a root at level h >= 1 has at least 2 * 8^(h-1) leaves |
| `Entries.RoutersAgree` | src/flush.cpp:25-31 | with strictly increasing minimum keys the reader's scan and the partitioner's scan pick the same child, the one whose range holds the key |
| `Entries.RoutersDisagree` | src/tree.cpp:177-182 | without that they can differ |
| `Types.FirstDifference` | include/gravtree/types.h:31-34 | of two keys that differ, the first byte that differs decides, bytes unsigned |
| `Types.PrefixFirst` | include/gravtree/types.h:31-34 | a proper prefix comes before its extensions |
| `Entries.PartitionIsLossless` | src/flush.cpp:14-35 | the buckets of a sorted list concatenate back to it |
| `Entries.MergeBest` | src/flush.cpp:42-68 | the merge keeps the newer version of both sides for every key |
| `Entries.SortBufferFacts` | src/node.cpp:180-191 | strictly increasing keys, newest version per key kept, nothing added |
| `Entries.NodeGetIsBest` | src/node.cpp:160-167 | the probe finds the newest version of the key in a sorted buffer, or nothing exactly if there is none |
| `FlushOps.PartitionEntries` | src/flush.cpp:14-35 | the nested loops fill each bucket with the entries routed to it, in order |
| `FlushOps.MergeSortedEntries` | src/flush.cpp:42-68 | the loops compute the two-way merge |
| `FlushOps.DedupeSorted` | src/node.cpp:180-191 | the loop keeps the first entry of each run of equal keys |
| `FlushOps.CreateNode` | src/node.cpp:97-121 | sorted, deduplicated node with its key range and at most 16 children |
| `FlushOps.LocalFlush` | src/flush.cpp:72-126 | exactly the children with a non-empty bucket are merged, written under consecutive fresh ids and their old records marked stale |
| `FlushOps.UpdatePointers` | src/tree.cpp:342-351 | exactly the rewritten positions get the new ids |
| `FlushOps.LocalFlushCost` | src/flush.cpp:89-123 | bytes written are at most the parent's buffer plus the children that received data; at most one fresh id per child |
| `Entries.BucketsBytes` | src/flush.cpp:14-35 | partitioning neither drops nor copies bytes, whatever the minimum keys |
| `SkipListModel.SkipList.Insert` | src/skiplist.cpp:49-67 | for any height h in 1..12 one fresh node of that value and height is put in at its sorted place, the list height becomes the larger of the two, all levels stay exact and sorted, size and bytes stay exact |
| `SkipListModel.SkipList.FindPrev` | src/skiplist.cpp:36-45 | the descent finds, on every level, the last node below the value |
| `SkipListModel.SkipList.FindKey` | src/skiplist.cpp:74-91 | the highest-numbered entry of the key, or nothing exactly if the key is absent |
| `SkipListModel.SkipList.ToSortedVector` | src/skiplist.cpp:110-116 | all entries in sorted order |
| `SkipListModel.SkipList.Clear` | src/skiplist.cpp:95-106 | the list is empty, valid and one level high |
| `SkipListModel.SkipList.WalkLevel` | include/gravtree/skiplist.h:36-41 | following one level's pointers ends and visits exactly the nodes taller than it, in order |
| `SkipListModel.LevelsNest` | src/skiplist.cpp:62-65 | each level is the level below without its shorter nodes |
| `SkipListModel.RelinkedOne` | src/skiplist.cpp:62-65 | after the splice every old pointer leads to the next node tall enough |
| `Interleaving.NothingLost` | src/tree.cpp:78-105 | under every interleaving, splits inside a key included, the newest acknowledged write of a key is in the buffer, a drained batch or the tree, and nothing held is numbered higher |
| `Interleaving.StepSafe` | src/tree.cpp:197-200 | every locked step keeps this, batches merged in any order and leaves cut anywhere; the tree object's `Write`, `DrainToRoot`, `FlushOne`, `SplitLeaf` and `PersistRoot` are stated to act as these steps |
| `Conservation.FlushPreserves` | src/flush.cpp:72-126 | a flush keeps every newest version even where minimum keys do not fence the children |
| `Conservation.InsertAtPreserves` | src/tree.cpp:468-564 | so does the upward cascade of a split, clean or not |
| `ManifestText.LoadUndoesSave` | src/manifest.cpp:20-70 | parsing the printed manifest restores root, next id and every record |
| `ManifestText.HeaderExample` | src/manifest.cpp:62-64 | the header lines at an instance, character by character |
| `ManifestText.RecordExample` | src/manifest.cpp:65-67 | the order of the fields of a record line |
| `ManifestText.NodePathInjective` | src/node.cpp:216-216 | different ids have different file names |
| `ManifestModel.Manifest.Reopen` | src/manifest.cpp:20-53 | the saved records, root and next id; at a save point exactly the live files |
| `ManifestModel.Manifest.Save` | src/manifest.cpp:57-70 | the text lists exactly the records, root and next id |
| `ManifestModel.Manifest.NextNodeId` | include/gravtree/manifest.h:65-65 | a fresh id above every recorded one |
| `ManifestModel.Manifest.Gc` | src/manifest.cpp:112-123 | exactly the stale records and exactly their files go; no file the saved manifest marks valid is removed; the directory then holds the valid records' files and, but for strays found at opening, no other |
| `ManifestModel.Manifest.Invalidate` | src/manifest.cpp:80-84 | the record stays listed, marked stale, every other record and all files are unchanged |
| `ManifestModel.Manifest.Install` | src/manifest.cpp:74-78 | the node's file and a valid record under its own name, every other file and record unchanged |
| `ManifestModel.Manifest.SaveAndGc` | src/tree.cpp:381-382 | the order in which the tree calls them ends at a save point with exactly the valid records' files in the directory |
| `Codec.WriteFile` | src/node.cpp:214-276 | the loops produce the file layout, sparse offsets noted while entries are written |
| `Codec.ReadFile` | src/node.cpp:280-352 | of a written file recovers every field, the entries in order and the index; the header-only read recovers the header; short files, bad checksums and other magics are refused |
| `Codec.FileLayout` | include/gravtree/node.h:33-56 | where a file keeps magic, version, id, level, child count, child slots, entry count and minimum key, and that its last eight bytes are the checksum of the rest |
| `Codec.ReadHeader` | src/node.cpp:299-329 | recovers header, key range and filter and leaves the position at the entries |
| `Codec.IndexPointsTrue` | src/node.cpp:245-260 | item j of the index holds the key and the byte position of entry 128 * j |
| `Codec.ReadAtOffset` | src/node.cpp:341-349 | decoding at a stored offset yields exactly that entry |
| `Codec.WriteEntries` | src/node.cpp:244-254 | the loop that writes the entries notes, for exactly every 128th of them, its key and the position at which it starts |
| `Codec.CorruptionDetected` | src/node.cpp:291-296 | any change confined to eight consecutive bytes of the body fails the check |
| `NodeFile.WriteAndLoad` | src/node.cpp:125-137 | a node written to a file and loaded is the same node |
| `Crc.Crc64` | src/node.cpp:60-69 | the nested loops compute the checksum, which `CrcLaw.ChecksumIsRemainder` describes without them |
| `CrcLaw.ChecksumIsRemainder` | src/node.cpp:60-69 | over GF(2), the message with 64 zeros appended and its first 64 bits complemented is a multiple of x^64 plus the code's polynomial, plus the complemented checksum |
| `CrcLaw.EmptyChecksum` | src/node.cpp:62-68 | the checksum of nothing is zero |
| `Crc.BurstDetected` | src/node.cpp:60-69 | for files of any length, two different windows of up to eight bytes give different checksums |
| `Crc.TrailerOrder` | src/node.cpp:262-264 | the checksum's lowest byte is stored first |
| `Crc.ShiftLinear` | src/node.cpp:66-66 | a register step is linear over xor |
| `Crc.ShiftKernel` | src/node.cpp:66-66 | only zero steps to zero |
| `Crc.RegisterIsWord` | src/node.cpp:63-67 | feeding up to eight bytes is shifting the register with the whole word added in |
| `ByteCodec.LeRoundTrip` | src/node.cpp:21-56 | little-endian fields read back what was written |
| `ByteCodec.LeDigit` | src/node.cpp:21-30 | byte i of a field is the number's digit i to the base 256, so the lowest byte comes first |
| `Bloom.NeverHides` | src/bloom.cpp:97-110 | after any sequence of adds every added key is reported, for any sizes and hash function |
| `Bloom.AddedExact` | src/bloom.cpp:97-102 | an add sets the key's positions and changes no other bit |
| `Bloom.NthSteps` | include/gravtree/bloom.h:48-50 | position 0 is the first hash, and each next position is a step of the second hash further round |
| `Bloom.CopyNeverHides` | src/node.cpp:77-88 | this survives serializing, deserializing and copying |
| `Bloom.BloomFilter.MightContain` | src/bloom.cpp:104-110 | true exactly if all positions of the key are set |
| `Bloom.BloomFilter.AddKeys` | src/node.cpp:195-200 | the filter built from a node's keys |
| `Bloom.FilterRoundTrip` | src/bloom.cpp:114-139 | deserializing a serialized filter gives it back |

## Left out

- Crashes between rewriting a live node's file and the next manifest save: recovery is claimed at save points only.
- Reads concurrent with the flush thread: a drained batch is briefly in neither buffer nor tree; interleavings claim conservation, exact reads are claimed for sequential runs.
- Condition variables, back-pressure and the hard limit; `signal_flush` and `wait_for_flush_complete` have no effect in a sequential run.
- What happens after `do_flush` has thrown: the flush thread swallows the exception; `DoFlush` promises nothing about the state then, and the model stops before the half-done split.
- New writes after reopening, beyond `WriteView.LateWriteExact`: the sequence counter starts at 1 again.
- `range_scan`, `maybe_flush`, `stats`, unused options: not part of the tree's reads and writes.
- Loading on demand: the model loads every node when it opens a directory; the code loads a node when it is first used.
- Bloom filter sizing in floating point, the false-positive rate and MurmurHash: sizes are positive parameters, the hash is any function.
- The cached maximum key: it is carried along and written, but no routing decision uses it and nothing is proved about it.
- Sequence numbers and ids beyond 64 bits: `Insert`, `Remove` and `Run` require the counter to be below the limit; ids are unbounded.
- Malformed manifest lines: parsing is modelled for well-formed lines; a broken number reads as zero.
- A filter length that points past the end of a file: the code does not check it, the model reports an error.
- File-system calls, rename, threads and locks as such.
- GravTreeModel.GravTree.SplitLeaf: requires that no key straddles the cut; the code does not check it for a root leaf, and `TreeSplit.RootSplitExact` says exactly what happens otherwise.
- GravTreeModel.GravTree.InsertChild: requires that the parent points at the old child; the code's branches for a stale pointer cannot be reached from `split_leaf`.
- GravTreeModel.GravTree.BackgroundFlush: requires the same of a root leaf that is about to be split, for the same reason, and small entries once the root has children.
- GravTreeModel.GravTree.DoFlush: requires that every entry is smaller than the threshold; with a larger one a leaf of a single entry would be split into an empty leaf and itself, which the routing invariant does not cover.
