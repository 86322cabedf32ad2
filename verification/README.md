# PrediCache: a verified model

PrediCache is a B+-tree on a buffer pool whose page table is a hash table. This project models its
six layers in Dafny and proves what each of them is for. `dafny verify dfyconfig.toml` checks all of it.

| layer | files | source it follows |
|---|---|---|
| byte strings, heads, typed keys | `Bytes`, `Arithmetic`, `KeyFold` | `btree.hpp`, `benchmarks/shared/Types.hpp`, `benchmarks/tpcc/Schema.hpp` |
| what a page means | `Pages`, `Splits`, `SplitChoice`, `PageSpace`, `HardCases` | the operations of `BTreeNode` as operations on a sorted run of entries |
| a page in bytes | `NodeImage`, `Hints`, `NodeSearch`, `NodeUpdates`, `BTreeNode` | `BTreeNode`, field by field and byte by byte |
| the tree | `Forests`, `ForestSteps`, `LeafSteps`, `SplitMeasure`, `Trees`, `TreeNodes`, `Scans` | `btree.cpp`, `BTree`, the adapter's scans |
| latches and optimistic readers | `Latch`, `OptimisticRead`, `TreeRuns` | `page.hpp`, `guards.hpp` |
| buffer pool | `Pools`, `PoolClock`, `BufferPool`, `HashTable`, `ResidentSet` | `buffer_manager.hpp`, `ht.hpp`, `versioned_lock.hpp`, `page.hpp` |
| promotion controller | `Throughput` | `cbp.hpp` |

How the layers fit together:

* `Pages.Page` is what a page means: two fences, a sorted run of (full key, payload), a link. `BTreeNode` is a class
  over a byte array, a slot array and a hint array; its ghost function `View` reads a `Page` off them, and every
  method is proved to do to `View` what the corresponding `Page` operation says - prefix truncation, heads, hints,
  lazy deletion and repacking included.
* `Trees.BTree` composes these page operations. Its invariant (uniform depth, keys inside the fences, child fences
  tiling the parent's range, one page per level for each key, leaf links in key order, leaves agreeing with a ghost
  map) is kept by every step, and insert, lookup, remove and the scans are those of a finite map. Insert's restarts
  are proved to end, for every pair that `insert` accepts. `TreeNodes` keeps a `BTreeNode` object for every page of
  the tree and takes the tree's steps on them: a valid tree meets what the node methods ask for, a leaf split that
  overflows excepted, and afterwards every page of the next tree has its node.
* `Latch` gives the meaning of the latch word in every interleaving. `OptimisticRead` puts many such latches side by
  side and follows one optimistic reader among arbitrary writers that keep a discipline. `TreeRuns` shows that every
  run of the tree's own operations keeps it, and that the reader's lookup is linearizable.
* `BufferPool` refines a plain page store and evicts with the clock of `ResidentSet`; `PoolClock` shows that the clock
  meets every page that stays, and says exactly which pages an eviction drops. `HashTable` proves the page table under
  interleaving.

What the model says where the code and its comments or assertions differ, or where a plausible claim is false:

* The left half of a leaf split can overflow the page. `PageSpace.LeafLeftHalfFits` gives the exact condition,
  `HardCases.LeftHalfMayOverflow` a leaf of legal entries that violates it. For keys of one length, or of lengths that
  differ by no more than a record and its slot take, it cannot happen, and a tree with such keys never has an overfull
  page (`Trees.BTree.Insert`).
* `splitNode` asserts `sepSlot > 0` (`btree.hpp:378`). `HardCases.SplitsAtZero` says that this fails exactly for leaves
  with two entries and inner pages with one, and `HardCases.SlotZeroHappens` shows how a tree of four long keys comes to
  the first. The model has no such precondition, and slot 0 splits well.
* `findSeparator` asserts two entries (`btree.hpp:436`). With separators of more than 983 bytes an inner page with one
  entry may have to be split (`HardCases.OneEntryMayRefuse`; `PageSpace.OneEntryRefuses` is the exact condition). Only
  that assertion stands in the way: without it such a page splits at slot 0 into two empty pages with room for any
  separator (`HardCases.OneEntrySplits`), and `Trees.BTree.Insert` is proved without it.
* `promoteLocked` looks the displaced page up in the bucket of the promoted page (`buffer_manager.hpp:445`).
  `BufferPool.BufferManager.PromoteLocked` says exactly when this makes it do nothing.
* `tryPromote` and `unfixX` hash the owner of the preferred frame (`buffer_manager.hpp:416-417`, `523-524`), also if
  that is the mark for no page. So a page may be kept out of a frame that is free: `Pools.FreeFrameMissed` is an
  example, and `BufferPool.BufferManager.TryPromote` says exactly when.
* `ResidentPageSet::remove` of an absent pid ends if and only if some slot is empty (`ResidentSet.SearchEnds`), but
  tombstones never become empty again (`ResidentSet.EmptiesNeverGrow`): a table that never holds more than one pid can
  end without an empty slot (`ResidentSet.TombstonesFill`). The pool as modelled removes only pids that are there.
* `cbp.hpp:272-274` announces that after an adoption the search goes on on the other side. The other side is where it
  came from: in every run, whatever is counted, only the start and one neighbour ever run (`Throughput.TwoChances`), and
  under a stationary throughput the first probe decides everything (`Throughput.OneAdoption`).
* The sample a probe is decided by was measured at the probed chance if and only if the window right after the probe
  was opened was not empty (`Throughput.ProbeSample`). In `Throughput.EmptyWindowMisleads` a run adopts a chance at
  which nothing was ever counted.
* A string survives folding exactly if it contains no zero character (`KeyFold.VarcharRoundTrip`), and so does a
  `customer_wdl` key (`KeyFold.KeyRoundTrip`).

## Model

| member | source | states |
|---|---|---|
| Bytes.Memcmp | repo/PrediCache/btree.hpp:92-103 | the sign of the result orders the first num bytes lexicographically, zero means they are equal |
| Bytes.HeadBigEndian | repo/PrediCache/btree.hpp:76-89 | after the byte swaps, the head is the key's first four bytes, zero padded, read big-endian |
| Bytes.HeadMonotone | repo/PrediCache/btree.hpp:75-89 | heads preserve order: a key that is not larger has no larger head |
| Bytes.HeadLess | repo/PrediCache/btree.hpp:204-207 | a smaller head alone decides the comparison of two keys |
| Bytes.PrefixBetween | repo/PrediCache/btree.hpp:369-375 | every key between two fences starts with their common prefix |
| Bytes.CommonGrows | repo/PrediCache/btree.hpp:369-375 | narrowing a page's range never shortens its prefix |
| Pages.LowerBound | repo/PrediCache/btree.hpp:180-227 | the first position whose full key is not below the search key |
| Pages.LowerBoundSplits | repo/PrediCache/btree.hpp:180-227 | everything before it is smaller, everything behind it larger, and an equal key is nowhere else |
| Pages.Page.FindSeparator | repo/PrediCache/btree.hpp:435-469 | in all three modes the chosen slot and length describe a separator taken from that slot or, truncated, from its successor, a leaf keeping an entry on either side; which slot it is say the five `SplitChoice` rows below |
| SplitChoice.OrderedSplit | repo/PrediCache/btree.hpp:444-447 | in ordered mode the right half of a leaf is its last entry alone |
| SplitChoice.MiddleSplit | repo/PrediCache/btree.hpp:438-456 | otherwise a leaf of up to 16 entries, and in either mode an inner page, is split in the middle: the left half has as many entries as the right one, or one more |
| SplitChoice.WindowSplit | repo/PrediCache/btree.hpp:448-454 | a larger leaf is split inside the last eighth of its lower half, at the first key that shares less with the leaf's first key than the one at the start of the window does, or at the start if there is none |
| SplitChoice.Truncation | repo/PrediCache/btree.hpp:458-468 | the separator of a leaf is truncated iff both neighbours go on behind their common prefix, the right one by two bytes; then it is that prefix and one byte more, else the left key |
| SplitChoice.ShortestSeparator | repo/PrediCache/btree.hpp:458-468 | a truncated separator is as short as any key that separates the two neighbours |
| Pages.RoutedRange | repo/PrediCache/btree.hpp:476-481 | an inner page routes a covered key to the one child in whose range it lies |
| Splits.EntriesCarryPrefix | repo/PrediCache/btree.hpp:124-128 | every key on a page carries the page's prefix, so storing only the suffix loses nothing |
| Splits.TruncatedBetween | repo/PrediCache/btree.hpp:463-466 | the truncated separator lies strictly between the two keys it separates |
| Splits.SeparatorSplits | repo/PrediCache/btree.hpp:435-474 | findSeparator and getSep yield key[slot] <= sep < key[slot + 1], strictly inside the page's fences |
| Splits.SplitOk | repo/PrediCache/btree.hpp:387-411 | both halves are well-formed pages: sorted, inside their new fences |
| Splits.SplitContents | repo/PrediCache/btree.hpp:401-411 | left ++ (the separator for inner pages) ++ right is the old entry sequence |
| Splits.InsertOk | repo/PrediCache/btree.hpp:235-247 | inserting a fresh covered key keeps the page well-formed, the other entries keeping their order |
| Splits.AddSeparatorKids | repo/PrediCache/btree.hpp:390-399 | the parent of a split has left and right in place of the split child, with the ranges up to and from the separator, and all other children and ranges as before |
| Splits.MergeOk | repo/PrediCache/btree.hpp:284-309 | the merged leaf is well-formed over the joint range |
| Splits.DropSeparatorKids | repo/PrediCache/btree.hpp:301-303 | the parent of a merge has the surviving page over the joint range and all other children and ranges as before |
| PageSpace.NoKeyUnderflow | repo/PrediCache/btree.hpp:329-343 | prefix growth in a split never makes a stored key length negative |
| PageSpace.RightHalfFits | repo/PrediCache/btree.hpp:377-416 | the right half always fits the page |
| PageSpace.InnerLeftHalfFits | repo/PrediCache/btree.hpp:407-409 | the left half of an inner page always fits |
| PageSpace.LeafLeftHalfFits | repo/PrediCache/btree.hpp:401-405 | the left half of a leaf fits if and only if the separator is no longer than what the split gains |
| PageSpace.LeafLeftHalfFitsIf | repo/PrediCache/btree.hpp:462-468 | it fits whenever the separator is truncated or no longer than the entry behind the split |
| PageSpace.EvenSplitFits | repo/PrediCache/btree.hpp:377-416 | for keys of one length, or of similar lengths, both halves fit |
| HardCases.LeftHalfMayOverflow | repo/PrediCache/btree.hpp:458-468 | three pairs of maximal length followed by two short ones: a legal leaf that must be split and whose left half overflows |
| HardCases.SplitsAtZero | repo/PrediCache/btree.hpp:435-469 | the split slot is 0, against the assertion at btree.hpp:378, exactly for leaves with two entries and inner pages with one |
| HardCases.SlotZeroHappens | repo/PrediCache/btree.hpp:377-378 | a root leaf that refuses its fourth record is split, and its left half refuses the record too and is split at slot 0 |
| PageSpace.OneEntryRefuses | repo/PrediCache/btree.hpp:130-147 | a page with one entry refuses a pair if and only if fences, entry and pair are together longer than four maximal pairs and twice the prefix |
| PageSpace.RefusalMeansTwoEntries | repo/PrediCache/btree.hpp:120-147 | so a page whose entries are no longer than a maximal pair has at least two of them when it refuses one, and a separator exists |
| PageSpace.RefusalMeansSplittable | repo/PrediCache/btree.cpp:42-64 | an inner page that refuses a separator has an entry at which it can be split, and two on the left edge of the tree |
| HardCases.OneEntryMayRefuse | repo/PrediCache/btree.hpp:435-440 | an inner page with one entry that refuses a separator of 991 bytes, against the assertion at btree.hpp:436 |
| HardCases.OneEntrySplits | repo/PrediCache/btree.hpp:435-440 | every inner page with one entry splits at slot 0 into well-formed pages that fit and have room for any separator |
| PageSpace.MergeShrinksPrefix | repo/PrediCache/btree.hpp:292-294 | merging never lengthens a prefix: the growth terms of the merge test are not negative |
| PageSpace.MergeFitsSound | repo/PrediCache/btree.hpp:293-298 | when the upper bound passes, the re-expanded entries of both leaves fit one page |
| PageSpace.MergeFitsIs | repo/PrediCache/btree.hpp:293-298 | the merge test passes iff the merged leaf fits and the two fences that go would fit as well |
| Forests.RouteDown | repo/PrediCache/btree.hpp:521-529 | one step of a descent reaches a live page one level down that covers the key |
| Forests.OnePagePerLevel | repo/PrediCache/btree.hpp:521-529 | on each level exactly one page covers a key |
| Forests.OneParent | repo/PrediCache/btree.cpp:42-64 | a page has one place in one parent |
| ForestSteps.NewRootKeeps | repo/PrediCache/btree.cpp:17-24 | a new root keeps the tree invariant and the contents |
| ForestSteps.SplitInv | repo/PrediCache/btree.hpp:377-416 | a split keeps depth, ranges, tiling and leaf links |
| ForestSteps.SplitKeeps | repo/PrediCache/btree.hpp:377-416 | and the contents of the tree |
| ForestSteps.SplitRouting | repo/PrediCache/btree.hpp:377-416 | afterwards the parent routes a key of the split child to the left page iff key <= sep, else to the new page, and every other key as before |
| LeafSteps.StoreKeeps | repo/PrediCache/btree.cpp:81-87 | storing a fresh record in its leaf adds exactly that binding and keeps the invariant |
| LeafSteps.RemoveKeeps | repo/PrediCache/btree.cpp:132-136 | removing a record takes exactly that binding away and keeps the invariant |
| LeafSteps.MergeKeeps | repo/PrediCache/btree.cpp:119-131 | merging two neighbouring leaves keeps the invariant and the contents |
| LeafSteps.MergeRouting | repo/PrediCache/btree.hpp:284-309 | afterwards the parent routes every key of either leaf to the surviving page and every other key as before |
| SplitMeasure.SplitDecreases | repo/PrediCache/btree.cpp:26-34 | each split, of an inner page with one entry too, lowers a measure of the whole tree that bounds the number of further splits |
| SplitMeasure.HeightBound | repo/PrediCache/btree.cpp:15-24 | a tree is no higher than its surplus entries, as every inner level keeps an entry at its left edge |
| SplitMeasure.SplitFills | repo/PrediCache/btree.hpp:377-416 | a split leaves every inner level an entry at its left edge |
| SplitMeasure.SplitCompact | repo/PrediCache/btree.hpp:377-416 | with keys of one length, or of similar lengths, no page overflows in a split |
| SplitMeasure.SpaceIsRoom | repo/PrediCache/btree.hpp:133-147 | hasSpaceFor says yes iff the page with the pair inserted fits |
| Trees.LeafKnows | repo/PrediCache/btree.hpp:532-548 | the leaf that covers a key holds its record iff the tree contains the key |
| Trees.BTree.constructor | repo/PrediCache/btree.cpp:6-11 | a new tree is valid and empty |
| Trees.BTree.FindLeaf | repo/PrediCache/btree.hpp:521-529 | the descent ends at the leaf that covers the key |
| Trees.BTree.Lookup | repo/PrediCache/btree.hpp:532-548 | returns the record of the key iff the tree contains it |
| Trees.BTree.SplitNode | repo/PrediCache/btree.hpp:377-416 | replaces one page and its parent's entry by the two halves |
| Trees.BTree.GrowRoot | repo/PrediCache/btree.cpp:17-24 | puts an empty inner page above the old root |
| Trees.BTree.TrySplit | repo/PrediCache/btree.cpp:15-40 | exactly one page on the search path is split, if need be an inner page with one entry, at the slot that findSeparator chooses for the tree's splitOrdered; the contents stay, and the measure falls |
| Trees.BTree.EnsureSpace | repo/PrediCache/btree.cpp:42-64 | changes nothing if the inner page has room, else makes it by exactly one split at or above the page, the contents staying as they are |
| Trees.BTree.TryInsert | repo/PrediCache/btree.cpp:66-98 | one round: stores the pair, or splits exactly one page that covers the key, where findSeparator says, lowering the measure of the splits to come |
| Trees.BTree.Insert | repo/PrediCache/btree.cpp:66-98 | for every pair within the assertion at btree.cpp:67: ends after finitely many restarts, adds exactly the new binding, keeps the tree valid and, for keys of similar lengths, every page within its size |
| Trees.BTree.MergeNodes | repo/PrediCache/btree.hpp:284-309 | merges exactly if the test passes, keeping contents and invariant |
| Trees.BTree.Remove | repo/PrediCache/btree.cpp:100-142 | true iff the key was there, takes exactly its binding away, and leaves the leaf merged with its right neighbour iff both have entries in the same parent and the free space asked for, and the merged leaf fits together with the two fences that go; else only the leaf has changed |
| TreeNodes.StoreInForest | repo/PrediCache/btree.cpp:81-87 | insertInPage on the leaf's node: every page of the next tree has its node |
| TreeNodes.SplitMeets | repo/PrediCache/btree.cpp:26-34 | in a valid tree the separator found meets everything splitNode asks for, if the left half of a leaf fits |
| TreeNodes.SplitInForest | repo/PrediCache/btree.cpp:26-34 | findSeparator, getSep and splitNode on two nodes: they and the new one stand for pages of the split tree, all other nodes as before |
| TreeNodes.GrowForest | repo/PrediCache/btree.cpp:17-24 | a node for the new root |
| TreeNodes.RemoveInForest | repo/PrediCache/btree.cpp:132-136 | removeSlot on the leaf's node |
| TreeNodes.MergeInForest | repo/PrediCache/btree.cpp:123-131 | mergeNodes on three nodes: the merged tree's pages have their nodes, or nothing has changed |
| Scans.ScanAsc | repo/PrediCache/btree.hpp:610-627 | visits the entries with key >= k in ascending order, all of them or up to where the callback stops, across empty leaves |
| Scans.DescCallback.Call | repo/PrediCache/benchmarks/PrediCacheAdapter.hpp:33-45 | the first entry offered is dropped iff the match was not exact |
| Scans.ScanDesc | repo/PrediCache/benchmarks/PrediCacheAdapter.hpp:29-46 | the adapter delivers the entries with key <= k in descending order, all of them or up to where the callback stops, across empty leaves |
| NodeImage.LoadStore | repo/PrediCache/btree.hpp:68-73 | a page id stored in eight bytes loads as the same page id |
| NodeImage.SpaceUsedIsViews | repo/PrediCache/btree.hpp:130-147 | spaceUsed is fence bytes plus all stored key and payload bytes, and free space is what it should be |
| NodeImage.StoreView | repo/PrediCache/btree.hpp:311-327 | storing a pair adds exactly that entry, at its slot, to what the page means |
| NodeImage.StoreKeeps | repo/PrediCache/btree.hpp:311-327 | and keeps the page well-formed: heads right, space accounted for, live regions disjoint and off the slots |
| NodeImage.RemoveSlotKeeps | repo/PrediCache/btree.hpp:249-256 | removing a slot removes exactly that entry and keeps the page well-formed |
| NodeImage.SetPayloadKeeps | repo/PrediCache/btree.hpp:301-302 | overwriting a child pointer changes that entry's value only |
| NodeImage.WithFencesKeeps | repo/PrediCache/btree.hpp:360-375 | setFences on a fresh page gives the empty page with those fences and the prefix they share |
| Hints.KeptHint | repo/PrediCache/btree.hpp:155-162 | the hints that updateHint leaves alone are the ones makeHint would compute |
| Hints.HintLower | repo/PrediCache/btree.hpp:164-178 | every slot before the lower end of the hinted range has a smaller head |
| Hints.HintUpper | repo/PrediCache/btree.hpp:164-178 | every slot from the upper end on has a larger head |
| NodeSearch.HeadsAscend | repo/PrediCache/btree.hpp:107-114 | the heads of a page's slots ascend |
| NodeSearch.PrefixDecides | repo/PrediCache/btree.hpp:184-191 | a search key that does not carry the prefix is below or above all keys of the page, as the prefix comparison says |
| NodeSearch.CompareDecides | repo/PrediCache/btree.hpp:208-223 | comparing the common length and then the lengths compares the suffixes |
| NodeSearch.SearchEnds | repo/PrediCache/btree.hpp:202-226 | when the range is empty the search stands at the lower bound and the key is absent |
| NodeUpdates.InsertGood | repo/PrediCache/btree.hpp:235-247 | the bytes written by insertInPage mean the page with the entry inserted |
| NodeUpdates.RebasedSuffix | repo/PrediCache/btree.hpp:329-358 | both ways of copying, prefix grown or shrunk, store the same suffix of the full key |
| NodeUpdates.AppendOne | repo/PrediCache/btree.hpp:329-350 | copying one entry appends exactly that entry to the destination |
| NodeUpdates.RebuildFits | repo/PrediCache/btree.hpp:271-281 | the entries of a page that fits can be copied behind its fences on a fresh page |
| NodeUpdates.Rebuilt | repo/PrediCache/btree.hpp:271-281 | and the result means the same page, without gaps |
| Nodes.BTreeNode.constructor | repo/PrediCache/btree.hpp:122 | a fresh page without fences and entries |
| Nodes.BTreeNode.HasSpaceFor | repo/PrediCache/btree.hpp:133-147 | the test on the header fields is the test on what the page stores |
| Nodes.BTreeNode.MakeHint | repo/PrediCache/btree.hpp:149-153 | the hints are the heads of the sixteen evenly spaced slots |
| Nodes.BTreeNode.UpdateHint | repo/PrediCache/btree.hpp:155-162 | the incremental update leaves the hints a full makeHint would leave |
| Nodes.BTreeNode.SearchHint | repo/PrediCache/btree.hpp:164-178 | narrows the range without losing a slot with the searched head, and on more than 32 entries to within one hint's distance at either end |
| Nodes.BTreeNode.LowerBound | repo/PrediCache/btree.hpp:180-227 | prefix check, hint, heads and suffix comparison find the lower bound of the full key, with found true iff it is equal |
| Nodes.BTreeNode.CompareWith | repo/PrediCache/btree.hpp:203-224 | one comparison of the binary search orders the suffix against the stored one |
| Nodes.BTreeNode.StoreKeyValue | repo/PrediCache/btree.hpp:311-327 | writes slot, suffix and payload below the data offset and nothing else |
| Nodes.BTreeNode.SetFences | repo/PrediCache/btree.hpp:360-375 | stores both fences and the length of their common prefix |
| Nodes.BTreeNode.StoreCopied | repo/PrediCache/btree.hpp:330-347 | with a longer or a shorter prefix, the right suffix is stored |
| Nodes.BTreeNode.CopyKeyValueRange | repo/PrediCache/btree.hpp:329-350 | appends exactly the given entries to the destination, full keys unchanged |
| Nodes.BTreeNode.Compactify | repo/PrediCache/btree.hpp:271-281 | means the same page, and free space is now what freeSpaceAfterCompaction said |
| Nodes.BTreeNode.InsertInPage | repo/PrediCache/btree.hpp:235-247 | repacking if needed, inserts exactly the pair at its place |
| Nodes.BTreeNode.RemoveSlot | repo/PrediCache/btree.hpp:249-256 | removes exactly that entry |
| Nodes.BTreeNode.RemoveInPage | repo/PrediCache/btree.hpp:258-264 | true iff the key is there, removing exactly its entry |
| Nodes.BTreeNode.LookupInner | repo/PrediCache/btree.hpp:476-481 | the child to which the page routes the key |
| Nodes.BTreeNode.SetChild | repo/PrediCache/btree.hpp:301-302 | redirects one child and changes nothing else |
| Nodes.BTreeNode.CommonPrefix | repo/PrediCache/btree.hpp:424-433 | the length of the longest common prefix of two stored suffixes |
| Nodes.BTreeNode.BestSlot | repo/PrediCache/btree.hpp:443-460 | ordered, prefix-change and midpoint modes choose the slot the page-level rule names |
| Nodes.BTreeNode.FindSeparator | repo/PrediCache/btree.hpp:435-469 | slot, length and truncation are those of the page-level rule |
| Nodes.BTreeNode.GetSep | repo/PrediCache/btree.hpp:471-474 | prefix and suffix bytes put together are the separator |
| Nodes.BTreeNode.InsertSeparator | repo/PrediCache/btree.hpp:390-399 | the parent's child is redirected to the new page and the separator inserted in front of it |
| Nodes.BTreeNode.SplitNode | repo/PrediCache/btree.hpp:377-416 | this page means the left half, the new page the right half, the parent has the separator |
| Nodes.BTreeNode.MergeNodes | repo/PrediCache/btree.hpp:284-309 | for leaves true iff the size test passes; then this page means the merged leaf and the parent has lost the separator, else nothing has changed |
| Latch.SameVersion | repo/PrediCache/page.hpp:83-85 | replaces the state and keeps the version |
| Latch.NextVersion | repo/PrediCache/page.hpp:86-88 | replaces the state and counts the version up |
| Latch.PageState.TryLockX | repo/PrediCache/page.hpp:90-100 | the locking step: succeeds iff the word is the one seen, and then the thread is the only holder of any kind |
| Latch.PageState.UnlockX | repo/PrediCache/page.hpp:102-107 | the exclusive holder's leaving: no holder is left, the section is counted in the version |
| Latch.PageState.UnlockXInvalid | repo/PrediCache/page.hpp:109-112 | the same, leaving the page invalid |
| Latch.PageState.DowngradeLock | repo/PrediCache/page.hpp:114-117 | the exclusive holder becomes the only shared one, its section counted |
| Latch.PageState.TryLockS | repo/PrediCache/page.hpp:119-126 | the sharing step: one more shared holder, as the state says, iff the word is the one seen and may be shared |
| Latch.SharedWhen | repo/PrediCache/page.hpp:114-126 | with the current word a shared lock is refused iff the latch is held exclusively, has 252 shared holders, or the page is invalid |
| Latch.PageState.UnlockS | repo/PrediCache/page.hpp:128-137 | the thread gives up one shared lock; the state is the number of those left |
| Latch.PageState.TryMark | repo/PrediCache/page.hpp:139-142 | the marking step: succeeds iff the word is the one seen, and then nobody holds the latch |
| Latch.StepInv | repo/PrediCache/page.hpp:83-145 | every operation of every thread keeps the meaning of the word |
| Latch.RunInv | repo/PrediCache/page.hpp:66-145 | in every interleaving Locked means one exclusive and no shared holder, n in 1..252 means n shared holders, and the version counts the exclusive sections that ended |
| Latch.OptimisticCheck | repo/PrediCache/guards.hpp:125-145 | a check passes iff no exclusive section was open or ended since the version was read and a mark it found was still there to clear; then the page was the same all along |
| Latch.GuardUpgrade | repo/PrediCache/guards.hpp:188-210 | turning an optimistic guard into an exclusive or shared one succeeds only on the page the reader started from |
| OptimisticRead.CheckedIsStill | repo/PrediCache/guards.hpp:125-145 | between a version load and a passing check the page is free and unchanged |
| OptimisticRead.HopCovers | repo/PrediCache/guards.hpp:24-31 | a hop between two passing checks of the parent reaches a page that covers the key |
| OptimisticRead.DescentCovers | repo/PrediCache/btree.hpp:521-529 | every page of a checked descent covers the key when its version is loaded |
| OptimisticRead.DescentHoldsLeaf | repo/PrediCache/guards.hpp:92-117 | when the old parent is checked again the reader holds the page to which the parent routes the key; free, it covers the key, and if no writer has held it since its version was read, it is a leaf |
| OptimisticRead.LookupIsAtomic | repo/PrediCache/btree.hpp:532-548 | a lookup whose final check passes returns what its leaf held at one instant, in fact all the time since its version was loaded |
| TreeRuns.RunConsistent | repo/PrediCache/btree.cpp:15-142 | in every run of interleaved operations the tree stays well-formed and holds the contents, and every page that is not latched looks as the tree has it |
| TreeRuns.RunIsWorldRun | repo/PrediCache/btree.cpp:15-142 | so every such run keeps the discipline that the reader relies on |
| TreeRuns.LookupIsLinearizable | repo/PrediCache/btree.hpp:532-548 | a lookup whose checks pass returns what the tree contained for the key at an instant during the lookup, whatever other threads did |
| Pools.OneFrameEach | repo/PrediCache/buffer_manager.hpp:215-219 | no two pages share a frame |
| Pools.EvictedKeeps | repo/PrediCache/buffer_manager.hpp:573-582 | dropping a clean page changes no page's contents and keeps owner table and free list in order |
| Pools.WrittenKeeps | repo/PrediCache/buffer_manager.hpp:602-603 | writing a page back changes no page's contents and makes the frame equal its disk copy |
| Pools.PlacedKeeps | repo/PrediCache/buffer_manager.hpp:333-356 | filling an unowned frame changes no other page's contents |
| Pools.DisplacedKeeps | repo/PrediCache/buffer_manager.hpp:453-481 | moving a page away and another into its frame changes nobody's contents |
| Pools.RoomLeft | repo/PrediCache/buffer_manager.hpp:641-654 | a sweep that frees no frame leaves a page that may still be evicted |
| Pools.FreeFrameMissed | repo/PrediCache/buffer_manager.hpp:414-420 | a free page whose preferred frame has no owner and which tryPromote leaves where it is, as the owner table's mark for no page hashes to that frame |
| PoolClock.MetAll | repo/PrediCache/buffer_manager.hpp:553-597 | batches that add up to the resident set's table have met every page that may be evicted |
| PoolClock.SecondChance | repo/PrediCache/buffer_manager.hpp:542-639 | evict drops exactly the pages that were marked and in reach of one of its batches, and the unlocked ones in reach of two; an unlocked page in reach of one is marked and stays in its frame; all others stay as they are |
| PoolClock.SlotLeft | repo/PrediCache/page.hpp:172-208 | with more slots than frames the resident set always has a free slot for the next page |
| BufferPool.BufferManager.constructor | repo/PrediCache/buffer_manager.hpp:274-283 | an empty pool with all frames on the free list |
| BufferPool.BufferManager.TrySetPresent | repo/PrediCache/buffer_manager.hpp:215-219 | claims a frame iff nobody owns it |
| BufferPool.BufferManager.VisitClock | repo/PrediCache/buffer_manager.hpp:555-597 | exactly: an unlocked page is marked and stays in its frame; a marked one is collected if dirty, dropped if clean; no other page is touched and nobody's contents change |
| BufferPool.BufferManager.WritePages | repo/PrediCache/buffer_manager.hpp:602-603 | the collected pages are clean and on disk |
| BufferPool.BufferManager.Evict | repo/PrediCache/buffer_manager.hpp:542-639 | the whole outcome: stops after the first batch by which enough pages are taken, dirty ones counting once and clean ones twice, or after the last try, every page being where its visits have left it; contents, held pages and invariant stay |
| BufferPool.BufferManager.SweepBatch | repo/PrediCache/buffer_manager.hpp:553-597 | one batch, each of its pages visited once: something is marked or taken, or no page in the batch may be evicted |
| BufferPool.BufferManager.GetFreePage | repo/PrediCache/buffer_manager.hpp:641-654 | ends with an unowned frame claimed for the page, after finitely many sweeps, however long the table and in whatever order frames come off the queue; evicts nobody while some frame has no owner |
| BufferPool.BufferManager.AllocPage | repo/PrediCache/buffer_manager.hpp:308-331 | the next pid gets a frame of its own, the preferred one if that was free, the intendedSlot flag saying so; no other page's contents change, nobody else gets or loses a latch, and while some frame has no owner no other page is touched |
| BufferPool.BufferManager.HandleFault | repo/PrediCache/buffer_manager.hpp:333-356 | an absent page becomes resident with its contents from disk, as in AllocPage; no page's contents change |
| BufferPool.BufferManager.PromoteLocked | repo/PrediCache/buffer_manager.hpp:437-482 | changes nothing exactly if a page is in the way that the promoted page's bucket does not know or that is not unlocked; else ends with the page in its preferred frame, still latched, and the page that was in the way unlocked, in its own preferred frame if that was free; nobody else gets or loses a latch, and no contents change |
| BufferPool.BufferManager.TryPromote | repo/PrediCache/buffer_manager.hpp:401-435 | exactly when the page is taken, when it moves and when not; it is unlocked if it was taken and unchanged otherwise, nobody else gets or loses a latch; if its preferred frame has no owner it ends up there iff the coin allows it or the mark for no page does not hash there; no contents change |
| BufferPool.BufferManager.FixX | repo/PrediCache/buffer_manager.hpp:358-377 | the page is resident and exclusively latched, no contents changed, nobody else's latch touched; a resident page stays where it was |
| BufferPool.BufferManager.UnfixX | repo/PrediCache/buffer_manager.hpp:508-531 | the page is unlocked; it has moved, as in PromoteLocked, exactly if the two coins and the owner of its preferred frame allow it, else nothing else has changed; no contents changed |
| BufferPool.BufferManager.Write | repo/PrediCache/guards.hpp:182-186 | changes the contents of the held page only |
| BufferPool.BufferManager.Flush | repo/PrediCache/buffer_manager.hpp:656-687 | no contents change, and every resident page is clean and equals its disk copy |
| HashTable.VersionedLock.TryLock | repo/PrediCache/versioned_lock.hpp:25-28 | the bucket's locking step: succeeds iff the word is the one seen, and then the thread alone holds the lock |
| HashTable.VersionedLock.Unlock | repo/PrediCache/versioned_lock.hpp:38-42 | the holder's unlocking step: nobody holds the lock, and the version is one that no scan has seen |
| HashTable.LockInsertLearns | repo/PrediCache/ht.hpp:79-103 | insert's lock is taken only if the page is still absent |
| HashTable.StepInv | repo/PrediCache/ht.hpp:76-256 | every step of every thread keeps the chain linked, no page in it twice, recycled entries in no chain and on the free list once |
| HashTable.RunInv | repo/PrediCache/ht.hpp:76-256 | so in every state of every interleaving |
| HashTable.RunLosesNone | repo/PrediCache/ht.hpp:76-256 | in every state of every interleaving each entry ever used is in the chain, on the list of recycled entries, with another bucket, or on its way to the list in one thread's hands |
| HashTable.StepBinds | repo/PrediCache/ht.hpp:76-256 | insert adds one binding for a page that had none, remove takes its page's binding away, setting a frame changes that page's binding, nothing else changes what is bound |
| HashTable.MoveBinds | repo/PrediCache/ht.hpp:236-244 | moving an entry to the empty head keeps the map |
| HashTable.MovesInline | repo/PrediCache/ht.hpp:227-251 | a hit behind an empty head takes the lock iff nobody has held it since the scan began; then the page gets into the head with its frame, and its entry leaves the chain and is recycled |
| HashTable.CheckIsExact | repo/PrediCache/ht.hpp:79-256 | where a check of the lock word leads: nowhere if the word has changed; else access ends with an entry of the chain that holds the page iff the page is bound at that instant, and with a miss iff it is not; insert refuses only a bound page and gets to the end of the chain only if it is absent; otherwise the scan goes on behind an entry that does not match |
| HashTable.RunAnswers | repo/PrediCache/ht.hpp:76-256 | so at every check in every interleaving |
| HashTable.OneBinding | repo/PrediCache/ht.hpp:76-133 | a page has at most one frame |
| ResidentSet.InsertedOk | repo/PrediCache/page.hpp:195-208 | using the first free slot on the way keeps every stored pid reachable and adds exactly the new one |
| ResidentSet.RemovedOk | repo/PrediCache/page.hpp:210-225 | a tombstone keeps every other pid reachable and removes exactly one |
| ResidentSet.NotStored | repo/PrediCache/page.hpp:213-216 | an empty slot on the way means that the pid is absent |
| ResidentSet.SearchEnds | repo/PrediCache/page.hpp:210-225 | the search ends if and only if the pid is in the table or some slot is empty |
| ResidentSet.EmptiesNeverGrow | repo/PrediCache/page.hpp:195-225 | in every run of insertions and removals the number of empty slots never grows, and once it is 0 no search for an absent pid ends |
| ResidentSet.TombstonesFill | repo/PrediCache/page.hpp:195-225 | a run with at most one pid in the table at a time after which no search ends |
| ResidentSet.ResidentPageSet.Insert | repo/PrediCache/page.hpp:195-208 | ends while a slot is free and puts the pid into the first free one on its way, size counting it |
| ResidentSet.ResidentPageSet.Remove | repo/PrediCache/page.hpp:210-225 | finds every present pid, and reports an absent one |
| ResidentSet.ResidentPageSet.IterateClockBatch | repo/PrediCache/page.hpp:227-241 | hands out the pids of the next interval and moves the clock past it |
| ResidentSet.SweptAre | repo/PrediCache/page.hpp:235-240 | a batch hands out a pid iff its slot is in the interval |
| ResidentSet.BatchesCover | repo/PrediCache/page.hpp:227-241 | batches of any length that add up to the table size meet every slot |
| ResidentSet.ClockReaches | repo/PrediCache/page.hpp:227-241 | so they hand out every pid of a table that stays as it is |
| Throughput.Controller.OnWindow | repo/PrediCache/cbp.hpp:248-301 | performs one step of the controller |
| Throughput.RunInv | repo/PrediCache/cbp.hpp:248-301 | in every run base and active chance stay in 1..14, and the active one is the base, or the neighbour in a probe window |
| Throughput.Decision | repo/PrediCache/cbp.hpp:261-276 | in every run: at the end of a probe opened at window o the base moves iff the counts of o and of this window agree within the tolerance and the sample in between exceeds their average by more than 0.5 % |
| Throughput.BetweenDecisions | repo/PrediCache/cbp.hpp:282-300 | the base moves at no other window, and a probe is opened exactly at the windows whose number is a multiple of the period and which do not belong to one |
| Throughput.TwoChances | repo/PrediCache/cbp.hpp:261-297 | in every run, whatever is counted, only the start and one neighbour ever run; the base is one of them and each probe is of the other |
| Throughput.DecisionSamples | repo/PrediCache/cbp.hpp:252-281 | with positive counts a decision compares samples of three consecutive windows that ran at the base, at its neighbour, and at the base |
| Throughput.ProbeSample | repo/PrediCache/cbp.hpp:252-281 | in every run: the deciding samples before and after come from the base, and the probe's own was measured at the probed chance iff the window right after the opening was not empty |
| Throughput.EmptyWindowMisleads | repo/PrediCache/cbp.hpp:254-276 | a run from the start that adopts a chance at which nothing was counted |
| Throughput.NeverWorse | repo/PrediCache/cbp.hpp:261-276 | under a stationary throughput the base never gets slower, and an adoption gains more than half a percent |
| Throughput.OneAdoption | repo/PrediCache/cbp.hpp:266-291 | and the first probe decides everything: the base is the start, or from the end of that probe on its one probed neighbour |
| KeyFold.NumbersRoundTrip | repo/PrediCache/benchmarks/shared/Types.hpp:79-121 | numbers unfold to what was folded, whatever follows |
| KeyFold.VarcharRoundTrip | repo/PrediCache/benchmarks/shared/Types.hpp:97-131 | a string unfolds to what was folded iff it contains no zero |
| KeyFold.BigEndianOrder | repo/PrediCache/benchmarks/shared/Types.hpp:78-95 | big-endian byte strings compare in memory like the numbers |
| KeyFold.NumbersOrder | repo/PrediCache/benchmarks/shared/Types.hpp:78-95 | folded integers, timestamps and unsigned numbers compare in memory like what was folded |
| KeyFold.VarcharLessIs | repo/PrediCache/benchmarks/shared/Types.hpp:68-75 | the string order is the byte order |
| KeyFold.VarcharOrder | repo/PrediCache/benchmarks/shared/Types.hpp:97-103 | folded strings compare in memory like the strings, and what follows decides between equal ones |
| KeyFold.WriteKey | repo/PrediCache/benchmarks/tpcc/Schema.hpp:131-140 | writes the folded fields one behind the other |
| KeyFold.KeyRoundTrip | repo/PrediCache/benchmarks/tpcc/Schema.hpp:131-150 | a customer_wdl key comes back as it was iff its names contain no zero |
| KeyFold.KeyOrder | repo/PrediCache/benchmarks/tpcc/Schema.hpp:131-140 | memory order of folded customer_wdl keys is tuple order |

## Left out

- The tree works on page values: `Trees.BTree` uses the `Page` operations that `BTreeNode` is proved to implement, and
  does not hold `BTreeNode` objects or latched frames; `TreeNodes` takes its single steps on nodes, one for every page.
  Its page ids come from one counter, as allocPage's do.
- Trees.BTree.Insert: for keys of very different lengths a leaf split may leave the left half larger than a page; the
  model's tree then carries on with that page value, as new pages are taken to fit.
- Trees.BTree.TrySplit: the assertion that a page to be split has two entries is left out (see above).
- Nodes.BTreeNode.SplitNode: asks that both halves fit the page; for the left half of a leaf that is the condition
  `PageSpace.LeafLeftHalfFits` makes exact. Without it the heap would reach the slots.
- Insert, remove and the scans are sequential methods; their restarts because of other threads are not modelled. In
  `TreeRuns` concurrent writers are operations that take effect at one instant while their pages are latched; that
  their bodies write the pages accordingly before releasing them is an assumption on the run.
- In `OptimisticRead` a page keeps its latch: that a page evicted or moved to another chain entry gets another latch
  word is not modelled. A read between a version load and its check is assumed to mean something only if the page did
  not change.
- Atomic steps are sequentially consistent, and 56-bit and 63-bit versions do not wrap; spinning, yielding and
  liveness under contention are not modelled.
- An inserted key must be fresh and not empty, as `insertInPage` never looks for an existing key and an empty fence
  means no fence. `updateInPlace` is not modelled.
- The hint of an empty page is left open. The slots and the heap share the page's memory; the model keeps them apart
  and proves that they never meet.
- A page dropped by a merge stays in the model's page map, unreachable: the code does not reuse its id either.
- The buffer pool is modelled one operation at a time. A batch of the clock is read before its pages are visited, the
  upgrade of a shared lock and the release of a frame are one pass, and a dequeue finds a frame if there is one.
- HashTable: one bucket, with other buckets taking from and giving to the shared list of recycled entries; an edit
  under the lock is one step. The coin in `access` is a free choice, and the disabled branch of `remove` is absent.
- Latch.PageState.TryLockX: asks for a word that is not Locked. The assertion at `page.hpp:91` would let one pass, no
  caller does.
- ResidentSet.ResidentPageSet.Remove: asks that the pid is in the table or some slot is empty, as the loop does not end
  otherwise.
- A weak compare-and-swap that fails although the word is the expected one.
- Disk, io_uring, libaio, mmap, huge pages, alignment, libdivide: the disk is a map, the divider is plain modulus.
- Hash functions and random generators: the hash is any function, every coin a free choice.
- `BufferManager::clear`, the debug lock of `VersionedLock`, environment parsing, statistics and dumps.
- The v3 scores and v4 arms of the promotion controller; doubles are reals. The controller's smoothed baseline is kept,
  but nothing is proved about it: it is only reported.
- Workloads, the statistics thread, analysis scripts and reports.
