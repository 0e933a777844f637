# A verified model of the heterogeneous index

The repository holds a key/value index for 8-byte keys in two editions, a sequential and a
concurrent one. New entries go to a hash table whose bins have eight slots; what does not fit, or
belongs to slower storage, goes to an adaptive radix tree. The concurrent edition unlinks objects
while readers may still hold them, and gives them back through epoch-based reclamation and a small
garbage collector.

This project models the parts of it that are hard to get right and proves what they are there for.
Code that changes things in place is modelled by classes and methods with loops; the functions they
are proved against, and the theorems about those, are stated on values.

| files | what they model |
|---|---|
| `Ebr.dfy`, `EbrCode.dfy` | `src/ebr.c`: the mod-3 epoch protocol as a transition system over its atomic loads and stores, and its functions as methods with arbitrary interference |
| `Gc.dfy`, `GcCode.dfy` | `src/gc.c`: limbo and the three epoch lists on top of it, with the clients that unlink objects and hold references |
| `Trie.dfy`, `TrieCanon.dfy`, `TrieOrder.dfy`, `Art.dfy` | `sequential/art.c` as a compressed trie, a map, and runs of its operations |
| `Layout.dfy`, `ArtNode.dfy`, `ArtHeap.dfy`, `ArtWalk.dfy`, `ArtTree.dfy` | the same code on arrays, nodes and pointers, refined step by step to that trie |
| `Murmur.dfy`, `MurmurExample.dfy`, `Bins.dfy`, `Slots.dfy`, `Hash.dfy`, `SeedZero.dfy` | `sequential/murmur3.c` and `sequential/hash.c`: the hash, home bins, the table and both expansions |
| `Parts.dfy`, `Hetero.dfy` | `sequential/hetero.c`: hash table, tree and special keys as one map |
| `SlotProtocol.dfy`, `SlotMeaning.dfy`, `SlotCode.dfy`, `SlotCopies.dfy` | `src/hash.c`: how threads claim, publish and erase slots, and what their return codes mean |
| `Chain.dfy` | the segmented table of `test/experimental/quasi-dynamic.cpp` with stashes |
| `Sketch.dfy`, `Queue.dfy` | the count-min sketch and the ring queue |

Main results, hardest first:

- No object is reclaimed while a critical section that saw it unlinked is still running
  (`Gc.NoUseAfterFree`, `Gc.GracePeriod`). The proof needs more than the comment in the source: that
  comment, taken literally, is false (`Ebr.StaleObservation`, and `Ebr.StaleExactly` for exactly when);
  what holds instead is `Ebr.EpochLag` and `Ebr.TwoAdvancesEndSections`.
- The tree on arrays and pointers is a map for every run of its operations, and its trie is
  determined by that map (`ArtTree.TreeObj`, `Art.RunIsReferenceRun`, `Art.HistoryLeavesNoTrace`).
- The index of two parts is one map for every careful run (`Parts.RunIsReferenceRun`), with the exact
  condition, on the state before the call, for each call to break that (`Parts.PutIsExact`, `Parts.PutKeepsOneCopy` with
  `Parts.LandsExactly`, and the `...IsExact` lemmas), and runs in which they do.
- Threads that share the concurrent table never share a claimed slot, and the counter is right
  whenever they are at rest (`SlotProtocol.RunInv`, `SlotProtocol.AtRest`). Without overlapping
  insertions of a key it is never stored twice, and an update in place lands on its key exactly if that
  is not erased meanwhile; with them both can go wrong (module `SlotCopies`).
- Under every interleaving the code that a call on the concurrent table returns tells, in both
  directions, what the calling thread met in the slots and what it wrote (`SlotMeaning.CallTells`).
- Expansion loses nothing although it ignores the results of its insertions
  (`Hash.HashSys.ExpandReinsert`, `Hash.HashSys.ExpandCopy`, `Chain.Segment.Expand`).

Assumptions: the machine is sequentially consistent (the fences at `src/ebr.c:159`, `178` and `201`),
synchronisations are serialised, memory allocation succeeds, node buffers are off (`BUF_LEN`
undefined) and count-min driven placement is off (`USE_CM` undefined). Objects are used only inside
critical sections and are unlinked before they are handed to the collector. Words are little-endian.
What `rand()` gives is a parameter, and so is the outcome of every load factor test.

Where code and documentation disagree the model follows the code:

- `src/ebr.c:236-238` says no active worker can hold the epoch e-2; see above.
- `sequential/hetero.h:49` says index_update inserts a key that is not there; the code does so for the
  two special keys only. Its status is that of art_update, which returns the old value itself, so an old
  value of 0 reads as failure (`Parts.ChangeIsExact`).
- `sequential/hash.h:14-15` takes seed 0 for a random choice at construction; the expansions construct with
  the table's own seed, so a table whose seed is 0 changes its seed when it grows
  (`SeedZero.ExpansionLosesTheKey`, and the exact conditions in `Hash.HashSys.ExpandCopy` and
  `Hash.HashSys.ExpandReinsert`).
- `src/data_sketch.h:44` says an increment returns the count before it; the code returns the one after it
  (`Sketch.CountMin.Inc`).

To verify: `dafny verify dfyconfig.toml`.

## Model

| member | source | states |
|---|---|---|
| Ebr.EpochLag | src/ebr.c:189-223 | In every interleaving of any number of workers with the scans, an active worker's store of local_epoch is at most two announcements old, and at most one unless the scan running at the store had already passed it, however stale the stored epoch is |
| Ebr.LagOfTwo | src/ebr.c:157-158 | The bound of two is attained, by a run in which the read and the store are far apart |
| Ebr.VisitEnds | src/ebr.c:206-219 | Looking at a worker ends the scan if and only if that worker is active and its epoch is not the one loaded, for all three epochs |
| Ebr.TwoAdvancesEndSections | src/ebr.c:236-240 | From a moment with no scan running, once two epochs have been announced every critical section then active has ended, stale words included |
| Ebr.StaleExactly | src/ebr.c:225-243 | Exactly when the comment on stale observations is wrong: an active worker holds the epoch that an announcement makes ready for reclamation if and only if its last store came in this very epoch, after the scan had passed it, and its read one, four, seven, ... announcements before |
| Ebr.ExaminedWorkersAreFresh | src/ebr.c:225-243 | In particular every active worker whose store the scan did not miss holds the epoch just left |
| Ebr.StaleObservation | src/ebr.c:236-238 | The comment taken literally is false: a reachable state in which an active worker holds the epoch announced as ready for reclamation |
| Ebr.InvStep | src/ebr.c:143-245 | Every atomic step of ebr_enter, ebr_exit, ebr_sync and (un)registration keeps registration, program counters and words in agreement, the mod-3 clock tied to the unbounded one, and every active worker within its lag |
| Ebr.ReachInv | src/ebr.c:143-245 | The same in every reachable state |
| Ebr.GraceStep | src/ebr.c:206-219 | What a critical section running at a quiet moment of epoch d must satisfy (one scan may accept its word, no second one can) is kept by every step until it ends |
| Ebr.GraceRun | src/ebr.c:206-219 | The same along whole runs |
| Ebr.SectionsGrow | src/ebr.c:157-179 | Leaving a critical section and entering another one always shows in the section count |
| Ebr.RemoveDistinct | src/ebr.c:134-136 | LIST_REMOVE takes out exactly the one worker and keeps the list free of duplicates |
| EbrCode.EbrSystem.Enter | src/ebr.c:143-160 | ebr_enter with any steps of other workers and of a synchronisation, begun before or not, between its read and its store: a run of the protocol that ends with this worker active and with the epoch it read at the start, however stale |
| EbrCode.EbrSystem.Begin | src/ebr.c:200-206 | The loads of global_epoch and of the list head, with interference in between |
| EbrCode.EbrSystem.Leave | src/ebr.c:165-180 | ebr_exit is the protocol's exit step; the worker is no longer active |
| EbrCode.EbrSystem.Sync | src/ebr.c:189-245 | ebr_sync with arbitrary interference before each of its steps is a run of the protocol with one scan; it announces at most one epoch, (e + 1) % 3, says so truthfully, and returns the epoch after the global one; undisturbed it announces if and only if every active worker holds the global epoch, whichever of the three that is |
| EbrCode.EbrSystem.Scan | src/ebr.c:206-219 | The loop over the list: true only when every worker has been visited without being in the way; undisturbed, exactly then |
| EbrCode.EbrSystem.FullSync | src/ebr.c:272-291 | ebr_full_sync returns after exactly two announcements, when every critical section that was active at the call is over; it makes an attempt after the other until then, and undisturbed it returns exactly if no worker is active, after two attempts |
| EbrCode.EbrSystem.Register | src/ebr.c:99-120 | ebr_register puts the worker, cleared, at the head of the list and changes nothing else |
| EbrCode.EbrSystem.Unregister | src/ebr.c:122-138 | ebr_unregister takes exactly this worker out |
| Gc.NoUseAfterFree | src/gc.c:123-171 | In every interleaving of clients, workers and the collector no worker holds a reference to a reclaimed object |
| Gc.GracePeriod | src/gc.c:151-170 | When an object has been reclaimed, every critical section that was active when it was unlinked has ended |
| Gc.ClientFreedom | src/gc.c:108-133 | The client is not held back: it may link, unlink and hand over objects and load references whenever that makes sense |
| Gc.RefsStay | src/gc.c:108-118 | Only leaving its critical section takes a reference from a worker |
| Gc.OnePlace | src/gc.c:123-171 | Every object is in at most one of structure, limbo, epoch lists and reclaimed set, so it is reclaimed at most once and never while it waits |
| Gc.NothingOverwritten | src/gc.c:154-156 | The assertion that the staging list is empty always holds, so draining limbo into it loses nothing |
| Gc.EverythingStep | src/gc.c:123-171 | Conservation: every step but the creation of an object keeps the multiset of all objects over all places |
| Gc.NothingLost | src/gc.c:123-171 | The same along whole runs: no object disappears |
| Gc.HandedStep | src/gc.c:123-171 | Only gc_limbo adds to what limbo, the epoch lists and the reclaimed set hold together, and nothing takes away from it |
| Gc.HandedRun | src/gc.c:123-171 | On every run each object handed to gc_limbo stays there, with multiplicity one |
| Gc.ExactlyOnePlace | src/gc.c:123-171 | In every later state it is in exactly one of limbo, one epoch list and the reclaimed set, once, and not back in the structure or in a client's hands |
| Gc.LimboHands | src/gc.c:123-133 | gc_limbo hands its object over |
| Gc.StagingIsEmpty | src/gc.c:155 | In every state that satisfies the invariant the list about to be overwritten is empty |
| Gc.TwoEpochsOld | src/gc.c:161-169 | What is about to be reclaimed left limbo exactly two announcements ago |
| Gc.WindowStep | src/gc.c:154-170 | List i only ever holds objects drained in epochs congruent to i and not yet due for longer than the cycle allows |
| Gc.InGraceStep | src/gc.c:151-170 | No step lets a section that still may hold a drained object get out of step with the epoch it was drained in |
| Gc.RefsHeldStep | src/gc.c:108-118 | References outlive neither their critical section nor, for unlinked objects, the sections that saw the unlinking |
| Gc.InvStep | src/gc.c:123-171 | Every step keeps the collector's whole invariant |
| Gc.ReachInv | src/gc.c:123-171 | The invariant holds in every reachable state |
| GcCode.QuietCycleProgress | src/gc.c:135-171 | A gc_cycle in which every synchronisation announces ends with exactly one non-empty list less if anything was pending; the three retries suffice |
| GcCode.RunsConserve | src/gc.c:123-171 | The collector's runs only move objects about |
| GcCode.LiftRun | src/gc.c:146-149 | A call of ebr_sync with its interference is a run of the collector that changes nothing but the epoch protocol's state, and ends announced or at rest as ebr_sync answered |
| GcCode.GcSystem.Limbo | src/gc.c:123-133 | gc_limbo, its swap failing as often as other threads get in first: a run that puts all their objects and then this one at the head, losing none |
| GcCode.GcSystem.DrainLimbo | src/gc.c:154-156 | The exchange moves all of limbo into the staging list |
| GcCode.GcSystem.ReclaimList | src/gc.c:169-170 | The whole list goes to the reclaim function, in order, and is dropped |
| GcCode.GcSystem.Cycle | src/gc.c:135-171 | gc_cycle with arbitrary steps of the workers during each synchronisation, in terms of the epoch e at the call and the number k of announcements, 0 to 4: what limbo, each list and the reclaimed sequence hold afterwards; undisturbed, k is 0 exactly if an active worker holds another epoch, at most 1 if any is active, and else as many as it takes to find something to reclaim |
| GcCode.GcSystem.Full | src/gc.c:173-207 | With no worker active gc_full returns after one to three cycles with nothing pending and everything that was pending reclaimed, each object once |
| Trie.SearchIsLookup | sequential/art.c:353-406 | The descent of art_search finds exactly the pair the leaves hold for the key |
| Trie.InsertIsStore | sequential/art.c:716-833 | recursive_insert keeps the trie well formed (children per node kind, depth plus prefix below 8, keys under their paths) and stores the pair, through leaf splits, prefix splits and growth, replacing an old value only if asked to |
| Trie.DeleteIsRemoval | sequential/art.c:981-1037 | recursive_delete keeps the trie well formed, reports whether the key was there and removes exactly it, through shrinks and collapses |
| Trie.SplitLeafStores | sequential/art.c:738-752 | A leaf split gives a node4 with the two keys told apart after their common prefix |
| Trie.SplitPrefixStores | sequential/art.c:782-819 | A prefix split keeps every pair of the old node and adds the new one |
| Trie.AddLeafStores | sequential/art.c:829-832 | A new child under a free byte adds its pair, and the node kind grows when it is full |
| Trie.RemoveChildRemoves | sequential/art.c:966-979 | Taking a leaf out removes its pair, with the shrinks at 37, 12 and 3 children and the collapse of a node4 |
| Trie.CollapseHas | sequential/art.c:940-962 | Merging a node into its only child keeps all pairs below it |
| Trie.InnerHas | sequential/art.c:140-226 | A node's pairs are those of its children, told apart by one byte after the prefix |
| Trie.Mismatch | sequential/art.c:695-714 | prefix_mismatch and check_prefix: the number of bytes shared, up to the first that differs |
| Trie.CommonFrom | sequential/art.c:531-539 | longest_common_prefix of two different keys: equal up to there, different right after |
| TrieCanon.Canonical | sequential/art.c:716-833 | Two well-formed tries with the same pairs have the same prefixes and branch bytes, node kinds apart |
| Art.PerformIsReference | sequential/art.c:835-855 | Each operation on the tree answers as a map does, leaves it storing what the map stores, with size its cardinality |
| Art.RunIsReferenceRun | sequential/art.c:835-855 | The same, call by call, for every sequence of operations |
| Art.SameMapSameTrie | sequential/art.c:716-833 | Trees storing the same map have the same trie |
| Art.HistoryLeavesNoTrace | sequential/art.c:716-833 | Neither the order of operations nor any that cancel out shows in the trie |
| Art.DeleteUndoesInsert | sequential/art.c:940-962 | Deleting a key just inserted restores the trie: collapses undo splits |
| TrieOrder.IterIsFold | sequential/art.c:1053-1103 | recursive_iter through the levels of the tree comes to one pass over the entries |
| TrieOrder.FoldUnrolls | sequential/art.c:1053-1103 | That pass: each entry is shown with the data the call before left, only the last call made can have returned non-zero, its value is the result, and with result 0 all entries have been shown |
| TrieOrder.EntriesAreContents | sequential/art.c:1053-1099 | The entries are the stored pairs, each once, in strictly increasing key order |
| TrieOrder.EntriesSorted | sequential/art.c:1062-1095 | Their keys increase strictly |
| TrieOrder.EntriesComplete | sequential/art.c:1062-1095 | None is passed over |
| TrieOrder.SortedUnique | sequential/art.c:1062-1095 | Only one order of a map's pairs is sorted, so what iteration shows does not depend on the tree's history |
| TrieOrder.MinimumIsLeast | sequential/art.c:464-487 | minimum returns a stored pair, and its key is below every other |
| TrieOrder.MaximumIsGreatest | sequential/art.c:490-513 | maximum returns a stored pair, and its key is above every other |
| Layout.SmallAddOk | sequential/art.c:602-627 | Shifting keys and children up and filling the gap keeps a node4 or node16 sorted and adds exactly one child to its byte-to-child map |
| Layout.SmallRemoveOk | sequential/art.c:906-910 | Shifting down keeps it sorted and removes exactly one child |
| Layout.IndexedAddOk | sequential/art.c:556-562 | A free slot and an index entry keep the table of a node48 injective onto its slots and add exactly one child |
| Layout.IndexedRemoveOk | sequential/art.c:881-886 | Clearing both removes exactly one child |
| Layout.DirectIs | sequential/art.c:550-554 | Writing children[c] of a node256 changes exactly that child |
| Layout.SmallCounted | sequential/art.c:645-660 | num_children is the number of children of a sorted layout |
| Layout.IndexedCounted | sequential/art.c:556-575 | num_children is the number of used slots of an index table |
| Layout.FreeSlot | sequential/art.c:557-559 | A node48 that is not full has a free slot, so the search for one ends |
| ArtNode.NodeObj.FindChild | sequential/art.c:140-226 | find_child returns the slot of the byte's child, or none exactly if there is no such child |
| ArtNode.NodeObj.AddSmall | sequential/art.c:645-660 | The in-place part of add_child4 and add_child16 adds exactly one child |
| ArtNode.NodeObj.AddIndexed | sequential/art.c:556-562 | The in-place part of add_child48 does |
| ArtNode.NodeObj.AddDirect | sequential/art.c:550-554 | add_child256 does, the counter wrapping at 256 |
| ArtNode.NodeObj.To16 | sequential/art.c:662-674 | Growth from node4 to node16 keeps the byte-to-child map and the prefix |
| ArtNode.NodeObj.To48 | sequential/art.c:629-642 | Growth from node16 to node48 does |
| ArtNode.NodeObj.To256 | sequential/art.c:563-574 | Growth from node48 to node256 does |
| ArtNode.NodeObj.AddChild | sequential/art.c:677-690 | add_child in place: the child is there, the others and the prefix stay, and the kind changes exactly at 4, 16 and 48 children |
| ArtNode.NodeObj.RemoveSmall | sequential/art.c:906-910 | The in-place part of remove_child4 and remove_child16 removes exactly one child |
| ArtNode.NodeObj.RemoveIndexed | sequential/art.c:881-886 | The in-place part of remove_child48 does |
| ArtNode.NodeObj.RemoveDirect | sequential/art.c:857-859 | The in-place part of remove_child256 does, the counter wrapping |
| ArtNode.NodeObj.To4 | sequential/art.c:912-919 | The shrink from node16 to node4 keeps the byte-to-child map and the prefix |
| ArtNode.NodeObj.Index16 | sequential/art.c:887-901 | The gathering loop of the shrink from node48 to node16 yields the same map, sorted |
| ArtNode.NodeObj.Direct48 | sequential/art.c:863-876 | The loop of the shrink from node256 to node48 yields the same map |
| ArtNode.NodeObj.RemoveChild | sequential/art.c:966-979 | remove_child in place: the child is gone, the others and the prefix stay, and the kind changes exactly when 3, 12 or 37 children are left |
| ArtNode.NodeObj.Counts | sequential/art.c:645-646 | num_children is exact in the three smaller layouts (in a node256 it is a uint8_t that wraps) |
| ArtHeap.PrefixMismatch | sequential/art.c:695-714 | The loop of prefix_mismatch and check_prefix computes Trie.Mismatch |
| ArtHeap.LongestCommonPrefix | sequential/art.c:531-539 | The loop of longest_common_prefix computes Trie.CommonFrom |
| ArtHeap.SearchFrom | sequential/art.c:353-406 | The loop of art_search over linked nodes returns what the trie search does |
| ArtHeap.RecursiveInsert | sequential/art.c:716-833 | recursive_insert on linked nodes leaves a structure that represents the trie after insertion, with no node shared, and tells whether the key was there |
| ArtHeap.InsertAtLeaf | sequential/art.c:726-753 | So does its leaf case |
| ArtHeap.SplitAtPrefix | sequential/art.c:790-818 | So does its prefix split, in which the old node keeps the bytes after the one that differed |
| ArtHeap.Reattach | sequential/art.c:823-827 | Writing back the child pointer after the recursion leaves the node representing its trie with that child exchanged |
| ArtHeap.CollapseNode | sequential/art.c:940-962 | A node4 with one child left hands its prefix and branch byte on to the child that takes its place |
| ArtHeap.MergePrefix | sequential/art.c:943-959 | The concatenation of prefixes in the fixed buffer never loses a byte |
| ArtHeap.DetachLeaf | sequential/art.c:966-979 | remove_child with the collapse represents the trie without the leaf |
| ArtHeap.RecursiveDelete | sequential/art.c:981-1037 | recursive_delete on linked nodes represents the trie after deletion, or is unchanged when there is no such key |
| ArtWalk.UpdateFrom | sequential/art.c:408-461 | art_update exchanges the value in the key's leaf in place and returns the old one; everything else stays |
| ArtWalk.MinimumFrom | sequential/art.c:464-487 | minimum over linked nodes reaches the leaf of the least key |
| ArtWalk.MaximumFrom | sequential/art.c:490-513 | maximum over linked nodes reaches the leaf of the greatest key |
| ArtWalk.IterOver | sequential/art.c:1053-1099 | recursive_iter over linked nodes, slots or index table, is the iteration over the trie |
| ArtTree.TreeObj.Search | sequential/art.c:353-406 | art_search returns the map's answer |
| ArtTree.TreeObj.Insert | sequential/art.c:835-855 | art_insert and art_insert_no_replace store into the map, keep size its cardinality, and tell whether the key was there |
| ArtTree.TreeObj.Update | sequential/art.c:408-461 | art_update overwrites the value of a key that is there and returns the old one |
| ArtTree.TreeObj.Delete | sequential/art.c:1039-1050 | art_delete removes the key from the map, the root leaf included, and tells whether it was there |
| ArtTree.TreeObj.Minimum | sequential/art.c:515-517 | art_minimum: the pair with the least key, NULL exactly for the empty tree |
| ArtTree.TreeObj.Maximum | sequential/art.c:519-521 | art_maximum: the pair with the greatest key, NULL exactly for the empty tree |
| ArtTree.TreeObj.Iterate | sequential/art.c:1101-1103 | art_iter: the callback is shown the stored pairs in key order, each with the data the call before left; all calls but the last returned 0, the last one's value is the result, and with result 0 every pair has been shown |
| Murmur.Fmix64Bijective | sequential/murmur3.c:57-66 | fmix64 is a bijection on 64-bit words, with its inverse given |
| Murmur.FinishInjective | sequential/murmur3.c:130-142 | The finalisation loses none of the 128 bits of state |
| Murmur.KeysDoNotCollide | sequential/murmur3.c:153-231 | With one seed no two 8-byte keys have the same 128-bit hash |
| Murmur.SwitchTail | sequential/murmur3.c:103-128 | The fall-through switch reads the up to 15 bytes of the tail as one or two little-endian words |
| Murmur.Blocks | sequential/murmur3.c:84-98 | The block loop absorbs the words two by two |
| Murmur.MurmurHash3_x64_128 | sequential/murmur3.c:153-231 | The 128-bit hash is Digest, for every length |
| Murmur.MurmurHash3_x64_64 | sequential/murmur3.c:68-145 | The 64-bit hash is the second word of the same Digest, for every length |
| MurmurExample.KnownAnswer | sequential/murmur3.c:153-231 | The published digest of a 43-letter input, which runs through two blocks, a tail that reaches both halves, and the finalisation |
| Bins.AndMask | sequential/hash.c:10-11 | Masking with a power of two less one is the remainder |
| Bins.AndBit | sequential/hash.c:12 | The level bit tells the two halves of the doubled range apart |
| Bins.PowerTest | sequential/hash.c:47-48 | size & (size - 1) finds out the powers of two |
| Bins.HomeSplits | sequential/hash.c:10-12 | Doubling sends a key to its old bin number, or that plus the old size, by the level bit |
| Bins.BinIsRemainder | sequential/hash.c:10-12 | The bin number is the remainder of the hash by the size |
| Bins.CompIdx | sequential/hash.c:11 | The bin number computed from the 64-bit hash ... |
| Bins.Idx | sequential/hash.c:10 | ... is the one computed from the 128-bit hash |
| Hash.Absent | sequential/hash.c:104-138 | A key that is not in its home bin is not in the table |
| Hash.BinKeys | sequential/hash.c:22-31 | The keys that belong to a bin are those in its slots; a bin without room has eight |
| Hash.RoomIs | sequential/hash.c:22-31 | A bin has a free slot exactly if less than eight keys of the table belong to it |
| Hash.FitsTwice | sequential/hash.c:56-76 | Keys that fit the bins fit the doubled bins under the same seed, since each new bin draws on one old bin |
| Hash.HashSys.constructor | sequential/hash.c:34-54 | hash_construct: an empty table; seed 0 stands for a drawn seed; with no bins there is nothing to work with |
| Hash.HashSys.Construct | sequential/hash.c:47-48 | ... NULL exactly for sizes that are not powers of two |
| Hash.HashSys.Modify | sequential/hash.c:93-150 | hash_modify in its four modes: a key that is there gives ELEMENT_ALREADY_EXISTS in STRICT_INSERT and else 0 with the new value; one that is not gives ELEMENT_NOT_FOUND in STRICT_UPDATE, and else 0 or HASH_BIN_FULL as its bin has room or not; home bins, uniqueness and count are kept |
| Hash.HashSys.Query | sequential/hash.c:168-177 | hash_search querying returns the map's answer |
| Hash.HashSys.Delete | sequential/hash.c:178-188 | hash_search deleting removes the key from the map, tells whether it was there and keeps count |
| Hash.HashSys.InsertNocheck | sequential/hash.c:19-32 | The insertion used by expansion writes to the first free slot of the bin, whether or not the key is there already, and fails exactly if there is none; a new key is added to the map |
| Hash.HashSys.ExpandReinsert | sequential/hash.c:78-91 | hash_expand_reinsert: a table of twice the size; no pair is dropped exactly if the keys fit the new bins, which they do whenever the seed is not 0 |
| Hash.HashSys.ScanBin | sequential/hash.c:104-126 | The loop of hash_modify finds the key, or the first free slot if it is not in its bin |
| Hash.HashSys.NotDropped | sequential/hash.c:82-87 | A key whose ignored insertion failed would be a ninth one in its bin |
| Hash.HashSys.ExpandCopy | sequential/hash.c:56-76 | hash_expand_copy keeps map and count; every key is in its home bin exactly if old and new seed agree on the bins, which they do whenever the seed is not 0 |
| Hash.HashSys.SplitMove | sequential/hash.c:64-69 | Moving an entry with the level bit set to the upper half keeps the map and puts it into its home bin |
| SeedZero.ExpansionLosesTheKey | sequential/hash.c:56-76 | For a table whose seed is 0 the property fails: built, given one key and expanded, the result holds the pair in a bin where it is not looked for, and is no table |
| SeedZero.Homes | sequential/hash.c:10-12 | The homes of that key under both seeds, computed through the real hash |
| Parts.RunIsReferenceRun | sequential/hetero.c:36-127 | For every run whose inserted ordinary keys are new and whose overwritten ordinary values are not 0, hash and tree stay disjoint and every answer and the resulting map are those of one map |
| Parts.PerformIsReference | sequential/hetero.c:36-127 | The same for one call |
| Parts.PutKeepsOneCopy | sequential/hetero.c:36-61 | By the state before the call: index_insert makes a second copy of a key exactly if an ordinary key of the tree lands in the hash table or an ordinary key of the hash table is put into the tree |
| Parts.PutIsExact | sequential/hetero.c:36-61 | What index_insert does to each part, its status and what index_query then finds, for every state: in the hash table the new value wins, in the tree the old one stays with status 1, a key in neither is added |
| Parts.FinalSizeIs | sequential/hetero.c:43-58 | The table is doubled up to the first size at which the key has room or the tree is not more than four times as big |
| Parts.LandsExactly | sequential/hetero.c:43-58 | By the state before the call: a key that the table does not have lands there exactly if, after some number of doublings throughout which the tree stays more than four times the table's size, its bin has less than eight keys |
| Parts.SecondCopy | sequential/hetero.c:36-61 | From an empty index, a key put into the tree and inserted again with MEM_TYPE has two copies, counts twice, and is still there after its deletion |
| Parts.WrongStatus | sequential/hetero.c:98-110 | From an empty index, overwriting a stored 0 reports failure and has stored the new value |
| Parts.ChangeIsExact | sequential/hetero.c:98-110 | index_update changes the map as it should; its status is wrong exactly when it overwrites a 0 held by the tree |
| Parts.RemovalIsExact | sequential/hetero.c:112-127 | index_delete removes the key from the map exactly if it has one copy; otherwise the tree's copy comes to light |
| Parts.SizeIsExact | sequential/hetero.c:197-199 | index_size is the cardinality of the map exactly if no key has two copies |
| Hetero.IndexSys.Construct | sequential/hetero.c:7-24 | index_construct: NULL exactly if the size is neither 0 nor a power of two; with bins and a seed other than 0, an empty index |
| Hetero.IndexSys.Insert | sequential/hetero.c:36-61 | index_insert leaves the parts and the status that Perform determines from the state before: which part takes the key, and how often the table is doubled, included |
| Hetero.IndexSys.InsertHashed | sequential/hetero.c:43-58 | The loop at REINSERT ends, stores the pair exactly if the key lands in the table by the state before the call, and else changes nothing but the number of bins |
| Hetero.IndexSys.ExpandHash | sequential/hetero.c:188-195 | Expansion, by either function, keeps all parts and doubles the number of bins |
| Hetero.IndexSys.Query | sequential/hetero.c:63-96 | index_query answers from the special keys, the hash part, then the tree |
| Hetero.IndexSys.Update | sequential/hetero.c:98-110 | index_update leaves the parts and the status that Perform says |
| Hetero.IndexSys.Delete | sequential/hetero.c:112-127 | index_delete leaves the parts and the status that Perform says |
| Hetero.IndexSys.Count | sequential/hetero.c:197-199 | index_size adds the counters of the three parts |
| Hetero.IndexSys.SetSpecial | sequential/hetero.c:38-42 | The special keys are set in place and touch no other part |
| SlotProtocol.InvStep | src/hash.c:88-193 | Every atomic step of any thread keeps: one owner for each OCCUPIED slot, published keys in their home bins, and count plus what is still to be counted less what is still to be discounted equal to the number of published slots modulo 2^64, for any hash function |
| SlotProtocol.RunInv | src/hash.c:88-193 | The same in every interleaving of any number of threads |
| SlotProtocol.AtRest | src/hash.c:127-137 | When all calls have returned no slot is left marked and count is the number of published slots |
| SlotProtocol.OwnedStep | src/hash.c:127-137 | A slot is OCCUPIED exactly while one thread has claimed it and not yet published |
| SlotProtocol.AtHomeStep | src/hash.c:156-170 | Only home bins are written |
| SlotProtocol.BalancedStep | src/hash.c:185-187 | Publishing, erasing and the two counter updates keep the balance, even when a deletion is discounted before the insertion is counted |
| SlotProtocol.ClaimedSlotIsPrivate | src/hash.c:131-133 | No step of another thread changes a claimed slot's word or takes it away from its owner |
| SlotProtocol.SlotLife | src/hash.c:127-193 | A key word goes from EMPTY to OCCUPIED to its claimant's key to EMPTY, and in no other way |
| SlotCopies.SingleStep | src/hash.c:99-137 | While no two insertions of a key overlap, a scanner's passed slots and, for a claimant, all slots stay free of it, and every step of every thread keeps it in one slot at most |
| SlotCopies.NeverTwice | src/hash.c:99-137 | In every interleaving in which no two insertions of a key overlap, whatever else the threads do, it is never stored twice |
| SlotCopies.SecondCopyExactly | src/hash.c:129-136 | Exactly when a step makes a second copy: a claimant publishes the key while another slot holds it |
| SlotCopies.TwoCopies | src/hash.c:99-137 | From an empty table, a run of two overlapping insertions of one key that both succeed and leave it in two slots |
| SlotCopies.KeyStays | src/hash.c:99-193 | A published key leaves its slot by an erasure of that key from that slot and in no other way |
| SlotCopies.UpdateLandsOnItsKey | src/hash.c:101-106 | The value stored in place lands on its own key, which has been in the slot all the time, exactly if no thread erased it from there between the load and the store |
| SlotCopies.LateOverwrite | src/hash.c:101-106 | From an empty table, a run in which an update in place lands on another key that has taken over the slot |
| SlotMeaning.CallTells | src/hash.c:88-193 | In every run in which a thread makes one call, among any steps of the others, the code tells what the thread met and wrote. hash_modify: 0 if and only if it met the key and may overwrite it, or won a claim, and then it stored its value after meeting the key, or claimed a slot, stored its value and showed its key there, in this order; 3 iff it met the key in STRICT_INSERT; 1 iff it did not in STRICT_UPDATE; 2 iff otherwise it met no key and won no claim, and then it found every slot of the bin taken; no key met means every slot was loaded without it; nothing is written unless the code is 0. hash_insert_nocheck and deletion likewise |
| SlotMeaning.DeleteErases | src/hash.c:172-193 | A deletion returns 1 if and only if one of the own steps of the thread takes the key out of a slot, and else 0 |
| SlotMeaning.ScanKnows | src/hash.c:99-126 | A step of the scan keeps what has been seen up to date: slots without the key, slots that were taken, and the first free one |
| SlotMeaning.FillKnows | src/hash.c:128-137 | Claim, store of the value, store of the key, in this order |
| SlotMeaning.DeleteKnows | src/hash.c:181-191 | A step of the search, of the compare-and-exchange or of the fetch-and-sub keeps what has been seen up to date |
| SlotMeaning.LeadsTold | src/hash.c:88-193 | Every run of one call has that meaning, whatever interleaving it came from |
| SlotCode.SlotSys.HashModify | src/hash.c:88-154 | hash_modify, with any steps of the other threads before each atomic access, is a run in which this thread makes this one call and returns this code, and the code tells what SlotMeaning says of it |
| SlotCode.SlotSys.HashInsertNocheck | src/hash.c:156-170 | So is hash_insert_nocheck |
| SlotCode.SlotSys.HashDelete | src/hash.c:172-193 | So is the deleting hash_search |
| SlotCode.SlotSys.ScanLoop | src/hash.c:99-126 | The loop over the bin finds the key, or the first free slot, or neither, under interference |
| SlotCode.SlotSys.ClaimLoop | src/hash.c:128-137 | The claiming loop tries the slots in order and fails only after the last |
| Chain.Put | test/experimental/quasi-dynamic.cpp:107-120 | The data slots, then the stash, made or doubled as needed: an insertion fails exactly if 7 + 32 entries are there, and otherwise adds its entry in an empty slot, whether or not the key is there |
| Chain.BinSplits | test/experimental/quasi-dynamic.cpp:199-212 | Doubling a segment sends the keys of one bin to two bins that no other bin's keys go to |
| Chain.BinIdIs | test/experimental/quasi-dynamic.cpp:153-156 | The bin is the hash, shifted by the bits that tell the segment, modulo the width |
| Chain.Segment.FailureIs | test/experimental/quasi-dynamic.cpp:172-175 | What the failure code says about the place of the bin |
| Chain.SplitBin | test/experimental/quasi-dynamic.cpp:206-250 | The two loops over an old bin distribute its entries to those two bins; the ignored failure cannot happen |
| Chain.PartRoom | test/experimental/quasi-dynamic.cpp:241-250 | There is room for each entry, as a new bin never has more entries than the old one had before it |
| Chain.AllSplit | test/experimental/quasi-dynamic.cpp:199-260 | The bins so made hold what the old segment held, key by key |
| Chain.Segment.Expand | test/experimental/quasi-dynamic.cpp:199-260 | qd_hash_expand drops nothing and puts every key into its bin |
| Chain.Segment.Insert | test/experimental/quasi-dynamic.cpp:149-165 | Inserting a new key adds it, after an expansion if that is allowed and needed; inserting a key that is there leaves both entries; it fails only if the bin holds 39 entries |
| Chain.Segment.Locate | test/experimental/quasi-dynamic.cpp:177-186 | The search of data and stash finds exactly the key's entry |
| Chain.QdHash.Set | test/experimental/quasi-dynamic.cpp:149-175 | qd_hash_set agrees with a map, but that a key inserted twice has two entries: one key changes, updates succeed exactly if the key is there, insertions fail only with 39 entries in the bin, after the expansion if one is allowed; the code is then 1, 3, 5 or 7, with 2 in it exactly if the bin, (hash / length) % width, is one of the first two and 4 exactly if it is one of the last two |
| Chain.QdHash.Get | test/experimental/quasi-dynamic.cpp:177-186 | qd_hash_get returns the map's answer |
| Chain.QdHash.Delete | test/experimental/quasi-dynamic.cpp:188-197 | qd_hash_del removes the key and tells whether it was there |
| Chain.QdHash.Expand | test/experimental/quasi-dynamic.cpp:199-260 | The map stays the same when any segment is expanded |
| Chain.QdHash.Init | test/experimental/quasi-dynamic.cpp:17-35 | qd_hash_init: empty segments, NULL exactly if a size is no power of two |
| Sketch.CountMin.Inc | src/data_sketch.c:53-86 | After any history each counter is the number of increments that went to it, modulo 2^32; the value returned is the estimate after this increment |
| Sketch.CountMin.Count | src/data_sketch.c:88-113 | The estimate of the history so far, so what the last increment of the key returned |
| Sketch.EstimateIsLeast | src/data_sketch.c:69-72 | The estimate is the least, over the rows, of the true counts of those that share the key's counter |
| Sketch.NeverBelow | src/data_sketch.c:69-72 | It is never below the true count |
| Sketch.HitsSnoc | src/data_sketch.c:70-71 | An increment adds one to the count of its counter in each row and to no other |
| Sketch.RowTotals | src/data_sketch.c:70-71 | Every row sums to the length of the history |
| Sketch.CountedStep | src/data_sketch.c:70-71 | One loop turn makes one row right and leaves the others |
| Sketch.RowBits | src/data_sketch.c:69-84 | As long as the low word lasts, row i takes its counter from the bits of the low word from number i * shift on |
| Sketch.HighRowBits | src/data_sketch.c:73-84 | After it has run out, from the bits of the high word, in both ways of running out, with the bits that are skipped or cut off |
| Queue.Ring.Push | sequential/queue.c:43-51 | queue_push appends, expanding when one slot is left, for any size from 1 on |
| Queue.Ring.Pop | sequential/queue.c:60-68 | queue_pop takes the oldest element, NULL exactly if there is none |
| Queue.Ring.Front | sequential/queue.c:53-58 | queue_front reads it |
| Queue.Ring.Expand | sequential/queue.c:30-41 | queue_expand keeps the contents exactly if the queue is full, in both layouts |
| Queue.Unrolls | sequential/queue.c:31-35 | The two copies put the elements of a full ring into a row |
| Queue.Ring.Full | sequential/queue.c:26-28 | queue_full: one slot is left |
| Queue.Ring.Empty | sequential/queue.c:22-24 | queue_empty: nothing is queued |

## Left out

- Node buffers, MEM_TYPE placement inside the tree, float, sink and index_compact: with buffers on the tree is not a map (an insertion fills a node's buffer before its prefix is looked at, a search looks at the prefix first), and index_compact scans slots regardless of num_children.
- The SSE2 search and insertion of node16: the portable branches are modelled.
- art_iter_prefix: a partial mismatch of the prefix still descends.
- hash_insert_nocheck of `sequential/hash.c`: it compares a pointer with 0, not the key, so it never stores; the one in `src/hash.c` is modelled.
- hash_query of `src/hash.c`, and what a concurrent reader gets for a value: slots, the counter and the lemmas of SlotCopies are what is promised.
- The comparison of a swapped-out least recently used key in hash_modify (only with count-min driven placement).
- Unregistering a worker while a scan is running, thread-local keys, the lock around registration, back-off and sleeping.
- GcCode.GcSystem.Cycle: its interference is the other workers' epoch steps; client steps inside a synchronisation are covered by the transition system of module Gc, not by this method.
- GcCode.GcSystem.Full: for workers that stay outside their critical sections; with active workers gc_full may wait for ever.
- EbrCode.EbrSystem.FullSync: given up after a number of attempts, since with a worker that never leaves it would not return.
- Weak memory: the relaxed accesses are taken to be sequentially consistent, as the fences intend.
- SlotProtocol.InvStep: the table is not expanded while threads use it; replacing the table under readers is not part of this model.
- Chain.QdHash.Set: after a key has been inserted twice (the code does not look for an older copy) the table no longer satisfies its invariant, and what further calls do to that key is not stated.
- Chain.QdHash.Init: sizes of 0, which the code accepts, and negative ones are not covered.
- The size counters of the segmented table and everything computed from them; the choice to expand is a parameter.
- The other conflict resolutions of the segmented table (none, linear, rehash).
- Hash.HashSys.Modify: the size of the table and its counter are unbounded here; at 2^64 the C fields wrap. The same holds for the sizes of the tree, the queue and the segments.
- Hetero.IndexSys.Construct: for a size of 0, which passes the test for powers of two, and for a seed that is 0 even after drawing, it only says that there is an index; the other methods do not cover it.
- Hash.HashSys.ExpandReinsert: the exact condition for a pair to be dropped is stated; no nine keys that meet it are listed.
- Sketch.CountMin.Inc: the 128-bit hash is given by the caller; hashing with the sketch's own seed, cooldown and clearing are not part of this model.
- Bloom filters, load factors as numbers, destruction of tables and trees, printing, timing and the benchmark programs.
- The 32-bit finaliser of the hash, which nothing uses.
- `src/art.c`, `src/hetero.c`, `src/murmur3.c` and `src/queue.c` where they repeat the sequential versions.
