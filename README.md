# Storage engines of an in-memory key/value benchmark, modelled in Dafny

The repository compares several hand-written key/value stores. Each store keeps its data in a bump-allocated memory pool and puts a bloom filter in front of its index. This project models five of its storage engines and proves what their operations promise:

- **B+tree engine** (`b+tree/kvs.c`). Keys are byte strings ordered by `keycmp`. Leaves split by copying their first key up, and internal nodes split by moving the middle key up. Deletion only sets a tombstone. A cursor walks the leaf chain, and `kvs_range` and `kvs_foreach` are built on that cursor. `kvs_save` and `kvs_load` dump and replay the live pairs. The tree is the datatype `BPlusTree.Node`, and the handle is the class `BPlusTreeKvs.Kvs`.
- **Hash then red-black tree** (`hash_rbtree/kvs.c`). A chained hash table with tombstones turns, once and for good, into a red-black tree when the count reaches 65536 or on `kvs_compact` (`HashTreeKvs`). The red-black tree, its rotations and its insert fixup are modelled in `RedBlack`.
- **Hybrid engine** (`kvs_hybrid.c`). It has no tombstones and no duplicate check, and orders keys with `strcmp`. Its filter is rebuilt by an in-order walk with a 64-slot stack (`HybridKvs`).
- **Write-list engine** (`kvs_rbtree.c`). Puts are appended to a list, which is drained into a red-black tree on the first read (`WriteListKvs`).
- **KVM store** (`bench_all.cpp`, lines 38-117). One byte region holds the bloom bytes, then an array of uint32 bucket heads, then the records linked by offset (`KvmStore`).

Shared pieces are modelled once:
- `Keys`: `keycmp`, `memcmp`, `strlen` and `strcmp`.
- `Arena`: `pool_alloc`.
- `Hashes`: the three hashes `fnv1a`, `hash2` and `hash3`.
- `Bloom`: the byte bitmap, its set-bit counter, its growth and the filter after a put.
- `HashTable`: the bucket function.
- `LittleEndian`: the integer encodings.

Each C copy of these is tied to the shared piece by a lemma.

The state each handle updates in place is a class. The pool, the filter's bitmap, the hash buckets and the KVM region are arrays or fields that methods change. The tree shapes are values held in those fields. Each class carries a ghost predicate `Valid()` and a ghost key/value map `Contents()`. Every operation states its result and its new state in terms of them.

## Model

| member | source | states |
|---|---|---|
| Arena.AlignUp | b+tree/kvs.c:140 | the rounded size is a multiple of 8, at least the request and less than 8 above it |
| Arena.Pool.constructor | b+tree/kvs.c:342-346 | a fresh pool of the given size with nothing handed out |
| Arena.Pool.Alloc | b+tree/kvs.c:139-145 | the next slice at the old offset and the offset moved by the aligned size when it fits; NULL and the offset unchanged when it does not; every slice is 8-aligned and inside the pool |
| Arena.AllocThree | b+tree/kvs.c:383-386 | the three allocations of a put succeed together exactly when all three aligned sizes fit, and then the offset moves by their sum; a failing put still consumes the slices that fitted; the offset never leaves the pool |
| Arena.AllocPut | b+tree/kvs.c:383-386 | the pool after the three allocations is what AllocThree describes; on success at least the three requested sizes were consumed |
| Keys.MemcmpZero | b+tree/kvs.c:133 | memcmp over n bytes is 0 exactly when the first n bytes agree |
| Keys.KeyCmpIsLex | b+tree/kvs.c:131-136 | keycmp equals the lexicographic comparison of the two byte strings on every pair |
| Keys.KeyCmpZero | b+tree/kvs.c:131-136 | keycmp is 0 exactly for identical keys |
| Keys.KeyCmpAntisym | b+tree/kvs.c:131-136 | swapping the arguments negates keycmp |
| Keys.KeyLessTrans | b+tree/kvs.c:131-136 | the strict order of keycmp is transitive |
| Keys.KeyTotal | b+tree/kvs.c:131-136 | any two keys compare as exactly one of less, equal, greater |
| Keys.PrefixIsLess | b+tree/kvs.c:135 | a proper prefix sorts before the key it prefixes |
| Keys.FirstDifferenceDecides | b+tree/kvs.c:133-134 | the first differing byte decides the order, whatever follows |
| Keys.CStr | kvs_rbtree.c:213 | what strlen keeps of a buffer: a NUL-free prefix, followed by a NUL whenever it stops short |
| Keys.StrCmpIsKeyCmpOfCStr | kvs_rbtree.c:138 | strcmp orders two buffers exactly as keycmp orders their C-string prefixes |
| Keys.StrCmpIsKeyCmp | kvs_hybrid.c:268 | on NUL-free strings strcmp and keycmp agree |
| Hashes.Fnv1a | b+tree/kvs.c:63-68 | FNV-1a over the key's bytes: start from 2166136261, then xor each unsigned byte and multiply by 16777619, wrapping at 32 bits |
| Hashes.Hash2 | b+tree/kvs.c:70-74 | start from 0x5bd1e995, then h = h * 33 xor each byte as a signed char widened to 32 bits, wrapping at 32 bits |
| Hashes.Hash3 | b+tree/kvs.c:76-80 | start from 0x811c9dc5, then h = h * 31 + each byte as a signed char widened to 32 bits, wrapping at 32 bits |
| LittleEndian.Le | bench_all.cpp:94-96 | the n low-order bytes of a number, least significant first |
| LittleEndian.FromLe | bench_all.cpp:105-108 | the number read from little-endian bytes is below 256 to the power of their count |
| LittleEndian.FromLeLe | bench_all.cpp:94-108 | reading back the bytes written gives the number whenever it fits |
| Bloom.GrownBits | b+tree/kvs.c:113-115 | the grown size is four times larger, capped at KVS_BLOOM_MAX_BITS; it equals the old size exactly at the cap |
| Bloom.WithBitCovers | b+tree/kvs.c:83-90 | setting a bit sets it and clears none |
| Bloom.PopCountWithBit | b+tree/kvs.c:86-89 | the number of set bits grows by one exactly when the bit was clear |
| Bloom.AddInProperties | b+tree/kvs.c:96-108 | after bloom_add, bloom_maybe holds for the key and every previously set bit is still set |
| Bloom.CoversMaybe | b+tree/kvs.c:103-108 | a key that passes the filter still passes after more bits are set |
| Bloom.AddKeysMaybe | b+tree/kvs.c:325-335 | after a rebuild every re-added key passes the filter, and no earlier bit was lost |
| Bloom.AddInNoop | b+tree/kvs.c:83-101 | bloom_add of a key that already passes bloom_maybe sets no new bit |
| Bloom.AddKeys | b+tree/kvs.c:325-335 | the bitmap bloom_rebuild leaves: bloom_add of each live key in turn, keeping the bitmap's size |
| Bloom.Filter.Maybe | b+tree/kvs.c:103-108 | passes exactly when the key's three positions (each hash modulo the bit count) are all set |
| Bloom.Filter.ShouldExpand | b+tree/kvs.c:124-128 | the growth test: set_bits is at least half the bit count and the bit count is below the cap |
| Bloom.Filter.constructor | b+tree/kvs.c:348-349 | an all-zero bitmap of KVS_BLOOM_INIT_BITS bits with no bit counted |
| Bloom.Filter.Restore | b+tree/kvs.c:595-599 | the bitmap read from a file replaces the fresh one and its size is the size read |
| Bloom.Filter.SetBit | b+tree/kvs.c:83-90 | the bitmap gains the bit, and the counter grows only on a 0-to-1 change |
| Bloom.Filter.Add | b+tree/kvs.c:96-101 | the bitmap gains the key's three bits, and the counter grows by exactly the number of newly set bits |
| Bloom.Filter.Grow | b+tree/kvs.c:112-120 | below the cap: a zeroed bitmap of the grown size with the counter reset; at the cap: nothing changes |
| Bloom.AddLive | b+tree/kvs.c:394 | after bloom_add of a key being bound, every key of the updated map passes the filter |
| Bloom.BloomPut | b+tree/kvs.c:394 | the no-false-negative invariant survives binding a key whose bits were added |
| Bloom.BloomRemove | b+tree/kvs.c:449-465 | the invariant survives unbinding a key, although the filter is left alone |
| HashTable.BucketOf | hash_rbtree/kvs.c:337 | the bucket index is below KVS_DEFAULT_HASH_BUCKETS |
| HashTable.UnionLookup | hash_rbtree/kvs.c:374-379 | a key is bound in the table exactly when it is bound, to the same value, in the chain its hash selects |
| HashTable.UnionUpdate | hash_rbtree/kvs.c:340-351 | binding a key in its own chain binds it in the table and changes no other key |
| HashTable.UnionRemove | hash_rbtree/kvs.c:419-424 | unbinding a key in its own chain unbinds it in the table and changes no other key |
| HashTable.UnionEmpty | hash_rbtree/kvs.c:296 | a table of empty chains holds nothing |
| Keys.Memcmp | b+tree/kvs.c:133 | memcmp's result is taken as its sign: -1, 0 or 1 |
| Keys.MemcmpIsLex | b+tree/kvs.c:133 | memcmp over n bytes is the lexicographic comparison of the two n-byte prefixes |
| Keys.KeyCmp | b+tree/kvs.c:131-136 | keycmp's result is -1, 0 or 1 |
| Keys.StrCmp | kvs_rbtree.c:138 | strcmp's result is taken as its sign: -1, 0 or 1 (StrCmpIsKeyCmpOfCStr relates it to keycmp) |
| BPlusTree.LowerBound | b+tree/kvs.c:156-166 | every slot before the answer holds a smaller key and the slot at the answer, if any, does not |
| BPlusTree.UpperBound | b+tree/kvs.c:169-179 | every separator before the answer is at most the key and the one at the answer, if any, is above it |
| BPlusTree.LeafFindPos | b+tree/kvs.c:156-166 | the binary search over a sorted leaf returns the lower bound of the key |
| BPlusTree.InternalFindPos | b+tree/kvs.c:169-179 | the binary search over sorted separators returns the upper bound of the key |
| BPlusTree.Widen | b+tree/kvs.c:226-237 | the parent gains one separator and one child when its child split, and keeps one more child than keys |
| BPlusTree.InsertLeaf | b+tree/kvs.c:282-312 | the leaf case of insert_recursive: update a live entry in place, revive a tombstone, or insert at the lower bound and split at ORDER - 1 keys (InsertLeafChain, InsertLeafShape) |
| BPlusTree.InsertNode | b+tree/kvs.c:280-322 | insert_recursive: descend by the upper bound, then absorb and maybe split what the child returns (InsertChain states its effect on the leaf chain) |
| BPlusTree.MarkKey | b+tree/kvs.c:458-462 | kvs_delete's tombstone: same length, same keys and values, and an entry is deleted exactly when it was already or has the key |
| BPlusTreeLeaves.FlatLeaves | b+tree/kvs.c:630-640 | walking the leaves one at a time meets the entries in chain order |
| BPlusTreeLeaves.LeafSizes | b+tree/kvs.c:351-353 | a tree at rest has at least one leaf, and only a lone root leaf can be empty |
| BPlusTreeLeaves.LeafIndexSplit | b+tree/kvs.c:182-190 | the leaf find_leaf reaches separates the chain around the key: everything before it is smaller, everything after it larger |
| BPlusTreeLeaves.LeafSorted | b+tree/kvs.c:156-166 | every leaf of a tree at rest is strictly ascending, as the binary search needs |
| BPlusTreeLeaves.SlotLookup | b+tree/kvs.c:419-422 | in a sorted leaf the lower-bound slot holds a live entry of the key exactly when the key is live there, and then it holds its value |
| BPlusTreeLeaves.LeafLookup | b+tree/kvs.c:416-422 | the slot find_leaf and leaf_find_pos reach holds a live entry of the key exactly when the key is live in the whole tree, with its value |
| BPlusTreeLeaves.SeekOffset | b+tree/kvs.c:499-501 | the lower bound inside the reached leaf, offset by the leaf's position, is the lower bound in the whole chain |
| BPlusTreeLeaves.LeftmostRightmost | b+tree/kvs.c:400-402 | descending first children reaches the first leaf of the chain, descending last children the last one |
| BPlusTreeProofs.ChainInBounds | b+tree/kvs.c:169-179 | the chain of an ordered subtree is strictly ascending and inside the subtree's key range |
| BPlusTreeProofs.ChildDecomp | b+tree/kvs.c:185-188 | descending into the upper-bound child leaves only smaller keys to its left and larger keys to its right |
| BPlusTreeProofs.MarkKeyLive | b+tree/kvs.c:460 | tombstoning every entry of a key removes exactly that key from the live map |
| BPlusTreeProofs.LiveMapCard | b+tree/kvs.c:396-397 | in a strictly ascending chain there is one live key per live entry |
| BPlusTreeProofs.InsertSortedAt | b+tree/kvs.c:283-306 | inserting into a sorted chain replaces the lower-bound slot when it holds the key and shifts the entry in there otherwise |
| BPlusTreeProofs.InsertSortedMembers | b+tree/kvs.c:298-305 | every entry after the insertion is the new entry or an old one |
| BPlusTreeProofs.InsertSortedOrdered | b+tree/kvs.c:283-306 | the insertion keeps the chain strictly ascending and inside any range holding the new key |
| BPlusTreeProofs.InsertSortedLive | b+tree/kvs.c:286-306 | inserting a live entry binds its key to its value and changes no other key |
| BPlusTreeProofs.ReplaceLive | b+tree/kvs.c:288-294 | overwriting the slot of the key rebinds the key and nothing else |
| BPlusTreeProofs.InsertLive | b+tree/kvs.c:298-306 | shifting a new key in at its lower bound binds it and nothing else |
| BPlusTreeProofs.KeyNotFromLowerBound | b+tree/kvs.c:156-166 | when the lower-bound slot does not hold the key, no later slot does |
| BPlusTreeWalk.FindLeaf | b+tree/kvs.c:182-190 | the descent ends at the leaf the key separates, and reports its position in the chain |
| BPlusTreeWalk.FirstLeaf | b+tree/kvs.c:400-402 | the first-child descent reaches the first leaf of the chain |
| BPlusTreeWalk.LastLeaf | b+tree/kvs.c:487-488 | the last-child descent reaches the last leaf of the chain |
| BPlusTreeWalk.LiveKeysHas | b+tree/kvs.c:325-335 | every live key is among the keys bloom_rebuild adds back |
| BPlusTreeWalk.RebuiltHolds | b+tree/kvs.c:325-335 | a bitmap rebuilt from the live keys lets every live key through |
| BPlusTreeWalk.PairsMapLive | b+tree/kvs.c:601-612 | putting the live pairs back one by one in chain order rebuilds the live map |
| BPlusTreeWalk.LivePairsSorted | b+tree/kvs.c:628-641 | the live pairs come out in strictly ascending key order |
| BPlusTreeInsert.NoKeyAtLowerBound | b+tree/kvs.c:286-287 | when the lower-bound slot does not hold the key, the sorted leaf holds no entry of it |
| BPlusTreeInsert.InsertLeafChain | b+tree/kvs.c:282-312 | the leaf case (update in place, revive a tombstone, or insert and maybe split) acts as the sorted insertion, and reports "added" exactly when the key had no live entry |
| BPlusTreeInsert.LeafUpdateCase | b+tree/kvs.c:288-291 | a live entry of the key takes the new value in place and nothing is added |
| BPlusTreeInsert.LeafReviveCase | b+tree/kvs.c:293-294 | a tombstone of the key is replaced by the new entry and counts as added |
| BPlusTreeInsert.LeafNewCase | b+tree/kvs.c:298-312 | a new key goes in at its lower bound, splitting a full leaf, and counts as added |
| BPlusTreeInsert.FillChain | b+tree/kvs.c:241-256 | split_internal hands the children to the two halves in order, so the chain is unchanged |
| BPlusTreeInsert.InsertChain | b+tree/kvs.c:280-322 | insert_recursive acts on the leaf chain as the sorted insertion and returns 1 exactly when the key had no live entry |
| BPlusTreeInsert.InsertSortedMiddle | b+tree/kvs.c:314-315 | inserting a key that lies strictly between two outer parts touches only the middle part |
| BPlusTreeInsert.SplitLeafOrdered | b+tree/kvs.c:193-214 | both halves of split_leaf are ordered around the first key of the right half, which lies strictly inside the range |
| BPlusTreeInsert.SeparatorFits | b+tree/kvs.c:228-236 | the separator of a split child lies between its neighbours, so the keys stay sorted after it goes in |
| BPlusTreeInsert.InsertSplitChild | b+tree/kvs.c:228-236 | the parent stays ordered after the separator and the new right sibling go in at the child's slot |
| BPlusTreeInsert.SplitInternalOrdered | b+tree/kvs.c:241-255 | split_internal moves the middle key up and both halves are ordered around it |
| BPlusTreeInsert.InsertOrdered | b+tree/kvs.c:280-322 | insert_recursive keeps the subtree ordered within its range, or splits it at a key inside it |
| BPlusTreeInsert.InsertLeafShape | b+tree/kvs.c:309-311 | a leaf either takes one more entry or splits into halves of MIN_KEYS and MIN_KEYS+1 entries |
| BPlusTreeInsert.FillShape | b+tree/kvs.c:317-319 | split_internal on ORDER-1 keys leaves at least MIN_KEYS keys on each side |
| BPlusTreeInsert.InsertShape | b+tree/kvs.c:280-322 | insert_recursive keeps every leaf at the same depth and every node within its size bounds |
| BPlusTreeInsert.InsertCount | b+tree/kvs.c:148-153 | every node of the result is an old node or one that bpnode_new allocated on the way up |
| BPlusTreeInsert.PutTreeInv | b+tree/kvs.c:216-225 | after insert_recursive, and a new root when the root split, the tree is ordered, balanced at the new height and within its size bounds |
| BPlusTreeInsert.PutTreeChain | b+tree/kvs.c:396-397 | the put acts on the chain as the sorted insertion, binds the key, and reports "added" exactly when the key had no live entry |
| BPlusTreeInsert.PutTreeCount | b+tree/kvs.c:151 | node_count grows by exactly the bpnode_new calls, a new root included |
| BPlusTreeInsert.MarkKeyMiddle | b+tree/kvs.c:453-460 | marking a key in three parts marks only the middle when the outer parts lack the key |
| BPlusTreeInsert.TombstoneChain | b+tree/kvs.c:453-460 | tombstoning through the tree marks every entry of the key in the chain and nothing else |
| BPlusTreeInsert.TombstoneShape | b+tree/kvs.c:460 | tombstoning changes no key and no node, so ordering, balance and size bounds survive |
| BPlusTreeInsert.DeleteTree | b+tree/kvs.c:449-465 | after kvs_delete's tombstoning the invariant holds and the key has left the live map, with the node count unchanged |
| BPlusTreeKvs.Kvs.constructor | b+tree/kvs.c:338-359 | an empty root leaf at height 1, one node, an empty filter and pool, and the save path kept |
| BPlusTreeKvs.Kvs.PutRaw | b+tree/kvs.c:382-407 | NOMEM exactly when one of the three allocations failed, with the tree, the count, the bitmap bytes, its size and set_bits untouched; otherwise the key is bound to the value and the filter is as PutFilter says; the pool offset is what the three allocations leave |
| BPlusTreeKvs.Kvs.Insert | b+tree/kvs.c:394-404 | after bloom_add and the tree insert the invariant holds and the key is bound to the value; the bitmap gains the key's three bits, its size is unchanged and set_bits grows by the newly set bits |
| BPlusTreeKvs.Kvs.Put | b+tree/kvs.c:409-411 | what PutRaw states, for the C-string key and value: NOMEM exactly when one of the three allocations failed, and the pool offset those allocations leave; on OK the key is bound to the value and the filter is as PutFilter says; on NOMEM the tree, the count, the bitmap, its size and set_bits are untouched |
| BPlusTreeKvs.Kvs.CheckExpand | b+tree/kvs.c:124-128 | at half fill below the cap the filter grows four-fold (up to the cap) and holds exactly the live keys re-added in chain order, with set_bits equal to the bits set; otherwise bitmap, size and set_bits are unchanged |
| BPlusTreeKvs.Kvs.Refill | b+tree/kvs.c:325-335 | bloom_rebuild on the zeroed bitmap: every live key added in chain order, set_bits equal to the bits set, and the store consistent again |
| BPlusTreeKvs.Kvs.Expand | b+tree/kvs.c:404 | after bloom_add, the check every 1000 entries leaves the filter as PutFilter says and the tree and count alone |
| BPlusTreeKvs.Kvs.GetRaw | b+tree/kvs.c:413-430 | the value bound to the key, or NULL when it is not live |
| BPlusTreeKvs.Kvs.Get | b+tree/kvs.c:432-434 | the value bound to the C-string key, or NULL when it is not live |
| BPlusTreeKvs.Kvs.Live | b+tree/kvs.c:436-447 | the filter, descent and slot test answer true exactly when the key is live |
| BPlusTreeKvs.Kvs.Exists | b+tree/kvs.c:436-447 | true exactly when the C-string key is live |
| BPlusTreeKvs.Kvs.Delete | b+tree/kvs.c:449-465 | OK exactly when the key was live, NOTFOUND otherwise; afterwards the key is not live and nothing else changed; height and node count are kept |
| BPlusTreeKvs.Kvs.GetStats | b+tree/kvs.c:619-626 | the count is the number of live keys, the node count the number of nodes, the height the depth of every leaf, and the reported set-bit count is db->bloom_set_bits, at most the set bits |
| BPlusTreeKvs.Kvs.Foreach | b+tree/kvs.c:628-642 | every live pair in strictly ascending key order, db->count of them, which together rebuild the contents |
| BPlusTreeKvs.Kvs.Save | b+tree/kvs.c:555-582 | the file bytes are the header, the bitmap and each live record in chain order, and they decode back to the filter and pairs whose replay gives the contents; the saved bitmap passes every saved key |
| BPlusTreeKvs.Kvs.Close | b+tree/kvs.c:370-380 | the bytes of the save to the path given at open, and none without one |
| BPlusTreeKvs.WalkedChain | b+tree/kvs.c:628-642 | the leaf-by-leaf walk reports the live pairs of the chain, db->count of them, ascending |
| BPlusTreeKvs.PutTree | b+tree/kvs.c:396-402 | the tree step keeps the invariant, grows height, node count and count to match, and binds the key |
| BPlusTreeKvs.PutState | b+tree/kvs.c:396-397 | insert_recursive plus the new root keeps the state and grows count exactly when the key was not live |
| BPlusTreeKvs.DeleteLive | b+tree/kvs.c:460-461 | setting the deleted flag of a live key and decrementing count keeps the state and unbinds the key |
| BPlusTreeKvs.DeleteState | b+tree/kvs.c:460-461 | the tombstoning keeps the state with one live key fewer |
| BPlusTreeKvs.Rebuild | b+tree/kvs.c:325-335 | the bitmap after bloom_rebuild is the old one with every live key of the chain added in order, and set_bits grows by exactly the bits newly set |
| BPlusTreeKvs.WriteRecords | b+tree/kvs.c:566-578 | the record loop writes, for each live entry in chain order, its lengths, key and value |
| BPlusTreeKvs.KeyCmpHit | b+tree/kvs.c:421 | the keycmp test on the found slot is key equality |
| BPlusTreeKvs.Load | b+tree/kvs.c:584-616 | a database exactly when the header reads back, fresh and without a save path; its contents are the map of the pairs the replay stores (Replay: each record whose allocations fit); when the saved bitmap passes every saved key, the filter is the saved bitmap with the saved size and set_bits 0 |
| Bloom.PutFilter | b+tree/kvs.c:394-404 | the filter after a successful put: the key's three bits set and set_bits raised by the newly set ones; on a count that is a multiple of 1000 with fill >= 0.5 below the cap, a grown zeroed bitmap with every live key re-added and set_bits equal to the bits now set |
| Bloom.PutFilterPassing | b+tree/kvs.c:394-404 | a put of a key the filter already passes, with set_bits at 0, sets no bit, counts none and cannot trigger a growth: the filter is left exactly as it was |
| BPlusTreeKvs.Replay | b+tree/kvs.c:601-612 | the pairs the load loop stores, in order: each record whose three allocations fit the pool from the offset the earlier ones left; never more than were read |
| BPlusTreeKvs.ReplayFits | b+tree/kvs.c:601-612 | when the pool has room for every record's three aligned allocations, the replay stores every record |
| BPlusTreeKvs.ReplayRecord | b+tree/kvs.c:601-612 | one round of the load loop keeps its invariant: the contents are the map of the pairs stored so far, those pairs and the rest's replay make up the whole replay, and a saved bitmap that passes every key stays as it was with set_bits 0 |
| BPlusTreeKvs.ReplayBook | b+tree/kvs.c:383-386 | record i joins the stored pairs exactly when its three allocations fit |
| BPlusTreeKvs.ReplayStep | b+tree/kvs.c:601-612 | the replay of records i onward is record i's own outcome followed by the replay of the rest from the pool offset it leaves |
| BPlusTreeKvs.PairsMapSnoc | b+tree/kvs.c:611 | storing one more pair rebinds its key to its value |
| BPlusTreeKvs.PairsMapHas | b+tree/kvs.c:568-576 | every saved record's key is bound in the map the records rebuild |
| BPlusTreeKvs.HoldsPasses | b+tree/kvs.c:562-563 | a filter that holds for the contents passes every key kvs_save writes |
| BPlusTreeKvs.SaveLoad | b+tree/kvs.c:555-616 | what kvs_save writes, kvs_load reads back as the filter and the live pairs, whose replay rebuilds the contents |
| BPlusTreeScan.NextLive | b+tree/kvs.c:511-518 | the first live slot at or after the start, every slot skipped being a tombstone |
| BPlusTreeScan.PrevLive | b+tree/kvs.c:524-531 | the last live slot at or before the start, every slot skipped being a tombstone |
| BPlusTreeScan.AboveEmpty | b+tree/kvs.c:656 | entries all above the upper bound contribute nothing to a range |
| BPlusTreeScan.BelowSkipped | b+tree/kvs.c:651 | entries all below the lower bound contribute nothing, so a range may start at the lower bound |
| BPlusTreeScan.WalkIsBetween | b+tree/kvs.c:653-664 | walking from the first live slot reports exactly the live entries within the bounds |
| BPlusTreeScan.RangeLiveIsBetween | b+tree/kvs.c:644-668 | a range walk that starts on the first live slot at or after the lower bound reports exactly the live pairs in [from, to] |
| BPlusTreeScan.RangeReportsTombstone | b+tree/kvs.c:651-660 | the concrete chain on which kvs_range as written reports a deleted pair |
| BPlusTreeScan.ForwardFrom | b+tree/kvs.c:509-520 | repeated next from a live start reports the live pairs from there on, in order |
| BPlusTreeScan.ForwardLive | b+tree/kvs.c:476-484 | first then next until invalid reports every live pair in ascending order |
| BPlusTreeScan.BackwardFrom | b+tree/kvs.c:522-533 | repeated prev reports the live pairs up to the start in reverse order |
| BPlusTreeScan.BackwardLive | b+tree/kvs.c:486-495 | last then prev until invalid reports every live pair in descending order |
| BPlusTreeCursor.PosInBounds | b+tree/kvs.c:535-537 | a cursor is valid exactly when it is on an entry of the chain, and that entry is its slot's |
| BPlusTreeCursor.AdvanceStep | b+tree/kvs.c:512-516 | one step of next moves one slot along the chain, or stays past its end |
| BPlusTreeCursor.RetreatStep | b+tree/kvs.c:525-529 | one step of prev moves one slot back, or off the front from the first slot |
| BPlusTreeCursor.SeekStep | b+tree/kvs.c:501-505 | the seek lands on the slot whose chain position is the leaf's offset plus the found position |
| BPlusTreeCursor.LastStep | b+tree/kvs.c:487-490 | the last slot of the last leaf is the last slot of the chain, or index -1 on an empty chain |
| BPlusTreeCursor.Cursor.constructor | b+tree/kvs.c:468-472 | no node and index 0: a cursor on no entry |
| BPlusTreeCursor.Cursor.IsValid | b+tree/kvs.c:535-537 | true exactly when the cursor is on an entry |
| BPlusTreeCursor.Cursor.KeyAt | b+tree/kvs.c:539-543 | the key of the entry the cursor is on, NULL exactly when it is on none |
| BPlusTreeCursor.Cursor.ValueAt | b+tree/kvs.c:545-550 | the value of the entry the cursor is on, NULL exactly when it is on none |
| BPlusTreeCursor.Cursor.OnTombstone | b+tree/kvs.c:479-480 | true exactly when the cursor is on a deleted entry |
| BPlusTreeCursor.Cursor.Advance | b+tree/kvs.c:512-516 | the cursor moves one slot along the chain, or stays past its end |
| BPlusTreeCursor.Cursor.Retreat | b+tree/kvs.c:525-529 | the cursor moves one slot back, or off the front with index -1 from the first slot |
| BPlusTreeCursor.Cursor.Next | b+tree/kvs.c:509-520 | without a node nothing changes; otherwise the cursor lands on the first live slot after the one it was on |
| BPlusTreeCursor.Cursor.Prev | b+tree/kvs.c:522-533 | without a node nothing changes; from a slot the cursor lands on the last live slot before it, or on no node with index -1 |
| BPlusTreeCursor.Cursor.First | b+tree/kvs.c:476-484 | the cursor lands on the first live slot of the chain |
| BPlusTreeCursor.Cursor.ToLastSlot | b+tree/kvs.c:487-490 | the cursor is on the last slot of the chain, or at index -1 when the chain is empty |
| BPlusTreeCursor.Cursor.Last | b+tree/kvs.c:486-495 | the cursor lands on the last live slot of the chain, valid exactly when there is one |
| BPlusTreeCursor.Cursor.Seek | b+tree/kvs.c:497-507 | the cursor lands on the lower bound of the key in the chain, tombstone or not |
| BPlusTreeCursor.RangeStep | b+tree/kvs.c:655-663 | one report of the range loop, then the walk from the next live slot |
| BPlusTreeCursor.Range | b+tree/kvs.c:644-668 | kvs_range as written: the entries from the lower bound of `from` whose keys are not above `to`, the first one reported even when deleted |
| BPlusTreeCursor.RangeLive | b+tree/kvs.c:644-668 | the range with the tombstone skip that kvs_cursor_first makes: exactly the live pairs in [from, to], ascending |
| BPlusTreeCursor.RangeLoop | b+tree/kvs.c:653-664 | the loop reports the walk from the cursor's slot while keys are not above the bound, and counts the reports |
| BPlusTreeFile.Image | b+tree/kvs.c:555-582 | the file kvs_save writes: magic, count, bloom size, bitmap bytes, then each record's two lengths, key and value (ImageRoundTrip) |
| BPlusTreeFile.Decode | b+tree/kvs.c:584-600 | no snapshot unless the magic matches and the header and bitmap are there; a snapshot's bitmap has a nonzero size that is a multiple of 8 and fits 8 bytes |
| BPlusTreeFile.DecodeRecords | b+tree/kvs.c:601-612 | reads exactly the count of records given in the header, or fails on a short file |
| BPlusTreeFile.DecodeRecordsRoundTrip | b+tree/kvs.c:601-612 | records read back as written, whatever follows them |
| BPlusTreeFile.RecordParts | b+tree/kvs.c:571-574 | the four parts of one record sit at their offsets: the two lengths, the key, the value |
| BPlusTreeFile.BitmapRoundTrip | b+tree/kvs.c:563 | the bitmap bytes read back as the bitmap |
| BPlusTreeFile.ImageRoundTrip | b+tree/kvs.c:584-612 | kvs_load reads back what kvs_save wrote: the filter and the records, in order |
| BPlusTreeFile.RecordsSnoc | b+tree/kvs.c:568-576 | the save loop's step appends one record |
| RedBlack.Inorder | hash_rbtree/kvs.c:238-244 | the entries in the order rbtree_inorder visits them: left subtree, node, right subtree (HashTreeKvs.InorderPairs, PlugInorder) |
| RedBlack.RotateLeft | hash_rbtree/kvs.c:146-156 | the right child takes the node's place and the in-order entries are unchanged |
| RedBlack.RotateRight | hash_rbtree/kvs.c:158-168 | the left child takes the node's place and the in-order entries are unchanged |
| RedBlack.PlugInorder | hash_rbtree/kvs.c:151-153 | a subtree hung back into its path sits between the entries left and right of the hole |
| RedBlack.PlugBalanced | hash_rbtree/kvs.c:170-201 | a balanced subtree plugged into a path balanced at its black height gives a balanced tree |
| RedBlack.PlugRedOk | hash_rbtree/kvs.c:170-201 | a subtree without red-red links plugged under a black parent, or holding a black node, leaves none |
| RedBlack.HoleDown | hash_rbtree/kvs.c:212-216 | one step down the descent keeps the cut tree whole once plugged |
| RedBlack.FixStart | hash_rbtree/kvs.c:219-224 | the new red node hung where the descent fell off the tree starts the fixup |
| RedBlack.FixDone | hash_rbtree/kvs.c:171-200 | the loop stops at a black parent or at the root, and blackening the root leaves a red-black tree with the same entries |
| RedBlack.RedParent | hash_rbtree/kvs.c:171-173 | a red parent is never the root, so the grandparent the fixup reads exists |
| RedBlack.RecolorCase | hash_rbtree/kvs.c:174-178 | a red uncle: parent and uncle turn black, the grandparent red, and the fixup resumes two levels up with the entries unchanged |
| RedBlack.InnerLeftCase | hash_rbtree/kvs.c:180 | z a right child of a left parent: rotating the parent left makes z an outer child, entries unchanged |
| RedBlack.InnerRightCase | hash_rbtree/kvs.c:193 | the mirror image: rotating the parent right, entries unchanged |
| RedBlack.OuterLeftCase | hash_rbtree/kvs.c:181-183 | z an outer left child: recolouring and rotating the grandparent right ends the loop, entries unchanged |
| RedBlack.OuterRightCase | hash_rbtree/kvs.c:194-196 | the mirror image: rotating the grandparent left ends the loop, entries unchanged |
| RedBlack.Descend | hash_rbtree/kvs.c:212-216 | each step of the descent goes left below the node's key and right above it, keeping the path toward the key |
| RedBlack.DescentMissed | hash_rbtree/kvs.c:228-235 | a descent that reaches the sentinel means no entry carries the key |
| RedBlack.DescentHit | hash_rbtree/kvs.c:228-232 | a descent that reaches a node of the key splits the entries into smaller ones, that node and larger ones |
| RedBlack.Search | hash_rbtree/kvs.c:228-236 | the entry of the node carrying the key, or NULL exactly when no entry carries it |
| RedBlack.FoundLive | hash_rbtree/kvs.c:381-382 | a found entry's key is live exactly when the entry is not a tombstone, and then maps to its value |
| RedBlack.Insert | hash_rbtree/kvs.c:210-226 | the result is a red-black tree whose entries are the sorted insertion of the new entry |
| RedBlack.ReplaceEntry | hash_rbtree/kvs.c:217 | a node of the same key takes the new entry in place, which is the sorted insertion |
| RedBlack.HangNew | hash_rbtree/kvs.c:219-224 | the new node hung at the end of the descent holds the sorted insertion |
| RedBlack.InsertFixup | hash_rbtree/kvs.c:170-201 | the fixup restores the red-black properties and keeps the in-order entries |
| RedBlack.InsertLive | hash_rbtree/kvs.c:355-357 | inserting a live entry binds its key to its value and changes no other key |
| RedBlack.MarkTree | hash_rbtree/kvs.c:429-431 | tombstoning the found node marks the key's entries in order and changes no colour or black height |
| RedBlack.MarkTreeValid | hash_rbtree/kvs.c:429-431 | the tombstoned tree is still a red-black tree and the key has left the live map |
| RedBlack.SearchCStr | kvs_rbtree.c:161-170 | the strcmp descent finds the node whose key is the probe's C string, or NULL exactly when none has it |
| RedBlack.InsertCStr | kvs_rbtree.c:132-159 | the strcmp insertion keeps a red-black tree of C-string entries, binds the key, and adds a node exactly when the key was new |
| RedBlack.SearchValue | kvs_rbtree.c:262-273 | the value bound to the probe's C string, or NULL when it is not in the tree |
| RedBlack.InsertAll | kvs_rbtree.c:242-259 | inserting a list oldest first leaves the last value of each key, with at most one node per entry |
| RedBlack.HeightBound | hash_rbtree/kvs.c:170-201 | no path is longer than twice the black height, plus a red root |
| RedBlack.SizeBound | hash_rbtree/kvs.c:170-201 | a balanced tree of black height h holds at least 2^h - 1 entries |
| RedBlack.HeightLimit | hash_rbtree/kvs.c:170-201 | a red-black tree of fewer than 2^22 entries is at most 44 nodes deep |
| HashTreeKvs.LiveMaps | hash_rbtree/kvs.c:43 | the live map of each chain, one per bucket |
| HashTreeKvs.FindLive | hash_rbtree/kvs.c:375-379 | the chain walk stops at the first live entry of the key, or at the end |
| HashTreeKvs.ChainLookup | hash_rbtree/kvs.c:375-385 | the key is live in the chain exactly when the walk stopped on an entry, and that entry holds its value |
| HashTreeKvs.ChainOverwrite | hash_rbtree/kvs.c:342-344 | overwriting the live match's value rebinds the key and keeps one live entry per key |
| HashTreeKvs.ChainPush | hash_rbtree/kvs.c:349-350 | pushing a live entry at the head of a chain without a live match binds its key |
| HashTreeKvs.ChainKill | hash_rbtree/kvs.c:421-423 | flagging the live match deleted unbinds its key |
| HashTreeKvs.FlatUnion | hash_rbtree/kvs.c:518-524 | the live map of the bucket-by-bucket walk is the union of the chains' live maps |
| HashTreeKvs.TableLookup | hash_rbtree/kvs.c:374-379 | a key is live in the table exactly when it is live in its own chain, with the same value |
| HashTreeKvs.TableSet | hash_rbtree/kvs.c:337-351 | rebinding a key in its own chain rebinds it in the table and keeps every entry in its hash's chain |
| HashTreeKvs.TableRemove | hash_rbtree/kvs.c:419-424 | unbinding a key in its own chain unbinds it in the table |
| HashTreeKvs.LiveCard | hash_rbtree/kvs.c:527 | with distinct live keys there are as many live pairs as live keys |
| HashTreeKvs.FlatDistinct | hash_rbtree/kvs.c:518-524 | the bucket-by-bucket walk never meets a live key twice |
| HashTreeKvs.ChainPut | hash_rbtree/kvs.c:336-351 | a live match gets the new value in place, otherwise a new live entry is pushed at the head; pushed exactly when the key was not live |
| HashTreeKvs.ChainGet | hash_rbtree/kvs.c:374-379 | the value bound to the key in its chain, or NULL |
| HashTreeKvs.ChainDelete | hash_rbtree/kvs.c:419-427 | the live match is flagged deleted, found exactly when the key was live; no key moves |
| HashTreeKvs.TreeGet | hash_rbtree/kvs.c:381-382 | rbtree_search and the tombstone test give the value bound to the key, or NULL |
| HashTreeKvs.TreePut | hash_rbtree/kvs.c:355-357 | rbtree_insert binds the key, adds at most one entry, and keeps every other entry |
| HashTreeKvs.TreeDelete | hash_rbtree/kvs.c:429-434 | the found live entry is flagged deleted, found exactly when the key was live |
| HashTreeKvs.BuildTree | hash_rbtree/kvs.c:268-278 | the tree built from every live entry, bucket by bucket, holds the table's live map |
| HashTreeKvs.ClearBuckets | hash_rbtree/kvs.c:279 | every chain is emptied |
| HashTreeKvs.InsertChain | hash_rbtree/kvs.c:271-278 | inserting one chain's live entries head first adds the chain's bindings after the earlier ones |
| HashTreeKvs.AddTreeKeys | hash_rbtree/kvs.c:127 | the bitmap gains every live key of the tree, in key order, and set_bits grows by exactly the bits newly set |
| HashTreeKvs.InorderPairs | hash_rbtree/kvs.c:526 | the in-order walk reports the live pairs of the tree in key order |
| HashTreeKvs.WalkTable | hash_rbtree/kvs.c:517-524 | the hash-mode walk reports every live entry bucket by bucket and counts them |
| HashTreeKvs.Kvs.constructor | hash_rbtree/kvs.c:285-307 | empty chains, an empty tree, hash mode, count 0, an empty filter and pool, and the save path kept |
| HashTreeKvs.Kvs.PutRaw | hash_rbtree/kvs.c:322-363 | NOMEM exactly when an allocation failed, with index, count and filter untouched; otherwise the key is bound, count grows unless a live key was overwritten in hash mode, and the mode turns to RBTREE exactly when a new key reaches the threshold; the filter is as PutFilter says, with the growth check only when the put was counted; on NOMEM the bitmap, its size and set_bits are untouched |
| HashTreeKvs.Kvs.Store | hash_rbtree/kvs.c:334-361 | bloom_add, then the hash or tree update, then the check every 1000 counted entries: the key is bound, count and mode change as kvs_put_raw says, and the filter is as PutFilter says |
| HashTreeKvs.Kvs.Place | hash_rbtree/kvs.c:336-359 | the index step binds the key; the put is counted exactly unless a live key was overwritten in hash mode (the early return); the mode turns to RBTREE exactly when a new key reaches the threshold, never back |
| HashTreeKvs.Kvs.PutHash | hash_rbtree/kvs.c:336-351 | the key's chain is overwritten in place or pushed onto, pushed exactly when the key was not live |
| HashTreeKvs.Kvs.PutTree | hash_rbtree/kvs.c:354-359 | rbtree_insert binds the key, and count grows by one even when the key was already bound |
| HashTreeKvs.Kvs.DeleteHash | hash_rbtree/kvs.c:418-427 | the live match in the key's chain is flagged deleted, found exactly when the key was live |
| HashTreeKvs.Kvs.DeleteTree | hash_rbtree/kvs.c:428-435 | the live entry rbtree_search finds is flagged deleted, found exactly when the key was live |
| HashTreeKvs.Kvs.Put | hash_rbtree/kvs.c:365-367 | what PutRaw states, for the C-string key and value: NOMEM exactly when an allocation failed, and the pool offset the allocations leave; on OK the key is bound, count and mode change as kvs_put_raw says and the filter is as PutFilter says; on NOMEM index, count, bitmap, size and set_bits are untouched |
| HashTreeKvs.Kvs.Convert | hash_rbtree/kvs.c:268-282 | the live entries move into the tree, the chains are cleared, the mode is RBTREE, and neither the contents nor count change |
| HashTreeKvs.Kvs.Compact | hash_rbtree/kvs.c:502-504 | afterwards the store is in tree mode with the same contents; a tree-mode store is left alone |
| HashTreeKvs.Kvs.CheckExpand | hash_rbtree/kvs.c:111-135 | at half fill below the cap the filter grows four-fold and holds exactly the live keys of the active index re-added, with set_bits equal to the bits set; otherwise bitmap, size and set_bits are unchanged |
| HashTreeKvs.Kvs.GetRaw | hash_rbtree/kvs.c:369-391 | the value bound to the key, or NULL when it is not live |
| HashTreeKvs.Kvs.Get | hash_rbtree/kvs.c:393-395 | the value bound to the C-string key, or NULL |
| HashTreeKvs.Kvs.Exists | hash_rbtree/kvs.c:397-412 | true exactly when the C-string key is live |
| HashTreeKvs.Kvs.Delete | hash_rbtree/kvs.c:414-437 | OK exactly when the key was live, which then leaves the contents and count drops by one; NOTFOUND otherwise with nothing changed |
| HashTreeKvs.Kvs.Unbind | hash_rbtree/kvs.c:418-436 | the live entry is flagged deleted in the active index, found exactly when the key was live, and count drops when found |
| HashTreeKvs.Kvs.Foreach | hash_rbtree/kvs.c:513-530 | every live pair once, in key order in tree mode; the number returned is the number visited in hash mode and db->count in tree mode |
| HashTreeKvs.Kvs.GetStats | hash_rbtree/kvs.c:490-496 | count is db->count (the live keys plus tree-mode overwrites), memory used is the pool offset, and the reported set-bit count is db->bloom_set_bits, at most the set bits |
| HybridKvs.FirstMaps | kvs_hybrid.c:386-399 | one head-first answer map per chain |
| HybridKvs.FirstMapKeys | kvs_hybrid.c:388-396 | a chain answers for a key exactly when one of its entries holds the key |
| HybridKvs.FirstMapAt | kvs_hybrid.c:388-396 | the key is found exactly when the chain walk stopped on an entry, and the answer is that entry's value |
| HybridKvs.ChainFind | kvs_hybrid.c:386-396 | the walk stops at the first entry of the key from the head, or at the end of the chain |
| HybridKvs.Push | kvs_hybrid.c:356-359 | the table keeps its 8192 buckets |
| HybridKvs.FirstMapsPlaced | kvs_hybrid.c:356-359 | in a table whose entries sit in their hash's bucket, each chain's answers only concern that bucket's keys |
| HybridKvs.HashLookup | kvs_hybrid.c:385-396 | a key is bound in the hash table exactly when its own chain answers for it, with the same value |
| HybridKvs.HashPush | kvs_hybrid.c:356-360 | a push binds the key to the new value, leaves every other key alone and adds one entry to the walk |
| HybridKvs.FlatLength | kvs_hybrid.c:326-335 | replacing one chain changes the number of walked entries by the difference in length |
| HybridKvs.CStrPush | kvs_hybrid.c:341-348 | a pushed entry holds the key and value as C strings, so the table stays made of C-string entries |
| HybridKvs.LiveMapKeeps | kvs_hybrid.c:247-263 | a stored entry's key stays bound once every entry has been inserted |
| HybridKvs.BuildTree | kvs_hybrid.c:323-337 | inserting every entry bucket by bucket, head first, gives a red-black tree whose map is the last-wins map of that walk, with at most one node per entry |
| HybridKvs.ConvertKeys | kvs_hybrid.c:323-337 | the tree binds the same keys as the hash table did |
| HybridKvs.ConvertedValue | kvs_hybrid.c:323-337 | after conversion a key holds the value of the deepest entry of its chain, that is its oldest put |
| HybridKvs.LastAt | kvs_hybrid.c:254 | the in-place update on an equal key leaves each key with its last-inserted entry |
| HybridKvs.ConversionKeepsOldest | kvs_hybrid.c:323-337 | with two puts of one key in a chain, a hash-mode get answers the later value and the converted tree the earlier |
| HybridKvs.PushStep | kvs_hybrid.c:157-160 | pushing the current node and going left keeps the in-order walk, and the slot written lies below the tree's height |
| HybridKvs.PopStep | kvs_hybrid.c:161-163 | popping the top node, visiting it and going right keeps the walk; the visited entry is the next one in key order |
| HybridKvs.VisitStep | kvs_hybrid.c:162 | bloom_add of the visited key adds it to the keys already added |
| HybridKvs.PushSpine | kvs_hybrid.c:157-160 | the left spine goes onto the stack without overflowing its 64 slots, and the walk is kept |
| HybridKvs.PopVisit | kvs_hybrid.c:161-163 | one pop adds the next key in key order to the filter, leaving the bitmap array and its size unchanged |
| HybridKvs.AddTreeKeysStack | kvs_hybrid.c:150-164 | for a tree no higher than 64 the walk never overflows the stack and adds every key of the tree, in key order, and set_bits grows by exactly the bits newly set |
| HybridKvs.StackSuffices | kvs_hybrid.c:152 | a red-black tree of fewer than 2^22 nodes is at most 64 high |
| HybridKvs.BloomSameKeys | kvs_hybrid.c:116-121 | a filter that admits every key of one map admits every key of a map with fewer keys |
| HybridKvs.Kvs.constructor | kvs_hybrid.c:296-310 | empty chains, an empty tree, hash mode, count 0, a zeroed filter of BLOOM_INIT_BITS bits and an empty pool |
| HybridKvs.Kvs.Put | kvs_hybrid.c:340-379 | -1 exactly when one of the three allocations failed, with index, count and filter untouched; otherwise the count grows by one and the key is bound to the value, except that the conversion at the threshold leaves each key with its oldest value; the filter is as PutFilter says; on -1 the bitmap, its size and set_bits are untouched |
| HybridKvs.Kvs.PutPair | kvs_hybrid.c:342-378 | the same as Put for a NUL-free key and any value already read as C strings |
| HybridKvs.Kvs.Reserve | kvs_hybrid.c:345-348 | the three allocations succeed together exactly as AllocThree says, and a success leaves room for one more counted put |
| HybridKvs.Kvs.Store | kvs_hybrid.c:350-376 | bloom_add, the index step and the growth check every 1000 counts: the key is bound as Indexes says and the filter is as PutFilter says |
| HybridKvs.Kvs.AddIndex | kvs_hybrid.c:354-371 | bloom_add sets the key's bits and raises set_bits by the newly set ones, then the index step binds the key as Indexes says |
| HybridKvs.Kvs.Expand | kvs_hybrid.c:374-376 | after bloom_add, the check every 1000 counts leaves the filter as PutFilter says |
| HybridKvs.Kvs.Index | kvs_hybrid.c:355-371 | the count grows by one, the key is bound, and the mode turns to RBTREE exactly at the threshold, never back (Indexes); the filter, which already holds the key, still passes every key |
| HybridKvs.Kvs.PutHash | kvs_hybrid.c:356-360 | the entry goes at the head of its chain, is counted and binds its key |
| HybridKvs.Kvs.PutTree | kvs_hybrid.c:366-370 | rbtree_insert binds the key, and the put is counted whether or not the key was there |
| HybridKvs.Kvs.Convert | kvs_hybrid.c:323-337 | every chain is cleared, the mode is RBTREE, count is unchanged, and the tree holds the last-wins map of the bucket walk, with the same keys |
| HybridKvs.Kvs.CheckExpand | kvs_hybrid.c:124-179 | at half fill below the cap, a zeroed bitmap four times larger (at most the cap) holding exactly the keys of the active index, with set_bits equal to the bits set; otherwise bitmap, size and set_bits are unchanged |
| HybridKvs.Kvs.Get | kvs_hybrid.c:382-408 | the value bound to the C-string key in the active index, or NULL |
| KvmStore.Str32 | bench_all.cpp:90 | the key is the C string truncated to a uint32_t length: a NUL-free prefix of the C string, the whole of it when it is shorter than 2^32 |
| KvmStore.RecSize | bench_all.cpp:91 | a record's size is its 12-byte header plus key and value, rounded up to the next multiple of 8 |
| KvmStore.Head | bench_all.cpp:95-97 | the bucket slot's offset: 0 exactly when no record is in the bucket, otherwise an aligned offset inside the data area (HeadSnoc) |
| KvmStore.SetBit | bench_all.cpp:66-68 | one bit of bloom_add: or the bit h % 8 into byte (h % BLOOM_SIZE) >> 3, keeping the region's size (SetBitView) |
| KvmStore.BloomMaybe | bench_all.cpp:70-74 | bloom_maybe: all three of the key's bits are set (BloomMaybeView, StoredKeysPass) |
| KvmStore.RecMap | bench_all.cpp:103-117 | what kvm_get observes: the newest record of each key (RecMapNewest, RecMapAbsent) |
| KvmStore.BucketOf | bench_all.cpp:94 | a bucket index below BUCKET_COUNT |
| KvmStore.Ends | bench_all.cpp:91-98 | write_pos after the records: at least DATA_OFF and a multiple of 8 |
| KvmStore.Last | bench_all.cpp:95-97 | the chain head of a bucket is a record of that bucket |
| KvmStore.LastIsNewest | bench_all.cpp:95-97 | every record of the bucket is no newer than its head |
| KvmStore.Image | bench_all.cpp:95-96 | a record's bytes are the 12-byte header, the key and the value |
| KvmStore.Splice | bench_all.cpp:96 | a copy into the region keeps its size |
| KvmStore.BloomAdd | bench_all.cpp:65-69 | setting the key's three bloom bits keeps the region's size |
| KvmStore.RecMapNewest | bench_all.cpp:92-98 | the newest record of a key gives the key's value |
| KvmStore.RecMapAbsent | bench_all.cpp:92-98 | a key that no record holds is unbound |
| KvmStore.EndsPrefix | bench_all.cpp:91-98 | each record starts where the ones before it end and ends no later than write_pos |
| KvmStore.HeadSnoc | bench_all.cpp:95-97 | a put makes its record the head of its own bucket and leaves every other head alone |
| KvmStore.SetBitView | bench_all.cpp:66-68 | the byte update of bloom_add sets bit h % BLOOM_SIZE of the filter and touches nothing past the bloom area |
| KvmStore.BloomMaybeView | bench_all.cpp:70-74 | bloom_maybe tests exactly the three bits bloom_add sets |
| KvmStore.LaidEmpty | bench_all.cpp:76-86 | zeroed bloom and bucket areas with write_pos at DATA_OFF hold no records |
| KvmStore.RecordsSnoc | bench_all.cpp:95-98 | the data area followed by a new record's image and padding holds one more record |
| KvmStore.StoredNew | bench_all.cpp:95-96 | the image written at write_pos holds the new record, linked to the old head of its bucket |
| KvmStore.SlotsSnoc | bench_all.cpp:97 | writing write_pos into a bucket's slot makes the new record that bucket's head and keeps the other heads |
| KvmStore.ReadImage | bench_all.cpp:107-110 | a record image reads back as its key length, value length, link, key bytes and value bytes |
| KvmStore.RecordBytes | bench_all.cpp:106-115 | each stored record reads back at its offset as itself, linked to the previous head of its bucket |
| KvmStore.StoredKeysPass | bench_all.cpp:70-74 | every stored key passes bloom_maybe |
| KvmStore.MissedKeysAbsent | bench_all.cpp:104-105 | a key that fails bloom_maybe is not stored, so the early NULL is right |
| KvmStore.PutLaid | bench_all.cpp:89-101 | after the three stores of a put the region holds one more record, and write_pos moves past it |
| KvmStore.Blit | bench_all.cpp:96 | the memcpy writes the bytes at the offset and nothing else |
| KvmStore.SetBloomBit | bench_all.cpp:66 | the OR into the bloom byte is the region-level bit update |
| KvmStore.WriteRecord | bench_all.cpp:94-98 | the region after the image write, the slot write and bloom_add, in that order |
| KvmStore.Store.constructor | bench_all.cpp:76-86 | a POOL_SIZE region with zeroed bloom and bucket areas, write_pos DATA_OFF, count 0 and no records |
| KvmStore.Store.Put | bench_all.cpp:89-101 | -1 with nothing written exactly when the padded record does not fit; otherwise one more record, write_pos and count advance and the key is bound to the value |
| KvmStore.Store.Write | bench_all.cpp:93-99 | the record is appended, write_pos and count advance and the key is bound to the value |
| KvmStore.Store.Get | bench_all.cpp:103-117 | the value of the latest put of the key, or NULL when it was never put |
| KvmStore.Walk | bench_all.cpp:106-116 | walking the chain from its head gives the value bound to the key, or NULL |
| KvmStore.Probe | bench_all.cpp:108-112 | the length check and memcmp match exactly when the record holds the key; on a match the value is copied out |
| KvmStore.Found | bench_all.cpp:108-112 | the first match on the walk is the key's newest record |
| KvmStore.Passed | bench_all.cpp:113 | moving past a record that does not match keeps "no later record of the bucket holds the key" |
| KvmStore.KeyTest | bench_all.cpp:108 | equal length and memcmp 0 exactly when the record's key is the key |
| KvmStore.Visit | bench_all.cpp:106-107 | an offset at or above DATA_OFF on the walk is the bucket's newest record among those older than the last visited |
| KvmStore.NotFound | bench_all.cpp:106-116 | once the walk reaches an offset below DATA_OFF, no record holds the key |
| WriteListKvs.PairsMapCard | kvs_rbtree.c:212-239 | putting pairs one by one never binds more keys than there are puts |
| WriteListKvs.AppendLive | kvs_rbtree.c:232-236 | appending a live entry rebinds its key to its value and leaves other keys alone |
| WriteListKvs.PairsMapSnoc | kvs_rbtree.c:212-239 | one more put rebinds its key to its value |
| WriteListKvs.Appended | kvs_rbtree.c:225-238 | the appended C-string pair becomes the latest binding of its key |
| WriteListKvs.TreeCard | kvs_rbtree.c:242-259 | a red-black tree of C-string entries binds one key per node |
| WriteListKvs.Kvs.constructor | kvs_rbtree.c:195-201 | an empty list and tree, not compacted, nothing counted and nothing bound |
| WriteListKvs.Kvs.Put | kvs_rbtree.c:212-239 | -1 exactly when an allocation failed, with nothing changed; otherwise the pair is appended at the tail, both counters grow, the store needs compacting and the key is bound to the value |
| WriteListKvs.Kvs.Append | kvs_rbtree.c:225-238 | the pair goes at the tail of the list, the counters grow and the key is bound to the value |
| WriteListKvs.Kvs.Compact | kvs_rbtree.c:242-259 | the list is emptied and nothing a read observes changes; a store already compacted or with an empty list is left alone; afterwards the tree holds one node per distinct key |
| WriteListKvs.Kvs.Get | kvs_rbtree.c:262-273 | the value of the latest put of the C-string key, or NULL; the store is left compacted |

## Left out

- The B+tree is a value, not linked nodes. Node identity, the next/prev pointers and the shifting of the keys/entries/children arrays in place are not modelled. The leaf chain is the left-to-right sequence of leaves, and a cursor is a leaf index and a slot.
- The red-black trees (RedBlack.Insert, RedBlack.InsertFixup, RedBlack.RotateLeft, RedBlack.RotateRight) are values. The fixup climbs a path of frames (parent direction, colour, entry and sibling subtree) instead of parent pointers, and there is no shared `nil` sentinel node. Node identity and pointer updates in place are not modelled.
- ORDER is fixed at 64, as in `b+tree/kvs.h`, rather than being a parameter.
- BPlusTreeFile.Decode: it rejects a file shorter than its header, and a bloom size that is zero or not a multiple of 8. `kvs_load` reads on in those cases and ignores short reads. Files that `kvs_save` writes are never rejected (SaveLoad).
- BPlusTreeKvs.Load: the filter is stated exactly only when the saved bitmap passes every saved key, as it does for every file `kvs_save` writes. Otherwise Load states only that every stored key passes the filter, and gives neither the bitmap bytes nor set_bits.
- Floating point is left out: the fill rate in `kvs_stats` is not modelled, and the 0.5 ratio of `bloom_check_expand` is stated as the integer test 2 * set_bits >= bits.
- File I/O, `printf`, `mmap`/`munmap`/`malloc`/`calloc`/`free`, `kvs_close`, `rbtree_free` and teardown are left out. An `mmap` or `calloc` failure is not modelled either. `kvs_save` and `kvs_load` are functions over byte sequences.
- `kvs_get` in the C code returns a `malloc`ed copy of the value; here it returns the value as a sequence.
- The save and load of `hash_rbtree/kvs.c` are not modelled: they dump raw pool bytes and pointers and never rebuild an index.
- The padding bytes of a KVM record are left as whatever the region held before.
- Benchmark drivers, `main`, `run_benchmark`, `now_sec`, the daemon programs, `bench_all2.cpp` and `fair_bench.cpp` are not part of this model.
- `hash2` and `hash3` are modelled with a signed `char`, as on x86-64. The bit-exact hash values on an unsigned-char platform are not modelled.
- In tree mode, `hash_rbtree/kvs.c` and `kvs_hybrid.c` increment the count on every put, even when the key was already there. The model keeps this behaviour. In `HashTreeKvs` a ghost `overcount` records how far `db->count` is above the number of live keys. `HybridKvs` states only that the tree has no more entries than the count.
- WriteListKvs.Kvs.Put, HybridKvs.Kvs.Put, HybridKvs.Kvs.Get: `kvs_rbtree.c` and `kvs_hybrid.c` store `strlen` in a `uint32_t`, so a key or value of 2^32 bytes or more is cut to its length mod 2^32 (and a length of 2^32-1 makes `klen + 1` wrap to 0). The model uses the full C-string length: such a put fails for lack of pool space, and Get hashes and compares the whole key. The truncation is not modelled.
- The hybrid conversion keeps each key's oldest value (ConversionKeepsOldest). This is modelled as written.

## Findings

| source | as written | input that shows it | evidently intended | confidence | as-written member | corrected member |
|---|---|---|---|---|---|---|
| b+tree/kvs.c:651-660 | `kvs_range` seeks to the lower bound of `from` and reports the slot it lands on without testing the tombstone flag, so a deleted entry at the start of the range is reported | a chain [("a","1", deleted), ("b","2")] and the range ["a","z"]: the deleted pair ("a","1") is reported first | only the live pairs whose keys lie in [from, to], in ascending order | not executed | BPlusTreeScan.RangeReportsTombstone | BPlusTreeCursor.RangeLive |
