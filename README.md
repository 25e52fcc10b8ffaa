# B-tree index manager

A model of `project3.py`, a small command-line index manager. The manager keeps
(key, value) pairs of unsigned 32-bit integers in a B-tree of minimum degree 4
(at most 7 keys per node), stored in one file of 512-byte blocks:

- block 0 holds the header: the magic bytes `BTREEIDX`, the byte offset of the
  root node as a big-endian 64-bit number (0 for an empty tree), then zeros;
- every other block holds one node: a leaf flag byte, a big-endian 32-bit key
  count, the keys, the values, and for an internal node one more 64-bit child
  offset than keys, zero-padded to 512 bytes;
- a new node is placed in a zero block appended at the end of the file, so its
  offset is the file length before the append;
- insertion is the preemptive-split algorithm: a full root is split under a
  new root, and on the way down a full child is split before the descent
  enters it, so every node an insertion reaches has room for one more key.

The model has the shape of the program. The files are a map from names to byte
sequences, held by the `IndexManager` class together with the name of the open
index and the cached root node. `BTreeNode` is a class whose methods update its
lists and rewrite its block in place, as the program's methods do. The block
codec, the header and the B-tree invariants are pure functions and lemmas:

| file | contents |
|---|---|
| `bytes.dfy` | big-endian numbers, `seek`+`read` and `seek`+`write` on a byte image |
| `node_codec.dfy` | `save` and `load` of one node block, and their round trip |
| `index_header.dfy` | the header, `create_index_file` and `open_index_file` as functions of the files |
| `block_file.dfy` | node blocks of a file image, what writes and appends keep |
| `node_ops.dfy` | the list surgery of the leaf insertion and of `split_child` |
| `disk_tree.dfy` | a B-tree stored in a file image: shape, order, entries, blocks used; splitting a child |
| `tree_insert.dfy` | one step of `insert_non_full` on a stored tree: leaf write, split, descent |
| `index_file.dfy` | a well-kept index file, and the steps of `insert` that keep it so |
| `btree.dfy` | the classes `IndexManager` and `BTreeNode` |

The central result is the contract of `BTree.IndexManager.Insert`. It starts from a
well-kept index: the header names the root of a B-tree whose nodes are stored one
per block, with no block shared, keys in search-tree order, all leaves at one
depth, and every node but the root holding at least 3 keys. After the call the file is still such an index. The tree holds the old
entries plus the new pair exactly when the key was not in the tree. The tree grew
one level exactly when the root was full. Only the open file changed.

## Model

| member | source | states |
|---|---|---|
| Bytes.FromToBE | project3.py:107-115 | unpacking the big-endian bytes that packing x wrote gives back x |
| Bytes.ToFromBE | project3.py:93-96 | packing the number a byte string denotes gives back that byte string |
| Bytes.ToBEInjective | project3.py:94-96 | two numbers packed to the same bytes are equal |
| Bytes.ReadAt | project3.py:104-106 | `seek` then `read(n)` gives n bytes, fewer at the end of the file, each one the file's byte at that position |
| Bytes.WriteAt | project3.py:98-100 | `seek` then `write` replaces exactly the bytes written, grows the file when the write runs past its end, and keeps every other byte |
| Bytes.ReadAfterWrite | project3.py:98-106 | reading back the range just written returns what was written |
| Bytes.ReadAroundWrite | project3.py:98-100 | a write leaves every range it does not overlap unchanged |
| NodeCodec.FullNodeFits | project3.py:93-97 | a node of at most 7 keys takes at most 125 bytes, well under a block |
| NodeCodec.Words | project3.py:94-96 | the joined packed words of a list take width times length bytes |
| NodeCodec.Slots | project3.py:109-115 | the list comprehensions of `load` read exactly n numbers, each within the width's range |
| NodeCodec.SlotsOfWords | project3.py:94-115 | the words `save` joins read back as the same list, whatever bytes follow them |
| NodeCodec.Prefix | project3.py:93 | the `>?I` prefix is 5 bytes long |
| NodeCodec.Content | project3.py:93-96 | the unpadded bytes of `save` are as long as the prefix, 8 bytes per key and 8 per child |
| NodeCodec.Encode | project3.py:93-97 | the block `save` writes is 512 bytes, or the content length when that is larger |
| NodeCodec.EncodePadding | project3.py:97 | the block starts with the content and every byte after it is zero |
| NodeCodec.Decode | project3.py:102-115 | a decoded node is well formed, fits the bytes read, and carries the flag and key count of the prefix |
| NodeCodec.DecodeFields | project3.py:107-115 | `load` reads keys, values and (for an internal node) count + 1 children from their places after the prefix |
| NodeCodec.EncodeFields | project3.py:93-97 | a saved block is prefix, keys, values, children and padding, in that order |
| NodeCodec.EncodePrefix | project3.py:93 | the prefix of a saved block gives back the leaf flag and the key count |
| NodeCodec.EncodeKeys | project3.py:94 | the keys of a saved block read back as the node's keys |
| NodeCodec.EncodeValues | project3.py:95 | the values of a saved block read back as the node's values |
| NodeCodec.EncodeChildren | project3.py:96 | the child offsets of a saved internal node read back as its children |
| NodeCodec.DecodeEncode | project3.py:91-115 | round trip: `load` of the block `save` wrote gives back every field of a well-formed node |
| NodeCodec.EncodeInjective | project3.py:91-100 | two well-formed nodes saved to the same bytes are the same node |
| IndexHeader.NewIndexImage | project3.py:23-26 | a new index file is exactly one block long |
| IndexHeader.RootField | project3.py:39 | the root offset can be read exactly when the file holds a full 16-byte header |
| IndexHeader.HasMagic | project3.py:35-37 | the magic test passes exactly when the file is at least 8 bytes long and starts with `BTREEIDX` |
| IndexHeader.SetRootField | project3.py:65-69 | the rewritten file is as long as before, or 16 bytes when it was shorter, and its root offset reads back as off |
| IndexHeader.NewIndexIsEmpty | project3.py:23-26 | a new index file carries the magic, root offset 0, and zeros up to the end of the block |
| IndexHeader.SetRootFieldEffect | project3.py:65-69 | updating the root offset makes it read back, keeps the magic and the length, and keeps every node block |
| IndexHeader.HeaderPreserved | project3.py:84-100 | appends and node writes, which never touch block 0, keep the magic and the root offset |
| IndexHeader.OpenIndex | project3.py:29-42 | opening fails with no such file exactly when the name is absent and with not an index exactly when the magic differs; a successful open reports the header's root offset, and no root exactly when that offset is 0 |
| IndexHeader.OpenNeedsPreviousSession | project3.py:39-40 | as written, opening a non-empty index with no file open before crashes, although the file is intact |
| IndexHeader.OpenReadsPreviousFile | project3.py:39-41 | as written, with another file open, the root node is read from that other file |
| IndexHeader.OpenNewIndex | project3.py:23-40 | a freshly created file opens to an empty tree, whatever was open before |
| BlockFile.WriteBlockFrame | project3.py:98-100 | writing one whole block leaves every other block as it was |
| BlockFile.WriteNode | project3.py:91-100 | `save` of a node of at most 7 keys keeps the file length, makes the block load as that node, and changes no other block |
| BlockFile.WriteNodeElsewhere | project3.py:98-100 | saving one node leaves the node in any other block loadable as before |
| BlockFile.PreservedNode | project3.py:102-115 | a block that no write touched still loads as the node it held |
| BlockFile.AppendBlock | project3.py:84-89 | the appended zero block is a new node block at the old file length, and every existing block stays as it was |
| BlockFile.NodeAt | project3.py:102-115 | `load` at an offset past the end of the file fails; a node it does load is well formed and fits in one block |
| NodeOps.InsertAt | project3.py:157-159 | `list.insert(p, x)` puts x at p, keeps what was before p and moves the rest one place right |
| NodeOps.InsertAtMultiset | project3.py:157-159 | `list.insert` adds exactly the one element |
| NodeOps.UpperPos | project3.py:123-136 | where the backward scans stop: every key from there on is greater than key, and the key just before is not |
| NodeOps.UpperPosUnique | project3.py:134-136 | the scan position is the only position with those two properties |
| NodeOps.UpperPosSorted | project3.py:123-127 | on sorted keys, key is present exactly when the key just before the scan position equals it, so the leaf duplicate test misses no duplicate |
| NodeOps.InsertSorted | project3.py:130-131 | putting an absent key at its scan position keeps the keys sorted |
| NodeOps.LeafInsert | project3.py:130-131 | the leaf with the new entry is a well-formed leaf with one more key |
| NodeOps.LeafInsertCorrect | project3.py:119-132 | the leaf insertion keeps sorted keys sorted and adds exactly the new (key, value) pair, each value staying with its key |
| NodeOps.Shifted | project3.py:121-126 | the lists after the shifting loop are one longer than before |
| NodeOps.ShiftedEnd | project3.py:121-122 | before the loop, the appended 0 is the open slot at the end |
| NodeOps.ShiftedStep | project3.py:123-126 | one iteration copies slot i to slot i + 1 and so opens slot i |
| NodeOps.ShiftedFill | project3.py:130-131 | filling the open slot gives the list with the new element inserted |
| NodeOps.ShiftedRemove | project3.py:121-126 | removing the open slot gives the old list back |
| NodeOps.ShiftedLeaf | project3.py:119-131 | on a sorted leaf, the duplicate test after the loop fires exactly when key is present, and otherwise filling the slot gives the leaf insertion |
| NodeOps.DuplicateLeavesShiftedKeys | project3.py:121-129 | as written, a duplicate 3 in a leaf 1, 3, 5 leaves the lists 1, 3, 5, 5 in memory |
| NodeOps.SplitLeft | project3.py:153-156 | the split child keeps 3 keys, and stays a well-formed node of its kind |
| NodeOps.SplitRight | project3.py:149-152 | the new node gets the other 3 keys, and is a well-formed node of the child's kind |
| NodeOps.SplitParent | project3.py:157-159 | the parent gains one key; the new node's offset sits at index + 1 and the other children keep their order |
| NodeOps.SplitLeftBag | project3.py:153-154 | the split child keeps the pairs before the median |
| NodeOps.SplitRightBag | project3.py:149-150 | the new node gets the pairs after the median |
| NodeOps.SplitParentBag | project3.py:157-158 | the parent gains exactly the median pair |
| NodeOps.SplitBags | project3.py:145-162 | a split loses and duplicates no pair: parent and both halves together hold the pairs of the parent and the child |
| NodeOps.SplitHalvesSorted | project3.py:149-156 | both halves of a sorted full node are sorted and lie on either side of the median |
| NodeOps.SplitParentSorted | project3.py:157 | the parent stays sorted when the median lies between the keys around the split child |
| NodeOps.SplitMedianAsWritten | project3.py:153-158 | the median as written is read from the already shortened child |
| NodeOps.SplitAsWrittenAlwaysFails | project3.py:153-158 | as written, every split raises IndexError when it reads the median |
| DiskTree.StoredInFile | project3.py:84-89 | every block of a stored tree is a node block of the file |
| DiskTree.StoredFrame | project3.py:91-100 | a stored tree stays stored when only blocks outside it are written |
| DiskTree.StoredUnique | project3.py:102-115 | two trees stored with their root in the same block are the same tree of the same height: the file alone determines the tree |
| DiskTree.KeysBounded | project3.py:134-143 | every key of an ordered tree lies strictly between its bounds |
| DiskTree.LeafKeys | project3.py:127 | the keys of a leaf subtree are the keys of its node |
| DiskTree.KeysOfInternal | project3.py:134-143 | a key strictly between the node's keys p - 1 and p is in the tree exactly when it is in subtree p, the one the descent enters |
| DiskTree.OtherKidLacksKey | project3.py:134-136 | such a key is in no other subtree |
| DiskTree.WithKidEntries | project3.py:142-143 | replacing one subtree swaps its entries for the new subtree's |
| DiskTree.WithKidFilled | project3.py:142-143 | putting back a subtree whose root holds at least 3 keys and whose nodes below do too keeps every non-root node at least 3 keys full |
| DiskTree.SplitTree | project3.py:145-162 | splitting child i adds one subtree |
| DiskTree.SplitKidsAt | project3.py:157-159 | after the split, subtree i is the lower half, i + 1 the new node, the others unchanged and in order |
| DiskTree.HalvesFootprint | project3.py:147-156 | the two halves use exactly the child's blocks plus the new block |
| DiskTree.HalvesApart | project3.py:147 | the two halves share no block |
| DiskTree.SplitBounds | project3.py:157-159 | the key bounds of each subtree after a split, from those before it and the median |
| DiskTree.SplitTreeEntries | project3.py:145-162 | a split keeps the entries of the tree |
| DiskTree.SplitTreeOrdered | project3.py:145-162 | a split keeps search-tree order |
| DiskTree.SplitTreeShape | project3.py:145-162 | a split keeps the B-tree shape and height |
| DiskTree.SplitTreeFootprint | project3.py:147 | a split uses only the tree's blocks and the new block |
| DiskTree.SplitTreeStored | project3.py:160-162 | once the three saved blocks load as the split nodes and nothing else changed, the split tree is stored |
| DiskTree.SplitTreeDisjoint | project3.py:147-159 | after a split no block holds two nodes |
| DiskTree.SplitTreeFilled | project3.py:149-156 | a split keeps every node below the root at least 3 keys full: each half of the full child gets 3 keys and keeps subtrees of the child |
| TreeInsert.LeafDuplicate | project3.py:123-129 | in a leaf subtree, key is stored exactly when the duplicate test fires |
| TreeInsert.LeafAfter | project3.py:130-132 | the leaf after the insertion sits in the same block and holds the old pairs plus the new one |
| TreeInsert.LeafStep | project3.py:119-132 | saving the leaf with the new key keeps the subtree well kept in its own block, adds exactly the new pair, and rewrites only that block |
| TreeInsert.LeafStored | project3.py:130-132 | the saved leaf is stored in its own block and nothing else changed |
| TreeInsert.LeafOrdered | project3.py:130-131 | the new leaf stays within its key bounds and sorted |
| TreeInsert.LeafAdded | project3.py:130-131 | the new leaf holds the old entries plus the new pair |
| TreeInsert.SplitWrites | project3.py:145-162 | the split appends one block; afterwards the child's block loads as the lower half, the new block as the upper half, the parent's block as the grown parent, and no other block changed |
| TreeInsert.SplitWrite | project3.py:147-162 | the file after the append and the three saves of a split is at least one block longer than before |
| TreeInsert.SplitLayout | project3.py:147-162 | the append followed by the saves of the shortened child, the new node and the parent, in that order, gives a file at least one block longer |
| TreeInsert.SplitImage | project3.py:147-162 | the file after a split of child i of a stored tree is at least one block longer |
| TreeInsert.SplitImageAligned | project3.py:147 | the file after a split is still made of whole blocks |
| TreeInsert.SplitWritesLoad | project3.py:160-162 | the three saved blocks load as the three split nodes |
| TreeInsert.SplitWritesFrame | project3.py:160-162 | the split rewrites only the parent's and the child's blocks |
| TreeInsert.ThreeWritesFrame | project3.py:147-162 | an append followed by writes to the new block and two old blocks leaves every other block as it was |
| TreeInsert.SplitStep | project3.py:145-162 | splitting a full child keeps the subtree well kept at the same height, with the same entries, touching only the two split blocks and the appended one |
| TreeInsert.DescendStep | project3.py:142-143 | after the recursive insert into subtree p, putting the new subtree in place keeps the tree well kept, adds the pair exactly when the subtree did, and stays within the tree's blocks and appended ones |
| TreeInsert.DescendGood | project3.py:143 | the tree with the new subtree in place is well kept |
| TreeInsert.DescendAdded | project3.py:133-143 | the tree gains the new pair exactly when subtree p did, and key was in the tree exactly when it was in subtree p |
| TreeInsert.DescendEntries | project3.py:143 | what subtree p gained, the whole tree gained |
| TreeInsert.DescendConfined | project3.py:137-143 | the descent rewrote only blocks of the tree and appended new ones |
| TreeInsert.InternalDuplicateAsWritten | project3.py:134-141 | as written, a key equal to an internal node's key j is sent into subtree j + 1 or j, and neither holds it, so it is never found |
| TreeInsert.KidAt | project3.py:137 | the child loaded at position p is the stored subtree p, well kept one level lower within the node's key bounds |
| TreeInsert.SplitRoute | project3.py:139-141 | after the child split, a key equal to the median is in the tree, and any other key lies in the gap of the child chosen by the comparison with the median, which has room for a key |
| TreeInsert.GrownFacts | project3.py:57-58 | the new root above a well-kept tree makes a tree one level higher with the same entries |
| TreeInsert.Grown | project3.py:57-58 | the new root at the appended offset is an internal node, and the tree under it holds the same entries as the old tree |
| TreeInsert.GrownSplitReady | project3.py:57-58 | the new root appended above the full root can be split: every precondition of the child split holds |
| TreeInsert.GrownSplitStep | project3.py:57-59 | splitting the full root under the new root gives a well-kept tree one level higher with the same entries, touching only the old root's blocks and appended ones |
| IndexFile.NewIndexWellKept | project3.py:23-26 | a freshly created file is a well-kept empty index |
| IndexFile.ReopenFindsTree | project3.py:34-41 | opening a well-kept index, reading its own file, loads exactly the root node of the tree it holds, or no root for the empty tree |
| IndexFile.IndexBlocks | project3.py:84-89 | a well-kept index carries the magic, is made of whole blocks, and its root node holds at most 7 keys |
| IndexFile.IndexUnique | project3.py:29-42 | a file is a well-kept index of one tree only: any two readings of it agree on the tree and, for a non-empty tree, on the height |
| IndexFile.IndexOnly | project3.py:29-42 | every tree a well-kept file is an index of is the tree it holds |
| IndexFile.RootFieldNames | project3.py:39-40 | in a well-kept index the root offset is 0 exactly when the tree is empty, and otherwise names the root block |
| IndexFile.HeaderOutside | project3.py:84-88 | no node of the tree sits in the header block |
| IndexFile.StoredAfterAppend | project3.py:84-89 | appending a block keeps the tree stored |
| IndexFile.StoredAfterRootField | project3.py:65-69 | updating the root offset keeps the tree stored and the file length |
| IndexFile.HeaderKept | project3.py:91-100 | writes confined to the tree's blocks keep the header |
| IndexFile.IndexKept | project3.py:62 | an insertion step that kept the root block keeps the file a well-kept index of the new tree |
| IndexFile.IndexAfterRootField | project3.py:60-61 | once the header names the root of a tree the file holds, the file is a well-kept index of it |
| IndexFile.FirstLeaf | project3.py:49-54 | the first insert into an empty index leaves a well-kept index whose tree is one leaf holding just the new pair |
| IndexFile.GrowReady | project3.py:56-58 | above a full root, the new root with the old root as only child can be split |
| IndexFile.GrownSplit | project3.py:56-59 | after the root split, before the header is updated, the file holds a well-kept tree one level higher with the same entries |
| IndexFile.RootSplitKept | project3.py:56-61 | once the header names the new root block off, the file img2 after the root split is two blocks longer and a well-kept index of the tree one level higher, with one key at the root and the same entries |
| BTree.BTreeNode.AllocateOffset | project3.py:84-89 | `allocate_offset` returns the old file length and grows the file by one zero block, leaving every block as it was |
| BTree.BTreeNode.Allocate | project3.py:74-89 | a new node is empty, of the requested kind, in a zero block appended at the end of the file |
| BTree.BTreeNode.Load | project3.py:102-115 | a loaded node holds what its block decodes to |
| BTree.BTreeNode.Save | project3.py:91-100 | `save` writes the encoded node at the node's offset of the open file |
| BTree.BTreeNode.ShiftIn | project3.py:119-126 | the shifting loop stops at the scan position and leaves the lists with that slot open |
| BTree.BTreeNode.ScanPos | project3.py:134-136 | the scan returns the index of the first key greater than key |
| BTree.BTreeNode.InsertIntoLeaf | project3.py:120-132 | the leaf branch reports a duplicate exactly when key is in the leaf; a duplicate leaves node and files unchanged, otherwise the node becomes the leaf insertion and is saved |
| BTree.BTreeNode.ChildFor | project3.py:133-142 | the way down finds the key on the path, or reaches the child whose gap holds key with room for a key, keeping the entries and a well-kept tree |
| BTree.BTreeNode.DescendAt | project3.py:137-142 | loading child i and splitting it when full keeps the entries and a well-kept tree, and leaves a child with room whose gap holds key |
| BTree.BTreeNode.SplitForDescent | project3.py:138-141 | after splitting the full child, the descent goes into the half key belongs to, which has room; a key equal to the median is found |
| BTree.BTreeNode.InsertBelow | project3.py:142-143 | the recursive insert into child p leaves a well-kept tree in the same root block that gains the pair exactly when key was absent |
| BTree.BTreeNode.InsertIntoInternal | project3.py:133-143 | the internal branch keeps the tree well kept and adds the pair exactly when key is absent, growing the file by at most one block per level |
| BTree.BTreeNode.InsertNonFull | project3.py:117-143 | `insert_non_full` on a node with room reports a duplicate exactly when key is in the subtree, keeps it well kept in the same root block, adds the pair otherwise, and rewrites only its blocks |
| BTree.BTreeNode.TakeUpperHalf | project3.py:149-152 | the new node takes the entries, and for an internal node the children, after the median |
| BTree.BTreeNode.KeepLowerHalf | project3.py:153-156 | the child keeps the entries, and for an internal node the children, up to the median |
| BTree.BTreeNode.InsertMedian | project3.py:157-159 | the parent takes the median pair at index and the new offset at index + 1 |
| BTree.BTreeNode.SaveSplit | project3.py:160-162 | the split child, the new node and the parent are saved in that order |
| BTree.BTreeNode.SplitChild | project3.py:145-162 | the split appends one block, writes the three nodes, and leaves parent and child as the split defines them, with the median read before the child is cut |
| BTree.IndexManager.constructor | project3.py:12-14 | a new manager has no index open and no root |
| BTree.IndexManager.Create | project3.py:16-27 | the file is written as a new index exactly when it was absent or overwriting was chosen; otherwise the files are unchanged |
| BTree.IndexManager.Open | project3.py:29-42 | opening gives the outcome of reading the named file; on success the file is open and root is its root node, null for an empty tree, and the contents are the entries of the tree the file holds, so reopening a file finds what was inserted; a well-kept file opens with the invariant; on failure nothing changes |
| BTree.IndexManager.UpdateRootOffset | project3.py:65-69 | the root offset reads back as off; the magic, the length and every node block stay |
| BTree.IndexManager.Insert | project3.py:44-63 | with no index open nothing changes; otherwise the index stays well kept, every node below the root keeping at least 3 keys, a duplicate is reported exactly when key is in the tree, the entries gain the pair exactly when it is inserted, and the tree grows one level exactly when the root was full |
| BTree.IndexManager.InsertFirst | project3.py:49-54 | the first entry goes into a new leaf root of height 0 holding just that pair |
| BTree.IndexManager.InsertIntoTree | project3.py:55-62 | a non-empty index gains the pair exactly when key is absent, and grows one level exactly when the root was full |
| BTree.IndexManager.SplitIfFull | project3.py:56-61 | the root is split exactly when full, keeping the entries; afterwards it has room for a key |
| BTree.IndexManager.SplitRoot | project3.py:56-61 | a full root is replaced by a new root with one key, the tree one level higher with the same entries, and the file two blocks longer |
| BTree.IndexManager.GrowRoot | project3.py:56-59 | the new root with the split old root below it holds the same entries one level higher, and becomes a well-kept index once the header names it |
| BTree.IndexManager.InsertIntoRoot | project3.py:62 | `insert_non_full` on the root keeps the index well kept and gains the pair exactly when key is absent |
| BTree.SessionContents | project3.py:29-63 | the contents a manager with its invariant keeps are the entries of the one tree its open file holds, so a later open of that file finds them |

## Left out

- The command loop of `main`, every prompt and every printed message (project3.py:164-206). The answer to the overwrite prompt of `create_index_file` is the parameter `overwrite` of `Create`.
- `os.path.exists` and Python file objects are not modelled. The files are a map from names to byte images, and each open, seek, read, write and append is a function on one image.
- Crash atomicity of partial writes is not modelled. Writes happen whole and in program order.
- `struct.error` for keys or values outside [0, 2^32) and offsets outside [0, 2^64) is not modelled. These ranges are the types `u32` and `u64`. A file may grow up to 2^64 bytes (`FILE_LIMIT`), so every offset fits its 8-byte field.
- BTree.IndexManager.Insert: stated only for a manager whose open index is well kept (`Valid`), and only when the file has room for the blocks the insertion may append (`Room(height + 3)` below 2^64 bytes). The source has no such limit. An index damaged by other means is not covered.
- BTree.IndexManager.Open: establishes the manager's invariant only for a well-kept file. Any other file still opens exactly as `OpenIndex` says.
- BTree.IndexManager.Create: rewriting the file that is currently open leaves the cached root stale, as in the source. The invariant is promised only when another file, or none, is open.
- BTree.BTreeNode.Load: requires the block to decode. Where `load` would raise, `Open` reports `Crashed` before any node is built, and `insert_non_full` only loads blocks of a well-kept tree.
- project3.py has no search, traversal, deletion, parent pointers, block numbers or free-block counter; offsets are byte offsets and allocation follows the file length.

## Findings

| source | as written | input that shows it | evidently intended | confidence | as-written member | corrected member |
|---|---|---|---|---|---|---|
| project3.py:153-158 | the child's keys and values are cut to `mid` entries before `child.keys[mid]` and `child.values[mid]` are read | any split, e.g. the 8th insert into a new index: the root holds 7 keys and `split_child(0, root)` raises IndexError after two blocks were appended, the new root (line 57) and the new child (line 147) | the median is taken from the full child before it is cut | not executed | NodeOps.SplitAsWrittenAlwaysFails | BTree.BTreeNode.SplitChild |
| project3.py:121-129 | the leaf branch appends placeholders and shifts the lists in the node object before testing for a duplicate, and returns without undoing it | a leaf root holding 1, 3, 5: inserting 3 leaves the cached root with keys 1, 3, 5, 5; a following insert of 4 saves 1, 3, 4, 5, 5 | a duplicate leaves the node as it was | not executed | NodeOps.DuplicateLeavesShiftedKeys | BTree.BTreeNode.InsertIntoLeaf |
| project3.py:39-41 | the root node is loaded before `self.index_file` names the new file, so `load` reads the previously open file | `open idx` on a non-empty index as the first command: `open(None)` raises; with another index open, the root comes from that file | the root is read from the file being opened | not executed | IndexHeader.OpenNeedsPreviousSession | BTree.IndexManager.Open |
| project3.py:127, 134-141 | only leaves test for a duplicate; a key equal to an internal node's key is sent into a subtree that cannot hold it | with splits fixed, insert 1 to 8 (root 4, leaves 1-3 and 5-8), then insert 4: it lands in the leaf 5-8 and the tree holds key 4 twice | a key already in the tree is rejected wherever it sits | not executed | TreeInsert.InternalDuplicateAsWritten | BTree.BTreeNode.InsertNonFull |
