/**
 * The two classes of the index manager. `IndexManager` holds the files, the
 * name of the open index and the cached root node; `BTreeNode` is one node
 * in memory, with the block offset it is saved at. Both update their fields
 * in place, as the program does; ghost fields carry the tree the open file
 * holds, so that each method can be stated against the file-level
 * definitions of the other modules.
 */
module BTree {
  import opened Bytes
  import opened NodeCodec
  import opened BlockFile
  import opened IndexHeader
  import opened NodeOps
  import opened DiskTree
  import opened TreeInsert
  import opened IndexFile

  /** How `insert` ends: no index open, a key already in the tree, or the entry inserted. */
  datatype InsertOutcome = NotOpen | Duplicate | Inserted

  /** A node in memory: its lists and the offset of the block it is saved at. */
  class BTreeNode {
    const manager: IndexManager
    const offset: u64
    var isLeaf: bool
    var keys: seq<u32>
    var values: seq<u32>
    var children: seq<u64>

    /** The node the fields spell out, as `save` writes it. */
    function Value(): Node
      reads this
    {
      Node(isLeaf, keys, values, children)
    }

    /** `allocate_offset`: a zero block appended to the open file; its offset is the old length of the file. */
    static method AllocateOffset(m: IndexManager) returns (off: u64)
      requires m.IsOpen() && BLOCK_SIZE <= |m.Image()| && |m.Image()| % BLOCK_SIZE == 0
      requires |m.Image()| + BLOCK_SIZE <= FILE_LIMIT
      modifies m`fs
      ensures off as int == old(|m.Image()|)
      ensures m.IsOpen() && m.Image() == old(m.Image()) + Zeros(BLOCK_SIZE)
      ensures m.fs == old(m.fs)[m.indexFile.value := m.Image()]
      ensures IsBlock(m.Image(), off) && Preserves(old(m.Image()), m.Image(), {})
    {
      off := |m.Image()| as u64;
      m.fs := m.fs[m.indexFile.value := m.Image() + Zeros(BLOCK_SIZE)];
      AppendBlock(old(m.Image()));
    }

    /** `BTreeNode(manager, is_leaf=leaf)`: an empty node in a newly appended block. */
    constructor Allocate(m: IndexManager, leaf: bool)
      requires m.IsOpen() && BLOCK_SIZE <= |m.Image()| && |m.Image()| % BLOCK_SIZE == 0
      requires |m.Image()| + BLOCK_SIZE <= FILE_LIMIT
      modifies m`fs
      ensures manager == m && offset as int == old(|m.Image()|)
      ensures Value() == Node(leaf, [], [], [])
      ensures m.IsOpen() && m.Image() == old(m.Image()) + Zeros(BLOCK_SIZE)
      ensures m.fs == old(m.fs)[m.indexFile.value := m.Image()]
    {
      var off := AllocateOffset(m);
      manager := m;
      offset := off;
      isLeaf := leaf;
      keys := [];
      values := [];
      children := [];
    }

    /** `BTreeNode(manager, offset=off)`: the node the block at off of the open file holds. */
    constructor Load(m: IndexManager, off: u64)
      requires m.IsOpen() && NodeAt(m.Image(), off).Some?
      ensures manager == m && offset == off
      ensures Value() == NodeAt(m.Image(), off).value
    {
      manager := m;
      offset := off;
      DecodedIs(ReadAt(m.Image(), off, BLOCK_SIZE), off as nat);
      var n := Decode(ReadAt(m.Image(), off, BLOCK_SIZE)).value;
      isLeaf := n.isLeaf;
      keys := n.keys;
      values := n.values;
      children := n.children;
    }

    /** `save`: the encoded node written over its block of the open file. */
    method Save()
      requires manager.IsOpen() && |keys| < 0x1_0000_0000
      modifies manager`fs
      ensures manager.IsOpen()
      ensures manager.Image() == WriteAt(old(manager.Image()), offset, Encode(Value()))
      ensures manager.fs == old(manager.fs)[manager.indexFile.value := manager.Image()]
    {
      manager.fs := manager.fs[manager.indexFile.value := WriteAt(manager.Image(), offset, Encode(Value()))];
    }

    /**
     * The first half of the leaf branch of `insert_non_full`: a 0 is appended
     * to both lists and every entry with a key greater than key moves one
     * place right. Returns the shifted lists and the position the loop stops
     * at, which is the scan position of key; the lists are the old ones with
     * that slot open.
     */
    static method ShiftIn(keys: seq<u32>, values: seq<u32>, key: u32) returns (ks: seq<u32>, vs: seq<u32>, p: nat)
      requires |values| == |keys|
      ensures p == UpperPos(keys, key)
      ensures ks == Shifted(keys, p) && vs == Shifted(values, p)
    {
      ks, vs := keys + [0], values + [0];
      var i: int := |keys| - 1;
      ShiftedEnd(keys);
      ShiftedEnd(values);
      while i >= 0 && key < ks[i]
        invariant -1 <= i < |keys|
        invariant ks == Shifted(keys, i + 1)
        invariant vs == Shifted(values, i + 1)
        invariant forall j | i < j < |keys| :: key < keys[j]
      {
        ShiftedStep(keys, i, ks);
        ShiftedStep(values, i, vs);
        ks := ks[i + 1 := ks[i]];
        vs := vs[i + 1 := vs[i]];
        i := i - 1;
      }
      p := i + 1;
      if i >= 0 {
        ShiftedStep(keys, i, ks);
      }
      UpperPosUnique(keys, key, p);
    }

    /** The scan of the internal branch of `insert_non_full`: the index of the first key greater than key. */
    static method ScanPos(keys: seq<u32>, key: u32) returns (p: nat)
      ensures p == UpperPos(keys, key)
    {
      var i: int := |keys| - 1;
      while i >= 0 && key < keys[i]
        invariant -1 <= i < |keys|
        invariant forall j | i < j < |keys| :: key < keys[j]
      {
        i := i - 1;
      }
      p := i + 1;
      UpperPosUnique(keys, key, p);
    }

    /**
     * `split_child(index, child)` on this node and its full child: a block
     * is appended for the new node, the child keeps its lower half, the new
     * node gets the upper half, the median entry moves up into this node at
     * index, and the child, the new node and this node are saved in that
     * order. The median is read from the child before it is cut down.
     * SplitStep states what this does to a well-kept tree.
     */
    method SplitChild(index: nat, child: BTreeNode)
      requires manager.IsOpen() && child.manager == manager && child != this
      requires WellFormed(Value()) && !isLeaf && index <= |keys| < MAX_KEYS && Full(child.Value())
      requires IsBlock(manager.Image(), offset) && IsBlock(manager.Image(), child.offset)
      requires |manager.Image()| % BLOCK_SIZE == 0 && |manager.Image()| + BLOCK_SIZE <= FILE_LIMIT
      modifies this, child, manager`fs
      ensures manager.IsOpen() && manager.fs == old(manager.fs)[manager.indexFile.value := manager.Image()]
      ensures manager.Image() == SplitWrite(old(manager.Image()), offset, old(Value()), index, child.offset, old(child.Value()))
      ensures Value() == SplitParent(old(Value()), index, old(child.Value()), old(|manager.Image()|) as u64)
      ensures child.Value() == SplitLeft(old(child.Value()))
    {
      ghost var fs0, name := manager.fs, manager.indexFile.value;
      ghost var img0, x, c := manager.Image(), Value(), child.Value();
      var newChild := new BTreeNode.Allocate(manager, child.isLeaf);
      ghost var img1 := manager.Image();
      newChild.TakeUpperHalf(child.keys, child.values, child.children);
      var medianKey, medianValue := child.keys[MID], child.values[MID];
      child.KeepLowerHalf();
      InsertMedian(index, medianKey, medianValue, newChild.offset);
      assert Value() == SplitParent(x, index, c, newChild.offset);
      SaveSplit(child, newChild);
      RewriteFile(fs0, name, img1, manager.Image());
      SplitWriteIs(img0, offset, x, index, child.offset, c);
      assert manager.Image() == SplitLayout(img0, offset, x, index, child.offset, c) by {
        assert img1 == img0 + Zeros(BLOCK_SIZE) && newChild.offset == |img0| as u64;
      }
    }

    /** The three writes that end a split: the cut-down child, the new node, then this parent. */
    method SaveSplit(child: BTreeNode, newChild: BTreeNode)
      requires manager.IsOpen() && child.manager == newChild.manager == manager
      requires |keys| < 0x1_0000_0000 && |child.keys| < 0x1_0000_0000 && |newChild.keys| < 0x1_0000_0000
      modifies manager`fs
      ensures manager.IsOpen() && manager.fs == old(manager.fs)[manager.indexFile.value := manager.Image()]
      ensures manager.Image() == WriteAt(WriteAt(WriteAt(old(manager.Image()), child.offset, Encode(child.Value())),
                                                 newChild.offset, Encode(newChild.Value())),
                                         offset, Encode(Value()))
    {
      ghost var fs0, name := manager.fs, manager.indexFile.value;
      child.Save();
      ghost var img2 := manager.Image();
      newChild.Save();
      ghost var img3 := manager.Image();
      RewriteFile(fs0, name, img2, img3);
      Save();
      RewriteFile(fs0, name, img3, manager.Image());
    }

    /** The new node of a split takes the entries, and for an internal node the children, after the median. */
    method TakeUpperHalf(ck: seq<u32>, cv: seq<u32>, cc: seq<u64>)
      requires Full(Node(isLeaf, ck, cv, cc)) && keys == values == [] && children == []
      modifies this`keys, this`values, this`children
      ensures Value() == SplitRight(Node(isLeaf, ck, cv, cc))
    {
      keys, values := ck[MID + 1..], cv[MID + 1..];
      if !isLeaf {
        children := cc[MID + 1..];
      }
    }

    /** The split child keeps the entries, and if internal the children, before the median. */
    method KeepLowerHalf()
      requires Full(Value())
      modifies this`keys, this`values, this`children
      ensures Value() == SplitLeft(old(Value()))
    {
      keys, values := keys[..MID], values[..MID];
      if !isLeaf {
        children := children[..MID + 1];
      }
    }

    /** The parent of a split takes the median entry at index and the new node's offset just after the split child. */
    method InsertMedian(index: nat, medianKey: u32, medianValue: u32, newOff: u64)
      requires WellFormed(Value()) && !isLeaf && index <= |keys|
      modifies this`keys, this`values, this`children
      ensures Value() == Node(false, InsertAt(old(keys), index, medianKey), InsertAt(old(values), index, medianValue),
                              InsertAt(old(children), index + 1, newOff))
    {
      keys := InsertAt(keys, index, medianKey);
      values := InsertAt(values, index, medianValue);
      children := InsertAt(children, index + 1, newOff);
    }

    /**
     * `insert_non_full(key, value)` on the root node of the tree t of height
     * h whose keys lie strictly between lo and hi, with room for one more
     * key. Returns whether key was already there; the file then holds the
     * tree t', which has the same root block and holds t's entries plus the
     * new one unless key was a duplicate. Only blocks of t were rewritten, and
     * at most h blocks were appended (one per split on the way down).
     */
    method InsertNonFull(key: u32, value: u32, ghost t: Tree, ghost h: nat, ghost lo: int, ghost hi: int)
      returns (dup: bool, ghost t': Tree)
      requires manager.IsOpen()
      requires |manager.Image()| % BLOCK_SIZE == 0 && |manager.Image()| + Room(h) <= FILE_LIMIT
      requires Good(manager.Image(), t, h, lo, hi) && lo < key < hi
      requires t.off == offset as int && t.node == Value() && |keys| < MAX_KEYS
      modifies this, manager`fs
      decreases h, 2
      ensures manager.IsOpen() && manager.fs == old(manager.fs)[manager.indexFile.value := manager.Image()]
      ensures Became(old(manager.Image()), manager.Image(), t, t', h, lo, hi) && Value() == t'.node
      ensures Added(t, t', key, value, dup)
      ensures GrewBy(old(manager.Image()), manager.Image(), h)
    {
      if isLeaf {
        ghost var img0 := manager.Image();
        LeafDuplicate(t, lo, hi, key);
        LeafKeys(t, key);
        dup := InsertIntoLeaf(key, value);
        if dup {
          t' := t;
          BecameItself(img0, t, h, lo, hi);
        } else {
          LeafStep(img0, t, lo, hi, key, value);
          t' := LeafAfter(t, key, value);
        }
      } else {
        dup, t' := InsertIntoInternal(key, value, t, h, lo, hi);
      }
    }

    /**
     * The leaf branch of `insert_non_full`: the entries above key are
     * shifted right and, unless key is already there, the new entry fills
     * the open slot and the node is saved. A duplicate leaves the node and
     * the file as they were.
     */
    method InsertIntoLeaf(key: u32, value: u32) returns (dup: bool)
      requires manager.IsOpen() && WellFormed(Value()) && isLeaf && Sorted(keys) && |keys| < MAX_KEYS
      modifies this`keys, this`values, manager`fs
      ensures dup <==> key in old(keys)
      ensures dup ==> manager.fs == old(manager.fs) && Value() == old(Value())
      ensures !dup ==> Value() == LeafInsert(old(Value()), key, value)
      ensures !dup ==> manager.IsOpen() && manager.Image() == WriteAt(old(manager.Image()), offset, Encode(Value()))
      ensures !dup ==> manager.fs == old(manager.fs)[manager.indexFile.value := manager.Image()]
    {
      var ks, vs, p := ShiftIn(keys, values, key);
      ShiftedLeaf(Value(), key, value);
      if p > 0 && ks[p - 1] == key {
        return true;
      }
      keys, values := ks[p := key], vs[p := value];
      Save();
      return false;
    }

    /**
     * The internal branch of `insert_non_full`: the child to descend into is
     * found (splitting it first when full), and the insertion continues in
     * it; a key met on the way down is a duplicate.
     */
    method InsertIntoInternal(key: u32, value: u32, ghost t: Tree, ghost h: nat, ghost lo: int, ghost hi: int)
      returns (dup: bool, ghost t': Tree)
      requires manager.IsOpen() && !isLeaf
      requires |manager.Image()| % BLOCK_SIZE == 0 && |manager.Image()| + Room(h) <= FILE_LIMIT
      requires Good(manager.Image(), t, h, lo, hi) && lo < key < hi
      requires t.off == offset as int && t.node == Value() && |keys| < MAX_KEYS
      modifies this, manager`fs
      decreases h, 1
      ensures manager.IsOpen() && manager.fs == old(manager.fs)[manager.indexFile.value := manager.Image()]
      ensures Became(old(manager.Image()), manager.Image(), t, t', h, lo, hi) && Value() == t'.node
      ensures Added(t, t', key, value, dup)
      ensures GrewBy(old(manager.Image()), manager.Image(), h)
    {
      ghost var fs0, name := manager.fs, manager.indexFile.value;
      ghost var img0 := manager.Image();
      assert 0 < h by {
        assert Shape(t, h);
      }
      var found, p, child, t1 := ChildFor(key, t, h, lo, hi);
      ghost var img1 := manager.Image();
      GrewInSteps(img0, img1, img1, h);
      if found {
        GrewWithin(img0, img1, h);
        return true, t1;
      }
      dup, t' := InsertBelow(key, value, p, child, img0, t, t1, h - 1, lo, hi);
      GrewInSteps(img0, img1, manager.Image(), h);
      RewriteFile(fs0, name, img1, manager.Image());
    }

    /**
     * Line 143 of `insert_non_full`: the insertion goes on in child p of t1,
     * and the new subtree takes its place. t1, of height hk + 1, is what the
     * way down made of t, starting from the file img0.
     */
    method InsertBelow(key: u32, value: u32, p: nat, child: BTreeNode, ghost img0: seq<byte>,
                       ghost t: Tree, ghost t1: Tree, ghost hk: nat, ghost lo: int, ghost hi: int)
      returns (dup: bool, ghost t': Tree)
      requires manager.IsOpen() && child.manager == manager
      requires |manager.Image()| % BLOCK_SIZE == 0 && |manager.Image()| + Room(hk) <= FILE_LIMIT
      requires Became(img0, manager.Image(), t, t1, hk + 1, lo, hi) && Entries(t1) == Entries(t) && lo < key < hi
      requires p < |t1.kids| && InGap(t1.node.keys, p, key)
      requires child.offset as int == t1.kids[p].off && child.Value() == t1.kids[p].node && |child.keys| < MAX_KEYS
      modifies child, manager`fs
      decreases hk + 1, 0
      ensures manager.IsOpen() && manager.fs == old(manager.fs)[manager.indexFile.value := manager.Image()]
      ensures Became(img0, manager.Image(), t, t', hk + 1, lo, hi) && t'.node == t1.node
      ensures Added(t, t', key, value, dup)
      ensures GrewBy(old(manager.Image()), manager.Image(), hk)
    {
      ghost var img1 := manager.Image();
      ghost var ks := t1.node.keys;
      KidAt(img1, t1, hk + 1, lo, hi, p);
      ghost var x: Tree;
      dup, x := child.InsertNonFull(key, value, t1.kids[p], hk, KidLo(ks, p, lo), KidHi(ks, p, hi));
      t' := WithKid(t1, p, x);
      DescendStep(img0, img1, manager.Image(), t, t1, p, x, hk, lo, hi, key, value, dup);
    }

    /**
     * The way down in `insert_non_full`: the scan for the child to descend
     * into (a key found among the node's keys is a duplicate), the child
     * loaded from its block and, when full, split first. The file then holds
     * t1, a well-kept tree with the same entries as t; unless key was found,
     * child p of t1 is not full, key lies in gap p of its keys, and the
     * returned node is that child as loaded from its block.
     */
    method ChildFor(key: u32, ghost t: Tree, ghost h: nat, ghost lo: int, ghost hi: int)
      returns (found: bool, p: nat, child: BTreeNode, ghost t1: Tree)
      requires manager.IsOpen() && !isLeaf
      requires |manager.Image()| % BLOCK_SIZE == 0 && |manager.Image()| + BLOCK_SIZE <= FILE_LIMIT
      requires Good(manager.Image(), t, h, lo, hi)
      requires t.off == offset as int && t.node == Value() && |keys| < MAX_KEYS
      modifies this, manager`fs
      ensures manager.IsOpen() && manager.fs == old(manager.fs)[manager.indexFile.value := manager.Image()]
      ensures Became(old(manager.Image()), manager.Image(), t, t1, h, lo, hi) && Value() == t1.node
      ensures Entries(t1) == Entries(t) && GrewBy(old(manager.Image()), manager.Image(), 1)
      ensures found ==> key in Keys(t)
      ensures !found ==> && p < |t1.kids| && InGap(t1.node.keys, p, key)
                         && fresh(child) && child.manager == manager && child.offset as int == t1.kids[p].off
                         && child.Value() == t1.kids[p].node && |child.keys| < MAX_KEYS
    {
      var i := ScanPos(keys, key);
      if i > 0 && keys[i - 1] == key {
        NodeKeysInKeys(t, i - 1);
        BecameItself(manager.Image(), t, h, lo, hi);
        return true, i, this, t;
      }
      found, p, child, t1 := DescendAt(key, i, t, h, lo, hi);
    }

    /**
     * Lines 137-142 of `insert_non_full`: load the child at position i; if it
     * is full, split it first and step past the median when the key is
     * larger; then load the child again.
     */
    method DescendAt(key: u32, i: nat, ghost t: Tree, ghost h: nat, ghost lo: int, ghost hi: int)
      returns (found: bool, p: nat, child: BTreeNode, ghost t1: Tree)
      requires manager.IsOpen() && !isLeaf
      requires |manager.Image()| % BLOCK_SIZE == 0 && |manager.Image()| + BLOCK_SIZE <= FILE_LIMIT
      requires Good(manager.Image(), t, h, lo, hi)
      requires t.off == offset as int && t.node == Value() && |keys| < MAX_KEYS && InGap(keys, i, key)
      modifies this, manager`fs
      ensures manager.IsOpen() && manager.fs == old(manager.fs)[manager.indexFile.value := manager.Image()]
      ensures Became(old(manager.Image()), manager.Image(), t, t1, h, lo, hi) && Value() == t1.node
      ensures Entries(t1) == Entries(t) && GrewBy(old(manager.Image()), manager.Image(), 1)
      ensures found ==> key in Keys(t)
      ensures !found ==> && p < |t1.kids| && InGap(t1.node.keys, p, key)
                         && fresh(child) && child.manager == manager && child.offset as int == t1.kids[p].off
                         && child.Value() == t1.kids[p].node && |child.keys| < MAX_KEYS
    {
      ghost var img0 := manager.Image();
      KidAt(img0, t, h, lo, hi, i);
      var first := new BTreeNode.Load(manager, children[i]);
      if |first.keys| == MAX_KEYS {
        found, p, t1 := SplitForDescent(key, i, first, t, h, lo, hi);
        if found {
          child := this;
          return;
        }
        KidAt(manager.Image(), t1, h, lo, hi, p);
      } else {
        found, p, t1 := false, i, t;
        BecameItself(img0, t, h, lo, hi);
      }
      child := new BTreeNode.Load(manager, children[p]);
    }

    /**
     * Lines 138-141 of `insert_non_full`: the full child at position p is
     * split, and the descent goes on into the half the key belongs to. A key
     * equal to the median that moved up is found here.
     */
    method SplitForDescent(key: u32, p: nat, child: BTreeNode, ghost t: Tree, ghost h: nat, ghost lo: int, ghost hi: int)
      returns (found: bool, q: nat, ghost t1: Tree)
      requires manager.IsOpen() && child.manager == manager && child != this
      requires |manager.Image()| % BLOCK_SIZE == 0 && |manager.Image()| + BLOCK_SIZE <= FILE_LIMIT
      requires 0 < h && Good(manager.Image(), t, h, lo, hi)
      requires t.off == offset as int && t.node == Value() && |keys| < MAX_KEYS && InGap(keys, p, key)
      requires child.offset == children[p] && child.Value() == t.kids[p].node && Full(child.Value())
      modifies this, child, manager`fs
      ensures manager.IsOpen() && manager.fs == old(manager.fs)[manager.indexFile.value := manager.Image()]
      ensures Became(old(manager.Image()), manager.Image(), t, t1, h, lo, hi) && Value() == t1.node
      ensures Entries(t1) == Entries(t) && GrewBy(old(manager.Image()), manager.Image(), 1)
      ensures found ==> key in Keys(t)
      ensures !found ==> InGap(t1.node.keys, q, key) && |t1.kids[q].node.keys| < MAX_KEYS
    {
      ghost var img0 := manager.Image();
      KidAt(img0, t, h, lo, hi, p);
      var median := child.keys[MID];
      found, q := key == median, if key > median then p + 1 else p;
      t1 := SplitTree(t, p, |img0| as u64);
      SplitRoute(t, p, |img0| as u64, key, q);
      SplitChild(p, child);
      SplitStep(img0, t, p, h, lo, hi);
      SplitImageAligned(img0, t, p);
    }
  }

  /** The index manager: the files, the open index and its cached root node. */
  class IndexManager {
    var fs: FileSystem
    var indexFile: Option<string>
    var root: BTreeNode?
    /** The tree the open file holds (meaningful while root is not null) and its height. */
    ghost var tree: Tree
    ghost var height: nat

    /** A file is open and still present. */
    predicate IsOpen()
      reads this
    {
      indexFile.Some? && indexFile.value in fs
    }

    /** The contents of the open file. */
    function Image(): seq<byte>
      reads this
      requires IsOpen()
    {
      fs[indexFile.value]
    }

    /**
     * The manager's invariant: with no file open there is no root; with a
     * file open the file is a well-kept index of the ghost tree (empty when
     * root is null), and the cached root node is the node the tree's root
     * block holds.
     */
    ghost predicate Valid()
      reads this, root
    {
      && (indexFile.None? ==> root == null)
      && (indexFile.Some? ==> IsOpen() && IndexImage(Image(), if root == null then None else Some(tree), height))
      && (root != null ==> root.manager == this && root.offset as int == tree.off && root.Value() == tree.node)
    }

    /** The entries of the open index; none while its tree is empty or no index is open. */
    ghost function Contents(): multiset<(int, int)>
      reads this
    {
      if root == null then multiset{} else Entries(tree)
    }

    /** The keys of the open index. */
    ghost function KeySet(): set<int>
      reads this
    {
      if root == null then {} else Keys(tree)
    }

    /** `IndexManager()`: no index open and no root. fs holds the files the program can see. */
    constructor(files: FileSystem)
      ensures fs == files && indexFile == None && root == null && Valid()
    {
      fs := files;
      indexFile := None;
      root := null;
    }

    /**
     * `create_index_file(name)`: the file is written as an empty index,
     * unless it exists and the answer to the overwrite prompt (overwrite) is
     * no. Returns whether it was written. The open index, if any, stays open.
     */
    method Create(name: string, overwrite: bool) returns (created: bool)
      modifies this`fs
      ensures created <==> name !in old(fs) || overwrite
      ensures fs == if created then old(fs)[name := NewIndexImage()] else old(fs)
      ensures created ==> IndexImage(fs[name], None, 0)
      ensures old(Valid()) && (indexFile.None? || indexFile.value != name) ==> Valid()
    {
      if name in fs && !overwrite {
        return false;
      }
      fs := fs[name := NewIndexImage()];
      NewIndexWellKept();
      created := true;
    }

    /**
     * `open_index_file(name)`, with the root loaded from the file being
     * opened. On success the file becomes the open index and root is the
     * node its header points at (null for an empty tree); on failure nothing
     * changes. A well-kept index opens with the invariant established, and
     * its contents are the entries of the one tree the file holds.
     */
    method Open(name: string) returns (outcome: OpenOutcome)
      modifies this
      ensures outcome == OpenIndex(old(fs), name, Some(name)) && fs == old(fs)
      ensures outcome.Opened? ==> indexFile == Some(name) && (root == null <==> outcome.root.None?)
      ensures outcome.Opened? && root != null ==>
                fresh(root) && root.manager == this && root.offset == outcome.rootOffset && root.Value() == outcome.root.value
      ensures outcome.Opened? && WellKept(fs[name]) ==> Valid()
      ensures outcome.Opened? ==> forall r: Option<Tree>, h: nat | IndexImage(fs[name], r, h) ::
                Contents() == if r.None? then multiset{} else Entries(r.value)
      ensures !outcome.Opened? ==> unchanged(this)
    {
      if name !in fs {
        return NoSuchFile;
      }
      var img := fs[name];
      if ReadAt(img, 0, |MAGIC|) != MAGIC {
        return NotAnIndex;
      }
      var field := RootField(img);
      if field.None? {
        return Crashed;
      }
      var off := field.value;
      if off == 0 {
        root := null;
        indexFile := Some(name);
        outcome := Opened(0, None);
      } else {
        DecodedIs(ReadAt(img, off as nat, BLOCK_SIZE), off as nat);
        if Decode(ReadAt(img, off as nat, BLOCK_SIZE)).None? {
          return Crashed;
        }
        indexFile := Some(name);
        root := new BTreeNode.Load(this, off);
        outcome := Opened(off, Some(root.Value()));
      }
      if WellKept(img) {
        ghost var r: Option<Tree>, h: nat :| IndexImage(img, r, h);
        RootFieldNames(img, r, h);
        ReopenFindsTree(fs, name, r, h);
        if r.Some? {
          tree := r.value;
        }
        height := h;
        IndexOnly(img, r, h);
      }
    }

    /** `update_root_offset(off)`: the 8 bytes after the magic of the open file now hold off; nothing else in the file changes. */
    method UpdateRootOffset(off: u64)
      requires IsOpen() && HEADER_SIZE <= |Image()|
      modifies this`fs
      ensures IsOpen() && fs == old(fs)[indexFile.value := Image()]
      ensures Image() == SetRootField(old(Image()), off)
      ensures RootField(Image()) == Some(off) && |Image()| == old(|Image()|)
      ensures HasMagic(Image()) == old(HasMagic(Image())) && Preserves(old(Image()), Image(), {0})
    {
      fs := fs[indexFile.value := SetRootField(Image(), off)];
      SetRootFieldEffect(old(Image()), off);
    }

    /**
     * `insert(key, value)`. With no index open nothing happens. Otherwise
     * the entry goes into the tree of the open index: into a new leaf root
     * when the tree is empty, else through `insert_non_full` on the root,
     * after a new root has been put above a root that is full. A key already
     * in the tree is a duplicate, and then the entries stay as they were.
     * Only the open file changes, and the tree grows a level exactly when
     * its root was full.
     */
    method Insert(key: u32, value: u32) returns (outcome: InsertOutcome)
      requires Valid()
      requires IsOpen() ==> |Image()| + Room(height + 3) <= FILE_LIMIT
      modifies this, root
      ensures Valid() && indexFile == old(indexFile)
      ensures outcome == NotOpen <==> old(indexFile).None?
      ensures outcome == NotOpen ==> unchanged(this)
      ensures outcome != NotOpen ==> fs == old(fs)[indexFile.value := Image()]
      ensures outcome == Duplicate <==> key as int in old(KeySet())
      ensures Contents() == if outcome == Inserted then old(Contents()) + multiset{(key as int, value as int)} else old(Contents())
      ensures outcome != NotOpen ==>
                height == if old(root) == null then 0 else if old(|root.keys|) == MAX_KEYS then old(height) + 1 else old(height)
    {
      if indexFile.None? {
        return NotOpen;
      }
      if root == null {
        RoomAhead(height);
        InsertFirst(key, value);
        return Inserted;
      }
      var dup := InsertIntoTree(key, value);
      outcome := if dup then Duplicate else Inserted;
    }

    /**
     * Lines 56-62 of `insert`, on an index whose tree is not empty: a full
     * root is first split under a new root, then the entry goes in through
     * `insert_non_full` on the root. Returns whether key was a duplicate.
     */
    method InsertIntoTree(key: u32, value: u32) returns (dup: bool)
      requires Valid() && IsOpen() && root != null && |Image()| + Room(height + 3) <= FILE_LIMIT
      modifies this, root
      ensures Valid() && indexFile == old(indexFile) && fs == old(fs)[indexFile.value := Image()]
      ensures dup <==> key as int in old(KeySet())
      ensures Contents() == if dup then old(Contents()) else old(Contents()) + multiset{(key as int, value as int)}
      ensures height == if old(|root.keys|) == MAX_KEYS then old(height) + 1 else old(height)
    {
      ghost var fs0, name := fs, indexFile.value;
      RoomAhead(height);
      SplitIfFull();
      ghost var img1 := Image();
      dup := InsertIntoRoot(key, value);
      RewriteFile(fs0, name, img1, Image());
    }

    /** Lines 56-61 of `insert`: the root is split only when it is full, so that afterwards it has room for one more key. */
    method SplitIfFull()
      requires Valid() && IsOpen() && root != null && |Image()| + Room(height + 1) + 2 * BLOCK_SIZE <= FILE_LIMIT
      modifies this, root
      ensures Valid() && indexFile == old(indexFile) && fs == old(fs)[indexFile.value := Image()]
      ensures root != null && (root == old(root) || fresh(root))
      ensures |root.keys| < MAX_KEYS && |Image()| + Room(height) <= FILE_LIMIT
      ensures Contents() == old(Contents()) && KeySet() == old(KeySet())
      ensures height == if old(|root.keys|) == MAX_KEYS then old(height) + 1 else old(height)
    {
      IndexBlocks(Image(), Some(tree), height);
      if |root.keys| == MAX_KEYS {
        SplitRoot();
      }
    }

    /** Lines 49-54 of `insert`: the first entry of an empty index goes into a new leaf root, whose offset the header then records. */
    method InsertFirst(key: u32, value: u32)
      requires Valid() && IsOpen() && root == null && |Image()| + BLOCK_SIZE <= FILE_LIMIT
      modifies this
      ensures Valid() && indexFile == old(indexFile) && fs == old(fs)[indexFile.value := Image()]
      ensures root != null && fresh(root) && root.Value() == Node(true, [key], [value], []) && height == 0
      ensures Contents() == multiset{(key as int, value as int)}
    {
      ghost var fs0, name, img0 := fs, indexFile.value, Image();
      IndexBlocks(img0, None, height);
      var r := new BTreeNode.Allocate(this, true);
      root := r;
      root.keys := root.keys + [key];
      root.values := root.values + [value];
      ghost var img1 := Image();
      root.Save();
      ghost var img2 := Image();
      ghost var n := Node(true, [key], [value], []);
      assert img2 == WriteAt(img0 + Zeros(BLOCK_SIZE), |img0|, Encode(n));
      RewriteFile(fs0, name, img1, img2);
      UpdateRootOffset(root.offset);
      RewriteFile(fs0, name, img2, Image());
      assert Image() == SetRootField(img2, |img0| as u64);
      FirstLeaf(img0, height, key, value);
      tree := Tree(|img0|, n, []);
      height := 0;
      assert IndexImage(Image(), Some(tree), height);
    }

    /**
     * Lines 56-61 of `insert`: above a full root a new internal root is
     * allocated with the old root as its only child, the old root is split
     * under it, and the header records the new root. The index then holds a
     * tree one level higher with the same entries, whose root has one key.
     */
    method SplitRoot()
      requires Valid() && IsOpen() && root != null && |root.keys| == MAX_KEYS
      requires |Image()| + 2 * BLOCK_SIZE <= FILE_LIMIT
      modifies this, root
      ensures Valid() && indexFile == old(indexFile) && fs == old(fs)[indexFile.value := Image()]
      ensures root != null && fresh(root) && |root.keys| == 1 && |Image()| == old(|Image()|) + 2 * BLOCK_SIZE
      ensures height == old(height) + 1 && Contents() == old(Contents()) && KeySet() == old(KeySet())
    {
      ghost var fs0, name := fs, indexFile.value;
      var newRoot: BTreeNode;
      ghost var t1: Tree;
      newRoot, t1 := GrowRoot();
      ghost var img1 := Image();
      root := newRoot;
      UpdateRootOffset(root.offset);
      RewriteFile(fs0, name, img1, Image());
      tree, height := t1, height + 1;
    }

    /**
     * Lines 56-59 of `insert`: a new internal node is allocated with the full
     * root as its only child, and `split_child(0, root)` runs on it. The file
     * grew by two blocks and holds, rooted in the new block, a tree t1 one
     * level higher than the index's tree, with the same entries and one key
     * at its root: once the header names the new block, the file is a
     * well-kept index of t1.
     */
    method GrowRoot() returns (newRoot: BTreeNode, ghost t1: Tree)
      requires Valid() && IsOpen() && root != null && |root.keys| == MAX_KEYS
      requires |Image()| + 2 * BLOCK_SIZE <= FILE_LIMIT
      modifies this`fs, root
      ensures IsOpen() && fs == old(fs)[indexFile.value := Image()] && |Image()| == old(|Image()|) + 2 * BLOCK_SIZE
      ensures fresh(newRoot) && newRoot.manager == this && newRoot.offset as int == t1.off == old(|Image()|)
      ensures newRoot.Value() == t1.node && |t1.node.keys| == 1 && Entries(t1) == Entries(old(tree))
      ensures IndexImage(SetRootField(Image(), newRoot.offset), Some(t1), old(height) + 1)
    {
      ghost var fs0, name, img0 := fs, indexFile.value, Image();
      GrowReady(img0, tree, height);
      ghost var g := Grown(tree, |img0|);
      newRoot := new BTreeNode.Allocate(this, false);
      ghost var img1 := Image();
      newRoot.children := newRoot.children + [root.offset];
      assert newRoot.Value() == g.node && root.Value() == g.kids[0].node;
      newRoot.SplitChild(0, root);
      RewriteFile(fs0, name, img1, Image());
      t1 := SplitTree(g, 0, |img1| as u64);
      RootSplitKept(img0, old(tree), old(height), Image(), newRoot.offset, t1);
    }

    /**
     * Line 62 of `insert`: `insert_non_full` on a root with room for one more
     * key. Returns whether key was a duplicate; the root stays the root.
     */
    method InsertIntoRoot(key: u32, value: u32) returns (dup: bool)
      requires Valid() && IsOpen() && root != null && |root.keys| < MAX_KEYS
      requires |Image()| + Room(height) <= FILE_LIMIT
      modifies this`fs, this`tree, root
      ensures Valid() && fs == old(fs)[indexFile.value := Image()]
      ensures dup <==> key as int in old(KeySet())
      ensures Contents() == if dup then old(Contents()) else old(Contents()) + multiset{(key as int, value as int)}
    {
      ghost var img0 := Image();
      IndexImageIs(img0, Some(tree), height);
      ghost var t': Tree;
      dup, t' := root.InsertNonFull(key, value, tree, height, -1, KEY_LIMIT);
      IndexKept(img0, Image(), tree, height, t', height);
      tree := t';
    }
  }

  /**
   * What a session leaves in its file is what the next session finds: the
   * contents a manager keeps with its invariant are the entries of the one
   * tree its open file holds, and `Open` of that file gives those contents.
   */
  lemma SessionContents(m: IndexManager, r: Option<Tree>, h: nat)
    requires m.Valid() && m.IsOpen() && IndexImage(m.Image(), r, h)
    ensures m.Contents() == if r.None? then multiset{} else Entries(r.value)
  {
    IndexUnique(m.Image(), if m.root == null then None else Some(m.tree), m.height, r, h);
  }
}
