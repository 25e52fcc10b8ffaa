/**
 * A well-kept index file as a whole: the header carries the magic bytes and
 * names the root block of a well-kept tree (or 0 for an empty tree), and
 * the file is made of whole blocks. This is what `IndexManager` keeps true
 * of the file it has open, and what makes reopening the file give back the
 * tree it holds.
 */
module IndexFile {
  import opened Bytes
  import opened NodeCodec
  import opened BlockFile
  import opened IndexHeader
  import opened NodeOps
  import opened DiskTree
  import opened TreeInsert

  /**
   * img is a well-kept index whose tree is root (None for the empty tree), of
   * height h: IndexLayout(img, root, h), written as a pair of predicates that
   * expand into each other, so that a proof sees the layout only where it
   * asks for it through IndexImageIs. Indexed means IndexLayout for any fuel
   * (IndexedIs): fuel only limits how far the verifier unfolds the definition.
   */
  ghost predicate IndexImage(img: seq<byte>, root: Option<Tree>, h: nat)
  {
    Indexed(img, root, h, h)
  }

  ghost predicate Indexed(img: seq<byte>, root: Option<Tree>, h: nat, fuel: nat)
    decreases fuel, 1
  {
    IndexedStep(img, root, h, fuel)
  }

  ghost predicate IndexedStep(img: seq<byte>, root: Option<Tree>, h: nat, fuel: nat)
    decreases fuel, 0
  {
    if fuel == 0 then IndexLayout(img, root, h) else Indexed(img, root, h, fuel - 1)
  }

  lemma {:induction false} IndexedIs(img: seq<byte>, root: Option<Tree>, h: nat, fuel: nat)
    ensures Indexed(img, root, h, fuel) <==> IndexLayout(img, root, h)
    decreases fuel
  {
    if fuel > 0 {
      IndexedIs(img, root, h, fuel - 1);
    }
  }

  lemma IndexImageIs(img: seq<byte>, root: Option<Tree>, h: nat)
    ensures IndexImage(img, root, h) <==> IndexLayout(img, root, h)
  {
    IndexedIs(img, root, h, h);
  }

  /**
   * The layout of a well-kept index: the magic bytes, a root offset naming
   * the root block of a well-kept tree of height h (or 0 for the empty
   * tree), and a file of whole blocks.
   */
  ghost predicate IndexLayout(img: seq<byte>, root: Option<Tree>, h: nat)
  {
    && HasMagic(img) && BLOCK_SIZE <= |img| <= FILE_LIMIT && |img| % BLOCK_SIZE == 0
    && RootField(img).Some?
    && match root
         case None => RootField(img).value == 0
         case Some(t) => RootField(img).value == t.off && Good(img, t, h, -1, KEY_LIMIT)
  }

  /** img holds some well-kept index. */
  ghost predicate WellKept(img: seq<byte>)
  {
    exists root: Option<Tree>, h: nat :: IndexImage(img, root, h)
  }

  /** A file `create_index_file` just wrote is a well-kept, empty index. */
  lemma NewIndexWellKept()
    ensures IndexImage(NewIndexImage(), None, 0)
  {
    NewIndexIsEmpty();
    IndexImageIs(NewIndexImage(), None, 0);
  }

  /**
   * Reopening a well-kept index reading its own file (the behaviour
   * `open_index_file` is meant to have) finds the root offset in the header
   * and loads exactly the root node of the tree it holds.
   */
  lemma ReopenFindsTree(fs: FileSystem, name: string, root: Option<Tree>, h: nat)
    requires name in fs && IndexImage(fs[name], root, h)
    ensures RootField(fs[name]).Some?
    ensures OpenIndex(fs, name, Some(name)) ==
              match root
                case None => Opened(0, None)
                case Some(t) => Opened(RootField(fs[name]).value, Some(t.node))
  {
    IndexImageIs(fs[name], root, h);
  }

  /**
   * A well-kept index carries the magic bytes and is made of whole blocks,
   * at least one, and its root node holds at most MAX_KEYS keys.
   */
  lemma IndexBlocks(img: seq<byte>, root: Option<Tree>, h: nat)
    requires IndexImage(img, root, h)
    ensures HasMagic(img) && BLOCK_SIZE <= |img| <= FILE_LIMIT && |img| % BLOCK_SIZE == 0
    ensures root.Some? ==> |root.value.node.keys| <= MAX_KEYS
  {
    IndexImageIs(img, root, h);
  }

  /** The root offset of a well-kept index that is not empty is never 0, so the tree is never mistaken for an empty one. */
  lemma RootFieldNames(img: seq<byte>, root: Option<Tree>, h: nat)
    requires IndexImage(img, root, h)
    ensures RootField(img).Some? && (RootField(img).value == 0 <==> root.None?)
    ensures root.Some? ==> RootField(img).value as int == root.value.off
  {
    IndexImageIs(img, root, h);
  }

  /**
   * A file is a well-kept index of one tree only: the header and the blocks
   * determine the tree and, unless it is empty, its height. So whatever
   * reads a well-kept file back finds the entries that were written to it.
   */
  lemma IndexUnique(img: seq<byte>, r1: Option<Tree>, h1: nat, r2: Option<Tree>, h2: nat)
    requires IndexImage(img, r1, h1) && IndexImage(img, r2, h2)
    ensures r1 == r2 && (r1.Some? ==> h1 == h2)
  {
    IndexImageIs(img, r1, h1);
    IndexImageIs(img, r2, h2);
    if r1.Some? && r2.Some? {
      StoredUnique(img, r1.value, h1, r2.value, h2);
    }
  }

  /** The tree of a well-kept index is every tree the file is a well-kept index of. */
  lemma IndexOnly(img: seq<byte>, r: Option<Tree>, h: nat)
    requires IndexImage(img, r, h)
    ensures forall r': Option<Tree>, h': nat | IndexImage(img, r', h') :: r' == r
  {
    forall r': Option<Tree>, h': nat | IndexImage(img, r', h')
      ensures r' == r
    {
      IndexUnique(img, r, h, r', h');
    }
  }

  // ---------------------------------------------------------------------
  // How the operations of `insert` keep the file well kept

  /** Blocks of a stored tree are node blocks, never the header block. */
  lemma HeaderOutside(img: seq<byte>, t: Tree)
    requires Stored(img, t)
    ensures 0 !in Footprint(t)
  {
    StoredInFile(img, t);
  }

  /** Appending a block keeps a tree stored. */
  lemma StoredAfterAppend(img: seq<byte>, t: Tree)
    requires Stored(img, t) && BLOCK_SIZE <= |img| && |img| % BLOCK_SIZE == 0
    ensures Stored(img + Zeros(BLOCK_SIZE), t)
  {
    AppendBlock(img);
    StoredFrame(img, img + Zeros(BLOCK_SIZE), {}, t);
  }

  /** Rewriting the root offset keeps a tree stored. */
  lemma StoredAfterRootField(img: seq<byte>, t: Tree, off: u64)
    requires Stored(img, t)
    ensures Stored(SetRootField(img, off), t) && |SetRootField(img, off)| == |img|
  {
    StoredInFile(img, t);
    SetRootFieldEffect(img, off);
    HeaderOutside(img, t);
    StoredFrame(img, SetRootField(img, off), {0}, t);
  }

  /** Writes confined to the blocks of a stored tree keep the header. */
  lemma HeaderKept(img: seq<byte>, img': seq<byte>, t: Tree, t': Tree)
    requires Stored(img, t) && Confined(img, img', t, t') && BLOCK_SIZE <= |img|
    ensures HasMagic(img') == HasMagic(img) && RootField(img') == RootField(img)
  {
    HeaderOutside(img, t);
    HeaderPreserved(img, img', Footprint(t));
  }

  /**
   * A step of `insert` that rewrote only blocks of the tree and left the
   * new tree with the same root block keeps the file a well-kept index of
   * the new tree.
   */
  lemma IndexKept(img: seq<byte>, img': seq<byte>, t: Tree, h: nat, t': Tree, h': nat)
    requires IndexImage(img, Some(t), h)
    requires Became(img, img', t, t', h', -1, KEY_LIMIT)
    requires |img'| <= FILE_LIMIT && |img'| % BLOCK_SIZE == 0
    ensures IndexImage(img', Some(t'), h')
  {
    IndexImageIs(img, Some(t), h);
    IndexImageIs(img', Some(t'), h');
    HeaderKept(img, img', t, t');
  }

  /** Rewriting the root offset of a well-kept file, the header now names t, which the file holds. */
  lemma IndexAfterRootField(img: seq<byte>, t: Tree, h: nat)
    requires HasMagic(img) && BLOCK_SIZE <= |img| <= FILE_LIMIT && |img| % BLOCK_SIZE == 0
    requires Good(img, t, h, -1, KEY_LIMIT) && t.off < FILE_LIMIT
    ensures IndexImage(SetRootField(img, t.off as u64), Some(t), h)
  {
    SetRootFieldEffect(img, t.off as u64);
    StoredAfterRootField(img, t, t.off as u64);
    IndexImageIs(SetRootField(img, t.off as u64), Some(t), h);
  }

  /**
   * The first insert into an empty index: a leaf holding the one entry is
   * written to a freshly appended block, and the header is pointed at it.
   */
  lemma FirstLeaf(img: seq<byte>, h: nat, key: u32, value: u32)
    requires IndexImage(img, None, h) && |img| + BLOCK_SIZE <= FILE_LIMIT
    ensures var n := Node(true, [key], [value], []);
            var t := Tree(|img|, n, []);
            && IndexImage(SetRootField(WriteAt(img + Zeros(BLOCK_SIZE), |img|, Encode(n)), |img| as u64), Some(t), 0)
            && Entries(t) == multiset{(key as int, value as int)}
  {
    var n := Node(true, [key], [value], []);
    var t := Tree(|img|, n, []);
    var img1 := img + Zeros(BLOCK_SIZE);
    var img2 := WriteAt(img1, |img|, Encode(n));
    IndexImageIs(img, None, h);
    AppendBlock(img);
    WriteNode(img1, |img|, n);
    HeaderPreserved(img, img1, {});
    HeaderPreserved(img1, img2, {|img|});
    assert Pairs(n.keys, n.values) == [(key as int, value as int)];
    assert Entries(t) == Bag(n);
    IndexAfterRootField(img2, t, 0);
  }

  /**
   * Above the full root t of a well-kept index, the new root `insert`
   * appends, with t as its only child, is a node that `split_child(0, root)`
   * can run on.
   */
  lemma GrowReady(img: seq<byte>, t: Tree, h: nat)
    requires IndexImage(img, Some(t), h) && |t.node.keys| == MAX_KEYS && |img| + 2 * BLOCK_SIZE <= FILE_LIMIT
    ensures t.off < |img| && CanSplit(Grown(t, |img|), 0)
    ensures IsBlock(img + Zeros(BLOCK_SIZE), |img|) && IsBlock(img + Zeros(BLOCK_SIZE), t.off)
  {
    IndexImageIs(img, Some(t), h);
    AppendBlock(img);
  }

  /**
   * The tree and the file after the root split of `insert`, before the
   * header is rewritten: the new root, appended with the full root t as its
   * only child, has had its child split, and the result is a well-kept tree
   * one level higher with the same entries. The header is untouched.
   */
  lemma GrownSplit(img: seq<byte>, t: Tree, h: nat)
    requires IndexImage(img, Some(t), h) && |t.node.keys| == MAX_KEYS && |img| + 2 * BLOCK_SIZE <= FILE_LIMIT
    ensures t.off < |img| && CanSplit(Grown(t, |img|), 0)
    ensures var img1 := img + Zeros(BLOCK_SIZE);
            var img2 := SplitImage(img1, Grown(t, |img|), 0);
            var t1 := SplitTree(Grown(t, |img|), 0, |img1| as u64);
            && |img2| == |img| + 2 * BLOCK_SIZE && |img2| % BLOCK_SIZE == 0 && HasMagic(img2)
            && Good(img2, t1, h + 1, -1, KEY_LIMIT) && Entries(t1) == Entries(t)
  {
    IndexImageIs(img, Some(t), h);
    GrownSplitStep(img, t, h, -1, KEY_LIMIT);
    var img1 := img + Zeros(BLOCK_SIZE);
    var g := Grown(t, |img|);
    AppendBlock(img);
    HeaderPreserved(img, img1, {});
    HeaderOutside(img, t);
    HeaderPreserved(img1, SplitImage(img1, g, 0), Footprint(t) + {|img|});
    AlignedAfterAppend(|img|, |img1|);
    AlignedAfterAppend(|img1|, |SplitImage(img1, g, 0)|);
  }

  /**
   * The root split of `insert` keeps the file a well-kept index: once the
   * new root block is appended, `split_child(0, root)` has run on it and the
   * header points at it (off), the file img2 holds a tree t1 one level
   * higher, rooted in the appended block with one key, and holding the same
   * entries. The file grew by two blocks.
   */
  lemma RootSplitKept(img: seq<byte>, t: Tree, h: nat, img2: seq<byte>, off: u64, t1: Tree)
    requires IndexImage(img, Some(t), h) && |t.node.keys| == MAX_KEYS && |img| + 2 * BLOCK_SIZE <= FILE_LIMIT
    requires t.off < |img| && CanSplit(Grown(t, |img|), 0)
    requires img2 == SplitImage(img + Zeros(BLOCK_SIZE), Grown(t, |img|), 0) && off as int == |img|
    requires t1 == SplitTree(Grown(t, |img|), 0, (|img| + BLOCK_SIZE) as u64)
    ensures |img2| == |img| + 2 * BLOCK_SIZE && IndexImage(SetRootField(img2, off), Some(t1), h + 1)
    ensures t1.off == |img| && |t1.node.keys| == 1 && Entries(t1) == Entries(t)
  {
    GrownSplit(img, t, h);
    assert t1.off == |img| == off as int;
    IndexAfterRootField(img2, t1, h + 1);
  }
}
