/**
 * One step of `insert_non_full` on the ghost tree: the leaf write, the
 * split of a full child on the way down, and the step back up after the
 * recursive insert into a child. Each lemma takes a well-kept subtree and
 * the file image before the step and shows that the subtree after the step
 * is well kept in the image after it, holds the entries it should, and
 * only used the blocks it was allowed to.
 */
module TreeInsert {
  import opened Bytes
  import opened NodeCodec
  import opened BlockFile
  import opened NodeOps
  import opened DiskTree

  /** Keys are 32-bit: every key of a tree lies strictly between -1 and KEY_LIMIT. */
  const KEY_LIMIT: int := 0x1_0000_0000

  /**
   * t is a subtree of height h stored in img, without shared blocks, with
   * keys strictly between lo and hi, and every node below its root at
   * least MID keys full.
   */
  ghost predicate Good(img: seq<byte>, t: Tree, h: nat, lo: int, hi: int)
  {
    Stored(img, t) && Shape(t, h) && Disjoint(t) && Ordered(t, lo, hi) && Filled(t)
  }

  /** t' holds the entries of t plus (key, value), unless key was already a key of t, and then exactly those of t. */
  ghost predicate Added(t: Tree, t': Tree, key: int, value: int, dup: bool)
  {
    && (dup <==> key in Keys(t))
    && Entries(t') == if dup then Entries(t) else Entries(t) + multiset{(key, value)}
  }

  /**
   * Going from img to img' rewrote only blocks of t, and t' is made of
   * blocks of t and blocks appended after the end of img.
   */
  ghost predicate Confined(img: seq<byte>, img': seq<byte>, t: Tree, t': Tree)
  {
    && Preserves(img, img', Footprint(t))
    && forall o | o in Footprint(t') :: o in Footprint(t) || o >= |img|
  }

  /**
   * A step from img to img' turned the subtree t into t': t' is well kept in
   * img' of height h between lo and hi, it sits in the root block of t,
   * whose node lost no key, and only blocks of t were rewritten.
   */
  ghost predicate Became(img: seq<byte>, img': seq<byte>, t: Tree, t': Tree, h: nat, lo: int, hi: int)
  {
    && Good(img', t', h, lo, hi) && t'.off == t.off && |t.node.keys| <= |t'.node.keys|
    && Confined(img, img', t, t')
  }

  /** key falls in gap p of the sorted keys ks: after key p - 1 and before key p. */
  predicate InGap(ks: seq<u32>, p: nat, key: int)
  {
    p <= |ks| && (p > 0 ==> ks[p - 1] < key) && (p < |ks| ==> key < ks[p])
  }

  /** A step that wrote nothing leaves a well-kept subtree as it was. */
  lemma BecameItself(img: seq<byte>, t: Tree, h: nat, lo: int, hi: int)
    requires Good(img, t, h, lo, hi)
    ensures Became(img, img, t, t, h, lo, hi)
  {
  }

  // ---------------------------------------------------------------------
  // The leaf branch

  /** In a leaf, the key is already stored exactly when the key just before the scan position equals it. */
  lemma LeafDuplicate(t: Tree, lo: int, hi: int, key: int)
    requires Shape(t, 0) && Ordered(t, lo, hi)
    ensures key in Keys(t) <==>
              UpperPos(t.node.keys, key) > 0 && t.node.keys[UpperPos(t.node.keys, key) - 1] == key
  {
    UpperPosSorted(t.node.keys, key);
    LeafKeys(t, key);
  }

  /** The leaf the leaf branch saves, in the block of the old one. */
  function LeafAfter(t: Tree, key: u32, value: u32): (r: Tree)
    requires WellFormed(t.node) && t.node.isLeaf
    ensures r.off == t.off && r.node.isLeaf && r.kids == []
    ensures Entries(r) == Bag(t.node) + multiset{(key as int, value as int)}
  {
    LeafInsertCorrect(t.node, key, value);
    var r := Tree(t.off, LeafInsert(t.node, key, value), []);
    assert Entries(r) == Bag(r.node);
    r
  }

  /**
   * Saving the leaf with a new key in place: the leaf is well kept, holds
   * one more entry, and only its own block changed.
   */
  lemma LeafStep(img: seq<byte>, t: Tree, lo: int, hi: int, key: u32, value: u32)
    requires Good(img, t, 0, lo, hi) && lo < key < hi
    requires |t.node.keys| < MAX_KEYS && key !in Keys(t)
    ensures var n := LeafInsert(t.node, key, value);
            var img' := WriteAt(img, t.off, Encode(n));
            && |img'| == |img|
            && Became(img, img', t, LeafAfter(t, key, value), 0, lo, hi)
            && Added(t, LeafAfter(t, key, value), key, value, false)
  {
    assert key !in t.node.keys by {
      LeafKeys(t, key);
    }
    LeafStored(img, t, key, value);
    LeafOrdered(t, lo, hi, key, value);
    LeafAdded(t, key, value);
  }

  lemma LeafStored(img: seq<byte>, t: Tree, key: u32, value: u32)
    requires Stored(img, t) && Shape(t, 0) && |t.node.keys| < MAX_KEYS
    ensures var img' := WriteAt(img, t.off, Encode(LeafInsert(t.node, key, value)));
            && |img'| == |img|
            && Stored(img', LeafAfter(t, key, value)) && Shape(LeafAfter(t, key, value), 0)
            && Disjoint(LeafAfter(t, key, value))
            && Confined(img, img', t, LeafAfter(t, key, value))
  {
    var n := LeafInsert(t.node, key, value);
    var img' := WriteAt(img, t.off, Encode(n));
    WriteNode(img, t.off, n);
    assert Footprint(LeafAfter(t, key, value)) == {t.off as int};
    PreservesWiden(img, img', {t.off as int}, Footprint(t));
  }

  lemma LeafOrdered(t: Tree, lo: int, hi: int, key: u32, value: u32)
    requires Shape(t, 0) && Ordered(t, lo, hi) && lo < key < hi && key !in t.node.keys
    ensures Ordered(LeafAfter(t, key, value), lo, hi)
  {
    LeafInsertCorrect(t.node, key, value);
    LeafBounds(t.node, key, value, lo, hi);
  }

  lemma LeafAdded(t: Tree, key: u32, value: u32)
    requires Shape(t, 0) && key !in t.node.keys
    ensures Added(t, LeafAfter(t, key, value), key, value, false)
  {
    LeafKeys(t, key);
    LeafInsertCorrect(t.node, key, value);
    assert Entries(t) == Bag(t.node);
    assert Entries(LeafAfter(t, key, value)) == Bag(LeafInsert(t.node, key, value));
  }

  /** The keys of the leaf with key inserted stay strictly between the bounds. */
  lemma LeafBounds(n: Node, key: u32, value: u32, lo: int, hi: int)
    requires WellFormed(n) && n.isLeaf && lo < key < hi
    requires forall i | 0 <= i < |n.keys| :: lo < n.keys[i] < hi
    ensures forall i | 0 <= i < |LeafInsert(n, key, value).keys| :: lo < LeafInsert(n, key, value).keys[i] < hi
  {
  }

  // ---------------------------------------------------------------------
  // The split on the way down

  /**
   * The file after `split_child(index, child)` run from img on node x at
   * xOff with its full child c at cOff: a block is appended for the new
   * node, then the shortened child, the new node and the parent are written,
   * in that order.
   */
  function SplitWrite(img: seq<byte>, xOff: nat, x: Node, index: nat, cOff: nat, c: Node): (r: seq<byte>)
    requires WellFormed(x) && !x.isLeaf && index <= |x.keys| < MAX_KEYS && Full(c) && |img| < FILE_LIMIT
    ensures |img| + BLOCK_SIZE <= |r|
  {
    SplitWrittenIs(img, xOff, x, index, cOff, c, index);
    SplitWritten(img, xOff, x, index, cOff, c, index)
  }

  /**
   * SplitWrite, written as a pair of functions that expand into each other,
   * so that the verifier expands the three writes only where a proof asks for
   * them (SplitWriteIs). Its value is SplitLayout for any fuel
   * (SplitWrittenIs): fuel only limits how far the verifier unfolds the
   * definition.
   */
  function SplitWritten(img: seq<byte>, xOff: nat, x: Node, index: nat, cOff: nat, c: Node, fuel: nat): seq<byte>
    requires WellFormed(x) && !x.isLeaf && index <= |x.keys| < MAX_KEYS && Full(c) && |img| < FILE_LIMIT
    decreases fuel, 1
  {
    SplitWrittenStep(img, xOff, x, index, cOff, c, fuel)
  }

  function SplitWrittenStep(img: seq<byte>, xOff: nat, x: Node, index: nat, cOff: nat, c: Node, fuel: nat): seq<byte>
    requires WellFormed(x) && !x.isLeaf && index <= |x.keys| < MAX_KEYS && Full(c) && |img| < FILE_LIMIT
    decreases fuel, 0
  {
    if fuel == 0 then SplitLayout(img, xOff, x, index, cOff, c) else SplitWritten(img, xOff, x, index, cOff, c, fuel - 1)
  }

  lemma {:induction false} SplitWrittenIs(img: seq<byte>, xOff: nat, x: Node, index: nat, cOff: nat, c: Node, fuel: nat)
    requires WellFormed(x) && !x.isLeaf && index <= |x.keys| < MAX_KEYS && Full(c) && |img| < FILE_LIMIT
    ensures SplitWritten(img, xOff, x, index, cOff, c, fuel) == SplitLayout(img, xOff, x, index, cOff, c)
    decreases fuel
  {
    if fuel > 0 {
      SplitWrittenIs(img, xOff, x, index, cOff, c, fuel - 1);
    }
  }

  lemma SplitWriteIs(img: seq<byte>, xOff: nat, x: Node, index: nat, cOff: nat, c: Node)
    requires WellFormed(x) && !x.isLeaf && index <= |x.keys| < MAX_KEYS && Full(c) && |img| < FILE_LIMIT
    ensures SplitWrite(img, xOff, x, index, cOff, c) == SplitLayout(img, xOff, x, index, cOff, c)
  {
    SplitWrittenIs(img, xOff, x, index, cOff, c, index);
  }

  /** The three writes of SplitWrite spelled out. */
  function SplitLayout(img: seq<byte>, xOff: nat, x: Node, index: nat, cOff: nat, c: Node): (r: seq<byte>)
    requires WellFormed(x) && !x.isLeaf && index <= |x.keys| < MAX_KEYS && Full(c) && |img| < FILE_LIMIT
    ensures |img| + BLOCK_SIZE <= |r|
  {
    var newOff := |img| as u64;
    var img1 := WriteAt(img + Zeros(BLOCK_SIZE), cOff, Encode(SplitLeft(c)));
    var img2 := WriteAt(img1, newOff, Encode(SplitRight(c)));
    WriteAt(img2, xOff, Encode(SplitParent(x, index, c, newOff)))
  }

  /** The same, for the root node of t and its child i. */
  function SplitImage(img: seq<byte>, t: Tree, i: nat): (r: seq<byte>)
    requires CanSplit(t, i) && |img| < FILE_LIMIT
    ensures |img| + BLOCK_SIZE <= |r|
  {
    SplitWrite(img, t.off, t.node, i, t.kids[i].off, t.kids[i].node)
  }

  /** The three writes of the split each hit a block, and the blocks they do not hit keep their nodes. */
  lemma SplitWrites(img: seq<byte>, t: Tree, i: nat)
    requires CanSplit(t, i) && RootApart(t) && |img| % BLOCK_SIZE == 0 && |img| + BLOCK_SIZE <= FILE_LIMIT
    requires IsBlock(img, t.off) && IsBlock(img, t.kids[i].off)
    ensures |SplitImage(img, t, i)| == |img| + BLOCK_SIZE
    ensures IsBlock(SplitImage(img, t, i), |img|)
    ensures Preserves(img, SplitImage(img, t, i), {t.off as int, t.kids[i].off as int})
    ensures NodeAt(SplitImage(img, t, i), t.kids[i].off) == Some(SplitLeft(t.kids[i].node))
    ensures NodeAt(SplitImage(img, t, i), |img|) == Some(SplitRight(t.kids[i].node))
    ensures NodeAt(SplitImage(img, t, i), t.off) == Some(SplitParent(t.node, i, t.kids[i].node, |img| as u64))
  {
    assert t.off != t.kids[i].off by {
      assert t.kids[i].off in Footprint(t.kids[i]);
    }
    SplitWritesLoad(img, t, i);
    SplitWritesFrame(img, t, i);
  }

  /** The file after a split is still made of whole blocks. */
  lemma SplitImageAligned(img: seq<byte>, t: Tree, i: nat)
    requires CanSplit(t, i) && RootApart(t) && |img| % BLOCK_SIZE == 0 && |img| + BLOCK_SIZE <= FILE_LIMIT
    requires IsBlock(img, t.off) && IsBlock(img, t.kids[i].off)
    ensures |SplitImage(img, t, i)| % BLOCK_SIZE == 0
  {
    SplitWrites(img, t, i);
    AlignedAfterAppend(|img|, |SplitImage(img, t, i)|);
  }

  lemma SplitWritesLoad(img: seq<byte>, t: Tree, i: nat)
    requires CanSplit(t, i) && |img| % BLOCK_SIZE == 0 && |img| + BLOCK_SIZE <= FILE_LIMIT
    requires IsBlock(img, t.off) && IsBlock(img, t.kids[i].off) && t.off != t.kids[i].off
    ensures |SplitImage(img, t, i)| == |img| + BLOCK_SIZE
    ensures IsBlock(SplitImage(img, t, i), |img|)
    ensures NodeAt(SplitImage(img, t, i), t.kids[i].off) == Some(SplitLeft(t.kids[i].node))
    ensures NodeAt(SplitImage(img, t, i), |img|) == Some(SplitRight(t.kids[i].node))
    ensures NodeAt(SplitImage(img, t, i), t.off) == Some(SplitParent(t.node, i, t.kids[i].node, |img| as u64))
  {
    SplitWriteIs(img, t.off, t.node, i, t.kids[i].off, t.kids[i].node);
    var c := t.kids[i];
    var N := |img| as u64;
    var L, R, P := SplitLeft(c.node), SplitRight(c.node), SplitParent(t.node, i, c.node, N);
    var img0 := img + Zeros(BLOCK_SIZE);
    var img1 := WriteAt(img0, c.off, Encode(L));
    var img2 := WriteAt(img1, N, Encode(R));
    AppendBlock(img);
    assert IsBlock(img0, c.off) && IsBlock(img0, t.off);
    WriteNode(img0, c.off, L);
    WriteNodeElsewhere(img0, c.off, L, N);
    WriteNodeElsewhere(img0, c.off, L, t.off);
    WriteNode(img1, N, R);
    WriteNodeElsewhere(img1, N, R, c.off);
    WriteNodeElsewhere(img1, N, R, t.off);
    WriteNode(img2, t.off, P);
    WriteNodeElsewhere(img2, t.off, P, c.off);
    WriteNodeElsewhere(img2, t.off, P, N);
  }

  lemma SplitWritesFrame(img: seq<byte>, t: Tree, i: nat)
    requires CanSplit(t, i) && |img| % BLOCK_SIZE == 0 && |img| + BLOCK_SIZE <= FILE_LIMIT
    requires IsBlock(img, t.off) && IsBlock(img, t.kids[i].off)
    ensures Preserves(img, SplitImage(img, t, i), {t.off as int, t.kids[i].off as int})
  {
    SplitWriteIs(img, t.off, t.node, i, t.kids[i].off, t.kids[i].node);
    var c := t.kids[i];
    var N := |img| as u64;
    var L, R, P := SplitLeft(c.node), SplitRight(c.node), SplitParent(t.node, i, c.node, N);
    FullNodeFits(L);
    FullNodeFits(R);
    FullNodeFits(P);
    DecodeEncode(L);
    DecodeEncode(R);
    DecodeEncode(P);
    ThreeWritesFrame(img, c.off, Encode(L), Encode(R), t.off, Encode(P));
  }

  /** Appending a block and then writing it and two blocks of img leaves every other block of img as it was. */
  lemma ThreeWritesFrame(img: seq<byte>, cOff: nat, bL: seq<byte>, bR: seq<byte>, xOff: nat, bP: seq<byte>)
    requires |img| % BLOCK_SIZE == 0 && IsBlock(img, cOff) && IsBlock(img, xOff)
    requires |bL| == |bR| == |bP| == BLOCK_SIZE
    ensures Preserves(img, WriteAt(WriteAt(WriteAt(img + Zeros(BLOCK_SIZE), cOff, bL), |img|, bR), xOff, bP), {xOff, cOff})
  {
    var N := |img|;
    var img0 := img + Zeros(BLOCK_SIZE);
    var img1 := WriteAt(img0, cOff, bL);
    var img2 := WriteAt(img1, N, bR);
    var img3 := WriteAt(img2, xOff, bP);
    AppendBlock(img);
    WriteBlockFrame(img0, cOff, bL);
    WriteBlockFrame(img1, N, bR);
    WriteBlockFrame(img2, xOff, bP);
    PreservesTrans(img, img0, img1, {}, {cOff});
    PreservesTrans(img, img1, img2, {cOff}, {N});
    PreservesTrans(img, img2, img3, {cOff, N}, {xOff});
    assert {cOff, N} + {xOff} == {xOff, cOff} + {N};
    PreservesIgnoreNew(img, img3, {xOff, cOff}, {N});
  }

  /**
   * Splitting full child i of t: the split tree is well kept, holds the same
   * entries, and only the two split blocks and the appended one were touched.
   * The root block of t need not hold t yet (a new root is first written by
   * the split itself).
   */
  lemma SplitStep(img: seq<byte>, t: Tree, i: nat, h: nat, lo: int, hi: int)
    requires CanSplit(t, i) && Shape(t, h) && Disjoint(t) && Ordered(t, lo, hi) && Filled(t)
    requires IsBlock(img, t.off) && forall j | 0 <= j < |t.kids| :: Stored(img, t.kids[j])
    requires |img| % BLOCK_SIZE == 0 && |img| + BLOCK_SIZE <= FILE_LIMIT
    ensures var t1 := SplitTree(t, i, |img| as u64);
            && |SplitImage(img, t, i)| == |img| + BLOCK_SIZE
            && Good(SplitImage(img, t, i), t1, h, lo, hi)
            && Entries(t1) == Entries(t)
            && Confined(img, SplitImage(img, t, i), t, t1)
  {
    var N := |img| as u64;
    var img' := SplitImage(img, t, i);
    var t1 := SplitTree(t, i, N);
    assert IsBlock(img, t.kids[i].off);
    SplitWrites(img, t, i);
    SplitTreeStored(img, img', t, i, N);
    SplitTreeShape(t, i, N, h);
    assert forall o | o in Footprint(t) :: o < |img| by {
      forall o | o in Footprint(t) && o != t.off
        ensures o < |img|
      {
        var j := FootprintCases(t, o);
        FootprintBelow(img, t.kids[j]);
      }
    }
    SplitTreeDisjoint(t, i, N, |img|);
    SplitTreeOrdered(t, i, N, lo, hi);
    SplitTreeEntries(t, i, N);
    SplitTreeFilled(t, i, N);
    SplitTreeFootprint(t, i, N);
    assert t.kids[i].off in Footprint(t) by {
      KidFootprintIncluded(t, i);
    }
    PreservesWiden(img, img', {t.off as int, t.kids[i].off as int}, Footprint(t));
  }

  // ---------------------------------------------------------------------
  // The step back up

  /**
   * After the recursive insert into subtree p of t1 (t1 being t, or t with
   * a child split on the way down): putting the new subtree in place gives a
   * well-kept tree with (key, value) added exactly when the subtree added it,
   * and the whole descent stayed within t's blocks and appended ones.
   */
  lemma DescendStep(img0: seq<byte>, img1: seq<byte>, img2: seq<byte>, t: Tree, t1: Tree, p: nat, x: Tree,
                    hk: nat, lo: int, hi: int, key: int, value: int, dup: bool)
    requires Became(img0, img1, t, t1, hk + 1, lo, hi) && Entries(t1) == Entries(t)
    requires p < |t1.kids| && InGap(t1.node.keys, p, key)
    requires Became(img1, img2, t1.kids[p], x, hk, KidLo(t1.node.keys, p, lo), KidHi(t1.node.keys, p, hi))
    requires Added(t1.kids[p], x, key, value, dup)
    ensures Became(img0, img2, t, WithKid(t1, p, x), hk + 1, lo, hi)
    ensures Added(t, WithKid(t1, p, x), key, value, dup)
  {
    DescendGood(img1, img2, t1, p, x, hk + 1, lo, hi);
    DescendAdded(t, t1, p, x, lo, hi, key, value, dup);
    DescendConfined(img0, img1, img2, t, t1, p, x);
  }

  lemma DescendGood(img1: seq<byte>, img2: seq<byte>, t1: Tree, p: nat, x: Tree, h: nat, lo: int, hi: int)
    requires 0 < h && Good(img1, t1, h, lo, hi) && p < |t1.kids|
    requires Good(img2, x, h - 1, KidLo(t1.node.keys, p, lo), KidHi(t1.node.keys, p, hi))
    requires x.off == t1.kids[p].off && |t1.kids[p].node.keys| <= |x.node.keys| && Confined(img1, img2, t1.kids[p], x)
    ensures Good(img2, WithKid(t1, p, x), h, lo, hi)
  {
    assert FilledKid(t1, p);
    WithKidFilled(t1, p, x);
    WithKidStored(img1, img2, t1, p, x);
    WithKidShape(t1, h, p, x);
    WithKidOrdered(t1, lo, hi, p, x);
    FootprintBelow(img1, t1);
    WithKidDisjoint(img1, t1, p, x);
  }

  lemma DescendAdded(t: Tree, t1: Tree, p: nat, x: Tree, lo: int, hi: int, key: int, value: int, dup: bool)
    requires Ordered(t1, lo, hi) && WellFormed(t1.node) && |t1.kids| == |t1.node.children| && !t1.node.isLeaf
    requires p < |t1.kids| && Entries(t1) == Entries(t)
    requires p > 0 ==> t1.node.keys[p - 1] < key
    requires p < |t1.node.keys| ==> key < t1.node.keys[p]
    requires Added(t1.kids[p], x, key, value, dup)
    ensures Added(t, WithKid(t1, p, x), key, value, dup)
  {
    KeysOfInternal(t1, lo, hi, key, p);
    SameKeys(t1, t);
    DescendEntries(t, t1, p, x, if dup then multiset{} else multiset{(key, value)});
  }

  /** Trees with the same entries have the same keys. */
  lemma SameKeys(t: Tree, u: Tree)
    requires Entries(t) == Entries(u)
    ensures Keys(t) == Keys(u)
  {
  }

  /** What the subtree p gained, the whole tree gained. */
  lemma DescendEntries(t: Tree, t1: Tree, p: nat, x: Tree, added: multiset<(int, int)>)
    requires p < |t1.kids| && Entries(t1) == Entries(t) && Entries(x) == Entries(t1.kids[p]) + added
    ensures Entries(WithKid(t1, p, x)) == Entries(t) + added
  {
    var kid := t1.kids[p];
    WithKidEntries(t1, p, x);
    assert Entries(WithKid(t1, p, x)) + Entries(kid) == Entries(t) + added + Entries(kid);
    Cancel(Entries(WithKid(t1, p, x)), Entries(t) + added, Entries(kid));
  }

  lemma DescendConfined(img0: seq<byte>, img1: seq<byte>, img2: seq<byte>, t: Tree, t1: Tree, p: nat, x: Tree)
    requires p < |t1.kids| && Confined(img0, img1, t, t1) && Confined(img1, img2, t1.kids[p], x)
    ensures Confined(img0, img2, t, WithKid(t1, p, x))
  {
    var kid := t1.kids[p];
    WithKidFootprint(img1, t1, p, x);
    KidFootprintIncluded(t1, p);
    var V := Footprint(kid) - Footprint(t);
    PreservesTrans(img0, img1, img2, Footprint(t), Footprint(kid));
    assert Footprint(t) + Footprint(kid) == Footprint(t) + V;
    PreservesIgnoreNew(img0, img2, Footprint(t), V);
  }

  /**
   * As written, the descent of `insert_non_full` never meets a key that an
   * internal node holds. Equal to key j, it is sent into subtree j + 1 by
   * the scan, or, when it is the median a split just moved up to place j,
   * into subtree j; neither subtree can hold it, so the leaf reached takes a
   * second entry with that key. The model tests the key against the node's
   * keys on the way down instead (ChildFor, SplitForDescent).
   */
  lemma InternalDuplicateAsWritten(t: Tree, lo: int, hi: int, j: nat)
    requires Ordered(t, lo, hi) && WellFormed(t.node) && !t.node.isLeaf && |t.kids| == |t.node.children|
    requires j < |t.node.keys|
    ensures t.node.keys[j] as int in Keys(t)
    ensures UpperPos(t.node.keys, t.node.keys[j]) == j + 1
    ensures t.node.keys[j] as int !in Keys(t.kids[j + 1])
    ensures t.node.keys[j] as int !in Keys(t.kids[j])
  {
    var ks := t.node.keys;
    NodeKeysInKeys(t, j);
    UpperPosUnique(ks, ks[j], j + 1);
    KeysBounded(t.kids[j + 1], KidLo(ks, j + 1, lo), KidHi(ks, j + 1, hi));
    KeysBounded(t.kids[j], KidLo(ks, j, lo), KidHi(ks, j, hi));
  }

  /**
   * The child the descent goes into: its offset is the node's child offset,
   * the block there loads as its root node, and it is a well-kept tree one
   * level lower whose keys lie between the node's keys around it.
   */
  lemma KidAt(img: seq<byte>, t: Tree, h: nat, lo: int, hi: int, p: nat)
    requires 0 < h && Good(img, t, h, lo, hi) && p <= |t.node.keys|
    ensures p < |t.kids| && t.kids[p].off == t.node.children[p] as int
    ensures NodeAt(img, t.node.children[p]) == Some(t.kids[p].node) && IsBlock(img, t.kids[p].off)
    ensures Good(img, t.kids[p], h - 1, KidLo(t.node.keys, p, lo), KidHi(t.node.keys, p, hi))
    ensures RootApart(t) && forall j | 0 <= j < |t.kids| :: Stored(img, t.kids[j])
  {
    var k := t.kids[p];
    assert Stored(img, k) && Shape(k, h - 1) && Disjoint(k) && FilledKid(t, p);
    assert Ordered(k, KidLo(t.node.keys, p, lo), KidHi(t.node.keys, p, hi));
  }

  /**
   * After the child at p was split, a key equal to the median m that moved
   * up to position p is already in the tree; any other key goes on into
   * child q, which is p for a key below m and the new child p + 1 for a key
   * above it, and lies strictly between the keys around that child. Both
   * halves of the split child have room for another key.
   */
  lemma SplitRoute(t: Tree, p: nat, newOff: u64, key: int, q: nat)
    requires CanSplit(t, p) && InGap(t.node.keys, p, key)
    requires q == if key > t.kids[p].node.keys[MID] then p + 1 else p
    ensures var ks, m := SplitTree(t, p, newOff).node.keys, t.kids[p].node.keys[MID];
            && p < |ks| && ks[p] == m
            && (key == m ==> key in Keys(t))
            && (key != m ==> InGap(ks, q, key))
            && |SplitTree(t, p, newOff).kids[q].node.keys| < MAX_KEYS
  {
    var t1 := SplitTree(t, p, newOff);
    SplitKidsAt(t, p, newOff, q);
    if key == t1.node.keys[p] {
      NodeKeysInKeys(t1, p);
      SplitTreeEntries(t, p, newOff);
    }
  }

  // ---------------------------------------------------------------------
  // A new root above a full root

  /** The node `insert` allocates above a full root: no keys, the old root as its only child. */
  function Grown(r: Tree, newOff: nat): (g: Tree)
    requires r.off < FILE_LIMIT
    ensures g.off == newOff && !g.node.isLeaf && Entries(g) == Entries(r)
  {
    var g := Tree(newOff, Node(false, [], [], [r.off as u64]), [r]);
    assert g.kids[1..] == [];
    assert KidsEntries(g.kids) == Entries(r) + KidsEntries([]);
    g
  }

  /** Above a well-kept tree, the new root makes a tree one level higher with the same entries and keys. */
  lemma GrownFacts(img: seq<byte>, r: Tree, h: nat, lo: int, hi: int, newOff: nat)
    requires Good(img, r, h, lo, hi) && r.off < FILE_LIMIT && newOff >= |img|
    ensures Shape(Grown(r, newOff), h + 1) && Disjoint(Grown(r, newOff)) && Ordered(Grown(r, newOff), lo, hi)
    ensures Entries(Grown(r, newOff)) == Entries(r)
    ensures Footprint(Grown(r, newOff)) == Footprint(r) + {newOff}
  {
    var g := Grown(r, newOff);
    FootprintBelow(img, r);
    assert g.kids[1..] == [];
    assert KidsEntries(g.kids) == Entries(r) + KidsEntries([]);
    assert Bag(g.node) == multiset{};
    assert KidsFootprint(g) == Footprint(r) by {
      forall o | o in Footprint(r)
        ensures o in KidsFootprint(g)
      {
        assert o in Footprint(g.kids[0]);
      }
    }
  }

  /**
   * Splitting the full root r under the new root appended after img: a
   * well-kept tree one level higher with r's entries, written over r's
   * blocks, the new root's and one more appended block.
   */
  lemma GrownSplitStep(img: seq<byte>, r: Tree, h: nat, lo: int, hi: int)
    requires Good(img, r, h, lo, hi) && |r.node.keys| == MAX_KEYS
    requires BLOCK_SIZE <= |img| && |img| % BLOCK_SIZE == 0 && |img| + 2 * BLOCK_SIZE <= FILE_LIMIT
    ensures r.off < |img| && CanSplit(Grown(r, |img|), 0)
    ensures var img1 := img + Zeros(BLOCK_SIZE);
            var g := Grown(r, |img|);
            var t1 := SplitTree(g, 0, |img1| as u64);
            && |SplitImage(img1, g, 0)| == |img1| + BLOCK_SIZE
            && Good(SplitImage(img1, g, 0), t1, h + 1, lo, hi) && Entries(t1) == Entries(r)
            && Preserves(img1, SplitImage(img1, g, 0), Footprint(r) + {|img|})
  {
    GrownSplitReady(img, r, h, lo, hi);
    SplitStep(img + Zeros(BLOCK_SIZE), Grown(r, |img|), 0, h + 1, lo, hi);
  }

  /** The new root appended after img above the full root r is ready for SplitStep. */
  lemma GrownSplitReady(img: seq<byte>, r: Tree, h: nat, lo: int, hi: int)
    requires Good(img, r, h, lo, hi) && |r.node.keys| == MAX_KEYS
    requires BLOCK_SIZE <= |img| && |img| % BLOCK_SIZE == 0 && |img| + 2 * BLOCK_SIZE <= FILE_LIMIT
    ensures r.off < |img|
    ensures var img1 := img + Zeros(BLOCK_SIZE);
            var g := Grown(r, |img|);
            && CanSplit(g, 0) && Shape(g, h + 1) && Disjoint(g) && Ordered(g, lo, hi) && Filled(g)
            && IsBlock(img1, g.off) && (forall j | 0 <= j < |g.kids| :: Stored(img1, g.kids[j]))
            && |img1| % BLOCK_SIZE == 0 && |img1| + BLOCK_SIZE <= FILE_LIMIT
            && Entries(g) == Entries(r) && Footprint(g) == Footprint(r) + {|img|}
  {
    var img1 := img + Zeros(BLOCK_SIZE);
    var g := Grown(r, |img|);
    AppendBlock(img);
    StoredFrame(img, img1, {}, r);
    GrownFacts(img, r, h, lo, hi, |img|);
    assert forall j | 0 <= j < |g.kids| :: Stored(img1, g.kids[j]);
  }
}
