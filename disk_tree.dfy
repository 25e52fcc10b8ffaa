/**
 * The B-tree that an index file holds, as a ghost value read off the file
 * image: a node is the block at a byte offset, its subtrees are the blocks
 * its child offsets point at. The predicates here state what a well-kept
 * index satisfies (every node loads, the tree is balanced, no block is
 * shared, keys are in search-tree order), and the lemmas say how a write
 * to some blocks affects a tree whose blocks lie elsewhere.
 */
module DiskTree {
  import opened Bytes
  import opened NodeCodec
  import opened BlockFile
  import opened NodeOps

  /** A subtree: the offset of its root block, the node that block holds, and the subtrees of its children. */
  datatype Tree = Tree(off: nat, node: Node, kids: seq<Tree>)

  /**
   * t is a B-tree of height h: every node is well formed and holds at most
   * MAX_KEYS keys, exactly the nodes at height 0 are leaves, and each child
   * offset leads to a subtree one level lower.
   */
  ghost predicate Shape(t: Tree, h: nat)
    decreases t
  {
    && WellFormed(t.node) && |t.node.keys| <= MAX_KEYS
    && (t.node.isLeaf <==> h == 0)
    && |t.kids| == |t.node.children|
    && forall j | 0 <= j < |t.kids| :: t.kids[j].off == t.node.children[j] && Shape(t.kids[j], h - 1)
  }

  /**
   * Every node of t below its root holds at least MID = MIN_DEGREE - 1 keys:
   * the lower bound of a B-tree, from which only the root is exempt.
   */
  ghost predicate Filled(t: Tree)
    decreases t, 1
  {
    forall j | 0 <= j < |t.kids| :: FilledKid(t, j)
  }

  /** Child j of t holds at least MID keys and is filled below. */
  ghost predicate FilledKid(t: Tree, j: nat)
    requires j < |t.kids|
    decreases t, 0
  {
    MID <= |t.kids[j].node.keys| && Filled(t.kids[j])
  }

  /** Every node of t sits in a block of img and loads as itself. */
  ghost predicate Stored(img: seq<byte>, t: Tree)
    decreases t
  {
    && IsBlock(img, t.off)
    && NodeAt(img, t.off) == Some(t.node)
    && forall j | 0 <= j < |t.kids| :: Stored(img, t.kids[j])
  }

  /** The offsets of the blocks that hold t. */
  ghost function Footprint(t: Tree): set<int>
    decreases t
  {
    {t.off as int} + KidsFootprint(t)
  }

  /** The offsets of the blocks that hold the subtrees of t. */
  ghost function KidsFootprint(t: Tree): set<int>
    decreases t, 0
  {
    set j, o | 0 <= j < |t.kids| && o in Footprint(t.kids[j]) :: o
  }

  /** The root block of t is not a block of its subtrees, and no two subtrees share a block. */
  ghost predicate RootApart(t: Tree)
  {
    && (forall j | 0 <= j < |t.kids| :: t.off !in Footprint(t.kids[j]))
    && (forall a, b | 0 <= a < b < |t.kids| :: Footprint(t.kids[a]) !! Footprint(t.kids[b]))
  }

  /** No block holds two nodes of t. */
  ghost predicate Disjoint(t: Tree)
    decreases t
  {
    RootApart(t) && forall j | 0 <= j < |t.kids| :: Disjoint(t.kids[j])
  }

  /** The exclusive lower bound for the keys of child j. */
  function KidLo(ks: seq<int>, j: nat, lo: int): int
  {
    if 0 < j <= |ks| then ks[j - 1] else lo
  }

  /** The exclusive upper bound for the keys of child j. */
  function KidHi(ks: seq<int>, j: nat, hi: int): int
  {
    if j < |ks| then ks[j] else hi
  }

  /**
   * Search-tree order: the keys of each node ascend strictly and lie
   * strictly between lo and hi, and the keys of child j lie strictly between
   * the node's keys j - 1 and j.
   */
  ghost predicate Ordered(t: Tree, lo: int, hi: int)
    decreases t
  {
    && Sorted(t.node.keys)
    && (forall i | 0 <= i < |t.node.keys| :: lo < t.node.keys[i] < hi)
    && forall j | 0 <= j < |t.kids| :: Ordered(t.kids[j], KidLo(t.node.keys, j, lo), KidHi(t.node.keys, j, hi))
  }

  /** The (key, value) pairs stored in t. */
  ghost function Entries(t: Tree): multiset<(int, int)>
    decreases t
  {
    Bag(t.node) + KidsEntries(t.kids)
  }

  ghost function KidsEntries(ts: seq<Tree>): multiset<(int, int)>
    decreases ts
  {
    if ts == [] then multiset{} else Entries(ts[0]) + KidsEntries(ts[1..])
  }

  /** The keys stored in t. */
  ghost function Keys(t: Tree): set<int>
  {
    set e | e in Entries(t) :: e.0
  }

  // ---------------------------------------------------------------------
  // Blocks and frames

  /** Every block of a stored tree is a node block of the file. */
  lemma {:induction false} StoredInFile(img: seq<byte>, t: Tree)
    requires Stored(img, t)
    ensures forall o | o in Footprint(t) :: IsBlock(img, o)
    decreases t
  {
    forall j | 0 <= j < |t.kids| {
      StoredInFile(img, t.kids[j]);
    }
  }

  /** A stored tree stays stored when only blocks outside it change. */
  lemma {:induction false} StoredFrame(img: seq<byte>, img': seq<byte>, W: set<int>, t: Tree)
    requires Stored(img, t) && Preserves(img, img', W) && Footprint(t) !! W
    ensures Stored(img', t)
    decreases t
  {
    PreservedNode(img, img', W, t.off);
    forall j | 0 <= j < |t.kids|
      ensures Stored(img', t.kids[j])
    {
      assert Footprint(t.kids[j]) <= Footprint(t);
      StoredFrame(img, img', W, t.kids[j]);
    }
  }

  /**
   * A file holds at most one tree rooted at a given block: the nodes are
   * what the blocks load as, and the subtrees sit where the child offsets
   * point, so the tree and its height are read off the file.
   */
  lemma {:induction false} StoredUnique(img: seq<byte>, t: Tree, h: nat, u: Tree, k: nat)
    requires Stored(img, t) && Shape(t, h) && Stored(img, u) && Shape(u, k) && t.off == u.off
    ensures t == u && h == k
    decreases t
  {
    assert t.node == u.node;
    if !t.node.isLeaf {
      StoredUnique(img, t.kids[0], h - 1, u.kids[0], k - 1);
      forall j | 0 <= j < |t.kids|
        ensures t.kids[j] == u.kids[j]
      {
        StoredUnique(img, t.kids[j], h - 1, u.kids[j], k - 1);
      }
    }
    assert t.kids == u.kids;
  }

  // ---------------------------------------------------------------------
  // Entries and keys

  lemma {:induction false} KidsEntriesAppend(a: seq<Tree>, b: seq<Tree>)
    ensures KidsEntries(a + b) == KidsEntries(a) + KidsEntries(b)
    decreases a
  {
    if a == [] {
      assert a + b == b;
    } else {
      assert (a + b)[0] == a[0];
      assert (a + b)[1..] == a[1..] + b;
      KidsEntriesAppend(a[1..], b);
    }
  }

  lemma KidsEntriesAround(ts: seq<Tree>, i: nat)
    requires i < |ts|
    ensures KidsEntries(ts) == KidsEntries(ts[..i]) + Entries(ts[i]) + KidsEntries(ts[i + 1..])
  {
    var rest := ts[i..];
    assert ts == ts[..i] + rest;
    KidsEntriesAppend(ts[..i], rest);
    assert rest[0] == ts[i] && rest[1..] == ts[i + 1..];
    assert KidsEntries(rest) == Entries(ts[i]) + KidsEntries(ts[i + 1..]);
  }

  /** Replacing one subtree swaps its entries for the new subtree's. */
  lemma KidsEntriesUpdate(ts: seq<Tree>, i: nat, x: Tree)
    requires i < |ts|
    ensures KidsEntries(ts[i := x]) + Entries(ts[i]) == KidsEntries(ts) + Entries(x)
  {
    KidsEntriesAround(ts, i);
    KidsEntriesAround(ts[i := x], i);
    assert ts[i := x][..i] == ts[..i] && ts[i := x][i + 1..] == ts[i + 1..];
  }

  /** Inserting a subtree adds its entries. */
  lemma KidsEntriesInsert(ts: seq<Tree>, i: nat, x: Tree)
    requires i <= |ts|
    ensures KidsEntries(InsertAt(ts, i, x)) == KidsEntries(ts) + Entries(x)
  {
    KidsEntriesAppend(ts[..i] + [x], ts[i..]);
    KidsEntriesAppend(ts[..i], [x]);
    KidsEntriesAppend(ts[..i], ts[i..]);
    assert ts[..i] + ts[i..] == ts;
    assert KidsEntries([x]) == Entries(x) by {
      assert [x][1..] == [];
    }
  }

  /** An entry of a subtree is an entry of the tree. */
  lemma KidEntriesIncluded(t: Tree, j: nat)
    requires j < |t.kids|
    ensures Entries(t.kids[j]) <= Entries(t)
  {
    KidsEntriesAround(t.kids, j);
  }

  /** Every key of an ordered tree lies strictly between its bounds. */
  lemma {:induction false} KeysBounded(t: Tree, lo: int, hi: int)
    requires Ordered(t, lo, hi)
    ensures forall k | k in Keys(t) :: lo < k < hi
    decreases t
  {
    forall k | k in Keys(t)
      ensures lo < k < hi
    {
      var e :| e in Entries(t) && e.0 == k;
      if e in Bag(t.node) {
        var i :| 0 <= i < |Pairs(t.node.keys, t.node.values)| && Pairs(t.node.keys, t.node.values)[i] == e;
      } else {
        var j := KidWithEntry(t.kids, e);
        KeysBounded(t.kids[j], KidLo(t.node.keys, j, lo), KidHi(t.node.keys, j, hi));
        assert k in Keys(t.kids[j]);
        if 0 < j <= |t.node.keys| {
          assert lo < t.node.keys[j - 1];
        }
        if j < |t.node.keys| {
          assert t.node.keys[j] < hi;
        }
      }
    }
  }

  /** The subtree an entry of a list of subtrees comes from. */
  lemma {:induction false} KidWithEntry(ts: seq<Tree>, e: (int, int)) returns (j: nat)
    requires e in KidsEntries(ts)
    ensures j < |ts| && e in Entries(ts[j])
    decreases ts
  {
    if e in Entries(ts[0]) {
      j := 0;
    } else {
      j := KidWithEntry(ts[1..], e);
      j := j + 1;
    }
  }

  /** The key of every pair of a well-formed node is one of its keys. */
  lemma BagKeys(n: Node, e: (int, int))
    requires WellFormed(n) && e in Bag(n)
    ensures e.0 in n.keys
  {
    var i :| 0 <= i < |Pairs(n.keys, n.values)| && Pairs(n.keys, n.values)[i] == e;
  }

  /** Every key of the root node of t is a key of t. */
  lemma NodeKeysInKeys(t: Tree, i: nat)
    requires WellFormed(t.node) && i < |t.node.keys|
    ensures t.node.keys[i] as int in Keys(t)
  {
    var e := Pairs(t.node.keys, t.node.values)[i];
    assert e in Bag(t.node);
    assert e in Entries(t);
  }

  /** The keys of a leaf are the keys of its node. */
  lemma LeafKeys(t: Tree, key: int)
    requires WellFormed(t.node) && t.kids == []
    ensures key in Keys(t) <==> key in t.node.keys
  {
    assert Entries(t) == Bag(t.node);
    if key in Keys(t) {
      var e :| e in Entries(t) && e.0 == key;
      BagKeys(t.node, e);
    }
    if key in t.node.keys {
      var i :| 0 <= i < |t.node.keys| && t.node.keys[i] == key;
      NodeKeysInKeys(t, i);
    }
  }

  /** A key strictly between sorted keys p - 1 and p is none of them. */
  lemma BetweenNotIn(ks: seq<int>, key: int, p: nat)
    requires Sorted(ks) && p <= |ks|
    requires p > 0 ==> ks[p - 1] < key
    requires p < |ks| ==> key < ks[p]
    ensures key !in ks
  {
  }

  /** A key of an ordered tree that is not a key of its root node is a key of one of its subtrees. */
  lemma KidWithKey(t: Tree, key: int) returns (j: nat)
    requires WellFormed(t.node) && key in Keys(t) && key !in t.node.keys
    ensures j < |t.kids| && key in Keys(t.kids[j])
  {
    var e :| e in Entries(t) && e.0 == key;
    if e in Bag(t.node) {
      BagKeys(t.node, e);
    }
    j := KidWithEntry(t.kids, e);
  }

  /** A key strictly between the node's keys p - 1 and p is in no subtree other than p. */
  lemma OtherKidLacksKey(t: Tree, lo: int, hi: int, key: int, p: nat, j: nat)
    requires Ordered(t, lo, hi) && j < |t.kids| && j != p
    requires p <= |t.node.keys| && j <= |t.node.keys|
    requires p > 0 ==> t.node.keys[p - 1] < key
    requires p < |t.node.keys| ==> key < t.node.keys[p]
    ensures key !in Keys(t.kids[j])
  {
    var ks := t.node.keys;
    KeysBounded(t.kids[j], KidLo(ks, j, lo), KidHi(ks, j, hi));
    if j < p {
      assert ks[j] <= ks[p - 1];
    } else {
      assert ks[p] <= ks[j - 1];
    }
  }

  /**
   * In an ordered internal node, a key that falls strictly between the node's
   * keys p - 1 and p is in the tree exactly when it is in subtree p: the
   * subtree `insert_non_full` descends into is the only place it can be.
   */
  lemma KeysOfInternal(t: Tree, lo: int, hi: int, key: int, p: nat)
    requires Ordered(t, lo, hi) && WellFormed(t.node) && |t.kids| == |t.node.children| && !t.node.isLeaf
    requires p <= |t.node.keys|
    requires p > 0 ==> t.node.keys[p - 1] < key
    requires p < |t.node.keys| ==> key < t.node.keys[p]
    ensures key in Keys(t) <==> key in Keys(t.kids[p])
  {
    if key in Keys(t.kids[p]) {
      KidEntriesIncluded(t, p);
    }
    if key in Keys(t) {
      BetweenNotIn(t.node.keys, key, p);
      var j := KidWithKey(t, key);
      if j != p {
        OtherKidLacksKey(t, lo, hi, key, p, j);
      }
    }
  }

  // ---------------------------------------------------------------------
  // Footprints

  lemma KidFootprintIncluded(t: Tree, j: nat)
    requires j < |t.kids|
    ensures Footprint(t.kids[j]) <= Footprint(t)
  {
  }

  /** A block of t is its root block or a block of one of its subtrees. */
  lemma FootprintCases(t: Tree, o: int) returns (j: nat)
    requires o in KidsFootprint(t) || (o in Footprint(t) && o != t.off)
    ensures j < |t.kids| && o in Footprint(t.kids[j])
  {
    j :| 0 <= j < |t.kids| && o in Footprint(t.kids[j]);
  }

  /** All blocks of a stored tree lie before the end of the file. */
  lemma FootprintBelow(img: seq<byte>, t: Tree)
    requires Stored(img, t)
    ensures forall o | o in Footprint(t) :: o < |img|
  {
    StoredInFile(img, t);
  }

  // ---------------------------------------------------------------------
  // Replacing one subtree: the step back up from a recursive insert

  /** t with subtree p replaced by x. */
  function WithKid(t: Tree, p: nat, x: Tree): Tree
    requires p < |t.kids|
  {
    Tree(t.off, t.node, t.kids[p := x])
  }

  /** A subtree with at least MID keys at its root and filled below keeps the tree filled. */
  lemma WithKidFilled(t: Tree, p: nat, x: Tree)
    requires p < |t.kids| && Filled(t) && MID <= |x.node.keys| && Filled(x)
    ensures Filled(WithKid(t, p, x))
  {
    forall j | 0 <= j < |t.kids| ensures FilledKid(WithKid(t, p, x), j) {
      if j != p {
        assert FilledKid(t, j);
      }
    }
  }

  lemma WithKidStored(img: seq<byte>, img': seq<byte>, t: Tree, p: nat, x: Tree)
    requires Stored(img, t) && Disjoint(t) && p < |t.kids|
    requires Stored(img', x) && Preserves(img, img', Footprint(t.kids[p]))
    ensures Stored(img', WithKid(t, p, x))
  {
    var F := Footprint(t.kids[p]);
    PreservedNode(img, img', F, t.off);
    forall j | 0 <= j < |t.kids| && j != p
      ensures Stored(img', t.kids[j])
    {
      assert Footprint(t.kids[j]) !! F;
      StoredFrame(img, img', F, t.kids[j]);
    }
  }

  lemma WithKidShape(t: Tree, h: nat, p: nat, x: Tree)
    requires Shape(t, h) && p < |t.kids|
    requires Shape(x, h - 1) && x.off == t.kids[p].off
    ensures Shape(WithKid(t, p, x), h)
  {
  }

  lemma WithKidOrdered(t: Tree, lo: int, hi: int, p: nat, x: Tree)
    requires Ordered(t, lo, hi) && p < |t.kids|
    requires Ordered(x, KidLo(t.node.keys, p, lo), KidHi(t.node.keys, p, hi))
    ensures Ordered(WithKid(t, p, x), lo, hi)
  {
  }

  /** A subtree made of old blocks of p and of blocks past the end of img shares no block with the other subtrees. */
  lemma NewKidApart(img: seq<byte>, t: Tree, p: nat, x: Tree, j: nat)
    requires forall o | o in Footprint(t) :: o < |img|
    requires Disjoint(t) && p < |t.kids| && j < |t.kids| && j != p
    requires forall o | o in Footprint(x) :: o in Footprint(t.kids[p]) || o >= |img|
    ensures Footprint(x) !! Footprint(t.kids[j])
  {
    var Fp, Fj := Footprint(t.kids[p]), Footprint(t.kids[j]);
    assert Fp !! Fj by {
      if p < j {
        assert Footprint(t.kids[p]) !! Footprint(t.kids[j]);
      } else {
        assert Footprint(t.kids[j]) !! Footprint(t.kids[p]);
      }
    }
    KidFootprintIncluded(t, j);
    forall o | o in Fj
      ensures o !in Footprint(x)
    {
      assert o < |img|;
    }
  }

  lemma WithKidDisjoint(img: seq<byte>, t: Tree, p: nat, x: Tree)
    requires Stored(img, t) && Disjoint(t) && p < |t.kids| && Disjoint(x)
    requires forall o | o in Footprint(x) :: o in Footprint(t.kids[p]) || o >= |img|
    ensures Disjoint(WithKid(t, p, x))
  {
    var t' := WithKid(t, p, x);
    FootprintBelow(img, t);
    assert t.off !in Footprint(x) by {
      assert t.off < |img|;
      assert t.off !in Footprint(t.kids[p]);
    }
    forall a, b | 0 <= a < b < |t'.kids|
      ensures Footprint(t'.kids[a]) !! Footprint(t'.kids[b])
    {
      if a == p {
        NewKidApart(img, t, p, x, b);
      } else if b == p {
        NewKidApart(img, t, p, x, a);
      }
    }
  }

  lemma WithKidFootprint(img: seq<byte>, t: Tree, p: nat, x: Tree)
    requires p < |t.kids|
    requires forall o | o in Footprint(x) :: o in Footprint(t.kids[p]) || o >= |img|
    ensures forall o | o in Footprint(WithKid(t, p, x)) :: o in Footprint(t) || o >= |img|
  {
    var t' := WithKid(t, p, x);
    forall o | o in Footprint(t') && o != t.off
      ensures o in Footprint(t) || o >= |img|
    {
      var j := FootprintCases(t', o);
      KidFootprintIncluded(t, j);
    }
  }

  lemma WithKidEntries(t: Tree, p: nat, x: Tree)
    requires p < |t.kids|
    ensures Entries(WithKid(t, p, x)) + Entries(t.kids[p]) == Entries(t) + Entries(x)
  {
    var B, K, K', T := Bag(t.node), KidsEntries(t.kids), KidsEntries(t.kids[p := x]), Entries(t.kids[p]);
    KidsEntriesUpdate(t.kids, p, x);
    assert K' + T == K + Entries(x);
    calc {
      Entries(WithKid(t, p, x)) + T;
      B + K' + T;
      B + (K' + T);
      B + (K + Entries(x));
      Entries(t) + Entries(x);
    }
  }

  // ---------------------------------------------------------------------
  // Splitting a full child: `split_child`

  /** A subtree whose root node is full and whose subtrees match its child offsets. */
  ghost predicate FullKid(c: Tree)
  {
    Full(c.node) && |c.kids| == |c.node.children|
  }

  /** The subtrees that stay with the split child. */
  function LeftKids(c: Tree): seq<Tree>
    requires FullKid(c)
  {
    if c.node.isLeaf then [] else c.kids[..MID + 1]
  }

  /** The subtrees that move to the new node. */
  function RightKids(c: Tree): seq<Tree>
    requires FullKid(c)
  {
    if c.node.isLeaf then [] else c.kids[MID + 1..]
  }

  /** The split child after the split: it keeps its block. */
  function LeftHalf(c: Tree): Tree
    requires FullKid(c)
  {
    Tree(c.off, SplitLeft(c.node), LeftKids(c))
  }

  /** The new node, in the block at newOff. */
  function RightHalf(c: Tree, newOff: u64): Tree
    requires FullKid(c)
  {
    Tree(newOff, SplitRight(c.node), RightKids(c))
  }

  /** What `split_child` needs of the node it runs on and its full child i. */
  ghost predicate CanSplit(t: Tree, i: nat)
  {
    && WellFormed(t.node) && !t.node.isLeaf && |t.node.keys| < MAX_KEYS
    && i < |t.kids| && |t.kids| == |t.node.children| && FullKid(t.kids[i])
  }

  /**
   * The tree after `split_child(i, child)` on the root node of t: the median
   * moves up into the root node, the child keeps its lower half, and the
   * upper half becomes the new subtree i + 1 at newOff.
   */
  function SplitTree(t: Tree, i: nat, newOff: u64): (t1: Tree)
    requires CanSplit(t, i)
    ensures |t1.kids| == |t.kids| + 1
  {
    var c := t.kids[i];
    Tree(t.off, SplitParent(t.node, i, c.node, newOff), InsertAt(t.kids[i := LeftHalf(c)], i + 1, RightHalf(c, newOff)))
  }

  /**
   * A split keeps every node below the root at least MID keys full: the
   * halves of the full child get MID keys each, and the subtrees they take
   * are subtrees of the child.
   */
  lemma SplitTreeFilled(t: Tree, i: nat, newOff: u64)
    requires CanSplit(t, i) && Filled(t)
    ensures Filled(SplitTree(t, i, newOff))
  {
    var c := t.kids[i];
    assert FilledKid(t, i);
    assert Filled(c);
    assert Filled(LeftHalf(c)) by {
      forall j | 0 <= j < |LeftKids(c)| ensures FilledKid(LeftHalf(c), j) {
        assert LeftKids(c)[j] == c.kids[j] && FilledKid(c, j);
      }
    }
    assert Filled(RightHalf(c, newOff)) by {
      forall j | 0 <= j < |RightKids(c)| ensures FilledKid(RightHalf(c, newOff), j) {
        assert RightKids(c)[j] == c.kids[j + MID + 1] && FilledKid(c, j + MID + 1);
      }
    }
    forall j | 0 <= j < |t.kids| + 1 ensures FilledKid(SplitTree(t, i, newOff), j) {
      SplitKidsAt(t, i, newOff, j);
      if j < i {
        assert FilledKid(t, j);
      } else if i + 1 < j {
        assert FilledKid(t, j - 1);
      }
    }
  }

  lemma SplitKidsAt(t: Tree, i: nat, newOff: u64, j: nat)
    requires CanSplit(t, i) && j < |t.kids| + 1
    ensures SplitTree(t, i, newOff).kids[j] ==
              if j < i then t.kids[j]
              else if j == i then LeftHalf(t.kids[i])
              else if j == i + 1 then RightHalf(t.kids[i], newOff)
              else t.kids[j - 1]
  {
  }

  lemma HalvesShape(c: Tree, h: nat, newOff: u64)
    requires FullKid(c) && Shape(c, h)
    ensures Shape(LeftHalf(c), h) && Shape(RightHalf(c, newOff), h)
  {
  }

  lemma HalvesFootprint(c: Tree, newOff: u64)
    requires FullKid(c)
    ensures Footprint(LeftHalf(c)) <= Footprint(c)
    ensures Footprint(RightHalf(c, newOff)) <= Footprint(c) + {newOff as int}
    ensures Footprint(LeftHalf(c)) + Footprint(RightHalf(c, newOff)) == Footprint(c) + {newOff as int}
  {
    var L, R := LeftHalf(c), RightHalf(c, newOff);
    if !c.node.isLeaf {
      forall o | o in KidsFootprint(c)
        ensures o in KidsFootprint(L) || o in KidsFootprint(R)
      {
        var j := FootprintCases(c, o);
        if j <= MID {
          assert L.kids[j] == c.kids[j];
        } else {
          assert R.kids[j - MID - 1] == c.kids[j];
        }
      }
    }
  }

  /** The subtrees of a stored tree stay stored when only blocks outside them change. */
  lemma KidsFrame(img: seq<byte>, img': seq<byte>, c: Tree, W: set<int>)
    requires Stored(img, c) && Preserves(img, img', W) && KidsFootprint(c) !! W
    ensures forall j | 0 <= j < |c.kids| :: Stored(img', c.kids[j])
  {
    forall j | 0 <= j < |c.kids|
      ensures Stored(img', c.kids[j])
    {
      assert Footprint(c.kids[j]) <= KidsFootprint(c);
      StoredFrame(img, img', W, c.kids[j]);
    }
  }

  lemma LeftHalfStored(img': seq<byte>, c: Tree)
    requires FullKid(c) && IsBlock(img', c.off) && NodeAt(img', c.off) == Some(SplitLeft(c.node))
    requires forall j | 0 <= j < |c.kids| :: Stored(img', c.kids[j])
    ensures Stored(img', LeftHalf(c))
  {
    var L := LeftHalf(c);
    assert forall j | 0 <= j < |L.kids| :: L.kids[j] == c.kids[j];
  }

  lemma RightHalfStored(img': seq<byte>, c: Tree, newOff: u64)
    requires FullKid(c) && IsBlock(img', newOff) && NodeAt(img', newOff) == Some(SplitRight(c.node))
    requires forall j | 0 <= j < |c.kids| :: Stored(img', c.kids[j])
    ensures Stored(img', RightHalf(c, newOff))
  {
    var R := RightHalf(c, newOff);
    assert forall j | 0 <= j < |R.kids| :: R.kids[j] == c.kids[j + MID + 1];
  }

  lemma LeftHalfDisjoint(c: Tree)
    requires FullKid(c) && Disjoint(c)
    ensures Disjoint(LeftHalf(c))
  {
    var L := LeftHalf(c);
    assert forall j | 0 <= j < |L.kids| :: L.kids[j] == c.kids[j];
  }

  /** The new block lies past every block of the split child, so the new node's subtrees do not contain it. */
  lemma RightHalfDisjoint(c: Tree, newOff: u64, bound: int)
    requires FullKid(c) && Disjoint(c)
    requires forall o | o in Footprint(c) :: o < bound
    requires newOff >= bound
    ensures Disjoint(RightHalf(c, newOff))
  {
    var R := RightHalf(c, newOff);
    forall j | 0 <= j < |R.kids|
      ensures R.kids[j] == c.kids[j + MID + 1] && newOff !in Footprint(R.kids[j])
    {
      KidFootprintIncluded(c, j + MID + 1);
    }
  }

  lemma HalfApartAt(c: Tree, newOff: u64, bound: int, o: int, b: nat)
    requires FullKid(c) && !c.node.isLeaf && RootApart(c)
    requires o in Footprint(LeftHalf(c)) && b < |RightKids(c)|
    ensures o !in Footprint(RightKids(c)[b])
  {
    var k := b + MID + 1;
    assert RightKids(c)[b] == c.kids[k];
    if o != c.off {
      var a := FootprintCases(LeftHalf(c), o);
      assert LeftKids(c)[a] == c.kids[a];
      assert Footprint(c.kids[a]) !! Footprint(c.kids[k]);
    }
  }

  /** The two halves share no block. */
  lemma HalvesApart(c: Tree, newOff: u64, bound: int)
    requires FullKid(c) && RootApart(c)
    requires forall o | o in Footprint(c) :: o < bound
    requires newOff >= bound
    ensures Footprint(LeftHalf(c)) !! Footprint(RightHalf(c, newOff))
  {
    HalvesFootprint(c, newOff);
    var L, R := LeftHalf(c), RightHalf(c, newOff);
    forall o | o in Footprint(L)
      ensures o !in Footprint(R)
    {
      assert o != newOff;
      if !c.node.isLeaf {
        forall b | 0 <= b < |R.kids|
          ensures o !in Footprint(R.kids[b])
        {
          HalfApartAt(c, newOff, bound, o, b);
        }
      }
    }
  }

  lemma LeftHalfOrdered(c: Tree, lo: int, hi: int)
    requires FullKid(c) && Ordered(c, lo, hi)
    ensures Ordered(LeftHalf(c), lo, c.node.keys[MID])
  {
    var L, ks := LeftHalf(c), c.node.keys;
    SplitHalvesSorted(c.node);
    forall j | 0 <= j < |L.kids|
      ensures Ordered(L.kids[j], KidLo(L.node.keys, j, lo), KidHi(L.node.keys, j, ks[MID]))
    {
      assert L.kids[j] == c.kids[j];
      assert KidLo(L.node.keys, j, lo) == KidLo(ks, j, lo);
      assert KidHi(L.node.keys, j, ks[MID]) == KidHi(ks, j, hi);
    }
  }

  lemma RightHalfOrdered(c: Tree, newOff: u64, lo: int, hi: int)
    requires FullKid(c) && Ordered(c, lo, hi)
    ensures Ordered(RightHalf(c, newOff), c.node.keys[MID], hi)
  {
    var R, ks := RightHalf(c, newOff), c.node.keys;
    SplitHalvesSorted(c.node);
    forall j | 0 <= j < |R.kids|
      ensures Ordered(R.kids[j], KidLo(R.node.keys, j, ks[MID]), KidHi(R.node.keys, j, hi))
    {
      var k := j + MID + 1;
      assert R.kids[j] == c.kids[k];
      assert KidLo(R.node.keys, j, ks[MID]) == KidLo(ks, k, lo);
      assert KidHi(R.node.keys, j, hi) == KidHi(ks, k, hi);
    }
  }

  /** The bounds of subtree j after the split, in terms of the bounds before it. */
  lemma SplitBounds(t: Tree, i: nat, newOff: u64, lo: int, hi: int, j: nat)
    requires CanSplit(t, i) && j < |t.kids| + 1
    ensures var ks, ks1 := t.node.keys, SplitTree(t, i, newOff).node.keys;
            var m := t.kids[i].node.keys[MID];
            && (j < i ==> KidLo(ks1, j, lo) == KidLo(ks, j, lo) && KidHi(ks1, j, hi) == KidHi(ks, j, hi))
            && (j == i ==> KidLo(ks1, j, lo) == KidLo(ks, i, lo) && KidHi(ks1, j, hi) == m)
            && (j == i + 1 ==> KidLo(ks1, j, lo) == m && KidHi(ks1, j, hi) == KidHi(ks, i, hi))
            && (j > i + 1 ==> KidLo(ks1, j, lo) == KidLo(ks, j - 1, lo) && KidHi(ks1, j, hi) == KidHi(ks, j - 1, hi))
  {
  }

  lemma SplitTreeOrdered(t: Tree, i: nat, newOff: u64, lo: int, hi: int)
    requires CanSplit(t, i) && Ordered(t, lo, hi)
    ensures Ordered(SplitTree(t, i, newOff), lo, hi)
  {
    var c, ks := t.kids[i], t.node.keys;
    var t1 := SplitTree(t, i, newOff);
    var loC, hiC := KidLo(ks, i, lo), KidHi(ks, i, hi);
    var m := c.node.keys[MID];
    assert loC < m < hiC;
    SplitParentSorted(t.node, i, c.node, newOff);
    assert forall k | 0 <= k < |t1.node.keys| :: lo < t1.node.keys[k] < hi;
    LeftHalfOrdered(c, loC, hiC);
    RightHalfOrdered(c, newOff, loC, hiC);
    forall j | 0 <= j < |t1.kids|
      ensures Ordered(t1.kids[j], KidLo(t1.node.keys, j, lo), KidHi(t1.node.keys, j, hi))
    {
      SplitKidsAt(t, i, newOff, j);
      SplitBounds(t, i, newOff, lo, hi, j);
    }
  }

  lemma SplitTreeShape(t: Tree, i: nat, newOff: u64, h: nat)
    requires CanSplit(t, i) && Shape(t, h)
    ensures Shape(SplitTree(t, i, newOff), h)
  {
    var t1 := SplitTree(t, i, newOff);
    HalvesShape(t.kids[i], h - 1, newOff);
    forall j | 0 <= j < |t1.kids|
      ensures t1.kids[j].off == t1.node.children[j] && Shape(t1.kids[j], h - 1)
    {
      SplitKidsAt(t, i, newOff, j);
    }
  }

  lemma HalvesEntries(c: Tree, newOff: u64)
    requires FullKid(c)
    ensures Entries(LeftHalf(c)) + Entries(RightHalf(c, newOff)) ==
            Bag(SplitLeft(c.node)) + Bag(SplitRight(c.node)) + KidsEntries(c.kids)
  {
    if c.node.isLeaf {
      assert c.kids == [];
    } else {
      assert c.kids == LeftKids(c) + RightKids(c);
    }
    KidsEntriesAppend(LeftKids(c), RightKids(c));
  }

  lemma SplitTreeEntries(t: Tree, i: nat, newOff: u64)
    requires CanSplit(t, i)
    ensures Entries(SplitTree(t, i, newOff)) == Entries(t)
  {
    var c := t.kids[i];
    var L, R := LeftHalf(c), RightHalf(c, newOff);
    var P := SplitParent(t.node, i, c.node, newOff);
    var kidsL := t.kids[i := L];
    var E1, EL, ER, Ec := Entries(SplitTree(t, i, newOff)), Entries(L), Entries(R), Entries(c);
    var K, KL := KidsEntries(t.kids), KidsEntries(kidsL);
    assert E1 == Bag(P) + (KL + ER) by {
      KidsEntriesInsert(kidsL, i + 1, R);
    }
    assert KL + Ec == K + EL by {
      KidsEntriesUpdate(t.kids, i, L);
    }
    assert EL + ER == Bag(L.node) + Bag(R.node) + KidsEntries(c.kids) by {
      HalvesEntries(c, newOff);
    }
    assert Bag(P) + Bag(L.node) + Bag(R.node) == Bag(t.node) + Bag(c.node) by {
      SplitBags(t.node, i, c.node, newOff);
    }
    assert Ec == Bag(c.node) + KidsEntries(c.kids);
    assert Entries(t) == Bag(t.node) + K;
    calc {
      E1 + Ec;
      Bag(P) + (KL + Ec) + ER;
      Bag(P) + K + (EL + ER);
      (Bag(P) + Bag(L.node) + Bag(R.node)) + K + KidsEntries(c.kids);
      Bag(t.node) + K + (Bag(c.node) + KidsEntries(c.kids));
      Entries(t) + Ec;
    }
    Cancel(E1, Entries(t), Ec);
  }

  lemma Cancel<T>(a: multiset<T>, b: multiset<T>, c: multiset<T>)
    requires a + c == b + c
    ensures a == b
  {
    assert forall x :: (a + c)[x] == a[x] + c[x] && (b + c)[x] == b[x] + c[x];
  }

  lemma SplitTreeFootprint(t: Tree, i: nat, newOff: u64)
    requires CanSplit(t, i)
    ensures Footprint(SplitTree(t, i, newOff)) <= Footprint(t) + {newOff as int}
  {
    var t1 := SplitTree(t, i, newOff);
    HalvesFootprint(t.kids[i], newOff);
    KidFootprintIncluded(t, i);
    forall o | o in Footprint(t1) && o != t.off
      ensures o in Footprint(t) + {newOff as int}
    {
      var j := FootprintCases(t1, o);
      SplitKidsAt(t, i, newOff, j);
      if j < i {
        KidFootprintIncluded(t, j);
      } else if j > i + 1 {
        KidFootprintIncluded(t, j - 1);
      }
    }
  }

  /**
   * `split_child` writes the shortened child, the new node and the parent:
   * if those three blocks load as the split nodes and nothing else changed,
   * the split tree is stored.
   */
  lemma SplitTreeStored(img: seq<byte>, img': seq<byte>, t: Tree, i: nat, newOff: u64)
    requires CanSplit(t, i) && RootApart(t) && RootApart(t.kids[i])
    requires IsBlock(img, t.off) && forall j | 0 <= j < |t.kids| :: Stored(img, t.kids[j])
    requires Preserves(img, img', {t.off as int, t.kids[i].off as int})
    requires NodeAt(img', t.kids[i].off) == Some(SplitLeft(t.kids[i].node))
    requires IsBlock(img', newOff) && NodeAt(img', newOff) == Some(SplitRight(t.kids[i].node))
    requires NodeAt(img', t.off) == Some(SplitParent(t.node, i, t.kids[i].node, newOff))
    ensures Stored(img', SplitTree(t, i, newOff))
  {
    var c := t.kids[i];
    var W: set<int> := {t.off as int, c.off as int};
    var t1 := SplitTree(t, i, newOff);
    forall j | 0 <= j < |t.kids| && j != i
      ensures Stored(img', t.kids[j])
    {
      assert c.off in Footprint(c);
      assert Footprint(t.kids[j]) !! Footprint(c);
      StoredFrame(img, img', W, t.kids[j]);
    }
    assert KidsFootprint(c) <= Footprint(c);
    assert c.off !in KidsFootprint(c);
    KidsFrame(img, img', c, W);
    LeftHalfStored(img', c);
    RightHalfStored(img', c, newOff);
    forall j | 0 <= j < |t1.kids|
      ensures Stored(img', t1.kids[j])
    {
      SplitKidsAt(t, i, newOff, j);
    }
  }

  lemma SplitPairApart(t: Tree, i: nat, newOff: u64, bound: int, a: nat, b: nat)
    requires CanSplit(t, i) && RootApart(t) && RootApart(t.kids[i])
    requires forall o | o in Footprint(t) :: o < bound
    requires newOff >= bound && a < b < |t.kids| + 1
    ensures Footprint(SplitTree(t, i, newOff).kids[a]) !! Footprint(SplitTree(t, i, newOff).kids[b])
  {
    var c := t.kids[i];
    SplitKidsAt(t, i, newOff, a);
    SplitKidsAt(t, i, newOff, b);
    HalvesFootprint(c, newOff);
    KidFootprintIncluded(t, i);
    if a == i && b == i + 1 {
      HalvesApart(c, newOff, bound);
    } else if a == i || a == i + 1 || b == i || b == i + 1 {
      var other := if b < i then b else if a < i then a else b - 1;
      KidFootprintIncluded(t, other);
      assert Footprint(c) !! Footprint(t.kids[other]);
    }
  }

  lemma SplitTreeDisjoint(t: Tree, i: nat, newOff: u64, bound: int)
    requires CanSplit(t, i) && Disjoint(t)
    requires forall o | o in Footprint(t) :: o < bound
    requires newOff >= bound
    ensures Disjoint(SplitTree(t, i, newOff))
  {
    var c := t.kids[i];
    var t1 := SplitTree(t, i, newOff);
    KidFootprintIncluded(t, i);
    HalvesFootprint(c, newOff);
    LeftHalfDisjoint(c);
    RightHalfDisjoint(c, newOff, bound);
    forall j | 0 <= j < |t1.kids|
      ensures t.off !in Footprint(t1.kids[j]) && Disjoint(t1.kids[j])
    {
      SplitKidsAt(t, i, newOff, j);
    }
    forall a, b | 0 <= a < b < |t1.kids|
      ensures Footprint(t1.kids[a]) !! Footprint(t1.kids[b])
    {
      SplitPairApart(t, i, newOff, bound, a, b);
    }
  }
}
