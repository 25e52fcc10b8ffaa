/**
 * What `insert_non_full` and `split_child` do to the lists of one node, as
 * values: the position the backward scan stops at, the leaf insertion, and
 * the three nodes a split produces. The methods of the BTree module compute
 * these in place; the lemmas here say why the results keep keys sorted and
 * keep every (key, value) pair.
 */
module NodeOps {
  import opened Bytes
  import opened NodeCodec

  /** `list.insert(p, x)` at a position inside the list or at its end. */
  function InsertAt<T>(s: seq<T>, p: nat, x: T): (r: seq<T>)
    requires p <= |s|
    ensures |r| == |s| + 1 && r[p] == x
    ensures forall i | 0 <= i < p :: r[i] == s[i]
    ensures forall i | p < i < |r| :: r[i] == s[i - 1]
  {
    s[..p] + [x] + s[p..]
  }

  lemma InsertAtMultiset<T>(s: seq<T>, p: nat, x: T)
    requires p <= |s|
    ensures multiset(InsertAt(s, p, x)) == multiset(s) + multiset{x}
  {
    assert s == s[..p] + s[p..];
  }

  /** Strictly ascending: the order a B-tree keeps its keys in, with no key twice. */
  predicate Sorted(ks: seq<int>)
  {
    forall a, b | 0 <= a < b < |ks| :: ks[a] < ks[b]
  }

  /**
   * Where the backward scans of `insert_non_full` end (`i + 1` once
   * `key < keys[i]` fails or i drops below 0): every key from there on is
   * greater than key, and the key just before, if any, is not.
   */
  function UpperPos(ks: seq<int>, key: int): (p: nat)
    ensures p <= |ks|
    ensures forall i | p <= i < |ks| :: key < ks[i]
    ensures p > 0 ==> ks[p - 1] <= key
  {
    if ks == [] then 0
    else if key < ks[|ks| - 1] then UpperPos(ks[..|ks| - 1], key)
    else |ks|
  }

  /** The scan position is the only position with the two properties UpperPos ensures. */
  lemma UpperPosUnique(ks: seq<int>, key: int, p: nat)
    requires p <= |ks|
    requires forall i | p <= i < |ks| :: key < ks[i]
    requires p > 0 ==> ks[p - 1] <= key
    ensures UpperPos(ks, key) == p
  {
  }

  /**
   * On sorted keys the scan position splits the keys at most key from the
   * greater ones, so key is present exactly when it sits just before that
   * position: the duplicate test of the leaf branch is complete.
   */
  lemma UpperPosSorted(ks: seq<int>, key: int)
    requires Sorted(ks)
    ensures forall i | 0 <= i < UpperPos(ks, key) :: ks[i] <= key
    ensures key in ks <==> UpperPos(ks, key) > 0 && ks[UpperPos(ks, key) - 1] == key
  {
    var p := UpperPos(ks, key);
    if key in ks {
      var j :| 0 <= j < |ks| && ks[j] == key;
      assert j < p;
    }
  }

  /** Inserting an absent key at its scan position keeps a sorted list sorted. */
  lemma InsertSorted(ks: seq<int>, key: int)
    requires Sorted(ks) && key !in ks
    ensures Sorted(InsertAt(ks, UpperPos(ks, key), key))
  {
    UpperPosSorted(ks, key);
  }

  /** The (key, value) pairs of a node, position by position. */
  function Pairs(keys: seq<int>, values: seq<int>): (r: seq<(int, int)>)
    ensures |r| == Min(|keys|, |values|)
    ensures forall i | 0 <= i < |r| :: r[i] == (keys[i], values[i])
  {
    seq(Min(|keys|, |values|), i requires 0 <= i < Min(|keys|, |values|) => (keys[i], values[i]))
  }

  lemma PairsInsert(ks: seq<int>, vs: seq<int>, p: nat, k: int, v: int)
    requires |ks| == |vs| && p <= |ks|
    ensures Pairs(InsertAt(ks, p, k), InsertAt(vs, p, v)) == InsertAt(Pairs(ks, vs), p, (k, v))
  {
  }

  lemma PairsSlice(ks: seq<int>, vs: seq<int>, a: nat, b: nat)
    requires |ks| == |vs| && a <= b <= |ks|
    ensures Pairs(ks[a..b], vs[a..b]) == Pairs(ks, vs)[a..b]
  {
  }

  /** The pairs of a node as a bag. */
  function Bag(n: Node): multiset<(int, int)>
  {
    multiset(Pairs(n.keys, n.values))
  }

  /**
   * The node the leaf branch of `insert_non_full` saves when key is not a
   * duplicate: key and value at the scan position.
   */
  function LeafInsert(n: Node, key: u32, value: u32): (r: Node)
    requires WellFormed(n) && n.isLeaf
    ensures WellFormed(r) && r.isLeaf
    ensures |r.keys| == |n.keys| + 1
  {
    var p := UpperPos(n.keys, key);
    Node(true, InsertAt(n.keys, p, key), InsertAt(n.values, p, value), [])
  }

  /** A leaf insertion keeps the keys sorted and adds exactly the new pair. */
  lemma LeafInsertCorrect(n: Node, key: u32, value: u32)
    requires WellFormed(n) && n.isLeaf
    ensures Sorted(n.keys) && key !in n.keys ==> Sorted(LeafInsert(n, key, value).keys)
    ensures Bag(LeafInsert(n, key, value)) == Bag(n) + multiset{(key as int, value as int)}
  {
    var p := UpperPos(n.keys, key);
    if Sorted(n.keys) && key !in n.keys {
      InsertSorted(n.keys, key);
    }
    PairsInsert(n.keys, n.values, p, key, value);
    InsertAtMultiset(Pairs(n.keys, n.values), p, (key as int, value as int));
  }

  /**
   * The lists of a leaf once the shifting loop of `insert_non_full` has run
   * down to position p: a 0 was appended and everything from p on moved one
   * place right, so slot p still holds the entry that was there (or the
   * appended 0 when p is the end).
   */
  function Shifted(s: seq<u32>, p: nat): (r: seq<u32>)
    requires p <= |s|
    ensures |r| == |s| + 1
  {
    InsertAt(s, p, if p < |s| then s[p] else 0)
  }

  /** Before the loop: the appended 0 is the open slot at the end. */
  lemma ShiftedEnd(s: seq<u32>)
    ensures Shifted(s, |s|) == s + [0]
  {
  }

  /** Filling the open slot gives the list with x inserted. */
  lemma ShiftedFill(s: seq<u32>, p: nat, x: u32)
    requires p <= |s|
    ensures Shifted(s, p)[p := x] == InsertAt(s, p, x)
  {
  }

  /** Removing the open slot gives the list back. */
  lemma ShiftedRemove(s: seq<u32>, p: nat)
    requires p <= |s|
    ensures Shifted(s, p)[..p] + Shifted(s, p)[p + 1..] == s
  {
    assert s == s[..p] + s[p..];
  }

  /**
   * One step of the loop, on r holding s with slot i + 1 open: slot i still
   * holds the entry of s, and copying it into slot i + 1 opens slot i.
   */
  lemma ShiftedStep(s: seq<u32>, i: nat, r: seq<u32>)
    requires i < |s| && r == Shifted(s, i + 1)
    ensures r[i] == s[i]
    ensures r[i + 1 := r[i]] == Shifted(s, i)
  {
    var r' := Shifted(s, i);
    assert |r[i + 1 := r[i]]| == |r'|;
    forall j | 0 <= j < |r'|
      ensures r[i + 1 := r[i]][j] == r'[j]
    {
    }
  }

  /**
   * The leaf branch on a sorted leaf: the entry just left of the open slot
   * is the key exactly when the key is present, and otherwise filling the
   * slot gives the leaf insertion.
   */
  lemma ShiftedLeaf(n: Node, key: u32, value: u32)
    requires WellFormed(n) && n.isLeaf && Sorted(n.keys)
    ensures var p := UpperPos(n.keys, key);
      && (key in n.keys <==> p > 0 && Shifted(n.keys, p)[p - 1] == key)
      && (key !in n.keys ==>
            Node(true, Shifted(n.keys, p)[p := key], Shifted(n.values, p)[p := value], n.children)
            == LeafInsert(n, key, value))
  {
    var p := UpperPos(n.keys, key);
    UpperPosSorted(n.keys, key);
    if p > 0 {
      ShiftedStep(n.keys, p - 1, Shifted(n.keys, p));
    }
    ShiftedFill(n.keys, p, key);
    ShiftedFill(n.values, p, value);
  }

  /**
   * As written, the duplicate branch returns with the shifted lists still in
   * the node object: inserting 3 into a leaf holding 1, 3, 5 leaves 1, 3, 5, 5
   * in memory while the file still holds 1, 3, 5.
   */
  lemma DuplicateLeavesShiftedKeys()
    ensures UpperPos([1, 3, 5], 3) == 2
    ensures Shifted([1, 3, 5], UpperPos([1, 3, 5], 3)) == [1, 3, 5, 5]
  {
    assert UpperPos([1, 3], 3) == 2;
    assert [1, 3, 5][..2] == [1, 3];
  }

  /** Index of the median key of a full node (`mid = MIN_DEGREE - 1`). */
  const MID: nat := MIN_DEGREE - 1

  /** A node holding MAX_KEYS keys, the only kind `split_child` is called on. */
  predicate Full(c: Node)
  {
    WellFormed(c) && |c.keys| == MAX_KEYS
  }

  /** The split child keeps the keys and values before the median and, if internal, the children up to it. */
  function SplitLeft(c: Node): (l: Node)
    requires Full(c)
    ensures WellFormed(l) && l.isLeaf == c.isLeaf && |l.keys| == MID
  {
    Node(c.isLeaf, c.keys[..MID], c.values[..MID], if c.isLeaf then [] else c.children[..MID + 1])
  }

  /** The new node gets the keys and values after the median and, if internal, the children after it. */
  function SplitRight(c: Node): (r: Node)
    requires Full(c)
    ensures WellFormed(r) && r.isLeaf == c.isLeaf && |r.keys| == MAX_KEYS - MID - 1
  {
    Node(c.isLeaf, c.keys[MID + 1..], c.values[MID + 1..], if c.isLeaf then [] else c.children[MID + 1..])
  }

  /** The parent gets the median pair at index and the new node's offset just after the split child. */
  function SplitParent(x: Node, index: nat, c: Node, newOff: u64): (r: Node)
    requires WellFormed(x) && !x.isLeaf && index <= |x.keys| && Full(c)
    ensures WellFormed(r) && !r.isLeaf && |r.keys| == |x.keys| + 1
    ensures r.children[index + 1] == newOff
    ensures forall j | 0 <= j <= index :: r.children[j] == x.children[j]
    ensures forall j | index + 1 < j < |r.children| :: r.children[j] == x.children[j - 1]
  {
    Node(false, InsertAt(x.keys, index, c.keys[MID]), InsertAt(x.values, index, c.values[MID]),
         InsertAt(x.children, index + 1, newOff))
  }

  lemma SplitLeftBag(c: Node)
    requires Full(c)
    ensures Bag(SplitLeft(c)) == multiset(Pairs(c.keys, c.values)[..MID])
  {
    PairsSlice(c.keys, c.values, 0, MID);
    assert c.keys[0..MID] == c.keys[..MID] && c.values[0..MID] == c.values[..MID];
  }

  lemma SplitRightBag(c: Node)
    requires Full(c)
    ensures Bag(SplitRight(c)) == multiset(Pairs(c.keys, c.values)[MID + 1..])
  {
    PairsSlice(c.keys, c.values, MID + 1, MAX_KEYS);
    assert c.keys[MID + 1..MAX_KEYS] == c.keys[MID + 1..] && c.values[MID + 1..MAX_KEYS] == c.values[MID + 1..];
    assert Pairs(c.keys, c.values)[MID + 1..MAX_KEYS] == Pairs(c.keys, c.values)[MID + 1..];
  }

  lemma SplitParentBag(x: Node, index: nat, c: Node, newOff: u64)
    requires WellFormed(x) && !x.isLeaf && index <= |x.keys| && Full(c)
    ensures Bag(SplitParent(x, index, c, newOff)) == Bag(x) + multiset{(c.keys[MID] as int, c.values[MID] as int)}
  {
    PairsInsert(x.keys, x.values, index, c.keys[MID], c.values[MID]);
    InsertAtMultiset(Pairs(x.keys, x.values), index, (c.keys[MID] as int, c.values[MID] as int));
  }

  lemma SeqAroundMultiset<T>(s: seq<T>, i: nat)
    requires i < |s|
    ensures multiset(s) == multiset(s[..i]) + multiset{s[i]} + multiset(s[i + 1..])
  {
    assert s == s[..i] + [s[i]] + s[i + 1..];
  }

  /**
   * A split moves pairs without losing or duplicating any: the parent gains
   * the median, and the two halves hold the rest of the child's pairs.
   */
  lemma SplitBags(x: Node, index: nat, c: Node, newOff: u64)
    requires WellFormed(x) && !x.isLeaf && index <= |x.keys| && Full(c)
    ensures Bag(SplitParent(x, index, c, newOff)) + Bag(SplitLeft(c)) + Bag(SplitRight(c)) == Bag(x) + Bag(c)
  {
    SplitLeftBag(c);
    SplitRightBag(c);
    SplitParentBag(x, index, c, newOff);
    SeqAroundMultiset(Pairs(c.keys, c.values), MID);
  }

  /** Both halves of a sorted full node are sorted and lie on either side of its median. */
  lemma SplitHalvesSorted(c: Node)
    requires Full(c) && Sorted(c.keys)
    ensures Sorted(SplitLeft(c).keys) && Sorted(SplitRight(c).keys)
    ensures forall k | k in SplitLeft(c).keys :: k < c.keys[MID]
    ensures forall k | k in SplitRight(c).keys :: c.keys[MID] < k
  {
  }

  /**
   * The parent stays sorted when the median lies between the keys around
   * the split child, which is what a sorted tree guarantees.
   */
  lemma SplitParentSorted(x: Node, index: nat, c: Node, newOff: u64)
    requires WellFormed(x) && !x.isLeaf && index <= |x.keys| && Full(c)
    requires Sorted(x.keys)
    requires index > 0 ==> x.keys[index - 1] < c.keys[MID]
    requires index < |x.keys| ==> c.keys[MID] < x.keys[index]
    ensures Sorted(SplitParent(x, index, c, newOff).keys)
  {
  }

  /** `s[i]` in Python: None where it raises IndexError. */
  function At<T>(s: seq<T>, i: nat): (r: Option<T>)
    ensures r.Some? <==> i < |s|
  {
    if i < |s| then Some(s[i]) else None
  }

  /**
   * The median pair `split_child` as written reads: it cuts the child down
   * to its first MID keys and values, then reads `child.keys[mid]` and
   * `child.values[mid]` from what is left. None where that raises.
   */
  function SplitMedianAsWritten(c: Node): (r: Option<(u32, u32)>)
    requires Full(c)
  {
    var keys, values := c.keys[..MID], c.values[..MID];
    match (At(keys, MID), At(values, MID))
      case (Some(k), Some(v)) => Some((k, v))
      case _ => None
  }

  /**
   * As written, every split raises IndexError: the child's keys are cut to
   * MID entries before `child.keys[mid]` is read. The new node has already
   * been allocated by then, and nothing is saved.
   */
  lemma SplitAsWrittenAlwaysFails(c: Node)
    requires Full(c)
    ensures SplitMedianAsWritten(c).None?
  {
  }
}
