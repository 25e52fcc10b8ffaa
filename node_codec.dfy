/**
 * The on-disk image of one B-tree node (`BTreeNode.save` and
 * `BTreeNode.load` in project3.py): a one-byte leaf flag, a 4-byte key count,
 * the keys and then the values as 4-byte big-endian words, then, for an
 * internal node, count + 1 child byte offsets as 8-byte big-endian words,
 * zero-padded to one 512-byte block.
 */
module NodeCodec {
  import opened Bytes

  const BLOCK_SIZE: nat := 512
  const MIN_DEGREE: nat := 4
  /** A node holding this many keys is full (`2 * MIN_DEGREE - 1`). */
  const MAX_KEYS: nat := 2 * MIN_DEGREE - 1
  /** Size of the `>?I` prefix: the leaf flag and the key count. */
  const PREFIX_SIZE: nat := 5

  /** The fields of a node that `save` writes and `load` reads back. */
  datatype Node = Node(isLeaf: bool, keys: seq<u32>, values: seq<u32>, children: seq<u64>)

  /** One value per key; no children in a leaf, one more child than keys otherwise. */
  predicate WellFormed(n: Node)
  {
    && |n.values| == |n.keys|
    && if n.isLeaf then n.children == [] else |n.children| == |n.keys| + 1
  }

  /** Number of bytes `save` produces before padding. */
  function ContentSize(n: Node): nat
  {
    PREFIX_SIZE + 4 * |n.keys| + 4 * |n.values| + 8 * |n.children|
  }

  /** Number of bytes `load` consumes for a node with this flag and key count. */
  function LoadSize(isLeaf: bool, count: nat): nat
  {
    PREFIX_SIZE + 8 * count + if isLeaf then 0 else 8 * (count + 1)
  }

  /** A node that is no fuller than the B-tree allows fits a block with room to spare. */
  lemma {:induction false} FullNodeFits(n: Node)
    requires WellFormed(n) && |n.keys| <= MAX_KEYS
    ensures ContentSize(n) <= 125 < BLOCK_SIZE
  {
  }

  /** The w-byte words of xs, one after the other, as the `b''.join(...)` lines of save build them. */
  function Words(xs: seq<int>, w: nat): (r: seq<byte>)
    requires forall i | 0 <= i < |xs| :: 0 <= xs[i] < Pow256(w)
    ensures |r| == w * |xs|
  {
    if xs == [] then [] else ToBE(xs[0], w) + Words(xs[1..], w)
  }

  /**
   * The first n words of width w in s, read back as numbers, as the list
   * comprehensions of load read them.
   */
  function Slots(s: seq<byte>, n: nat, w: nat): (r: seq<nat>)
    requires w * n <= |s|
    ensures |r| == n
    ensures forall i | 0 <= i < n :: r[i] < Pow256(w)
  {
    if n == 0 then [] else [FromBE(s[..w])] + Slots(s[w..], n - 1, w)
  }

  /** Reading back the words that Words wrote gives the numbers, whatever follows them. */
  lemma {:induction false} SlotsOfWords(xs: seq<int>, w: nat, rest: seq<byte>)
    requires forall j | 0 <= j < |xs| :: 0 <= xs[j] < Pow256(w)
    ensures w * |xs| <= |Words(xs, w) + rest|
    ensures Slots(Words(xs, w) + rest, |xs|, w) == xs
  {
    if xs != [] {
      var head, tail := ToBE(xs[0], w), Words(xs[1..], w);
      assert w * |xs| == w + w * (|xs| - 1);
      AppendAssoc(head, tail, rest);
      TakeAppend(head, tail + rest, w);
      DropAppend(head, tail + rest, w);
      FromToBE(xs[0], w);
      SlotsOfWords(xs[1..], w, rest);
      assert xs == [xs[0]] + xs[1..];
    }
  }

  /** The `>?I` prefix: 1 for a leaf and 0 otherwise, then the key count. */
  function Prefix(n: Node): (p: seq<byte>)
    requires |n.keys| < 0x1_0000_0000
    ensures |p| == PREFIX_SIZE
  {
    Pow256Widths();
    [if n.isLeaf then 1 else 0] + ToBE(|n.keys|, 4)
  }

  /** The unpadded bytes that save writes. */
  function Content(n: Node): (c: seq<byte>)
    requires |n.keys| < 0x1_0000_0000
    ensures |c| == ContentSize(n)
  {
    Pow256Widths();
    Prefix(n) + (Words(n.keys, 4) + (Words(n.values, 4) + Words(n.children, 8)))
  }

  /**
   * The block that save writes: the content, then zeros up to BLOCK_SIZE. A
   * node whose content exceeds BLOCK_SIZE is written unpadded and so runs
   * into the next block.
   */
  function Encode(n: Node): (block: seq<byte>)
    requires |n.keys| < 0x1_0000_0000
    ensures |block| == Max(BLOCK_SIZE, ContentSize(n))
  {
    var content := Content(n);
    content + Zeros(if |content| < BLOCK_SIZE then BLOCK_SIZE - |content| else 0)
  }

  /** Every byte of a block after the node's content is zero. */
  lemma EncodePadding(n: Node)
    requires |n.keys| < 0x1_0000_0000
    ensures Encode(n)[..ContentSize(n)] == Content(n)
    ensures forall i | ContentSize(n) <= i < |Encode(n)| :: Encode(n)[i] == 0
  {
  }

  /**
   * The node load builds from the bytes a read returned: any non-zero first
   * byte means a leaf; None where struct.unpack would raise because a field
   * runs past the end of data.
   */
  function Decode(data: seq<byte>): (r: Option<Node>)
    ensures r.Some? ==> WellFormed(r.value) && ContentSize(r.value) <= |data|
    ensures r.Some? ==> r.value.isLeaf == (data[0] != 0) && |r.value.keys| == FromBE(data[1..PREFIX_SIZE])
  {
    if |data| < PREFIX_SIZE then None
    else
      var isLeaf := data[0] != 0;
      var count := FromBE(data[1..PREFIX_SIZE]);
      if LoadSize(isLeaf, count) > |data| then None
      else
        Pow256Widths();
        var keys := Slots(data[PREFIX_SIZE..], count, 4);
        var values := Slots(data[PREFIX_SIZE + 4 * count..], count, 4);
        var children := if isLeaf then [] else Slots(data[PREFIX_SIZE + 8 * count..], count + 1, 8);
        Some(Node(isLeaf, keys, values, children))
  }

  /** What Decode reads from a block whose prefix announces count keys. */
  lemma DecodeFields(data: seq<byte>, isLeaf: bool, count: nat, keys: seq<u32>, values: seq<u32>, children: seq<u64>)
    requires PREFIX_SIZE <= |data| && (data[0] != 0) == isLeaf && FromBE(data[1..PREFIX_SIZE]) == count
    requires LoadSize(isLeaf, count) <= |data|
    requires keys == Slots(data[PREFIX_SIZE..], count, 4)
    requires values == Slots(data[PREFIX_SIZE + 4 * count..], count, 4)
    requires children == if isLeaf then [] else Slots(data[PREFIX_SIZE + 8 * count..], count + 1, 8)
    ensures Decode(data) == Some(Node(isLeaf, keys, values, children))
  {
  }

  /** The zeros that pad a node that fits a block. */
  function Padding(n: Node): (z: seq<byte>)
    requires ContentSize(n) <= BLOCK_SIZE
  {
    Zeros(BLOCK_SIZE - ContentSize(n))
  }

  /** An encoded block is the prefix, the keys, the values, the children and the padding. */
  lemma EncodeFields(n: Node)
    requires WellFormed(n) && ContentSize(n) <= BLOCK_SIZE
    ensures Pow256(4) == 0x1_0000_0000 && Pow256(8) == 0x1_0000_0000_0000_0000
    ensures |Encode(n)| == BLOCK_SIZE
    ensures Encode(n) == Prefix(n) + (Words(n.keys, 4) + (Words(n.values, 4) + (Words(n.children, 8) + Padding(n))))
  {
    Pow256Widths();
    var p, k, v, c, z := Prefix(n), Words(n.keys, 4), Words(n.values, 4), Words(n.children, 8), Padding(n);
    assert Encode(n) == (p + (k + (v + c))) + z;
    AppendAssoc(p, k + (v + c), z);
    AppendAssoc(k, v + c, z);
    AppendAssoc(v, c, z);
  }

  /** The prefix of an encoded block gives back the leaf flag and the key count. */
  lemma EncodePrefix(n: Node)
    requires WellFormed(n) && ContentSize(n) <= BLOCK_SIZE
    ensures |Encode(n)| == BLOCK_SIZE
    ensures (Encode(n)[0] != 0) == n.isLeaf
    ensures FromBE(Encode(n)[1..PREFIX_SIZE]) == |n.keys|
  {
    EncodeFields(n);
    var b := Encode(n);
    var rest := Words(n.keys, 4) + (Words(n.values, 4) + (Words(n.children, 8) + Padding(n)));
    assert b[1..PREFIX_SIZE] == Prefix(n)[1..] == ToBE(|n.keys|, 4);
    FromToBE(|n.keys|, 4);
  }

  /** The keys of an encoded block read back as the node's keys. */
  lemma EncodeKeys(n: Node)
    requires WellFormed(n) && ContentSize(n) <= BLOCK_SIZE
    ensures |Encode(n)| == BLOCK_SIZE
    ensures Slots(Encode(n)[PREFIX_SIZE..], |n.keys|, 4) == n.keys
  {
    EncodeFields(n);
    var rest := Words(n.values, 4) + (Words(n.children, 8) + Padding(n));
    DropAppend(Prefix(n), Words(n.keys, 4) + rest, PREFIX_SIZE);
    SlotsOfWords(n.keys, 4, rest);
  }

  /** The values of an encoded block read back as the node's values. */
  lemma EncodeValues(n: Node)
    requires WellFormed(n) && ContentSize(n) <= BLOCK_SIZE
    ensures |Encode(n)| == BLOCK_SIZE
    ensures Slots(Encode(n)[PREFIX_SIZE + 4 * |n.keys|..], |n.keys|, 4) == n.values
  {
    EncodeFields(n);
    var b := Encode(n);
    var rest := Words(n.children, 8) + Padding(n);
    var tail := Words(n.values, 4) + rest;
    DropAppend(Prefix(n), Words(n.keys, 4) + tail, PREFIX_SIZE);
    DropAppend(Words(n.keys, 4), tail, 4 * |n.keys|);
    DropDrop(b, PREFIX_SIZE, 4 * |n.keys|);
    SlotsOfWords(n.values, 4, rest);
  }

  /** The child offsets of an encoded internal node read back as its children. */
  lemma EncodeChildren(n: Node)
    requires WellFormed(n) && ContentSize(n) <= BLOCK_SIZE
    ensures |Encode(n)| == BLOCK_SIZE
    ensures Slots(Encode(n)[PREFIX_SIZE + 8 * |n.keys|..], |n.children|, 8) == n.children
  {
    EncodeFields(n);
    var b := Encode(n);
    var rest := Words(n.children, 8) + Padding(n);
    var tail := Words(n.values, 4) + rest;
    DropAppend(Prefix(n), Words(n.keys, 4) + tail, PREFIX_SIZE);
    DropAppend(Words(n.keys, 4), tail, 4 * |n.keys|);
    DropAppend(Words(n.values, 4), rest, 4 * |n.keys|);
    DropDrop(b, PREFIX_SIZE, 4 * |n.keys|);
    DropDrop(b, PREFIX_SIZE + 4 * |n.keys|, 4 * |n.keys|);
    SlotsOfWords(n.children, 8, Padding(n));
  }

  /** Round trip: load of the block save wrote gives back every field of the node. */
  lemma DecodeEncode(n: Node)
    requires WellFormed(n) && ContentSize(n) <= BLOCK_SIZE
    ensures |Encode(n)| == BLOCK_SIZE
    ensures Decode(Encode(n)) == Some(n)
  {
    EncodePrefix(n);
    EncodeKeys(n);
    EncodeValues(n);
    EncodeChildren(n);
    DecodeFields(Encode(n), n.isLeaf, |n.keys|, n.keys, n.values, n.children);
  }

  /** Encode is injective on well-formed nodes that fit a block. */
  lemma EncodeInjective(n: Node, m: Node)
    requires WellFormed(n) && ContentSize(n) <= BLOCK_SIZE
    requires WellFormed(m) && ContentSize(m) <= BLOCK_SIZE
    requires Encode(n) == Encode(m)
    ensures n == m
  {
    DecodeEncode(n);
    DecodeEncode(m);
  }
}
