/**
 * The index file as a sequence of 512-byte blocks: block 0 is the header,
 * every later block holds one node at the byte offset `allocate_offset`
 * handed out for it. Reading a node (`load`), writing one (`save`) and
 * appending a fresh block (`allocate_offset`) are stated here on the file
 * image, together with what each leaves untouched.
 */
module BlockFile {
  import opened Bytes
  import opened NodeCodec

  /**
   * Files stay shorter than 2^64 bytes, so every block offset fits the 8-byte
   * child and root fields it is written into.
   */
  const FILE_LIMIT: nat := 0x1_0000_0000_0000_0000

  /** off is the offset of a whole node block of img: past the header, block-aligned, inside the file. */
  predicate IsBlock(img: seq<byte>, off: int)
  {
    BLOCK_SIZE <= off && off % BLOCK_SIZE == 0 && off + BLOCK_SIZE <= |img|
  }

  /** The node that `BTreeNode(manager, offset=off)` loads from img; None where load raises. */
  function NodeAt(img: seq<byte>, off: nat): (r: Option<Node>)
    ensures |img| <= off ==> r.None?
    ensures r.Some? ==> WellFormed(r.value) && ContentSize(r.value) <= BLOCK_SIZE
  {
    DecodedIs(ReadAt(img, off, BLOCK_SIZE), off);
    Decoded(ReadAt(img, off, BLOCK_SIZE), off)
  }

  /**
   * Decode(data), written as a pair of functions that expand into each
   * other, so that the verifier expands the decoding of a block only where a
   * proof asks for it (DecodedIs) and not at every block a tree predicate
   * mentions. Its value is Decode(data) for any fuel (DecodedIs): fuel only
   * limits how far the verifier unfolds the definition, and NodeAt passes
   * the block offset because any number serves.
   */
  function Decoded(data: seq<byte>, fuel: nat): Option<Node>
    decreases fuel, 1
  {
    DecodedStep(data, fuel)
  }

  function DecodedStep(data: seq<byte>, fuel: nat): Option<Node>
    decreases fuel, 0
  {
    if fuel == 0 then Decode(data) else Decoded(data, fuel - 1)
  }

  lemma {:induction false} DecodedIs(data: seq<byte>, fuel: nat)
    ensures Decoded(data, fuel) == Decode(data)
    decreases fuel
  {
    if fuel > 0 {
      DecodedIs(data, fuel - 1);
    }
  }

  /**
   * img' keeps every block of img (the header block at offset 0 included)
   * except those at the offsets in W, and may have grown at the end.
   */
  ghost predicate Preserves(img: seq<byte>, img': seq<byte>, W: set<int>)
  {
    && |img| <= |img'|
    && forall o: nat | o % BLOCK_SIZE == 0 && o + BLOCK_SIZE <= |img| && o !in W ::
         ReadAt(img', o, BLOCK_SIZE) == ReadAt(img, o, BLOCK_SIZE)
  }

  lemma PreservesTrans(img1: seq<byte>, img2: seq<byte>, img3: seq<byte>, W1: set<int>, W2: set<int>)
    requires Preserves(img1, img2, W1) && Preserves(img2, img3, W2)
    ensures Preserves(img1, img3, W1 + W2)
  {
  }

  lemma PreservesWiden(img: seq<byte>, img': seq<byte>, W: set<int>, W': set<int>)
    requires Preserves(img, img', W) && W <= W'
    ensures Preserves(img, img', W')
  {
  }

  /** Blocks that did not exist in img cannot have been overwritten. */
  lemma PreservesIgnoreNew(img: seq<byte>, img': seq<byte>, W: set<int>, V: set<int>)
    requires Preserves(img, img', W + V)
    requires forall o | o in V :: o >= |img|
    ensures Preserves(img, img', W)
  {
  }

  /** A block outside W still holds the node it held. */
  lemma PreservedNode(img: seq<byte>, img': seq<byte>, W: set<int>, off: nat)
    requires Preserves(img, img', W) && IsBlock(img, off) && off !in W
    ensures IsBlock(img', off)
    ensures NodeAt(img', off) == NodeAt(img, off)
  {
  }

  /** Writing one block-aligned block leaves every other block as it was. */
  lemma WriteBlockFrame(img: seq<byte>, off: nat, block: seq<byte>)
    requires IsBlock(img, off) && |block| == BLOCK_SIZE
    ensures Preserves(img, WriteAt(img, off, block), {off})
  {
    forall o: nat | o % BLOCK_SIZE == 0 && o + BLOCK_SIZE <= |img| && o !in {off}
      ensures ReadAt(WriteAt(img, off, block), o, BLOCK_SIZE) == ReadAt(img, o, BLOCK_SIZE)
    {
      assert o + BLOCK_SIZE <= off || off + BLOCK_SIZE <= o;
      ReadAroundWrite(img, off, block, o, BLOCK_SIZE);
    }
  }

  /**
   * `save` of a node that fits a block into a block of the file: the block
   * now loads as that node, the file keeps its length, and no other block
   * changes.
   */
  lemma WriteNode(img: seq<byte>, off: nat, n: Node)
    requires IsBlock(img, off)
    requires WellFormed(n) && |n.keys| <= MAX_KEYS
    ensures |WriteAt(img, off, Encode(n))| == |img|
    ensures NodeAt(WriteAt(img, off, Encode(n)), off) == Some(n)
    ensures Preserves(img, WriteAt(img, off, Encode(n)), {off})
  {
    FullNodeFits(n);
    DecodeEncode(n);
    DecodedIs(ReadAt(WriteAt(img, off, Encode(n)), off, BLOCK_SIZE), off);
    ReadAfterWrite(img, off, Encode(n));
    WriteBlockFrame(img, off, Encode(n));
  }

  /** Writing a node into one block leaves another block and the node it holds as they were. */
  lemma WriteNodeElsewhere(img: seq<byte>, off: nat, n: Node, other: nat)
    requires IsBlock(img, off) && IsBlock(img, other) && other != off
    requires WellFormed(n) && |n.keys| <= MAX_KEYS
    ensures IsBlock(WriteAt(img, off, Encode(n)), other)
    ensures NodeAt(WriteAt(img, off, Encode(n)), other) == NodeAt(img, other)
  {
    WriteNode(img, off, n);
  }

  /** The bytes n more blocks take up. */
  function Room(n: nat): nat
  {
    if n == 0 then 0 else Room(n - 1) + BLOCK_SIZE
  }

  /** Room for a root split, which appends two blocks, and then a descent one level deeper. */
  lemma RoomAhead(n: nat)
    ensures Room(n + 3) == Room(n + 1) + 2 * BLOCK_SIZE
    ensures Room(n) + BLOCK_SIZE <= Room(n + 3)
  {
    assert Room(n + 3) == Room(n + 2) + BLOCK_SIZE;
    assert Room(n + 2) == Room(n + 1) + BLOCK_SIZE;
  }

  /** img' is made of whole blocks and is at most n blocks longer than img. */
  predicate GrewBy(img: seq<byte>, img': seq<byte>, n: nat)
  {
    |img'| % BLOCK_SIZE == 0 && |img'| <= |img| + Room(n)
  }

  /** A file that grew by at most one block has grown by at most h blocks, for any h > 0. */
  lemma GrewWithin(img: seq<byte>, img': seq<byte>, h: nat)
    requires 0 < h && GrewBy(img, img', 1)
    ensures GrewBy(img, img', h)
  {
  }

  /**
   * One block for this level and h - 1 for the levels below: a file with
   * room for h more blocks that grew by one still has room for h - 1, and
   * growing by h - 1 more stays within the h blocks.
   */
  lemma GrewInSteps(img0: seq<byte>, img1: seq<byte>, img2: seq<byte>, h: nat)
    requires 0 < h && GrewBy(img0, img1, 1) && |img0| + Room(h) <= FILE_LIMIT
    ensures |img1| + Room(h - 1) <= FILE_LIMIT
    ensures GrewBy(img1, img2, h - 1) ==> GrewBy(img0, img2, h)
  {
  }

  /** A file of whole blocks stays one after another block is appended. */
  lemma AlignedAfterAppend(n: nat, m: nat)
    requires n % BLOCK_SIZE == 0 && m == n + BLOCK_SIZE
    ensures m % BLOCK_SIZE == 0
  {
  }

  /**
   * `allocate_offset`: a zero block appended to a file made of whole blocks
   * is a new node block at the old end of the file, and nothing else changes.
   */
  lemma AppendBlock(img: seq<byte>)
    requires BLOCK_SIZE <= |img| && |img| % BLOCK_SIZE == 0
    ensures IsBlock(img + Zeros(BLOCK_SIZE), |img|)
    ensures Preserves(img, img + Zeros(BLOCK_SIZE), {})
    ensures forall o | IsBlock(img, o) :: IsBlock(img + Zeros(BLOCK_SIZE), o)
  {
    var img' := img + Zeros(BLOCK_SIZE);
    forall o: nat | o % BLOCK_SIZE == 0 && o + BLOCK_SIZE <= |img|
      ensures ReadAt(img', o, BLOCK_SIZE) == ReadAt(img, o, BLOCK_SIZE)
    {
      assert img'[o..o + BLOCK_SIZE] == img[o..o + BLOCK_SIZE];
    }
  }
}
