/**
 * The header block of an index file and the file-level operations of
 * `IndexManager` that touch it: `create_index_file` writes a header for an
 * empty tree, `update_root_offset` rewrites the root offset, and
 * `open_index_file` checks the magic bytes and loads the root node.
 *
 * Header layout: the 8 magic bytes "BTREEIDX", then the root node's byte
 * offset as an 8-byte big-endian word (0 for an empty tree), then zeros up
 * to BLOCK_SIZE.
 */
module IndexHeader {
  import opened Bytes
  import opened NodeCodec
  import opened BlockFile

  /** The bytes of "BTREEIDX". */
  const MAGIC: seq<byte> := [0x42, 0x54, 0x52, 0x45, 0x45, 0x49, 0x44, 0x58]
  /** Where the root offset starts: right after the magic bytes. */
  const ROOT_FIELD: nat := 8
  /** End of the root offset field. */
  const HEADER_SIZE: nat := 16

  /** The index files visible to the program, by name. */
  type FileSystem = map<string, seq<byte>>

  /** Writing a file twice leaves what the second write wrote. */
  lemma RewriteFile(fs: FileSystem, name: string, a: seq<byte>, b: seq<byte>)
    ensures fs[name := a][name := b] == fs[name := b]
  {
  }

  /** The file `create_index_file` writes: magic, root offset 0, zeros up to one block. */
  function NewIndexImage(): (img: seq<byte>)
    ensures |img| == BLOCK_SIZE
  {
    MAGIC + ToBE(0, 8) + Zeros(BLOCK_SIZE - |MAGIC| - 8)
  }

  /** `f.read(len(MAGIC_HEADER)) == MAGIC_HEADER` on a file freshly opened for reading. */
  predicate HasMagic(img: seq<byte>): (r: bool)
    ensures r <==> |MAGIC| <= |img| && img[..|MAGIC|] == MAGIC
  {
    ReadAt(img, 0, |MAGIC|) == MAGIC
  }

  /** The root offset `struct.unpack('>Q', f.read(8))` returns; None where the file is too short and unpack raises. */
  function RootField(img: seq<byte>): (r: Option<u64>)
    ensures r.Some? <==> HEADER_SIZE <= |img|
  {
    if |img| < HEADER_SIZE then None
    else
      Pow256Widths();
      Some(FromBE(img[ROOT_FIELD..HEADER_SIZE]))
  }

  /** The file after `update_root_offset(off)`: the 8 bytes after the magic replaced by off. */
  function SetRootField(img: seq<byte>, off: u64): (r: seq<byte>)
    ensures |r| == Max(|img|, HEADER_SIZE) && RootField(r) == Some(off)
  {
    Pow256Widths();
    var r := WriteAt(img, ROOT_FIELD, ToBE(off, 8));
    ReadAfterWrite(img, ROOT_FIELD, ToBE(off, 8));
    assert r[ROOT_FIELD..HEADER_SIZE] == ReadAt(r, ROOT_FIELD, 8);
    FromToBE(off, 8);
    r
  }

  /** A freshly created index file carries the magic and announces an empty tree. */
  lemma NewIndexIsEmpty()
    ensures HasMagic(NewIndexImage())
    ensures RootField(NewIndexImage()) == Some(0)
    ensures forall i | HEADER_SIZE <= i < BLOCK_SIZE :: NewIndexImage()[i] == 0
  {
    var img := NewIndexImage();
    Pow256Widths();
    FromToBE(0, 8);
    assert img[..8] == MAGIC;
    assert img[ROOT_FIELD..HEADER_SIZE] == ToBE(0, 8);
  }

  /**
   * Updating the root offset on a file whose header is complete: the new
   * offset reads back, the magic and the length stay, and every node block
   * is left as it was.
   */
  lemma SetRootFieldEffect(img: seq<byte>, off: u64)
    requires HEADER_SIZE <= |img|
    ensures |SetRootField(img, off)| == |img|
    ensures RootField(SetRootField(img, off)) == Some(off)
    ensures HasMagic(SetRootField(img, off)) == HasMagic(img)
    ensures Preserves(img, SetRootField(img, off), {0})
  {
    Pow256Widths();
    var field := ToBE(off, 8);
    var img' := SetRootField(img, off);
    ReadAfterWrite(img, ROOT_FIELD, field);
    assert img'[ROOT_FIELD..HEADER_SIZE] == ReadAt(img', ROOT_FIELD, 8);
    FromToBE(off, 8);
    ReadAroundWrite(img, ROOT_FIELD, field, 0, |MAGIC|);
    forall o: nat | o % BLOCK_SIZE == 0 && o + BLOCK_SIZE <= |img| && o !in {0}
      ensures ReadAt(img', o, BLOCK_SIZE) == ReadAt(img, o, BLOCK_SIZE)
    {
      ReadAroundWrite(img, ROOT_FIELD, field, o, BLOCK_SIZE);
    }
  }

  /** Node writes and appends, which leave block 0 alone, keep the header. */
  lemma HeaderPreserved(img: seq<byte>, img': seq<byte>, W: set<int>)
    requires Preserves(img, img', W) && 0 !in W && BLOCK_SIZE <= |img|
    ensures HasMagic(img') == HasMagic(img)
    ensures RootField(img') == RootField(img)
  {
    var b, b' := ReadAt(img, 0, BLOCK_SIZE), ReadAt(img', 0, BLOCK_SIZE);
    assert b' == b;
    assert ReadAt(img, 0, |MAGIC|) == b[..|MAGIC|];
    assert ReadAt(img', 0, |MAGIC|) == b'[..|MAGIC|];
    assert img[ROOT_FIELD..HEADER_SIZE] == b[ROOT_FIELD..HEADER_SIZE];
    assert img'[ROOT_FIELD..HEADER_SIZE] == b'[ROOT_FIELD..HEADER_SIZE];
  }

  /** How `open_index_file` ends. */
  datatype OpenOutcome =
    | NoSuchFile
    | NotAnIndex
    /** An exception escapes: the header is cut short, or the root cannot be loaded. */
    | Crashed
    | Opened(rootOffset: u64, root: Option<Node>)

  /**
   * `open_index_file(name)` against the files fs. The root node is loaded
   * through `BTreeNode(self, offset=root_offset)`, which reads the file the
   * manager had open BEFORE this call: `session` names it (None when no file
   * was open). Passing Some(name) gives the behaviour the method is meant
   * to have.
   */
  function OpenIndex(fs: FileSystem, name: string, session: Option<string>): (r: OpenOutcome)
    ensures r.Opened? ==> name in fs && HasMagic(fs[name]) && RootField(fs[name]) == Some(r.rootOffset)
    ensures r.Opened? ==> (r.root.None? <==> r.rootOffset == 0)
    ensures r == NoSuchFile <==> name !in fs
    ensures r == NotAnIndex <==> name in fs && !HasMagic(fs[name])
  {
    if name !in fs then NoSuchFile
    else if !HasMagic(fs[name]) then NotAnIndex
    else match RootField(fs[name])
      case None => Crashed
      case Some(off) =>
        if off == 0 then Opened(0, None)
        else if session.None? || session.value !in fs then Crashed
        else match NodeAt(fs[session.value], off)
          case None => Crashed
          case Some(n) => Opened(off, Some(n))
  }

  /**
   * As written, opening an index whose tree is not empty crashes when no
   * file was open before, even though the file itself is intact; the same
   * call reading its own file loads the root.
   */
  lemma OpenNeedsPreviousSession(fs: FileSystem, name: string, n: Node)
    requires name in fs && HasMagic(fs[name])
    requires RootField(fs[name]).Some? && RootField(fs[name]).value != 0
    requires NodeAt(fs[name], RootField(fs[name]).value) == Some(n)
    ensures OpenIndex(fs, name, None) == Crashed
    ensures OpenIndex(fs, name, Some(name)) == Opened(RootField(fs[name]).value, Some(n))
  {
  }

  /** As written, with another file open the root is read from that other file. */
  lemma OpenReadsPreviousFile(fs: FileSystem, name: string, other: string)
    requires name in fs && other in fs && HasMagic(fs[name])
    requires RootField(fs[name]).Some? && RootField(fs[name]).value != 0
    ensures OpenIndex(fs, name, Some(other)) ==
              match NodeAt(fs[other], RootField(fs[name]).value)
                case None => Crashed
                case Some(n) => Opened(RootField(fs[name]).value, Some(n))
  {
  }

  /** Opening a file that was just created finds an empty tree, whatever was open before. */
  lemma OpenNewIndex(fs: FileSystem, name: string, session: Option<string>)
    requires name in fs && fs[name] == NewIndexImage()
    ensures OpenIndex(fs, name, session) == Opened(0, None)
  {
    NewIndexIsEmpty();
  }
}
