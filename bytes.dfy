/**
 * Bytes and the fixed-width big-endian integers of Python's `struct` module
 * (formats `>I` and `>Q`), and the byte image of a file as `read` and `write`
 * at a seek position see it.
 */
module Bytes {

  datatype Option<T> = None | Some(value: T)

  type byte = b: int | 0 <= b < 256

  /** Range of `struct.pack('>I', …)`. */
  type u32 = x: int | 0 <= x < 0x1_0000_0000

  /** Range of `struct.pack('>Q', …)`. */
  type u64 = x: int | 0 <= x < 0x1_0000_0000_0000_0000

  function Min(a: int, b: int): int { if a <= b then a else b }
  function Max(a: int, b: int): int { if a <= b then b else a }

  /** 256 to the power w: the number of values w bytes can hold. */
  function Pow256(w: nat): (p: nat)
    ensures p >= 1
  {
    if w == 0 then 1 else 256 * Pow256(w - 1)
  }

  lemma Pow256Widths()
    ensures Pow256(4) == 0x1_0000_0000
    ensures Pow256(8) == 0x1_0000_0000_0000_0000
  {
    assert Pow256(2) == 0x1_0000;
    assert Pow256(4) == 0x1_0000_0000;
    assert Pow256(6) == 0x1_0000_0000_0000;
  }

  /** n zero bytes, as `b'\x00' * n`. */
  function Zeros(n: nat): (z: seq<byte>)
    ensures |z| == n
    ensures forall i | 0 <= i < n :: z[i] == 0
  {
    seq(n, _ => 0)
  }

  /** The w-byte big-endian encoding of x, most significant byte first. */
  function ToBE(x: nat, w: nat): (r: seq<byte>)
    requires x < Pow256(w)
    ensures |r| == w
  {
    if w == 0 then [] else ToBE(x / 256, w - 1) + [x % 256]
  }

  /** The number a big-endian byte string denotes. */
  function FromBE(s: seq<byte>): (x: nat)
    ensures x < Pow256(|s|)
  {
    if s == [] then 0 else FromBE(s[..|s| - 1]) * 256 + s[|s| - 1]
  }

  /** Decoding recovers what was encoded. */
  lemma {:induction false} FromToBE(x: nat, w: nat)
    requires x < Pow256(w)
    ensures FromBE(ToBE(x, w)) == x
  {
    if w > 0 {
      var s := ToBE(x, w);
      assert s[..w - 1] == ToBE(x / 256, w - 1);
      FromToBE(x / 256, w - 1);
    }
  }

  /** Encoding recovers every byte string of the same width. */
  lemma {:induction false} ToFromBE(s: seq<byte>)
    ensures ToBE(FromBE(s), |s|) == s
  {
    if s != [] {
      var p := s[..|s| - 1];
      ToFromBE(p);
      assert FromBE(s) / 256 == FromBE(p);
      assert FromBE(s) % 256 == s[|s| - 1];
      assert s == p + [s[|s| - 1]];
    }
  }

  /** Two numbers with the same encoding are equal. */
  lemma ToBEInjective(x: nat, y: nat, w: nat)
    requires x < Pow256(w) && y < Pow256(w)
    requires ToBE(x, w) == ToBE(y, w)
    ensures x == y
  {
    FromToBE(x, w);
    FromToBE(y, w);
  }

  /**
   * The bytes that `seek(off)` followed by `read(n)` returns: n bytes, fewer
   * when the file ends first, none when off is at or past its end.
   */
  function ReadAt(img: seq<byte>, off: nat, n: nat): (r: seq<byte>)
    ensures |r| == if off >= |img| then 0 else Min(n, |img| - off)
    ensures forall i | 0 <= i < |r| :: r[i] == img[off + i]
  {
    if off >= |img| then [] else img[off..Min(off + n, |img|)]
  }

  /**
   * The file after `seek(off)` followed by `write(data)` on a file opened for
   * update: data replaces the bytes at off.., the file grows when data runs
   * past its end, and a gap between the old end and off reads as zeros.
   */
  function WriteAt(img: seq<byte>, off: nat, data: seq<byte>): (r: seq<byte>)
    ensures |r| == Max(|img|, off + |data|)
    ensures forall i | 0 <= i < |r| ::
              r[i] == if off <= i < off + |data| then data[i - off]
                      else if i < |img| then img[i] else 0
  {
    var before := if off <= |img| then img[..off] else img + Zeros(off - |img|);
    var after := if off + |data| < |img| then img[off + |data|..] else [];
    before + data + after
  }

  /** Writing then reading the same range returns what was written. */
  lemma ReadAfterWrite(img: seq<byte>, off: nat, data: seq<byte>)
    ensures ReadAt(WriteAt(img, off, data), off, |data|) == data
  {
  }

  /** A write leaves every byte range that it does not overlap as it was. */
  lemma ReadAroundWrite(img: seq<byte>, off: nat, data: seq<byte>, o: nat, n: nat)
    requires o + n <= |img|
    requires o + n <= off || off + |data| <= o
    ensures ReadAt(WriteAt(img, off, data), o, n) == ReadAt(img, o, n)
  {
    var r := WriteAt(img, off, data);
    assert |ReadAt(r, o, n)| == |ReadAt(img, o, n)|;
  }

  lemma TakeAppend<T>(a: seq<T>, b: seq<T>, n: nat)
    requires n == |a|
    ensures (a + b)[..n] == a
  {
  }

  lemma DropAppend<T>(a: seq<T>, b: seq<T>, n: nat)
    requires n == |a|
    ensures (a + b)[n..] == b
  {
  }

  lemma DropDrop<T>(s: seq<T>, m: nat, n: nat)
    requires m + n <= |s|
    ensures s[m..][n..] == s[m + n..]
  {
  }

  lemma AppendAssoc<T>(a: seq<T>, b: seq<T>, c: seq<T>)
    ensures (a + b) + c == a + (b + c)
  {
  }

}
