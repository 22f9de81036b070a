/** The filesystem image as a byte sequence, positioned reads as slicing,
    little-endian field decoding, and the output file written with pwrite. */
module Ext2Image {

  type byte = x: int | 0 <= x < 256

  datatype Option<+T> = None | Some(value: T)

  /** The image file. A positioned read that runs past its end is not checked by
      most callers; such reads see zero bytes here. */
  type Image = seq<byte>

  /** One byte of the image; offsets outside the image read as zero. */
  function ByteAt(img: Image, off: int): (b: byte)
    ensures 0 <= off < |img| ==> b == img[off]
  {
    if 0 <= off < |img| then img[off] else 0
  }

  /** pread(img, buf, n, off): the n bytes starting at off. */
  function ReadAt(img: Image, off: int, n: nat): (r: seq<byte>)
    ensures |r| == n
    ensures forall i :: 0 <= i < n ==> r[i] == ByteAt(img, off + i)
  {
    var r := seq<byte>(n, i requires 0 <= i < n => ByteAt(img, off + i));
    r
  }

  /** A read of n bytes at off is complete (pread returns n). */
  predicate FullRead(img: Image, off: nat, n: nat)
  {
    off + n <= |img|
  }

  lemma ReadAtInside(img: Image, off: nat, n: nat)
    requires FullRead(img, off, n)
    ensures ReadAt(img, off, n) == img[off..off + n]
  {
  }

  function Zeros(n: nat): (r: seq<byte>)
    ensures |r| == n
    ensures forall i :: 0 <= i < n ==> r[i] == 0
  {
    var r := seq<byte>(n, i => 0);
    r
  }

  /** Little-endian 16-bit field at off. */
  function U16(img: Image, off: int): (v: nat)
    ensures v < 0x1_0000
  {
    ByteAt(img, off) + 0x100 * ByteAt(img, off + 1)
  }

  /** Little-endian 32-bit field at off. */
  function U32(img: Image, off: int): (v: nat)
    ensures v < 0x1_0000_0000
  {
    U16(img, off) + 0x1_0000 * U16(img, off + 2)
  }

  /** The C string held in a fixed-size field: the bytes before the first NUL. */
  function CString(field: seq<byte>): (s: seq<byte>)
    ensures |s| <= |field| && s == field[..|s|]
    ensures forall i :: 0 <= i < |s| ==> s[i] != 0
    ensures |s| < |field| ==> field[|s|] == 0
  {
    if field == [] || field[0] == 0 then [] else [field[0]] + CString(field[1..])
  }

  /** A field with no NUL is taken whole. The model stops at the field's end,
      where "%s" in C would read on past it. */
  lemma CStringNoNul(field: seq<byte>)
    requires forall i :: 0 <= i < |field| ==> field[i] != 0
    ensures CString(field) == field
  {
  }

  /** pwrite(out, data, |data|, off) on a regular file: the bytes at off are
      replaced, a gap before off reads as zero, and a write of no bytes leaves
      the file as it is. */
  function Pwrite(out: seq<byte>, data: seq<byte>, off: nat): (r: seq<byte>)
    ensures data != [] ==> |r| == if off + |data| > |out| then off + |data| else |out|
    ensures data != [] ==> r[off..off + |data|] == data
    ensures data != [] ==> forall i :: 0 <= i < |r| && !(off <= i < off + |data|) ==>
      r[i] == (if i < |out| then out[i] else 0)
    ensures data == [] ==> r == out
  {
    if data == [] then out
    else
      var head := if off <= |out| then out[..off] else out + Zeros(off - |out|);
      var tail := if off + |data| < |out| then out[off + |data|..] else [];
      head + data + tail
  }

  /** The file out after its first |w| bytes were overwritten with w. */
  function Overwrite(out: seq<byte>, w: seq<byte>): (r: seq<byte>)
    ensures |r| == if |w| > |out| then |w| else |out|
    ensures r[..|w|] == w
  {
    if |w| < |out| then w + out[|w|..] else w
  }

  /** Writing at the current end of the overwritten prefix extends the prefix. */
  lemma {:induction false} PwriteExtends(out: seq<byte>, w: seq<byte>, data: seq<byte>)
    ensures Pwrite(Overwrite(out, w), data, |w|) == Overwrite(out, w + data)
  {
    var o := Overwrite(out, w);
    if data != [] {
      var lhs := Pwrite(o, data, |w|);
      var rhs := Overwrite(out, w + data);
      assert |lhs| == |rhs|;
      forall i | 0 <= i < |lhs| ensures lhs[i] == rhs[i] {
        if i < |w| {
          assert lhs[i] == o[i] == w[i];
          assert rhs[..|w + data|][i] == (w + data)[i];
        } else if i < |w| + |data| {
          assert lhs[|w|..|w| + |data|][i - |w|] == data[i - |w|];
          assert rhs[..|w + data|][i] == (w + data)[i];
        } else {
          assert lhs[i] == o[i] == out[i];
        }
      }
    }
  }
}
