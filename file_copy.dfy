/** The bytes of a regular file as the size-bounded copiers see them: each
    visited data block contributes min(block_size, file_size - size_copied)
    bytes, so after k blocks size_copied is min(k * block_size, i_size), and
    byte x of the file is byte x % block_size of block number x / block_size
    of the walk. */
module FileCopy {
  import opened Ext2Image
  import opened Ext2Layout

  /** The size copy_direct_block copies when size_copied bytes are done:
      file_size - size_copied, capped at the block size. The source computes
      it in unsigned arithmetic, where size_copied never passes file_size. */
  function Chunk(bs: nat, fs: nat, copied: nat): (n: nat)
    ensures n <= bs
    ensures copied <= fs ==> copied + n <= fs
    ensures copied < fs && bs > 0 ==> n > 0
  {
    if fs <= copied then 0 else if fs - copied > bs then bs else fs - copied
  }

  /** size_copied after k data blocks. */
  function Copied(bs: nat, fs: nat, k: nat): (c: nat)
    ensures c <= fs
  {
    MulNat(k, bs);
    if k * bs >= fs then fs else k * bs
  }

  /** Copying one more block moves size_copied from Copied(k) to Copied(k + 1). */
  lemma CopiedStep(bs: nat, fs: nat, k: nat)
    ensures Copied(bs, fs, k) + Chunk(bs, fs, Copied(bs, fs, k)) == Copied(bs, fs, k + 1)
  {
    assert (k + 1) * bs == k * bs + bs;
  }

  lemma {:induction false} CopiedMono(bs: nat, fs: nat, j: nat, k: nat)
    requires j <= k
    ensures Copied(bs, fs, j) <= Copied(bs, fs, k)
  {
    MulLe(j, k, bs);
  }

  lemma MulLe(j: nat, k: nat, bs: nat)
    requires j <= k
    ensures j * bs <= k * bs
  {
    assert k * bs == j * bs + (k - j) * bs;
    MulNat(k - j, bs);
  }

  /** The n bytes copy_direct_block takes from block b. With holes (the sparse
      copy), block number 0 is a hole and reads as zeros. */
  function BlockData(img: Image, bs: nat, holes: bool, b: nat, n: nat): (d: seq<byte>)
    ensures |d| == n
  {
    if holes && b == 0 then Zeros(n) else ReadAt(img, b * bs, n)
  }

  /** Byte j of block b. */
  function BlockByte(img: Image, bs: nat, holes: bool, b: nat, j: nat): byte
  {
    if holes && b == 0 then 0 else ByteAt(img, b * bs + j)
  }

  /** The file's bytes as copied from the data blocks blocks, in order. */
  function FileBytes(img: Image, bs: nat, fs: nat, holes: bool, blocks: seq<nat>): (r: seq<byte>)
    ensures |r| == Copied(bs, fs, |blocks|)
    decreases |blocks|
  {
    if blocks == [] then []
    else
      var n := |blocks| - 1;
      CopiedStep(bs, fs, n);
      FileBytes(img, bs, fs, holes, blocks[..n]) + BlockData(img, bs, holes, blocks[n], Chunk(bs, fs, Copied(bs, fs, n)))
  }

  /** One more data block appends its chunk. */
  lemma FileBytesSnoc(img: Image, bs: nat, fs: nat, holes: bool, blocks: seq<nat>, b: nat)
    ensures FileBytes(img, bs, fs, holes, blocks + [b]) ==
      FileBytes(img, bs, fs, holes, blocks) + BlockData(img, bs, holes, b, Chunk(bs, fs, Copied(bs, fs, |blocks|)))
  {
    assert (blocks + [b])[..|blocks|] == blocks;
  }

  /** The bytes of a prefix of the blocks are a prefix of the bytes. */
  lemma {:induction false} FileBytesPrefix(img: Image, bs: nat, fs: nat, holes: bool, a: seq<nat>, b: seq<nat>)
    requires a <= b
    ensures FileBytes(img, bs, fs, holes, a) <= FileBytes(img, bs, fs, holes, b)
    decreases |b|
  {
    if |a| < |b| {
      var n := |b| - 1;
      assert b == b[..n] + [b[n]];
      assert a <= b[..n];
      FileBytesPrefix(img, bs, fs, holes, a, b[..n]);
      FileBytesSnoc(img, bs, fs, holes, b[..n], b[n]);
    } else {
      assert a == b;
    }
  }

  /** Byte x of the file is byte x % bs of the (x / bs)-th data block. */
  lemma {:induction false} FileBytesAt(img: Image, bs: nat, fs: nat, holes: bool, blocks: seq<nat>, x: nat)
    requires bs > 0 && x < |FileBytes(img, bs, fs, holes, blocks)|
    ensures x / bs < |blocks|
    ensures FileBytes(img, bs, fs, holes, blocks)[x] == BlockByte(img, bs, holes, blocks[x / bs], x % bs)
    decreases |blocks|
  {
    var n := |blocks| - 1;
    var init := blocks[..n];
    var c := Copied(bs, fs, n);
    CopiedStep(bs, fs, n);
    var d := BlockData(img, bs, holes, blocks[n], Chunk(bs, fs, c));
    assert FileBytes(img, bs, fs, holes, blocks) == FileBytes(img, bs, fs, holes, init) + d;
    if x < c {
      FileBytesAt(img, bs, fs, holes, init, x);
      assert blocks[x / bs] == init[x / bs];
    } else {
      // The last chunk is not empty, so the blocks before it were full.
      assert c == n * bs;
      DivModUnique(x, bs, n, x - n * bs);
      assert FileBytes(img, bs, fs, holes, blocks)[x] == d[x - c];
    }
  }
}
