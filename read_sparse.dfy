/** The sparse-file reader (08-ext2-read-sparse-file): dump_file copies the
    file of inode inode_nr with the size-bounded copier, where a zero block
    number is a hole that reads as zeros and a zero slot of i_block does not
    end the copy; only size_copied reaching i_size does. */
module ReadSparse {
  import opened Ext2Image
  import opened Ext2Layout
  import opened BlockMap
  import opened FileCopy
  import opened SizedCopy

  /** dump_file(img, inode_nr, out). A zero s_inodes_per_group is a division
      by zero in the source. */
  function SparseDump(img: Image, inodeNr: int, out0: seq<byte>): Copy
  {
    var sb := DecodeSuperblock(img);
    if sb.inodesPerGroup == 0 then Copy(out0, Some(Fault))
    else InodeCopy(img, BlockSize(sb), InodeOffset(img, sb, inodeNr), true, out0)
  }

  method DumpFile(img: Image, inodeNr: int, out0: seq<byte>) returns (out: seq<byte>, err: Option<Error>)
    ensures Copy(out, err) == SparseDump(img, inodeNr, out0)
  {
    var sb := DecodeSuperblock(img);
    if sb.inodesPerGroup == 0 {
      return out0, Some(Fault);
    }
    var inodeOff := InodeOffset(img, sb, inodeNr);
    out, err := CopyInode(img, BlockSize(sb), inodeOff, true, out0);
  }

  /** A zero direct slot j is a hole: every byte of the file inside block j
      (below i_size) is written as 0. */
  lemma HoleReadsZero(img: Image, bs: nat, ib: seq<nat>, fs: nat, out0: seq<byte>, j: nat, x: nat)
    requires |ib| == NBlocks && bs > 0 && j < NDirBlocks && ib[j] == 0
    requires j * bs <= x < j * bs + bs && x < fs
    ensures var c := CopyFile(img, bs, ib, fs, true, out0); x < |c.out| && c.out[x] == 0
  {
    var w := DataWalk(img, bs, ib, fs, true);
    forall t | 0 <= t <= j ensures !StopAt(bs, fs)(t) {
      MulLe(t, j, bs);
    }
    WalkDirectSlot(img, bs, ib, Policy(true, false), StopAt(bs, fs), j);
    CopiedMono(bs, fs, j + 1, |w.blocks|);
    assert (j + 1) * bs == j * bs + bs;
    var bytes := FileBytes(img, bs, fs, true, w.blocks);
    DivModUnique(x, bs, j, x - j * bs);
    FileBytesAt(img, bs, fs, true, w.blocks, x);
    assert CopyFile(img, bs, ib, fs, true, out0).out[..|bytes|][x] == bytes[x];
  }

  /** A sparse copy that ends by reaching i_size wrote exactly i_size bytes,
      a hole or not. */
  lemma SparseCopyIsWhole(img: Image, bs: nat, ib: seq<nat>, fs: nat, out0: seq<byte>)
    requires |ib| == NBlocks && bs > 0 && fs <= NDirBlocks * bs
    ensures CopyFile(img, bs, ib, fs, true, out0).err == None
    ensures |FileBytes(img, bs, fs, true, DataWalk(img, bs, ib, fs, true).blocks)| == fs
  {
    SparseDirectOnly(img, bs, ib, fs, 0, []);
  }

  /** A file that fits in the direct blocks is copied from them alone. */
  lemma {:induction false} SparseDirectOnly(img: Image, bs: nat, ib: seq<nat>, fs: nat, i: nat, acc: seq<nat>)
    requires |ib| == NBlocks && bs > 0 && fs <= NDirBlocks * bs && i <= NDirBlocks && |acc| == i
    ensures var r := SlotsFrom(img, bs, ib, Policy(true, false), StopAt(bs, fs), i, acc);
      r.end == Stopped && Copied(bs, fs, |r.blocks|) == fs
    decreases NDirBlocks - i
  {
    if Copied(bs, fs, i) != fs {
      assert i < NDirBlocks;
      SparseDirectOnly(img, bs, ib, fs, i + 1, acc + [ib[i]]);
    }
  }
}
