/** The whole-block file reader (04-ext2-read-file): dump_file reads every
    data block along the block map, in full, and writes it with pwrite. i_size
    is never consulted; the walk ends at the first zero slot of i_block (or
    of a single-indirect block) and never follows slot 14.

    The placement of each write is given in two variants: AtZero is the
    source, which writes every block at offset 0 of the output file, so each
    block overwrites the one before; AtBlockOffset writes the k-th block at
    offset k * block_size, which is what a copy of the file calls for. */
module ReadFile {
  import opened Ext2Image
  import opened Ext2Layout
  import opened BlockMap
  import opened SizedCopy

  datatype Placement = AtZero | AtBlockOffset

  /** The number of blocks written so far and the output file. */
  datatype Put = Put(count: nat, out: seq<byte>)

  /** Where the k-th block is written. */
  function WriteOffset(bs: nat, pl: Placement, k: nat): (off: nat)
    ensures pl == AtZero ==> off == 0
    ensures pl == AtBlockOffset ==> off == k * bs
  {
    MulNat(k, bs);
    if pl == AtZero then 0 else k * bs
  }

  /** copy_direct_block on block b: block_size bytes read at b * block_size
      and written with pwrite. */
  function WholeStep(img: Image, bs: nat, pl: Placement): (Put, nat) -> Step<Put>
  {
    (s: Put, b: nat) => More(Put(s.count + 1, Pwrite(s.out, ReadAt(img, b * bs, bs), WriteOffset(bs, pl, s.count))))
  }

  lemma WholeStepApply(img: Image, bs: nat, pl: Placement, s: Put, b: nat)
    ensures WholeStep(img, bs, pl)(s, b) == More(Put(s.count + 1, Pwrite(s.out, ReadAt(img, b * bs, bs), WriteOffset(bs, pl, s.count))))
  {
  }

  /** The data blocks copy_inode reads: the walk without holes that never
      stops on the size. */
  function WholeWalk(img: Image, bs: nat, ib: seq<nat>): Scan
    requires |ib| == NBlocks
  {
    Walk(img, bs, ib, Policy(false, false), NeverStop())
  }

  /** copy_inode over the block map ib: the output file after the walk's
      blocks were written in turn, and -errno (IoError) when a pointer block
      could not be read in full. */
  function WholeCopy(img: Image, bs: nat, ib: seq<nat>, pl: Placement, out0: seq<byte>): Copy
    requires |ib| == NBlocks
  {
    var w := WholeWalk(img, bs, ib);
    Copy(Run(WholeStep(img, bs, pl), More(Put(0, out0)), w.blocks).st.out, if w.end == ShortRead then Some(IoError) else None)
  }

  /** copy_inode on the inode record at inodeOff. */
  function InodeWhole(img: Image, bs: nat, inodeOff: nat, pl: Placement, out0: seq<byte>): Copy
  {
    WholeCopy(img, bs, DecodeInode(img, inodeOff).block, pl, out0)
  }

  /** dump_file(img, inode_nr, out). A zero s_inodes_per_group is a division
      by zero in the source. */
  function FileDump(img: Image, inodeNr: int, out0: seq<byte>, pl: Placement): Copy
  {
    var sb := DecodeSuperblock(img);
    if sb.inodesPerGroup == 0 then Copy(out0, Some(Fault))
    else InodeWhole(img, BlockSize(sb), InodeOffset(img, sb, inodeNr), pl, out0)
  }

  // ---------------------------------------------------------------------------
  // What the output file holds

  /** The blocks' contents one after the other. */
  function AllBlocks(img: Image, bs: nat, blocks: seq<nat>): (r: seq<byte>)
    ensures |r| == |blocks| * bs
    decreases |blocks|
  {
    if blocks == [] then []
    else
      var n := |blocks| - 1;
      assert |blocks| * bs == n * bs + bs;
      AllBlocks(img, bs, blocks[..n]) + ReadAt(img, blocks[n] * bs, bs)
  }

  /** Two writes of the same length at the same offset: the second one is all
      that remains of the first. */
  lemma PwriteTwice(out: seq<byte>, d1: seq<byte>, d2: seq<byte>, off: nat)
    requires |d1| == |d2|
    ensures Pwrite(Pwrite(out, d1, off), d2, off) == Pwrite(out, d2, off)
  {
    if d1 != [] {
      var lhs := Pwrite(Pwrite(out, d1, off), d2, off);
      var rhs := Pwrite(out, d2, off);
      assert |lhs| == |rhs|;
      forall i | 0 <= i < |lhs| ensures lhs[i] == rhs[i] {
        if off <= i < off + |d2| {
          assert lhs[off..off + |d2|][i - off] == rhs[off..off + |d2|][i - off];
        }
      }
    }
  }

  /** The output file after only the last of blocks was written at offset 0. */
  function LastWrite(img: Image, bs: nat, out0: seq<byte>, blocks: seq<nat>): seq<byte>
  {
    if blocks == [] then out0 else Pwrite(out0, ReadAt(img, blocks[|blocks| - 1] * bs, bs), 0)
  }

  lemma LastWriteSnoc(img: Image, bs: nat, out0: seq<byte>, init: seq<nat>, b: nat)
    ensures Pwrite(LastWrite(img, bs, out0, init), ReadAt(img, b * bs, bs), 0) == LastWrite(img, bs, out0, init + [b])
  {
    if init != [] {
      PwriteTwice(out0, ReadAt(img, init[|init| - 1] * bs, bs), ReadAt(img, b * bs, bs), 0);
    }
  }

  /** As written, the output file holds only the last block read, at offset
      0, over what the file held before. */
  lemma {:induction false} AtZeroRun(img: Image, bs: nat, out0: seq<byte>, blocks: seq<nat>)
    ensures Run(WholeStep(img, bs, AtZero), More(Put(0, out0)), blocks) == More(Put(|blocks|, LastWrite(img, bs, out0, blocks)))
    decreases |blocks|
  {
    if blocks != [] {
      var n := |blocks| - 1;
      var init := blocks[..n];
      assert blocks == init + [blocks[n]];
      AtZeroRun(img, bs, out0, init);
      RunSnoc(WholeStep(img, bs, AtZero), More(Put(0, out0)), init, blocks[n]);
      WholeStepApply(img, bs, AtZero, Put(n, LastWrite(img, bs, out0, init)), blocks[n]);
      LastWriteSnoc(img, bs, out0, init, blocks[n]);
    }
  }

  /** With each block at its own offset, the output file starts with the
      blocks' contents in order. */
  lemma {:induction false} AtBlockOffsetRun(img: Image, bs: nat, out0: seq<byte>, blocks: seq<nat>)
    ensures Run(WholeStep(img, bs, AtBlockOffset), More(Put(0, out0)), blocks) ==
      More(Put(|blocks|, Overwrite(out0, AllBlocks(img, bs, blocks))))
    decreases |blocks|
  {
    if blocks == [] {
      assert Overwrite(out0, []) == out0;
    } else {
      var n := |blocks| - 1;
      var init := blocks[..n];
      assert blocks == init + [blocks[n]];
      AtBlockOffsetRun(img, bs, out0, init);
      RunSnoc(WholeStep(img, bs, AtBlockOffset), More(Put(0, out0)), init, blocks[n]);
      var w := AllBlocks(img, bs, init);
      WholeStepApply(img, bs, AtBlockOffset, Put(n, Overwrite(out0, w)), blocks[n]);
      PwriteExtends(out0, w, ReadAt(img, blocks[n] * bs, bs));
      assert (init + [blocks[n]])[..n] == init;
    }
  }

  /** dump_file as written leaves the last data block of the walk at the
      start of the output file and nothing of the blocks before it. */
  lemma LastBlockWins(img: Image, bs: nat, ib: seq<nat>, out0: seq<byte>)
    requires |ib| == NBlocks
    ensures var blocks := WholeWalk(img, bs, ib).blocks;
      WholeCopy(img, bs, ib, AtZero, out0).out ==
        if blocks == [] then out0 else Pwrite(out0, ReadAt(img, blocks[|blocks| - 1] * bs, bs), 0)
  {
    AtZeroRun(img, bs, out0, WholeWalk(img, bs, ib).blocks);
  }

  /** With each block at its own offset, the output file starts with every
      data block of the walk, in order: byte j of the k-th block is at
      k * block_size + j. */
  lemma BlocksInOrder(img: Image, bs: nat, ib: seq<nat>, out0: seq<byte>)
    requires |ib| == NBlocks
    ensures var blocks := WholeWalk(img, bs, ib).blocks; var out := WholeCopy(img, bs, ib, AtBlockOffset, out0).out;
      |blocks| * bs <= |out| && out[..|blocks| * bs] == AllBlocks(img, bs, blocks)
  {
    AtBlockOffsetRun(img, bs, out0, WholeWalk(img, bs, ib).blocks);
  }

  /** Byte j of the k-th block is byte k * bs + j of the concatenation. */
  lemma {:induction false} AllBlocksAt(img: Image, bs: nat, blocks: seq<nat>, k: nat, j: nat)
    requires k < |blocks| && j < bs
    ensures k * bs + j < |AllBlocks(img, bs, blocks)|
    ensures AllBlocks(img, bs, blocks)[k * bs + j] == ByteAt(img, blocks[k] * bs + j)
    decreases |blocks|
  {
    var n := |blocks| - 1;
    var init := blocks[..n];
    MulLe(k, n, bs);
    if k < n {
      AllBlocksAt(img, bs, init, k, j);
    } else {
      assert AllBlocks(img, bs, blocks) == AllBlocks(img, bs, init) + ReadAt(img, blocks[n] * bs, bs);
    }
  }

  lemma MulLe(j: nat, k: nat, bs: nat)
    requires j <= k
    ensures j * bs <= k * bs
  {
    assert k * bs == j * bs + (k - j) * bs;
    MulNat(k - j, bs);
  }

  /** A file of two blocks written into an empty output file: as written only
      the second block is left; with each block at its own offset both are,
      in order. */
  lemma TwoBlocks(img: Image, bs: nat, b1: nat, b2: nat)
    ensures Run(WholeStep(img, bs, AtZero), More(Put(0, [])), [b1, b2]).st.out == ReadAt(img, b2 * bs, bs)
    ensures Run(WholeStep(img, bs, AtBlockOffset), More(Put(0, [])), [b1, b2]).st.out ==
      ReadAt(img, b1 * bs, bs) + ReadAt(img, b2 * bs, bs)
  {
    AtZeroRun(img, bs, [], [b1, b2]);
    AtBlockOffsetRun(img, bs, [], [b1, b2]);
    assert [b1, b2][..1] == [b1];
    assert [b1][..0] == [];
    var d := ReadAt(img, b2 * bs, bs);
    if d != [] {
      assert Pwrite([], d, 0) == d;
    }
  }

  // ---------------------------------------------------------------------------
  // The copiers, one method per function of the source

  method CopyDirectBlock(img: Image, bs: nat, b: nat, pl: Placement, s: Put) returns (s': Put)
    ensures More(s') == WholeStep(img, bs, pl)(s, b)
  {
    var buf := ReadAt(img, b * bs, bs);
    var out := Pwrite(s.out, buf, WriteOffset(bs, pl, s.count));
    s' := Put(s.count + 1, out);
  }

  method CopyIndirectBlock(img: Image, bs: nat, b: nat, pl: Placement, s: Put) returns (s': Put, err: Option<Error>)
    ensures More(s') == Run(WholeStep(img, bs, pl), More(s), Indirect(img, bs, b, false, []).blocks)
    ensures err == if Indirect(img, bs, b, false, []).end == ShortRead then Some(IoError) else None
  {
    if !FullRead(img, b * bs, bs) {
      return s, Some(IoError);
    }
    ghost var f := WholeStep(img, bs, pl);
    IndirectAtStart(f, s, img, bs, b);
    s' := s;
    var i := 0;
    while i < bs / 4
      invariant IndirectAt(f, s, img, bs, b, i, s')
    {
      IndirectAtEntry(f, s, img, bs, b, i, s');
      var e := U32(img, b * bs + 4 * i);
      if e == 0 {
        break;
      }
      var s2 := CopyDirectBlock(img, bs, e, pl, s');
      IndirectAtStep(f, s, img, bs, b, i, s', false);
      s' := s2;
      i := i + 1;
    }
    IndirectAtEnd(f, s, img, bs, b, i, s', false);
    return s', None;
  }

  method CopyDoubleIndirectBlock(img: Image, bs: nat, b: nat, pl: Placement, s: Put) returns (s': Put, err: Option<Error>)
    ensures More(s') == Run(WholeStep(img, bs, pl), More(s), Double(img, bs, b, false, []).blocks)
    ensures err == if Double(img, bs, b, false, []).end == ShortRead then Some(IoError) else None
  {
    if !FullRead(img, b * bs, bs) {
      return s, Some(IoError);
    }
    ghost var f := WholeStep(img, bs, pl);
    ghost var d := PointerBlock(img, bs, b).value;
    ghost var whole := Double(img, bs, b, false, []);
    ghost var visited: seq<nat> := [];
    s' := s;
    var i := 0;
    while i < bs / 4
      invariant i <= bs / 4
      invariant DoubleFrom(img, bs, d, i, false, visited) == whole
      invariant Run(f, More(s), visited) == More(s')
    {
      var e := U32(img, b * bs + 4 * i);
      assert e == d[i];
      var s2, er := CopyIndirectBlock(img, bs, e, pl, s');
      ghost var sc := Indirect(img, bs, e, false, []);
      IndirectAcc(img, bs, e, false, visited);
      RunAppend(f, More(s), visited, sc.blocks);
      if er.Some? {
        return s2, er;
      }
      visited := visited + sc.blocks;
      s' := s2;
      i := i + 1;
    }
    return s', None;
  }

  /** The dispatch on slot i of i_block. */
  method CopySlot(img: Image, bs: nat, ib: seq<nat>, i: nat, pl: Placement, s: Put) returns (s': Put, err: Option<Error>)
    requires |ib| == NBlocks && i < TindBlock
    ensures More(s') == Run(WholeStep(img, bs, pl), More(s), SlotScan(img, bs, ib, Policy(false, false), i).blocks)
    ensures err == if SlotScan(img, bs, ib, Policy(false, false), i).end == ShortRead then Some(IoError) else None
  {
    if i < NDirBlocks {
      s' := CopyDirectBlock(img, bs, ib[i], pl, s);
      assert [ib[i]][1..] == [];
      err := None;
    } else if i == IndBlock {
      s', err := CopyIndirectBlock(img, bs, ib[i], pl, s);
    } else {
      s', err := CopyDoubleIndirectBlock(img, bs, ib[i], pl, s);
    }
  }

  /** Slot i was copied into s' (err tells whether its pointer block was
      short): a short read ends the copy, and otherwise the loop goes on. */
  lemma WrittenSlot(img: Image, bs: nat, ib: seq<nat>, pl: Placement, out0: seq<byte>,
                    i: nat, visited: seq<nat>, s: Put, s': Put, err: Option<Error>)
    requires SlotsAt(WholeStep(img, bs, pl), Put(0, out0), img, bs, ib, Policy(false, false), NeverStop(), i, visited, s)
    requires i < TindBlock && ib[i] != 0
    requires More(s') == Run(WholeStep(img, bs, pl), More(s), SlotScan(img, bs, ib, Policy(false, false), i).blocks)
    requires err == if SlotScan(img, bs, ib, Policy(false, false), i).end == ShortRead then Some(IoError) else None
    ensures err.Some? ==> Copy(s'.out, err) == WholeCopy(img, bs, ib, pl, out0)
    ensures err.None? ==> SlotsAt(WholeStep(img, bs, pl), Put(0, out0), img, bs, ib, Policy(false, false), NeverStop(),
                                  i + 1, visited + SlotScan(img, bs, ib, Policy(false, false), i).blocks, s')
  {
    SlotStep(WholeStep(img, bs, pl), Put(0, out0), img, bs, ib, Policy(false, false), NeverStop(), i, visited, s);
  }

  method CopyInode(img: Image, bs: nat, inodeOff: nat, pl: Placement, out0: seq<byte>) returns (out: seq<byte>, err: Option<Error>)
    ensures Copy(out, err) == InodeWhole(img, bs, inodeOff, pl, out0)
  {
    var ino := DecodeInode(img, inodeOff);
    ghost var f := WholeStep(img, bs, pl);
    ghost var pol := Policy(false, false);
    var s := Put(0, out0);
    ghost var visited: seq<nat> := [];
    SlotsAtStart(f, s, img, bs, ino.block, pol, NeverStop());
    var i := 0;
    while i < TindBlock && ino.block[i] != 0
      invariant SlotsAt(f, Put(0, out0), img, bs, ino.block, pol, NeverStop(), i, visited, s)
    {
      var s2, er := CopySlot(img, bs, ino.block, i, pl, s);
      WrittenSlot(img, bs, ino.block, pl, out0, i, visited, s, s2, er);
      if er.Some? {
        return s2.out, er;
      }
      visited := visited + SlotScan(img, bs, ino.block, pol, i).blocks;
      s := s2;
      i := i + 1;
    }
    SlotsEnd(f, Put(0, out0), img, bs, ino.block, pol, NeverStop(), i, visited, s);
    return s.out, None;
  }

  method DumpFile(img: Image, inodeNr: int, out0: seq<byte>, pl: Placement) returns (out: seq<byte>, err: Option<Error>)
    ensures Copy(out, err) == FileDump(img, inodeNr, out0, pl)
  {
    var sb := DecodeSuperblock(img);
    if sb.inodesPerGroup == 0 {
      return out0, Some(Fault);
    }
    var inodeOff := InodeOffset(img, sb, inodeNr);
    out, err := CopyInode(img, BlockSize(sb), inodeOff, pl, out0);
  }
}
