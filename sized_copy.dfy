/** The size-bounded copy of a regular file into the output file (copy_inode
    and its helpers of walk_path and of the sparse-file reader). Each data
    block contributes the next min(block_size, file_size - size_copied) bytes,
    written with pwrite at offset size_copied; the slot loop stops once
    size_copied reaches i_size. The two variants differ only in holes: the
    sparse reader does not stop at a zero slot and copies zeros for block
    number 0. */
module SizedCopy {
  import opened Ext2Image
  import opened Ext2Layout
  import opened BlockMap
  import opened FileCopy

  /** size_copied and the output file. */
  datatype Dump = Dump(copied: nat, out: seq<byte>)

  /** copy_direct_block on block b. */
  function DumpStep(img: Image, bs: nat, fs: nat, holes: bool): (Dump, nat) -> Step<Dump>
  {
    (s: Dump, b: nat) =>
      var n := Chunk(bs, fs, s.copied);
      More(Dump(s.copied + n, Pwrite(s.out, BlockData(img, bs, holes, b, n), s.copied)))
  }

  /** The slot loop's stop rule: size_copied == file_size after k blocks. */
  function StopAt(bs: nat, fs: nat): nat -> bool
  {
    (k: nat) => Copied(bs, fs, k) == fs
  }

  /** Copying the data blocks blocks in turn from an empty copy writes the
      file's bytes over the start of the output file. */
  lemma {:induction false} DumpRun(img: Image, bs: nat, fs: nat, holes: bool, out0: seq<byte>, blocks: seq<nat>)
    ensures Run(DumpStep(img, bs, fs, holes), More(Dump(0, out0)), blocks) ==
      More(Dump(Copied(bs, fs, |blocks|), Overwrite(out0, FileBytes(img, bs, fs, holes, blocks))))
    decreases |blocks|
  {
    if blocks == [] {
      assert Overwrite(out0, []) == out0;
    } else {
      var n := |blocks| - 1;
      var init := blocks[..n];
      assert blocks == init + [blocks[n]];
      DumpRun(img, bs, fs, holes, out0, init);
      RunSnoc(DumpStep(img, bs, fs, holes), More(Dump(0, out0)), init, blocks[n]);
      DumpStepApply(img, bs, fs, holes, Dump(Copied(bs, fs, n), Overwrite(out0, FileBytes(img, bs, fs, holes, init))), blocks[n]);
      CopiedStep(bs, fs, n);
      OverwriteSnoc(img, bs, fs, holes, out0, init, blocks[n]);
    }
  }

  lemma DumpStepApply(img: Image, bs: nat, fs: nat, holes: bool, s: Dump, b: nat)
    ensures DumpStep(img, bs, fs, holes)(s, b) ==
      More(Dump(s.copied + Chunk(bs, fs, s.copied), Pwrite(s.out, BlockData(img, bs, holes, b, Chunk(bs, fs, s.copied)), s.copied)))
  {
  }

  /** The chunk of one more block, written at size_copied, extends the
      copied prefix of the output file. */
  lemma OverwriteSnoc(img: Image, bs: nat, fs: nat, holes: bool, out0: seq<byte>, init: seq<nat>, b: nat)
    ensures var c := Copied(bs, fs, |init|);
      Pwrite(Overwrite(out0, FileBytes(img, bs, fs, holes, init)), BlockData(img, bs, holes, b, Chunk(bs, fs, c)), c) ==
      Overwrite(out0, FileBytes(img, bs, fs, holes, init + [b]))
  {
    var w := FileBytes(img, bs, fs, holes, init);
    var d := BlockData(img, bs, holes, b, Chunk(bs, fs, Copied(bs, fs, |init|)));
    FileBytesSnoc(img, bs, fs, holes, init, b);
    PwriteExtends(out0, w, d);
  }

  /** What copy_inode leaves in the output file, and its error: the file's
      bytes along the walk, and -errno (IoError) when a pointer block could
      not be read in full. */
  datatype Copy = Copy(out: seq<byte>, err: Option<Error>)

  function DataWalk(img: Image, bs: nat, ib: seq<nat>, fs: nat, holes: bool): Scan
    requires |ib| == NBlocks
  {
    Walk(img, bs, ib, Policy(holes, false), StopAt(bs, fs))
  }

  function CopyFile(img: Image, bs: nat, ib: seq<nat>, fs: nat, holes: bool, out0: seq<byte>): Copy
    requires |ib| == NBlocks
  {
    var w := DataWalk(img, bs, ib, fs, holes);
    Copy(Overwrite(out0, FileBytes(img, bs, fs, holes, w.blocks)), if w.end == ShortRead then Some(IoError) else None)
  }

  /** A copy that stopped because size_copied reached i_size wrote the whole
      file: exactly i_size bytes at the start of the output file. */
  lemma StoppedCopyIsWhole(img: Image, bs: nat, ib: seq<nat>, fs: nat, holes: bool, out0: seq<byte>)
    requires |ib| == NBlocks
    requires DataWalk(img, bs, ib, fs, holes).end == Stopped
    ensures CopyFile(img, bs, ib, fs, holes, out0).err == None
    ensures |FileBytes(img, bs, fs, holes, DataWalk(img, bs, ib, fs, holes).blocks)| == fs &&
      CopyFile(img, bs, ib, fs, holes, out0).out[..fs] == FileBytes(img, bs, fs, holes, DataWalk(img, bs, ib, fs, holes).blocks)
  {
    StoppedWalk(img, bs, ib, Policy(holes, false), StopAt(bs, fs));
  }

  /** A walk that ends by its stop rule met the rule on the blocks it visited. */
  lemma StoppedWalk(img: Image, bs: nat, ib: seq<nat>, pol: Policy, stop: nat -> bool)
    requires |ib| == NBlocks && Walk(img, bs, ib, pol, stop).end == Stopped
    ensures stop(|Walk(img, bs, ib, pol, stop).blocks|)
  {
    StoppedFrom(img, bs, ib, pol, stop, 0, []);
  }

  lemma {:induction false} StoppedFrom(img: Image, bs: nat, ib: seq<nat>, pol: Policy, stop: nat -> bool, i: nat, acc: seq<nat>)
    requires |ib| == NBlocks && i <= TindBlock && SlotsFrom(img, bs, ib, pol, stop, i, acc).end == Stopped
    ensures stop(|SlotsFrom(img, bs, ib, pol, stop, i, acc).blocks|)
    decreases TindBlock - i
  {
    if !pol.holes && ib[i] == 0 {
    } else if stop(|acc|) {
    } else if i < NDirBlocks {
      StoppedFrom(img, bs, ib, pol, stop, i + 1, acc + [ib[i]]);
    } else if i == IndBlock {
      var r := Indirect(img, bs, ib[i], pol.zeroEntryEnds, acc);
      if r.end == Done {
        StoppedFrom(img, bs, ib, pol, stop, i + 1, r.blocks);
      }
    } else if i == DindBlock {
      var r := Double(img, bs, ib[i], pol.zeroEntryEnds, acc);
      if r.end == Done {
        StoppedFrom(img, bs, ib, pol, stop, i + 1, r.blocks);
      }
    }
  }

  /** copy_inode on the inode record at inodeOff. */
  function InodeCopy(img: Image, bs: nat, inodeOff: nat, holes: bool, out0: seq<byte>): Copy
  {
    var ino := DecodeInode(img, inodeOff);
    CopyFile(img, bs, ino.block, ino.size, holes, out0)
  }

  /** Copying never halts the fold; only a pointer block ends a walk early. */
  lemma {:induction false} DumpRunMore(img: Image, bs: nat, fs: nat, holes: bool, s: Dump, blocks: seq<nat>)
    ensures Run(DumpStep(img, bs, fs, holes), More(s), blocks).More?
    decreases |blocks|
  {
    if blocks != [] {
      DumpRunMore(img, bs, fs, holes, DumpStep(img, bs, fs, holes)(s, blocks[0]).st, blocks[1..]);
    }
  }

  /** The slot loop of copy_inode is at slot i with the copy s of the blocks
      visited so far. */
  ghost predicate CopiedAt(img: Image, bs: nat, ib: seq<nat>, fs: nat, holes: bool, out0: seq<byte>,
                           i: nat, visited: seq<nat>, s: Dump)
  {
    SlotsAt(DumpStep(img, bs, fs, holes), Dump(0, out0), img, bs, ib, Policy(holes, false), StopAt(bs, fs), i, visited, s) &&
    s.copied == Copied(bs, fs, |visited|)
  }

  lemma CopiedAtStart(img: Image, bs: nat, ib: seq<nat>, fs: nat, holes: bool, out0: seq<byte>)
    requires |ib| == NBlocks
    ensures CopiedAt(img, bs, ib, fs, holes, out0, 0, [], Dump(0, out0))
  {
    SlotsAtStart(DumpStep(img, bs, fs, holes), Dump(0, out0), img, bs, ib, Policy(holes, false), StopAt(bs, fs));
  }

  /** Slot i was copied into s' (err tells whether its pointer block was
      short): a short read ends the copy, and otherwise the loop goes on. */
  lemma CopiedSlot(img: Image, bs: nat, ib: seq<nat>, fs: nat, holes: bool, out0: seq<byte>,
                   i: nat, visited: seq<nat>, s: Dump, s': Dump, err: Option<Error>)
    requires CopiedAt(img, bs, ib, fs, holes, out0, i, visited, s) && i < TindBlock
    requires holes || ib[i] != 0
    requires s.copied != fs
    requires More(s') == Run(DumpStep(img, bs, fs, holes), More(s), SlotScan(img, bs, ib, Policy(holes, false), i).blocks)
    requires err == if SlotScan(img, bs, ib, Policy(holes, false), i).end == ShortRead then Some(IoError) else None
    ensures err.Some? ==> Copy(s'.out, err) == CopyFile(img, bs, ib, fs, holes, out0)
    ensures err.None? ==> CopiedAt(img, bs, ib, fs, holes, out0, i + 1, visited + SlotScan(img, bs, ib, Policy(holes, false), i).blocks, s')
  {
    var f := DumpStep(img, bs, fs, holes);
    var pol := Policy(holes, false);
    var sc := SlotScan(img, bs, ib, pol, i);
    SlotStep(f, Dump(0, out0), img, bs, ib, pol, StopAt(bs, fs), i, visited, s);
    RunExtend(f, Dump(0, out0), visited, sc.blocks, visited + sc.blocks, s);
    DumpRun(img, bs, fs, holes, out0, visited + sc.blocks);
  }

  /** The slot loop ends at slot 14, at a zero slot or once size_copied
      reached i_size: s is the whole copy. */
  lemma CopiedEnd(img: Image, bs: nat, ib: seq<nat>, fs: nat, holes: bool, out0: seq<byte>,
                  i: nat, visited: seq<nat>, s: Dump)
    requires CopiedAt(img, bs, ib, fs, holes, out0, i, visited, s)
    requires i == TindBlock || (!holes && ib[i] == 0) || s.copied == fs
    ensures Copy(s.out, None) == CopyFile(img, bs, ib, fs, holes, out0)
  {
    SlotsEnd(DumpStep(img, bs, fs, holes), Dump(0, out0), img, bs, ib, Policy(holes, false), StopAt(bs, fs), i, visited, s);
    DumpRun(img, bs, fs, holes, out0, visited);
  }

  // ---------------------------------------------------------------------------
  // The copiers, one method per function of the source

  method CopyDirectBlock(img: Image, bs: nat, b: nat, holes: bool, fs: nat, s: Dump) returns (s': Dump)
    ensures More(s') == DumpStep(img, bs, fs, holes)(s, b)
  {
    var size := Chunk(bs, fs, s.copied);
    var data: seq<byte>;
    if holes && b == 0 {
      data := Zeros(size);
    } else {
      data := ReadAt(img, b * bs, size);
    }
    var out := Pwrite(s.out, data, s.copied);
    s' := Dump(s.copied + size, out);
  }

  method CopyIndirectBlock(img: Image, bs: nat, b: nat, holes: bool, fs: nat, s: Dump) returns (s': Dump, err: Option<Error>)
    ensures More(s') == Run(DumpStep(img, bs, fs, holes), More(s), Indirect(img, bs, b, false, []).blocks)
    ensures err == if Indirect(img, bs, b, false, []).end == ShortRead then Some(IoError) else None
  {
    if !FullRead(img, b * bs, bs) {
      return s, Some(IoError);
    }
    ghost var f := DumpStep(img, bs, fs, holes);
    IndirectAtStart(f, s, img, bs, b);
    s' := s;
    var i := 0;
    while i < bs / 4
      invariant IndirectAt(f, s, img, bs, b, i, s')
    {
      IndirectAtEntry(f, s, img, bs, b, i, s');
      var e := U32(img, b * bs + 4 * i);
      if e == 0 {
        break;
      }
      var s2 := CopyDirectBlock(img, bs, e, holes, fs, s');
      IndirectAtStep(f, s, img, bs, b, i, s', false);
      s' := s2;
      i := i + 1;
    }
    IndirectAtEnd(f, s, img, bs, b, i, s', false);
    return s', None;
  }

  method CopyDoubleIndirectBlock(img: Image, bs: nat, b: nat, holes: bool, fs: nat, s: Dump) returns (s': Dump, err: Option<Error>)
    ensures More(s') == Run(DumpStep(img, bs, fs, holes), More(s), Double(img, bs, b, false, []).blocks)
    ensures err == if Double(img, bs, b, false, []).end == ShortRead then Some(IoError) else None
  {
    if !FullRead(img, b * bs, bs) {
      return s, Some(IoError);
    }
    ghost var f := DumpStep(img, bs, fs, holes);
    ghost var d := PointerBlock(img, bs, b).value;
    ghost var whole := Double(img, bs, b, false, []);
    ghost var visited: seq<nat> := [];
    s' := s;
    var i := 0;
    while i < bs / 4
      invariant i <= bs / 4
      invariant DoubleFrom(img, bs, d, i, false, visited) == whole
      invariant Run(f, More(s), visited) == More(s')
    {
      var e := U32(img, b * bs + 4 * i);
      assert e == d[i];
      var s2, er := CopyIndirectBlock(img, bs, e, holes, fs, s');
      ghost var sc := Indirect(img, bs, e, false, []);
      IndirectAcc(img, bs, e, false, visited);
      RunAppend(f, More(s), visited, sc.blocks);
      if er.Some? {
        return s2, er;
      }
      visited := visited + sc.blocks;
      s' := s2;
      i := i + 1;
    }
    return s', None;
  }

  /** The dispatch on slot i of i_block. */
  method CopySlot(img: Image, bs: nat, ib: seq<nat>, i: nat, holes: bool, fs: nat, s: Dump) returns (s': Dump, err: Option<Error>)
    requires |ib| == NBlocks && i < TindBlock
    ensures More(s') == Run(DumpStep(img, bs, fs, holes), More(s), SlotScan(img, bs, ib, Policy(holes, false), i).blocks)
    ensures err == if SlotScan(img, bs, ib, Policy(holes, false), i).end == ShortRead then Some(IoError) else None
  {
    if i < NDirBlocks {
      s' := CopyDirectBlock(img, bs, ib[i], holes, fs, s);
      assert [ib[i]][1..] == [];
      err := None;
    } else if i == IndBlock {
      s', err := CopyIndirectBlock(img, bs, ib[i], holes, fs, s);
    } else {
      s', err := CopyDoubleIndirectBlock(img, bs, ib[i], holes, fs, s);
    }
  }

  method CopyInode(img: Image, bs: nat, inodeOff: nat, holes: bool, out0: seq<byte>) returns (out: seq<byte>, err: Option<Error>)
    ensures Copy(out, err) == InodeCopy(img, bs, inodeOff, holes, out0)
  {
    var ino := DecodeInode(img, inodeOff);
    var s := Dump(0, out0);
    ghost var visited: seq<nat> := [];
    CopiedAtStart(img, bs, ino.block, ino.size, holes, out0);
    var i := 0;
    while i < TindBlock
      invariant CopiedAt(img, bs, ino.block, ino.size, holes, out0, i, visited, s)
    {
      // walk_path stops at a zero slot; the sparse reader copies it as a hole.
      if (!holes && ino.block[i] == 0) || s.copied == ino.size {
        break;
      }
      var s2, er := CopySlot(img, bs, ino.block, i, holes, ino.size, s);
      CopiedSlot(img, bs, ino.block, ino.size, holes, out0, i, visited, s, s2, er);
      if er.Some? {
        return s2.out, er;
      }
      visited := visited + SlotScan(img, bs, ino.block, Policy(holes, false), i).blocks;
      s := s2;
      i := i + 1;
    }
    CopiedEnd(img, bs, ino.block, ino.size, holes, out0, i, visited, s);
    return s.out, None;
  }
}
