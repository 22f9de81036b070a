/** The read side of the FUSE file system (copy_inode and its helpers in
    ext2_func.c): the bytes [fuse_offset, fuse_offset + fuse_size) of a
    regular file are copied into the caller's buffer fuse_buf. Each data
    block contributes min(block_size, file_size - size_copied) bytes of the
    file, as in the size-bounded copy; only the part of them that falls in
    the window is read and copied, at fuse_buf_offset, which then advances by
    its size. The slot loop of copy_inode also stops once fuse_buf_offset
    reaches fuse_size. */
module FuseRead {
  import opened Ext2Image
  import opened Ext2Layout
  import opened BlockMap
  import opened FileCopy
  import opened SizedCopy

  /** size_copied, fuse_buf_offset and the contents of fuse_buf. */
  datatype Win = Win(copied: nat, fbo: nat, buf: seq<byte>)

  /** memcpy(buf + at, data, |data|), within the buffer's bounds. */
  function Memcpy(buf: seq<byte>, at: nat, data: seq<byte>): (r: seq<byte>)
    ensures |r| == |buf|
  {
    seq(|buf|, i requires 0 <= i < |buf| => if at <= i < at + |data| then data[i - at] else buf[i])
  }

  /** Copying one more piece right after the pieces copied so far. */
  lemma MemcpyExtends(buf: seq<byte>, w: seq<byte>, d: seq<byte>)
    ensures Memcpy(Memcpy(buf, 0, w), |w|, d) == Memcpy(buf, 0, w + d)
  {
  }

  /** How many bytes of the window [off, off + fsz) lie below file offset c. */
  function WinLen(off: nat, fsz: nat, c: nat): (n: nat)
    ensures n <= fsz
    ensures c <= off ==> n == 0
    ensures off < c <= off + fsz ==> n == c - off
    ensures off + fsz <= c ==> n == fsz
  {
    if c <= off then 0 else if c - off >= fsz then fsz else c - off
  }

  /** The bytes of the window [off, off + fsz) inside bytes. */
  function Window(off: nat, fsz: nat, bytes: seq<byte>): (w: seq<byte>)
    ensures |w| == WinLen(off, fsz, |bytes|)
  {
    if |bytes| <= off then []
    else if |bytes| - off >= fsz then bytes[off..off + fsz]
    else bytes[off..]
  }

  /** The intersection [Lo, Hi) of the chunk [c, c + size) with the window
      [off, off + fsz). */
  function Lo(off: nat, c: nat): nat
  {
    if c > off then c else off
  }

  function Hi(off: nat, fsz: nat, c: nat, size: nat): nat
  {
    if c + size > off + fsz then off + fsz else c + size
  }

  /** copy_direct_block on the chunk [size_copied, size_copied + size) held
      at image offset base: its intersection with the window is read at
      base + (fuse_offset + fuse_buf_offset) - size_copied and copied to
      fuse_buf + fuse_buf_offset; when the intersection is empty nothing is
      read. */
  function CopyChunk(img: Image, base: int, size: nat, off: nat, fsz: nat, s: Win): Win
  {
    var start := Lo(off, s.copied);
    var end := Hi(off, fsz, s.copied, size);
    if start >= end then Win(s.copied + size, s.fbo, s.buf)
    else
      var n := end - start;
      Win(s.copied + size, s.fbo + n, Memcpy(s.buf, s.fbo, ReadAt(img, base + (off + s.fbo - s.copied), n)))
  }

  /** copy_direct_block on block b, whose chunk is min(block_size,
      i_size - size_copied) bytes. */
  function NextWin(img: Image, bs: nat, fs: nat, off: nat, fsz: nat, s: Win, b: nat): Win
  {
    CopyChunk(img, b * bs, Chunk(bs, fs, s.copied), off, fsz, s)
  }

  function WinStep(img: Image, bs: nat, fs: nat, off: nat, fsz: nat): (Win, nat) -> Step<Win>
  {
    (s: Win, b: nat) => More(NextWin(img, bs, fs, off, fsz, s, b))
  }

  /** The state after the blocks blocks from an empty buffer: all of the
      window that those blocks hold has been copied, in order, to the start
      of the buffer. */
  function WinAfter(img: Image, bs: nat, fs: nat, off: nat, fsz: nat, buf0: seq<byte>, blocks: seq<nat>): Win
  {
    var c := Copied(bs, fs, |blocks|);
    Win(c, WinLen(off, fsz, c), Memcpy(buf0, 0, Window(off, fsz, FileBytes(img, bs, fs, false, blocks))))
  }

  /** Reading a slice of a read is reading the slice. */
  lemma ReadAtSlice(img: Image, o: int, n: nat, i: nat, j: nat)
    requires i <= j <= n
    ensures ReadAt(img, o, n)[i..j] == ReadAt(img, o + i, j - i)
  {
  }

  /** A chunk that misses the window leaves the window's bytes as they are. */
  lemma WindowMissed(off: nat, fsz: nat, fb: seq<byte>, d: seq<byte>)
    requires |fb| + |d| <= off || d == [] || off + fsz <= |fb| || fsz == 0
    ensures Window(off, fsz, fb + d) == Window(off, fsz, fb)
  {
    if fsz == 0 {
    } else if d == [] {
      assert fb + d == fb;
    } else if off + fsz <= |fb| && |fb| + |d| > off {
      assert (fb + d)[off..off + fsz] == fb[off..off + fsz];
    }
  }

  /** A chunk that meets the window adds its part in the window. */
  lemma WindowGrows(off: nat, fsz: nat, fb: seq<byte>, d: seq<byte>, start: nat, end: nat)
    requires start == (if |fb| > off then |fb| else off)
    requires end == (if |fb| + |d| > off + fsz then off + fsz else |fb| + |d|)
    requires start < end
    ensures Window(off, fsz, fb + d) == Window(off, fsz, fb) + d[start - |fb|..end - |fb|]
  {
    if |fb| <= off {
      WindowEnters(off, fsz, fb, d, end);
    } else {
      WindowContinues(off, fsz, fb, d, end);
    }
  }

  /** The window begins inside the chunk. */
  lemma WindowEnters(off: nat, fsz: nat, fb: seq<byte>, d: seq<byte>, end: nat)
    requires |fb| <= off < end <= |fb| + |d| && end - off <= fsz
    requires end == off + fsz || end == |fb| + |d|
    ensures Window(off, fsz, fb + d) == d[off - |fb|..end - |fb|]
  {
    assert (fb + d)[off..end] == d[off - |fb|..end - |fb|];
  }

  /** The window began before the chunk. */
  lemma WindowContinues(off: nat, fsz: nat, fb: seq<byte>, d: seq<byte>, end: nat)
    requires off < |fb| < end <= |fb| + |d| && end <= off + fsz
    requires end == off + fsz || end == |fb| + |d|
    ensures Window(off, fsz, fb + d) == fb[off..] + d[..end - |fb|]
  {
    assert (fb + d)[off..end] == fb[off..] + d[..end - |fb|];
  }

  /** copy_direct_block after the file bytes fb: the window's part of the
      next chunk is appended to the copied window. */
  lemma ChunkGrows(img: Image, base: int, size: nat, off: nat, fsz: nat, buf0: seq<byte>, fb: seq<byte>)
    ensures var c := |fb|;
      CopyChunk(img, base, size, off, fsz, Win(c, WinLen(off, fsz, c), Memcpy(buf0, 0, Window(off, fsz, fb)))) ==
      Win(c + size, WinLen(off, fsz, c + size), Memcpy(buf0, 0, Window(off, fsz, fb + ReadAt(img, base, size))))
  {
    var c := |fb|;
    if Lo(off, c) >= Hi(off, fsz, c, size) {
      WindowMissed(off, fsz, fb, ReadAt(img, base, size));
    } else {
      ChunkGrowsHit(img, base, size, off, fsz, buf0, fb);
    }
  }

  /** The chunk meets the window: (fuse_offset + fuse_buf_offset) -
      size_copied is the offset in the block of the window's next byte. */
  lemma ChunkGrowsHit(img: Image, base: int, size: nat, off: nat, fsz: nat, buf0: seq<byte>, fb: seq<byte>)
    requires Lo(off, |fb|) < Hi(off, fsz, |fb|, size)
    ensures var c := |fb|;
      CopyChunk(img, base, size, off, fsz, Win(c, WinLen(off, fsz, c), Memcpy(buf0, 0, Window(off, fsz, fb)))) ==
      Win(c + size, WinLen(off, fsz, c + size), Memcpy(buf0, 0, Window(off, fsz, fb + ReadAt(img, base, size))))
  {
    var c := |fb|;
    var start, end := Lo(off, c), Hi(off, fsz, c, size);
    HitArith(off, fsz, c, size);
    HitCopies(img, base, size, off, fsz, buf0, c, Window(off, fsz, fb));
    HitWindow(img, base, size, off, fsz, fb);
  }

  /** The hit case of copy_direct_block appends the intersection to what the
      buffer's first fuse_buf_offset bytes hold. */
  lemma HitCopies(img: Image, base: int, size: nat, off: nat, fsz: nat, buf0: seq<byte>, c: nat, w: seq<byte>)
    requires Lo(off, c) < Hi(off, fsz, c, size) && off + |w| == Lo(off, c)
    ensures var start, end := Lo(off, c), Hi(off, fsz, c, size);
      CopyChunk(img, base, size, off, fsz, Win(c, |w|, Memcpy(buf0, 0, w))) ==
      Win(c + size, |w| + (end - start), Memcpy(buf0, 0, w + ReadAt(img, base + (start - c), end - start)))
  {
    var start, end := Lo(off, c), Hi(off, fsz, c, size);
    MemcpyExtends(buf0, w, ReadAt(img, base + (start - c), end - start));
  }

  /** The intersection read from the block is the window's part of the chunk. */
  lemma HitWindow(img: Image, base: int, size: nat, off: nat, fsz: nat, fb: seq<byte>)
    requires Lo(off, |fb|) < Hi(off, fsz, |fb|, size)
    ensures var c := |fb|; var start, end := Lo(off, c), Hi(off, fsz, c, size);
      Window(off, fsz, fb) + ReadAt(img, base + (start - c), end - start) == Window(off, fsz, fb + ReadAt(img, base, size))
  {
    var c := |fb|;
    var start, end := Lo(off, c), Hi(off, fsz, c, size);
    var d := ReadAt(img, base, size);
    ReadAtSlice(img, base, size, start - c, end - c);
    WindowGrows(off, fsz, fb, d, start, end);
  }

  /** Where a chunk meets the window: the window's next byte is at
      off + WinLen(c), and the copied length grows by the intersection. */
  lemma HitArith(off: nat, fsz: nat, c: nat, size: nat)
    requires Lo(off, c) < Hi(off, fsz, c, size)
    ensures off + WinLen(off, fsz, c) == Lo(off, c)
    ensures WinLen(off, fsz, c + size) == WinLen(off, fsz, c) + (Hi(off, fsz, c, size) - Lo(off, c))
  {
  }

  /** One more block keeps the state the closed form of the blocks so far. */
  lemma WinSnoc(img: Image, bs: nat, fs: nat, off: nat, fsz: nat, buf0: seq<byte>, init: seq<nat>, b: nat)
    ensures NextWin(img, bs, fs, off, fsz, WinAfter(img, bs, fs, off, fsz, buf0, init), b) ==
      WinAfter(img, bs, fs, off, fsz, buf0, init + [b])
  {
    CopiedStep(bs, fs, |init|);
    FileBytesSnoc(img, bs, fs, false, init, b);
    ChunkGrows(img, b * bs, Chunk(bs, fs, |FileBytes(img, bs, fs, false, init)|), off, fsz, buf0, FileBytes(img, bs, fs, false, init));
    assert |init + [b]| == |init| + 1;
  }

  lemma WinStepApply(img: Image, bs: nat, fs: nat, off: nat, fsz: nat, s: Win, b: nat)
    ensures WinStep(img, bs, fs, off, fsz)(s, b) == More(NextWin(img, bs, fs, off, fsz, s, b))
  {
  }

  /** From an empty window, copying the blocks blocks in turn leaves their
      part of the window at the start of fuse_buf. */
  lemma {:induction false} WinRun(img: Image, bs: nat, fs: nat, off: nat, fsz: nat, buf0: seq<byte>, blocks: seq<nat>)
    ensures Run(WinStep(img, bs, fs, off, fsz), More(Win(0, 0, buf0)), blocks) ==
      More(WinAfter(img, bs, fs, off, fsz, buf0, blocks))
    decreases |blocks|
  {
    if blocks == [] {
      assert Memcpy(buf0, 0, []) == buf0;
    } else {
      var n := |blocks| - 1;
      var init := blocks[..n];
      assert blocks == init + [blocks[n]];
      WinRun(img, bs, fs, off, fsz, buf0, init);
      RunSnoc(WinStep(img, bs, fs, off, fsz), More(Win(0, 0, buf0)), init, blocks[n]);
      WinStepApply(img, bs, fs, off, fsz, WinAfter(img, bs, fs, off, fsz, buf0, init), blocks[n]);
      WinSnoc(img, bs, fs, off, fsz, buf0, init, blocks[n]);
    }
  }

  /** fuse_buf_offset counts the window's bytes below size_copied, and the
      window fits in fuse_buf. */
  predicate Coherent(off: nat, fsz: nat, s: Win)
  {
    s.fbo == WinLen(off, fsz, s.copied) && fsz <= |s.buf|
  }

  /** copy_direct_block keeps the state coherent; in particular its memcpy
      stays inside the window's part of fuse_buf. */
  lemma NextWinCoherent(img: Image, bs: nat, fs: nat, off: nat, fsz: nat, s: Win, b: nat)
    requires Coherent(off, fsz, s)
    ensures Coherent(off, fsz, NextWin(img, bs, fs, off, fsz, s, b))
  {
    var size := Chunk(bs, fs, s.copied);
    if Lo(off, s.copied) < Hi(off, fsz, s.copied, size) {
      HitArith(off, fsz, s.copied, size);
    }
  }

  /** The state after the blocks of the walk is coherent. */
  lemma WinAfterCoherent(img: Image, bs: nat, fs: nat, off: nat, fsz: nat, buf0: seq<byte>, blocks: seq<nat>)
    requires fsz <= |buf0|
    ensures Coherent(off, fsz, WinAfter(img, bs, fs, off, fsz, buf0, blocks))
  {
  }

  /** Memcpy at 0 puts w in front of the rest of the buffer. */
  lemma MemcpyFront(buf: seq<byte>, w: seq<byte>)
    requires |w| <= |buf|
    ensures Memcpy(buf, 0, w) == w + buf[|w|..]
  {
  }

  // ---------------------------------------------------------------------------
  // The read of copy_inode as a whole

  /** The slot loop's stop rule after k blocks: size_copied == file_size or
      fuse_buf_offset >= fuse_size. */
  function WinStop(bs: nat, fs: nat, off: nat, fsz: nat): nat -> bool
  {
    (k: nat) => Copied(bs, fs, k) == fs || WinLen(off, fsz, Copied(bs, fs, k)) >= fsz
  }

  function ReadWalk(img: Image, bs: nat, ib: seq<nat>, fs: nat, off: nat, fsz: nat): Scan
    requires |ib| == NBlocks
  {
    Walk(img, bs, ib, Policy(false, false), WinStop(bs, fs, off, fsz))
  }

  /** What copy_inode leaves behind: fuse_buf_offset (ext2_read's result),
      fuse_buf, and -errno (IoError) when a pointer block was short. */
  datatype Read = Read(count: nat, buf: seq<byte>, err: Option<Error>)

  function WindowRead(img: Image, bs: nat, ino: Inode, off: nat, fsz: nat, buf0: seq<byte>): Read
    requires |ino.block| == NBlocks
  {
    var w := ReadWalk(img, bs, ino.block, ino.size, off, fsz);
    var a := WinAfter(img, bs, ino.size, off, fsz, buf0, w.blocks);
    Read(a.fbo, a.buf, if w.end == ShortRead then Some(IoError) else None)
  }

  /** The read fills fuse_buf[0..count) with the window of the file's bytes
      along the walk, count <= fuse_size, and leaves the rest of fuse_buf as
      it was. */
  lemma ReadFillsWindow(img: Image, bs: nat, ino: Inode, off: nat, fsz: nat, buf0: seq<byte>)
    requires |ino.block| == NBlocks && fsz <= |buf0|
    ensures var r := WindowRead(img, bs, ino, off, fsz, buf0);
      var fb := FileBytes(img, bs, ino.size, false, ReadWalk(img, bs, ino.block, ino.size, off, fsz).blocks);
      r.count <= fsz && |r.buf| == |buf0| &&
      r.buf[..r.count] == Window(off, fsz, fb) && r.buf[r.count..] == buf0[r.count..]
  {
    var w := ReadWalk(img, bs, ino.block, ino.size, off, fsz);
    var fb := FileBytes(img, bs, ino.size, false, w.blocks);
    MemcpyFront(buf0, Window(off, fsz, fb));
  }

  /** WinLen grows with the offset it is taken at. */
  lemma WinLenMono(off: nat, fsz: nat, c: nat, d: nat)
    requires c <= d
    ensures WinLen(off, fsz, c) <= WinLen(off, fsz, d)
  {
  }

  /** A read that ended by the stop rule returned min(fuse_size,
      i_size - fuse_offset) bytes, none when fuse_offset is past i_size. */
  lemma StoppedReadCount(img: Image, bs: nat, ino: Inode, off: nat, fsz: nat, buf0: seq<byte>)
    requires |ino.block| == NBlocks
    requires ReadWalk(img, bs, ino.block, ino.size, off, fsz).end == Stopped
    ensures WindowRead(img, bs, ino, off, fsz, buf0).err == None
    ensures WindowRead(img, bs, ino, off, fsz, buf0).count == WinLen(off, fsz, ino.size)
  {
    var fs := ino.size;
    var w := ReadWalk(img, bs, ino.block, fs, off, fsz);
    StoppedWalk(img, bs, ino.block, Policy(false, false), WinStop(bs, fs, off, fsz));
    assert WinStop(bs, fs, off, fsz)(|w.blocks|);
    WinLenMono(off, fsz, Copied(bs, fs, |w.blocks|), fs);
  }

  /** The window of a prefix is a prefix of the window. */
  lemma WindowPrefix(off: nat, fsz: nat, p: seq<byte>, q: seq<byte>)
    requires p <= q
    ensures Window(off, fsz, p) <= Window(off, fsz, q)
  {
  }

  /** The read copies the window of the very bytes the size-bounded copier
      (SizedCopy, holes off) writes for the same inode: stopping early at
      fuse_buf_offset >= fuse_size loses nothing of the window, and a short
      pointer block that ends the read ends that copy as well. */
  lemma ReadIsCopyWindow(img: Image, bs: nat, ino: Inode, off: nat, fsz: nat, buf0: seq<byte>)
    requires |ino.block| == NBlocks && fsz <= |buf0|
    ensures var r := WindowRead(img, bs, ino, off, fsz, buf0);
      var fb := FileBytes(img, bs, ino.size, false, DataWalk(img, bs, ino.block, ino.size, false).blocks);
      r.count <= fsz && r.buf[..r.count] == Window(off, fsz, fb) &&
      (r.err.Some? ==> CopyFile(img, bs, ino.block, ino.size, false, buf0).err == r.err)
  {
    var fs := ino.size;
    var rw := ReadWalk(img, bs, ino.block, fs, off, fsz);
    var dw := DataWalk(img, bs, ino.block, fs, false);
    ReadFillsWindow(img, bs, ino, off, fsz, buf0);
    assert forall k :: StopAt(bs, fs)(k) ==> WinStop(bs, fs, off, fsz)(k);
    WalkEarlierStop(img, bs, ino.block, Policy(false, false), StopAt(bs, fs), WinStop(bs, fs, off, fsz));
    var p := FileBytes(img, bs, fs, false, rw.blocks);
    var q := FileBytes(img, bs, fs, false, dw.blocks);
    FileBytesPrefix(img, bs, fs, false, rw.blocks, dw.blocks);
    WindowPrefix(off, fsz, p, q);
    if rw.end == Stopped {
      StoppedWalk(img, bs, ino.block, Policy(false, false), WinStop(bs, fs, off, fsz));
      assert WinStop(bs, fs, off, fsz)(|rw.blocks|);
      if |p| == fs {
        assert p == q;
      } else {
        assert |Window(off, fsz, p)| == fsz;
      }
    }
  }

  // ---------------------------------------------------------------------------
  // The copiers, one method per function of the source, over fuse_buf

  /** copy_direct_block: size_copied and fuse_buf_offset are passed in and
      returned, fuse_buf is written in place. */
  method CopyDirectBlock(img: Image, bs: nat, b: nat, fs: nat, off: nat, fsz: nat, buf: array<byte>, copied: nat, fbo: nat)
    returns (copied': nat, fbo': nat)
    requires Coherent(off, fsz, Win(copied, fbo, buf[..]))
    modifies buf
    ensures Win(copied', fbo', buf[..]) == NextWin(img, bs, fs, off, fsz, Win(copied, fbo, old(buf[..])), b)
    ensures Coherent(off, fsz, Win(copied', fbo', buf[..]))
  {
    NextWinCoherent(img, bs, fs, off, fsz, Win(copied, fbo, buf[..]), b);
    var size := Chunk(bs, fs, copied);
    var start := if copied > off then copied else off;
    var end := if copied + size > off + fsz then off + fsz else copied + size;
    if start >= end {
      return copied + size, fbo;
    }
    var n := end - start;
    HitArith(off, fsz, copied, size);
    var data := ReadAt(img, b * bs + (off + fbo - copied), n);
    // memcpy(fuse_buf + fuse_buf_offset, buf, intersection_size)
    var j := 0;
    while j < n
      invariant j <= n
      invariant forall k :: 0 <= k < buf.Length ==> buf[k] == if fbo <= k < fbo + j then data[k - fbo] else old(buf[k])
    {
      buf[fbo + j] := data[j];
      j := j + 1;
    }
    assert buf[..] == Memcpy(old(buf[..]), fbo, data);
    return copied + size, fbo + n;
  }

  method CopyIndirectBlock(img: Image, bs: nat, b: nat, fs: nat, off: nat, fsz: nat, buf: array<byte>, copied: nat, fbo: nat)
    returns (copied': nat, fbo': nat, err: Option<Error>)
    requires Coherent(off, fsz, Win(copied, fbo, buf[..]))
    modifies buf
    ensures More(Win(copied', fbo', buf[..])) ==
      Run(WinStep(img, bs, fs, off, fsz), More(Win(copied, fbo, old(buf[..]))), Indirect(img, bs, b, false, []).blocks)
    ensures err == if Indirect(img, bs, b, false, []).end == ShortRead then Some(IoError) else None
    ensures Coherent(off, fsz, Win(copied', fbo', buf[..]))
  {
    if !FullRead(img, b * bs, bs) {
      return copied, fbo, Some(IoError);
    }
    ghost var f := WinStep(img, bs, fs, off, fsz);
    ghost var s0 := Win(copied, fbo, buf[..]);
    IndirectAtStart(f, s0, img, bs, b);
    copied', fbo' := copied, fbo;
    var i := 0;
    while i < bs / 4
      invariant IndirectAt(f, s0, img, bs, b, i, Win(copied', fbo', buf[..]))
      invariant Coherent(off, fsz, Win(copied', fbo', buf[..]))
    {
      IndirectAtEntry(f, s0, img, bs, b, i, Win(copied', fbo', buf[..]));
      var e := U32(img, b * bs + 4 * i);
      if e == 0 {
        break;
      }
      ghost var st := Win(copied', fbo', buf[..]);
      copied', fbo' := CopyDirectBlock(img, bs, e, fs, off, fsz, buf, copied', fbo');
      WinStepApply(img, bs, fs, off, fsz, st, e);
      IndirectAtStep(f, s0, img, bs, b, i, st, false);
      i := i + 1;
    }
    IndirectAtEnd(f, s0, img, bs, b, i, Win(copied', fbo', buf[..]), false);
    return copied', fbo', None;
  }

  method CopyDoubleIndirectBlock(img: Image, bs: nat, b: nat, fs: nat, off: nat, fsz: nat, buf: array<byte>, copied: nat, fbo: nat)
    returns (copied': nat, fbo': nat, err: Option<Error>)
    requires Coherent(off, fsz, Win(copied, fbo, buf[..]))
    modifies buf
    ensures More(Win(copied', fbo', buf[..])) ==
      Run(WinStep(img, bs, fs, off, fsz), More(Win(copied, fbo, old(buf[..]))), Double(img, bs, b, false, []).blocks)
    ensures err == if Double(img, bs, b, false, []).end == ShortRead then Some(IoError) else None
    ensures Coherent(off, fsz, Win(copied', fbo', buf[..]))
  {
    if !FullRead(img, b * bs, bs) {
      return copied, fbo, Some(IoError);
    }
    ghost var f := WinStep(img, bs, fs, off, fsz);
    ghost var s0 := Win(copied, fbo, buf[..]);
    ghost var d := PointerBlock(img, bs, b).value;
    ghost var whole := Double(img, bs, b, false, []);
    ghost var visited: seq<nat> := [];
    copied', fbo' := copied, fbo;
    var i := 0;
    while i < bs / 4
      invariant i <= bs / 4
      invariant DoubleFrom(img, bs, d, i, false, visited) == whole
      invariant Run(f, More(s0), visited) == More(Win(copied', fbo', buf[..]))
      invariant Coherent(off, fsz, Win(copied', fbo', buf[..]))
    {
      var e := U32(img, b * bs + 4 * i);
      assert e == d[i];
      ghost var st := Win(copied', fbo', buf[..]);
      var er;
      copied', fbo', er := CopyIndirectBlock(img, bs, e, fs, off, fsz, buf, copied', fbo');
      ghost var sc := Indirect(img, bs, e, false, []);
      IndirectAcc(img, bs, e, false, visited);
      RunAppend(f, More(s0), visited, sc.blocks);
      if er.Some? {
        return copied', fbo', er;
      }
      visited := visited + sc.blocks;
      i := i + 1;
    }
    return copied', fbo', None;
  }

  /** The dispatch on slot i of i_block. */
  method CopySlot(img: Image, bs: nat, ib: seq<nat>, i: nat, fs: nat, off: nat, fsz: nat, buf: array<byte>, copied: nat, fbo: nat)
    returns (copied': nat, fbo': nat, err: Option<Error>)
    requires |ib| == NBlocks && i < TindBlock
    requires Coherent(off, fsz, Win(copied, fbo, buf[..]))
    modifies buf
    ensures More(Win(copied', fbo', buf[..])) ==
      Run(WinStep(img, bs, fs, off, fsz), More(Win(copied, fbo, old(buf[..]))), SlotScan(img, bs, ib, Policy(false, false), i).blocks)
    ensures err == if SlotScan(img, bs, ib, Policy(false, false), i).end == ShortRead then Some(IoError) else None
  {
    if i < NDirBlocks {
      ghost var s := Win(copied, fbo, buf[..]);
      copied', fbo' := CopyDirectBlock(img, bs, ib[i], fs, off, fsz, buf, copied, fbo);
      WinStepApply(img, bs, fs, off, fsz, s, ib[i]);
      assert [ib[i]][1..] == [];
      err := None;
    } else if i == IndBlock {
      copied', fbo', err := CopyIndirectBlock(img, bs, ib[i], fs, off, fsz, buf, copied, fbo);
    } else {
      copied', fbo', err := CopyDoubleIndirectBlock(img, bs, ib[i], fs, off, fsz, buf, copied, fbo);
    }
  }

  /** The slot loop of copy_inode is at slot i, having read the blocks
      visited into the state s. */
  ghost predicate ReadingAt(img: Image, bs: nat, ib: seq<nat>, fs: nat, off: nat, fsz: nat, buf0: seq<byte>,
                            i: nat, visited: seq<nat>, s: Win)
  {
    SlotsAt(WinStep(img, bs, fs, off, fsz), Win(0, 0, buf0), img, bs, ib, Policy(false, false), WinStop(bs, fs, off, fsz), i, visited, s)
  }

  /** At every slot the state is the closed form of the blocks visited. */
  lemma ReadingAtState(img: Image, bs: nat, ib: seq<nat>, fs: nat, off: nat, fsz: nat, buf0: seq<byte>,
                       i: nat, visited: seq<nat>, s: Win)
    requires ReadingAt(img, bs, ib, fs, off, fsz, buf0, i, visited, s)
    ensures s == WinAfter(img, bs, fs, off, fsz, buf0, visited)
  {
    WinRun(img, bs, fs, off, fsz, buf0, visited);
  }

  /** Slot i was read into s' (err tells whether its pointer block was
      short): a short read ends the read, and otherwise the loop goes on. */
  lemma ReadSlot(img: Image, bs: nat, ino: Inode, off: nat, fsz: nat, buf0: seq<byte>,
                 i: nat, visited: seq<nat>, s: Win, s': Win, err: Option<Error>)
    requires ReadingAt(img, bs, ino.block, ino.size, off, fsz, buf0, i, visited, s) && i < TindBlock
    requires ino.block[i] != 0 && !WinStop(bs, ino.size, off, fsz)(|visited|)
    requires More(s') == Run(WinStep(img, bs, ino.size, off, fsz), More(s), SlotScan(img, bs, ino.block, Policy(false, false), i).blocks)
    requires err == if SlotScan(img, bs, ino.block, Policy(false, false), i).end == ShortRead then Some(IoError) else None
    ensures err.Some? ==> Read(s'.fbo, s'.buf, err) == WindowRead(img, bs, ino, off, fsz, buf0)
    ensures err.None? ==> ReadingAt(img, bs, ino.block, ino.size, off, fsz, buf0, i + 1, visited + SlotScan(img, bs, ino.block, Policy(false, false), i).blocks, s')
  {
    var fs := ino.size;
    var f := WinStep(img, bs, fs, off, fsz);
    var pol := Policy(false, false);
    var sc := SlotScan(img, bs, ino.block, pol, i);
    SlotStep(f, Win(0, 0, buf0), img, bs, ino.block, pol, WinStop(bs, fs, off, fsz), i, visited, s);
    RunExtend(f, Win(0, 0, buf0), visited, sc.blocks, visited + sc.blocks, s);
    WinRun(img, bs, fs, off, fsz, buf0, visited + sc.blocks);
  }

  /** The slot loop ends at slot 14, at a zero slot or by the stop rule: s is
      the whole read. */
  lemma ReadEnd(img: Image, bs: nat, ino: Inode, off: nat, fsz: nat, buf0: seq<byte>,
                i: nat, visited: seq<nat>, s: Win)
    requires ReadingAt(img, bs, ino.block, ino.size, off, fsz, buf0, i, visited, s)
    requires i == TindBlock || ino.block[i] == 0 || WinStop(bs, ino.size, off, fsz)(|visited|)
    ensures Read(s.fbo, s.buf, None) == WindowRead(img, bs, ino, off, fsz, buf0)
  {
    var fs := ino.size;
    SlotsEnd(WinStep(img, bs, fs, off, fsz), Win(0, 0, buf0), img, bs, ino.block, Policy(false, false), WinStop(bs, fs, off, fsz), i, visited, s);
    WinRun(img, bs, fs, off, fsz, buf0, visited);
  }

  /** copy_inode(img, block_size, inode, fuse_size, fuse_offset, fuse_buf,
      &fuse_buf_offset) with fuse_buf_offset starting at 0, as ext2_read
      calls it: the result is fuse_buf_offset, or the error. */
  method CopyInode(img: Image, bs: nat, ino: Inode, fsz: nat, off: nat, buf: array<byte>) returns (fbo: nat, err: Option<Error>)
    requires |ino.block| == NBlocks && fsz <= buf.Length
    modifies buf
    ensures Read(fbo, buf[..], err) == WindowRead(img, bs, ino, off, fsz, old(buf[..]))
  {
    ghost var buf0 := buf[..];
    var fs := ino.size;
    var copied := 0;
    fbo := 0;
    ghost var visited: seq<nat> := [];
    SlotsAtStart(WinStep(img, bs, fs, off, fsz), Win(0, 0, buf0), img, bs, ino.block, Policy(false, false), WinStop(bs, fs, off, fsz));
    var i := 0;
    while i < TindBlock
      invariant ReadingAt(img, bs, ino.block, fs, off, fsz, buf0, i, visited, Win(copied, fbo, buf[..]))
    {
      ReadingAtState(img, bs, ino.block, fs, off, fsz, buf0, i, visited, Win(copied, fbo, buf[..]));
      if ino.block[i] == 0 || copied == fs || fbo >= fsz {
        break;
      }
      ghost var s := Win(copied, fbo, buf[..]);
      var er;
      copied, fbo, er := CopySlot(img, bs, ino.block, i, fs, off, fsz, buf, copied, fbo);
      ReadSlot(img, bs, ino, off, fsz, buf0, i, visited, s, Win(copied, fbo, buf[..]), er);
      if er.Some? {
        return fbo, er;
      }
      visited := visited + SlotScan(img, bs, ino.block, Policy(false, false), i).blocks;
      i := i + 1;
    }
    ReadEnd(img, bs, ino, off, fsz, buf0, i, visited, Win(copied, fbo, buf[..]));
    return fbo, None;
  }
}
