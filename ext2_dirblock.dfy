/** One directory block as the engine's direct-block walkers see it: entries
    read at the block start and then rec_len bytes apart ("The Second Extended
    File System", section 4.1, linked directory entries), until the next entry
    would start at or past the block end or an entry with inode 0 is read. */
module DirBlock {
  import opened Ext2Image
  import opened Ext2Layout

  /** A directory entry together with the image offset it was read at. */
  datatype Located = Located(off: nat, entry: DirEntry)

  /** Why the walk over one block ended. Loops: an entry has rec_len 0, so the
      source's loop would read that same entry again forever. */
  datatype ChainEnd = BlockEnd | InodeZero | Loops

  datatype Chain = Chain(entries: seq<Located>, end: ChainEnd)

  /** The walk from offset cur on, below hi. */
  function ChainFrom(img: Image, hi: nat, cur: nat): Chain
    decreases hi - cur
  {
    if cur >= hi then Chain([], BlockEnd)
    else
      var e := DecodeDirEntry(img, cur);
      if e.inode == 0 then Chain([], InodeZero)
      else if e.recLen == 0 then Chain([Located(cur, e)], Loops)
      else
        var rest := ChainFrom(img, hi, cur + e.recLen);
        Chain([Located(cur, e)] + rest.entries, rest.end)
  }

  /** The entries of directory block b of size bs, in on-disk order. */
  function DirChain(img: Image, bs: nat, b: nat): Chain
  {
    ChainFrom(img, b * bs + bs, b * bs)
  }

  /** Every entry was read inside [lo, hi) at its own offset and is live. */
  predicate LiveInside(img: Image, lo: nat, hi: nat, es: seq<Located>)
  {
    forall k :: 0 <= k < |es| ==>
      lo <= es[k].off < hi && es[k].entry == DecodeDirEntry(img, es[k].off) && es[k].entry.inode != 0
  }

  /** Entries come at strictly increasing offsets: none is read twice. */
  predicate Ascending(es: seq<Located>)
  {
    forall i, j :: 0 <= i < j < |es| ==> es[i].off < es[j].off
  }

  lemma ConsLiveInside(img: Image, lo: nat, hi: nat, x: Located, rest: seq<Located>)
    requires lo <= x.off < hi && x.entry == DecodeDirEntry(img, x.off) && x.entry.inode != 0
    requires LiveInside(img, x.off + 1, hi, rest)
    ensures LiveInside(img, lo, hi, [x] + rest)
  {
    var es := [x] + rest;
    forall k | 0 <= k < |es|
      ensures lo <= es[k].off < hi && es[k].entry == DecodeDirEntry(img, es[k].off) && es[k].entry.inode != 0
    {
      if k > 0 { assert es[k] == rest[k - 1]; }
    }
  }

  lemma ConsAscending(x: Located, rest: seq<Located>)
    requires Ascending(rest) && forall k :: 0 <= k < |rest| ==> x.off < rest[k].off
    ensures Ascending([x] + rest)
  {
    var es := [x] + rest;
    forall i, j | 0 <= i < j < |es| ensures es[i].off < es[j].off {
      assert es[j] == rest[j - 1];
      if i > 0 { assert es[i] == rest[i - 1]; }
    }
  }

  lemma {:induction false} ChainFromShape(img: Image, hi: nat, cur: nat)
    ensures LiveInside(img, cur, hi, ChainFrom(img, hi, cur).entries)
    ensures Ascending(ChainFrom(img, hi, cur).entries)
    ensures ChainFrom(img, hi, cur).end == Loops <==>
      (ChainFrom(img, hi, cur).entries != [] &&
       ChainFrom(img, hi, cur).entries[|ChainFrom(img, hi, cur).entries| - 1].entry.recLen == 0)
    decreases hi - cur
  {
    if cur < hi {
      var e := DecodeDirEntry(img, cur);
      if e.inode != 0 && e.recLen != 0 {
        var next := cur + e.recLen;
        ChainFromShape(img, hi, next);
        var rest := ChainFrom(img, hi, next).entries;
        var x := Located(cur, e);
        assert ChainFrom(img, hi, cur).entries == [x] + rest;
        assert LiveInside(img, cur + 1, hi, rest) by {
          assert forall k :: 0 <= k < |rest| ==> next <= rest[k].off;
        }
        ConsLiveInside(img, cur, hi, x, rest);
        ConsAscending(x, rest);
        if rest != [] {
          assert ([x] + rest)[|rest|] == rest[|rest| - 1];
        }
      }
    }
  }

  /** Every entry of a directory block lies inside the block, was read at its
      own offset and is live; no entry is read twice; and the walk diverges
      exactly when its last entry has rec_len 0. */
  lemma DirChainShape(img: Image, bs: nat, b: nat)
    ensures LiveInside(img, b * bs, b * bs + bs, DirChain(img, bs, b).entries)
    ensures Ascending(DirChain(img, bs, b).entries)
    ensures DirChain(img, bs, b).end == Loops <==>
      (DirChain(img, bs, b).entries != [] &&
       DirChain(img, bs, b).entries[|DirChain(img, bs, b).entries| - 1].entry.recLen == 0)
  {
    var lo := b * bs;
    assert DirChain(img, bs, b) == ChainFrom(img, lo + bs, lo);
    ChainFromShape(img, lo + bs, lo);
  }

  /** A walker over block b is at offset cur, having read the entries seen. */
  ghost predicate WalkerAt(img: Image, bs: nat, b: nat, seen: seq<Located>, cur: nat)
  {
    DirChain(img, bs, b) == Chain(seen + ChainFrom(img, b * bs + bs, cur).entries, ChainFrom(img, b * bs + bs, cur).end)
  }

  lemma WalkerStart(img: Image, bs: nat, b: nat)
    ensures WalkerAt(img, bs, b, [], b * bs)
  {
    assert [] + DirChain(img, bs, b).entries == DirChain(img, bs, b).entries;
  }

  /** A live entry with a non-zero rec_len is read and the walker moves on. */
  lemma WalkerStep(img: Image, bs: nat, b: nat, seen: seq<Located>, cur: nat)
    requires WalkerAt(img, bs, b, seen, cur) && cur < b * bs + bs
    requires DecodeDirEntry(img, cur).inode != 0 && DecodeDirEntry(img, cur).recLen != 0
    ensures WalkerAt(img, bs, b, seen + [Located(cur, DecodeDirEntry(img, cur))], cur + DecodeDirEntry(img, cur).recLen)
  {
    var x := Located(cur, DecodeDirEntry(img, cur));
    var next := ChainFrom(img, b * bs + bs, cur + x.entry.recLen);
    assert ChainFrom(img, b * bs + bs, cur) == Chain([x] + next.entries, next.end);
    assert seen + ([x] + next.entries) == (seen + [x]) + next.entries;
  }

  /** The walker reaches the block end or an entry with inode 0: the entries
      seen are all of the block's. */
  lemma WalkerStops(img: Image, bs: nat, b: nat, seen: seq<Located>, cur: nat)
    requires WalkerAt(img, bs, b, seen, cur)
    requires cur >= b * bs + bs || DecodeDirEntry(img, cur).inode == 0
    ensures DirChain(img, bs, b) == Chain(seen, if cur >= b * bs + bs then BlockEnd else InodeZero)
  {
    assert seen + [] == seen;
  }

  /** The walker reads a live entry with rec_len 0: it is the block's last,
      and the walk loops on it. */
  lemma WalkerLoops(img: Image, bs: nat, b: nat, seen: seq<Located>, cur: nat)
    requires WalkerAt(img, bs, b, seen, cur) && cur < b * bs + bs
    requires DecodeDirEntry(img, cur).inode != 0 && DecodeDirEntry(img, cur).recLen == 0
    ensures DirChain(img, bs, b) == Chain(seen + [Located(cur, DecodeDirEntry(img, cur))], Loops)
  {
  }

  /** The name as memcpy/snprintf of name_len bytes leave it: the bytes of the
      on-disk name up to the first NUL. */
  function EntryNameOf(e: DirEntry): (s: seq<byte>)
    ensures |s| <= e.nameLen && |s| <= |e.nameField| && s == e.nameField[..|s|]
    ensures forall i :: 0 <= i < |s| ==> s[i] != 0
    ensures |s| < e.nameLen && |s| < |e.nameField| ==> e.nameField[|s|] == 0
    ensures e.nameLen <= |e.nameField| && (forall i :: 0 <= i < e.nameLen ==> e.nameField[i] != 0) ==>
      s == e.nameField[..e.nameLen]
  {
    var n := if e.nameLen <= |e.nameField| then e.nameLen else |e.nameField|;
    CString(e.nameField[..n])
  }

  lemma DecodedNameLen(img: Image, off: int)
    ensures DecodeDirEntry(img, off).nameLen <= |DecodeDirEntry(img, off).nameField|
  {
  }
}
