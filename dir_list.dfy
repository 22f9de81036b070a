/** What listing a directory inode produces, shared by the command-line lister
    and the FUSE readdir: every live entry of every directory block the inode
    names is handed to the caller's report function, in on-disk order, until a
    block holds an entry that is neither a regular file nor a directory, a
    pointer block cannot be read, or the block map ends. The variants differ
    only in what they report for an entry (the parameter mk). */
module DirList {
  import opened Ext2Image
  import opened Ext2Layout
  import opened BlockMap
  import opened DirBlock

  /** The two entry types a listing accepts. */
  datatype Kind = RegularFile | Directory

  /** The reports made so far and, when the listing failed, why. */
  datatype Listing<R> = Listing(items: seq<R>, err: Option<Error>)

  predicate KnownType(e: DirEntry)
  {
    e.fileType == FtRegFile || e.fileType == FtDir
  }

  function KindOf(e: DirEntry): Kind
  {
    if e.fileType == FtRegFile then RegularFile else Directory
  }

  /** Index of the first entry of unknown type, or |es| when there is none. */
  function FirstUnknown(es: seq<Located>): (k: nat)
    ensures k <= |es|
    ensures forall i :: 0 <= i < k ==> KnownType(es[i].entry)
    ensures k < |es| ==> !KnownType(es[k].entry)
  {
    if es == [] || !KnownType(es[0].entry) then 0 else 1 + FirstUnknown(es[1..])
  }

  function Items<R>(es: seq<Located>, mk: DirEntry -> R): (rs: seq<R>)
    ensures |rs| == |es|
    ensures forall i :: 0 <= i < |es| ==> rs[i] == mk(es[i].entry)
  {
    seq(|es|, i requires 0 <= i < |es| => mk(es[i].entry))
  }

  /** read_direct_block on block b: the entries up to the first one of unknown
      type are reported, and that one fails the listing; an entry with rec_len
      0 is reported and then the listing diverges. */
  function ListBlock<R>(img: Image, bs: nat, b: nat, mk: DirEntry -> R): Listing<R>
  {
    var c := DirChain(img, bs, b);
    var k := FirstUnknown(c.entries);
    if k < |c.entries| then Listing(Items(c.entries[..k], mk), Some(BadFileType))
    else Listing(Items(c.entries, mk), if c.end == Loops then Some(Diverges) else None)
  }

  /** read_direct_block as a function of the block number. */
  function BlockLister<R>(img: Image, bs: nat, mk: DirEntry -> R): nat -> Listing<R>
  {
    (b: nat) => ListBlock(img, bs, b, mk)
  }

  /** The listing as a fold over the visited blocks: the reports of each block
      follow those before, and a block that fails halts the walk. */
  function ListStep<R>(blk: nat -> Listing<R>): (Listing<R>, nat) -> Step<Listing<R>>
  {
    (l: Listing<R>, b: nat) =>
      var r := blk(b);
      var l' := Listing(l.items + r.items, r.err);
      if r.err.None? then More(l') else Halt(l')
  }

  /** The outcome once the walk ended with e: a pointer block the image does
      not hold fails the listing with the reports made so far. */
  function Settle<R>(r: Step<Listing<R>>, e: End): Listing<R>
  {
    if r.More? && e == ShortRead then Listing(r.st.items, Some(IoError)) else r.st
  }

  /** parse_content_of_inode_as_dir: the directory inode at inodeOff listed. */
  function ListDir<R>(img: Image, bs: nat, inodeOff: nat, mk: DirEntry -> R): Listing<R>
  {
    var w := Walk(img, bs, DecodeInode(img, inodeOff).block, Policy(false, false), NeverStop());
    Settle(Run(ListStep(BlockLister(img, bs, mk)), More(Listing([], None)), w.blocks), w.end)
  }

  // ---------------------------------------------------------------------------
  // The loop of read_direct_block, one entry at a time

  /** The walker is at offset cur of block b, having read the entries seen,
      all of a known type. */
  ghost predicate Walked(img: Image, bs: nat, b: nat, seen: seq<Located>, cur: nat)
  {
    WalkerAt(img, bs, b, seen, cur) && forall i :: 0 <= i < |seen| ==> KnownType(seen[i].entry)
  }

  lemma WalkedStart(img: Image, bs: nat, b: nat)
    ensures Walked(img, bs, b, [], b * bs)
  {
    WalkerStart(img, bs, b);
  }

  lemma WalkedStep(img: Image, bs: nat, b: nat, seen: seq<Located>, cur: nat)
    requires Walked(img, bs, b, seen, cur) && cur < b * bs + bs
    requires DecodeDirEntry(img, cur).inode != 0 && KnownType(DecodeDirEntry(img, cur))
    requires DecodeDirEntry(img, cur).recLen != 0
    ensures Walked(img, bs, b, seen + [Located(cur, DecodeDirEntry(img, cur))], cur + DecodeDirEntry(img, cur).recLen)
  {
    var x := Located(cur, DecodeDirEntry(img, cur));
    WalkerStep(img, bs, b, seen, cur);
    var s := seen + [x];
    forall i | 0 <= i < |s| ensures KnownType(s[i].entry) {
      if i < |seen| { assert s[i] == seen[i]; }
    }
  }

  lemma {:induction false} FirstUnknownAfter(seen: seq<Located>, rest: seq<Located>)
    requires forall i :: 0 <= i < |seen| ==> KnownType(seen[i].entry)
    ensures FirstUnknown(seen + rest) == |seen| + FirstUnknown(rest)
    decreases |seen|
  {
    if seen == [] {
      assert seen + rest == rest;
    } else {
      assert (seen + rest)[0] == seen[0];
      assert (seen + rest)[1..] == seen[1..] + rest;
      FirstUnknownAfter(seen[1..], rest);
    }
  }

  /** The walker stops at the block end or at an entry with inode 0: the
      block is listed in full and without error. */
  lemma WalkedEnd<R>(img: Image, bs: nat, b: nat, seen: seq<Located>, cur: nat, mk: DirEntry -> R)
    requires Walked(img, bs, b, seen, cur)
    requires cur >= b * bs + bs || DecodeDirEntry(img, cur).inode == 0
    ensures ListBlock(img, bs, b, mk) == Listing(Items(seen, mk), None)
  {
    WalkerStops(img, bs, b, seen, cur);
    FirstUnknownAfter(seen, []);
  }

  /** The walker meets an entry of unknown type: what was seen is listed and
      the block fails. */
  lemma WalkedUnknown<R>(img: Image, bs: nat, b: nat, seen: seq<Located>, cur: nat, mk: DirEntry -> R)
    requires Walked(img, bs, b, seen, cur) && cur < b * bs + bs
    requires DecodeDirEntry(img, cur).inode != 0 && !KnownType(DecodeDirEntry(img, cur))
    ensures ListBlock(img, bs, b, mk) == Listing(Items(seen, mk), Some(BadFileType))
  {
    var rest := ChainFrom(img, b * bs + bs, cur).entries;
    FirstUnknownAfter(seen, rest);
    assert (seen + rest)[..|seen|] == seen;
  }

  /** The walker meets a live entry with rec_len 0: it is listed, and the
      block diverges. */
  lemma WalkedLoops<R>(img: Image, bs: nat, b: nat, seen: seq<Located>, cur: nat, mk: DirEntry -> R)
    requires Walked(img, bs, b, seen, cur) && cur < b * bs + bs
    requires DecodeDirEntry(img, cur).inode != 0 && KnownType(DecodeDirEntry(img, cur))
    requires DecodeDirEntry(img, cur).recLen == 0
    ensures ListBlock(img, bs, b, mk) == Listing(Items(seen, mk) + [mk(DecodeDirEntry(img, cur))], Some(Diverges))
  {
    var x := Located(cur, DecodeDirEntry(img, cur));
    WalkerLoops(img, bs, b, seen, cur);
    FirstUnknownAfter(seen, [x]);
    assert Items(seen + [x], mk) == Items(seen, mk) + [mk(x.entry)];
  }

  /** The walker of block b is at cur, and the reports out are those made
      before the block followed by one per entry seen. */
  ghost predicate Listed<R>(img: Image, bs: nat, b: nat, mk: DirEntry -> R, log: seq<R>, seen: seq<Located>, cur: nat, out: seq<R>)
  {
    Walked(img, bs, b, seen, cur) && out == log + Items(seen, mk)
  }

  lemma ListedStart<R>(img: Image, bs: nat, b: nat, mk: DirEntry -> R, log: seq<R>)
    ensures Listed(img, bs, b, mk, log, [], b * bs, log)
  {
    WalkedStart(img, bs, b);
  }

  lemma ListedStep<R>(img: Image, bs: nat, b: nat, mk: DirEntry -> R, log: seq<R>, seen: seq<Located>, cur: nat, out: seq<R>)
    requires Listed(img, bs, b, mk, log, seen, cur, out) && cur < b * bs + bs
    requires DecodeDirEntry(img, cur).inode != 0 && KnownType(DecodeDirEntry(img, cur))
    requires DecodeDirEntry(img, cur).recLen != 0
    ensures Listed(img, bs, b, mk, log, seen + [Located(cur, DecodeDirEntry(img, cur))], cur + DecodeDirEntry(img, cur).recLen,
                   out + [mk(DecodeDirEntry(img, cur))])
  {
    WalkedStep(img, bs, b, seen, cur);
    ItemsSnoc(seen, Located(cur, DecodeDirEntry(img, cur)), mk);
  }

  lemma ListedEnd<R>(img: Image, bs: nat, b: nat, mk: DirEntry -> R, log: seq<R>, seen: seq<Located>, cur: nat, out: seq<R>)
    requires Listed(img, bs, b, mk, log, seen, cur, out)
    requires cur >= b * bs + bs || DecodeDirEntry(img, cur).inode == 0
    ensures out == log + ListBlock(img, bs, b, mk).items && ListBlock(img, bs, b, mk).err == None
  {
    WalkedEnd(img, bs, b, seen, cur, mk);
  }

  lemma ListedUnknown<R>(img: Image, bs: nat, b: nat, mk: DirEntry -> R, log: seq<R>, seen: seq<Located>, cur: nat, out: seq<R>)
    requires Listed(img, bs, b, mk, log, seen, cur, out) && cur < b * bs + bs
    requires DecodeDirEntry(img, cur).inode != 0 && !KnownType(DecodeDirEntry(img, cur))
    ensures out == log + ListBlock(img, bs, b, mk).items && ListBlock(img, bs, b, mk).err == Some(BadFileType)
  {
    WalkedUnknown(img, bs, b, seen, cur, mk);
  }

  lemma ListedLoops<R>(img: Image, bs: nat, b: nat, mk: DirEntry -> R, log: seq<R>, seen: seq<Located>, cur: nat, out: seq<R>)
    requires Listed(img, bs, b, mk, log, seen, cur, out) && cur < b * bs + bs
    requires DecodeDirEntry(img, cur).inode != 0 && KnownType(DecodeDirEntry(img, cur))
    requires DecodeDirEntry(img, cur).recLen == 0
    ensures out + [mk(DecodeDirEntry(img, cur))] == log + ListBlock(img, bs, b, mk).items
    ensures ListBlock(img, bs, b, mk).err == Some(Diverges)
  {
    WalkedLoops(img, bs, b, seen, cur, mk);
  }

  lemma ItemsSnoc<R>(seen: seq<Located>, x: Located, mk: DirEntry -> R)
    ensures Items(seen + [x], mk) == Items(seen, mk) + [mk(x.entry)]
  {
  }

  /** One direct block folded from a state without error. */
  lemma ListOne<R>(blk: nat -> Listing<R>, l: seq<R>, b: nat)
    ensures Settle(Run(ListStep(blk), More(Listing(l, None)), [b]), Done) == Listing(l + blk(b).items, blk(b).err)
  {
    assert [b][1..] == [];
  }

  /** The slot loop of parse_content_of_inode_as_dir follows slot i from
      the state it reached: a failure there is the listing's outcome, and
      otherwise the loop goes on at slot i + 1. */
  lemma ListSlot<R>(img: Image, bs: nat, inodeOff: nat, mk: DirEntry -> R, i: nat, visited: seq<nat>, log: seq<R>, res: Listing<R>)
    requires var ib := DecodeInode(img, inodeOff).block;
      SlotsAt(ListStep(BlockLister(img, bs, mk)), Listing([], None), img, bs, ib, Policy(false, false), NeverStop(), i, visited, Listing(log, None))
    requires i < TindBlock && DecodeInode(img, inodeOff).block[i] != 0
    requires var b := DecodeInode(img, inodeOff).block[i];
      i < NDirBlocks ==> res == Listing(log + ListBlock(img, bs, b, mk).items, ListBlock(img, bs, b, mk).err)
    requires var b := DecodeInode(img, inodeOff).block[i];
      i == IndBlock ==>
        res == Settle(Run(ListStep(BlockLister(img, bs, mk)), More(Listing(log, None)), Indirect(img, bs, b, false, []).blocks),
                      Indirect(img, bs, b, false, []).end)
    requires var b := DecodeInode(img, inodeOff).block[i];
      i == DindBlock ==>
        res == Settle(Run(ListStep(BlockLister(img, bs, mk)), More(Listing(log, None)), Double(img, bs, b, false, []).blocks),
                      Double(img, bs, b, false, []).end)
    ensures res.err.Some? ==> res == ListDir(img, bs, inodeOff, mk)
    ensures res.err.None? ==>
      var ib := DecodeInode(img, inodeOff).block;
      SlotsAt(ListStep(BlockLister(img, bs, mk)), Listing([], None), img, bs, ib, Policy(false, false), NeverStop(), i + 1,
              visited + SlotScan(img, bs, ib, Policy(false, false), i).blocks, Listing(res.items, None))
  {
    var ib := DecodeInode(img, inodeOff).block;
    var pol := Policy(false, false);
    var sc := SlotScan(img, bs, ib, pol, i);
    var whole := Walk(img, bs, ib, pol, NeverStop());
    SlotsFromSlot(img, bs, ib, pol, NeverStop(), i, visited);
    if i < NDirBlocks {
      ListOne(BlockLister(img, bs, mk), log, ib[i]);
    }
    assert res == Settle(Run(ListStep(BlockLister(img, bs, mk)), More(Listing(log, None)), sc.blocks), sc.end);
    assert sc.end == Done || sc.end == ShortRead;
    SubScan(BlockLister(img, bs, mk), [], visited, sc, whole, log, res);
  }

  /** The slot loop stops at a zero slot or at slot 14: the listing is what
      was reported so far, without error. */
  lemma ListSlotsEnd<R>(img: Image, bs: nat, inodeOff: nat, mk: DirEntry -> R, i: nat, visited: seq<nat>, log: seq<R>)
    requires var ib := DecodeInode(img, inodeOff).block;
      SlotsAt(ListStep(BlockLister(img, bs, mk)), Listing([], None), img, bs, ib, Policy(false, false), NeverStop(), i, visited, Listing(log, None))
    requires i == TindBlock || DecodeInode(img, inodeOff).block[i] == 0
    ensures ListDir(img, bs, inodeOff, mk) == Listing(log, None)
  {
  }

  // ---------------------------------------------------------------------------
  // The lister, one method per function of the source

  method ReadDirectBlock<R>(img: Image, bs: nat, b: nat, mk: DirEntry -> R, log: seq<R>) returns (log': seq<R>, err: Option<Error>)
    ensures log' == log + ListBlock(img, bs, b, mk).items
    ensures err == ListBlock(img, bs, b, mk).err
  {
    var lo := b * bs;
    var cur := lo;
    ghost var seen: seq<Located> := [];
    ListedStart(img, bs, b, mk, log);
    log' := log;
    while cur < lo + bs
      invariant Listed(img, bs, b, mk, log, seen, cur, log')
      decreases lo + bs - cur
    {
      var e := DecodeDirEntry(img, cur);
      if e.inode == 0 {
        break;
      }
      if !KnownType(e) {
        ListedUnknown(img, bs, b, mk, log, seen, cur, log');
        return log', Some(BadFileType);
      }
      if e.recLen == 0 {
        // The source reports this entry again and again and never returns.
        ListedLoops(img, bs, b, mk, log, seen, cur, log');
        return log' + [mk(e)], Some(Diverges);
      }
      ListedStep(img, bs, b, mk, log, seen, cur, log');
      log' := log' + [mk(e)];
      seen := seen + [Located(cur, e)];
      cur := cur + e.recLen;
    }
    ListedEnd(img, bs, b, mk, log, seen, cur, log');
    return log', None;
  }

  method ReadIndirectBlock<R>(img: Image, bs: nat, b: nat, mk: DirEntry -> R, log: seq<R>) returns (log': seq<R>, err: Option<Error>)
    ensures Listing(log', err) ==
      Settle(Run(ListStep(BlockLister(img, bs, mk)), More(Listing(log, None)), Indirect(img, bs, b, false, []).blocks),
             Indirect(img, bs, b, false, []).end)
  {
    if !FullRead(img, b * bs, bs) {
      return log, Some(IoError);
    }
    ghost var f := ListStep(BlockLister(img, bs, mk));
    IndirectAtStart(f, Listing(log, None), img, bs, b);
    log' := log;
    var i := 0;
    while i < bs / 4
      invariant IndirectAt(f, Listing(log, None), img, bs, b, i, Listing(log', None))
    {
      IndirectAtEntry(f, Listing(log, None), img, bs, b, i, Listing(log', None));
      var e := U32(img, b * bs + 4 * i);
      if e == 0 {
        break;
      }
      var l2, er := ReadDirectBlock(img, bs, e, mk, log');
      IndirectAtStep(f, Listing(log, None), img, bs, b, i, Listing(log', None), false);
      if er.Some? {
        return l2, er;
      }
      log' := l2;
      i := i + 1;
    }
    IndirectAtEnd(f, Listing(log, None), img, bs, b, i, Listing(log', None), false);
    return log', None;
  }

  method ReadDoubleIndirectBlock<R>(img: Image, bs: nat, b: nat, mk: DirEntry -> R, log: seq<R>) returns (log': seq<R>, err: Option<Error>)
    ensures Listing(log', err) ==
      Settle(Run(ListStep(BlockLister(img, bs, mk)), More(Listing(log, None)), Double(img, bs, b, false, []).blocks),
             Double(img, bs, b, false, []).end)
  {
    if !FullRead(img, b * bs, bs) {
      return log, Some(IoError);
    }
    ghost var d := PointerBlock(img, bs, b).value;
    ghost var whole := Double(img, bs, b, false, []);
    ghost var visited: seq<nat> := [];
    log' := log;
    var i := 0;
    while i < bs / 4
      invariant i <= bs / 4
      invariant DoubleFrom(img, bs, d, i, false, visited) == whole
      invariant Run(ListStep(BlockLister(img, bs, mk)), More(Listing(log, None)), visited) == More(Listing(log', None))
    {
      var e := U32(img, b * bs + 4 * i);
      assert e == d[i];
      var l2, er := ReadIndirectBlock(img, bs, e, mk, log');
      ghost var sc := Indirect(img, bs, e, false, []);
      IndirectAcc(img, bs, e, false, visited);
      SubScan(BlockLister(img, bs, mk), log, visited, sc, whole, log', Listing(l2, er));
      if er.Some? {
        return l2, er;
      }
      visited := visited + sc.blocks;
      log' := l2;
      i := i + 1;
    }
    return log', None;
  }

  method ParseContentOfInodeAsDir<R>(img: Image, bs: nat, inodeOff: nat, mk: DirEntry -> R) returns (log: seq<R>, err: Option<Error>)
    ensures Listing(log, err) == ListDir(img, bs, inodeOff, mk)
  {
    var ino := DecodeInode(img, inodeOff);
    ghost var f := ListStep(BlockLister(img, bs, mk));
    ghost var pol := Policy(false, false);
    ghost var visited: seq<nat> := [];
    SlotsAtStart(f, Listing([], None), img, bs, ino.block, pol, NeverStop());
    log := [];
    var i := 0;
    while i < TindBlock
      invariant SlotsAt(f, Listing([], None), img, bs, ino.block, pol, NeverStop(), i, visited, Listing(log, None))
    {
      var slot := ino.block[i];
      if slot == 0 {
        break;
      }
      var l2: seq<R>, er: Option<Error>;
      if i < NDirBlocks {
        l2, er := ReadDirectBlock(img, bs, slot, mk, log);
      } else if i == IndBlock {
        l2, er := ReadIndirectBlock(img, bs, slot, mk, log);
      } else {
        l2, er := ReadDoubleIndirectBlock(img, bs, slot, mk, log);
      }
      ListSlot(img, bs, inodeOff, mk, i, visited, log, Listing(l2, er));
      if er.Some? {
        return l2, er;
      }
      visited := visited + SlotScan(img, bs, ino.block, pol, i).blocks;
      log := l2;
      i := i + 1;
    }
    // Slot 14 (triple-indirect) ends the walk whether it is zero or not.
    ListSlotsEnd(img, bs, inodeOff, mk, i, visited, log);
    return log, None;
  }

  // ---------------------------------------------------------------------------
  // A reference description of the fold

  /** The reports of each block, one block after the other. */
  function AllItems<R>(blk: nat -> Listing<R>, blocks: seq<nat>): seq<R>
    decreases |blocks|
  {
    if blocks == [] then [] else blk(blocks[0]).items + AllItems(blk, blocks[1..])
  }

  /** Index of the first block whose listing fails, or |blocks|. */
  function FirstFailing<R>(blk: nat -> Listing<R>, blocks: seq<nat>): (k: nat)
    ensures k <= |blocks|
    ensures forall j :: 0 <= j < k ==> blk(blocks[j]).err.None?
    ensures k < |blocks| ==> blk(blocks[k]).err.Some?
    decreases |blocks|
  {
    if blocks == [] || blk(blocks[0]).err.Some? then 0 else 1 + FirstFailing(blk, blocks[1..])
  }

  /** The fold reports every block's entries in order and stops at the first
      block that fails, reporting that block's entries before the failure, and
      it goes on exactly when no block failed. */
  lemma {:induction false} ListRunSpec<R>(blk: nat -> Listing<R>, l: seq<R>, blocks: seq<nat>)
    ensures var k := FirstFailing(blk, blocks);
      Run(ListStep(blk), More(Listing(l, None)), blocks) ==
        if k == |blocks| then More(Listing(l + AllItems(blk, blocks), None))
        else Halt(Listing(l + AllItems(blk, blocks[..k + 1]), blk(blocks[k]).err))
    decreases |blocks|
  {
    if blocks == [] {
      assert l + AllItems(blk, blocks) == l;
    } else {
      var f := ListStep(blk);
      var r := blk(blocks[0]);
      var rest := blocks[1..];
      assert blocks[..1] == [blocks[0]] && [blocks[0]][1..] == [];
      if r.err.Some? {
        assert AllItems(blk, blocks[..1]) == r.items + AllItems(blk, []) == r.items;
      } else {
        assert Run(f, More(Listing(l, None)), blocks) == Run(f, More(Listing(l + r.items, None)), rest);
        ListRunSpec(blk, l + r.items, rest);
        var k := FirstFailing(blk, rest);
        assert FirstFailing(blk, blocks) == k + 1;
        if k < |rest| {
          var p := blocks[..k + 2];
          assert p[0] == blocks[0] && p[1..] == rest[..k + 1];
          assert AllItems(blk, p) == r.items + AllItems(blk, rest[..k + 1]);
          assert l + r.items + AllItems(blk, rest[..k + 1]) == l + AllItems(blk, p);
        } else {
          assert l + r.items + AllItems(blk, rest) == l + AllItems(blk, blocks);
        }
      }
    }
  }

  /** A fold that starts without an error goes on exactly while no error has
      been recorded. */
  lemma ListRunClean<R>(blk: nat -> Listing<R>, l: seq<R>, blocks: seq<nat>)
    ensures var r := Run(ListStep(blk), More(Listing(l, None)), blocks);
      r.More? <==> r.st.err.None?
  {
    ListRunSpec(blk, l, blocks);
  }

  /** A pointer block scanned from the state st the fold reached on visited,
      inside a walk whole: if the scan failed, its outcome is the walk's; if
      not, the scan ran to its end and the fold goes on past it. */
  lemma SubScan<R>(blk: nat -> Listing<R>, s0: seq<R>, visited: seq<nat>, sc: Scan, whole: Scan,
                   st: seq<R>, res: Listing<R>)
    requires Run(ListStep(blk), More(Listing(s0, None)), visited) == More(Listing(st, None))
    requires visited + sc.blocks <= whole.blocks
    requires sc.end == Done || sc.end == ShortRead
    requires sc.end != Done ==> whole == Scan(visited + sc.blocks, sc.end)
    requires res == Settle(Run(ListStep(blk), More(Listing(st, None)), sc.blocks), sc.end)
    ensures res.err.Some? ==> res == Settle(Run(ListStep(blk), More(Listing(s0, None)), whole.blocks), whole.end)
    ensures res.err.None? ==> sc.end == Done
    ensures res.err.None? ==> Run(ListStep(blk), More(Listing(s0, None)), visited + sc.blocks) == More(res)
  {
    RunExtend(ListStep(blk), Listing(s0, None), visited, sc.blocks, whole.blocks, Listing(st, None));
    ListRunClean(blk, st, sc.blocks);
  }

  // ---------------------------------------------------------------------------
  // What a listing reports

  ghost predicate AllOk<R>(xs: seq<R>, ok: R -> bool)
  {
    forall i :: 0 <= i < |xs| ==> ok(xs[i])
  }

  /** What the reports of one block satisfy when the report function gives
      it for every live entry of a known type read from the image. */
  ghost predicate GoodReports<R>(img: Image, mk: DirEntry -> R, ok: R -> bool)
  {
    forall off: int {:trigger DecodeDirEntry(img, off)} ::
      DecodeDirEntry(img, off).inode != 0 && KnownType(DecodeDirEntry(img, off)) ==> ok(mk(DecodeDirEntry(img, off)))
  }

  lemma ItemsOfChain<R>(img: Image, bs: nat, b: nat, mk: DirEntry -> R, ok: R -> bool)
    requires GoodReports(img, mk, ok)
    ensures AllOk(ListBlock(img, bs, b, mk).items, ok)
  {
    var c := DirChain(img, bs, b);
    DirChainShape(img, bs, b);
    var k := FirstUnknown(c.entries);
    forall i | 0 <= i < |ListBlock(img, bs, b, mk).items|
      ensures ok(ListBlock(img, bs, b, mk).items[i])
    {
      assert c.entries[i].entry == DecodeDirEntry(img, c.entries[i].off);
      if k < |c.entries| {
        assert c.entries[..k][i] == c.entries[i];
      }
    }
  }

  lemma {:induction false} AllItemsOk<R>(blk: nat -> Listing<R>, blocks: seq<nat>, ok: R -> bool)
    requires forall b: nat :: AllOk(blk(b).items, ok)
    ensures forall i :: 0 <= i < |AllItems(blk, blocks)| ==> ok(AllItems(blk, blocks)[i])
    decreases |blocks|
  {
    if blocks != [] {
      AllItemsOk(blk, blocks[1..], ok);
    }
  }

  /** Whatever holds of every report of every block holds of every report of
      the listing. */
  lemma SettleOk<R>(blk: nat -> Listing<R>, blocks: seq<nat>, e: End, ok: R -> bool)
    requires forall b: nat :: AllOk(blk(b).items, ok)
    ensures AllOk(Settle(Run(ListStep(blk), More(Listing([], None)), blocks), e).items, ok)
  {
    ListRunSpec(blk, [], blocks);
    AllItemsOk(blk, blocks, ok);
    var k := FirstFailing(blk, blocks);
    if k < |blocks| {
      AllItemsOk(blk, blocks[..k + 1], ok);
    }
  }

  lemma BlockListerOk<R>(img: Image, bs: nat, mk: DirEntry -> R, ok: R -> bool)
    requires GoodReports(img, mk, ok)
    ensures forall b: nat :: AllOk(BlockLister(img, bs, mk)(b).items, ok)
  {
    forall b: nat ensures AllOk(ListBlock(img, bs, b, mk).items, ok) {
      ItemsOfChain(img, bs, b, mk, ok);
    }
  }

  /** Only live entries of a known type are ever reported: whatever property
      the report function gives such entries holds of every report. */
  lemma ListDirReportsLiveEntries<R>(img: Image, bs: nat, inodeOff: nat, mk: DirEntry -> R, ok: R -> bool)
    requires GoodReports(img, mk, ok)
    ensures AllOk(ListDir(img, bs, inodeOff, mk).items, ok)
  {
    var w := Walk(img, bs, DecodeInode(img, inodeOff).block, Policy(false, false), NeverStop());
    BlockListerOk(img, bs, mk, ok);
    SettleOk(BlockLister(img, bs, mk), w.blocks, w.end, ok);
  }

  /** A listing succeeds exactly when no visited block fails and no pointer
      block is cut short, and then it reports every live entry of every
      directory block the block map names, in order. */
  lemma ListDirComplete<R>(img: Image, bs: nat, inodeOff: nat, mk: DirEntry -> R)
    ensures var w := Walk(img, bs, DecodeInode(img, inodeOff).block, Policy(false, false), NeverStop());
      var blk := BlockLister(img, bs, mk);
      (ListDir(img, bs, inodeOff, mk).err.None? <==> FirstFailing(blk, w.blocks) == |w.blocks| && w.end != ShortRead) &&
      (ListDir(img, bs, inodeOff, mk).err.None? ==> ListDir(img, bs, inodeOff, mk).items == AllItems(blk, w.blocks))
  {
    var w := Walk(img, bs, DecodeInode(img, inodeOff).block, Policy(false, false), NeverStop());
    ListRunSpec(BlockLister(img, bs, mk), [], w.blocks);
  }
}
