/** Looking one path component up in a directory inode, as the path resolvers
    of the FUSE variant and of walk_path do: every directory block the block
    map names is searched in turn (find_entry_direct_block) until one of them
    returns a match or an error; a zero entry of a single-indirect block ends
    the search with -ENOENT. The two variants differ in how a block is
    searched (the Matcher). */
module DirLookup {
  import opened Ext2Image
  import opened Ext2Layout
  import opened Ext2Paths
  import opened BlockMap
  import opened DirBlock

  /** Exact(name): the FUSE variant; an entry matches when its name, cut at
      name_len, is the component, whatever its file type. The first match
      ends the search.
      Prefix(name, fileType): walk_path; only entries of the expected file
      type are compared, and one matches when its name is a prefix of the
      component (strncmp over the entry name's length). The block is read to
      its end and the last match wins.
      Named(name, fileType): the typed search of walk_path with the whole
      name compared, as its callers intend (the prefix comparison lets the
      entry "a" answer for the component "ab"). */
  datatype Matcher = Exact(name: Path) | Prefix(name: Path, fileType: nat) | Named(name: Path, fileType: nat)

  /** What a block search returns: 0 with the matching inode, or 1. */
  datatype Found = Match(inode: nat) | NoMatch

  predicate Hits(m: Matcher, e: DirEntry)
  {
    match m
    case Exact(name) => EntryNameOf(e) == name
    case Prefix(name, ft) => e.fileType == ft && EntryNameOf(e) <= name
    case Named(name, ft) => e.fileType == ft && EntryNameOf(e) == name
  }

  /** Index of the first entry that matches, or |es|. */
  function FirstHit(m: Matcher, es: seq<Located>): (k: nat)
    ensures k <= |es|
    ensures forall i :: 0 <= i < k ==> !Hits(m, es[i].entry)
    ensures k < |es| ==> Hits(m, es[k].entry)
  {
    if es == [] || Hits(m, es[0].entry) then 0 else 1 + FirstHit(m, es[1..])
  }

  /** Index of the last entry that matches. */
  function LastHit(m: Matcher, es: seq<Located>): (r: Option<nat>)
    ensures r.Some? ==> r.value < |es| && Hits(m, es[r.value].entry)
    ensures r.Some? ==> forall i :: r.value < i < |es| ==> !Hits(m, es[i].entry)
    ensures r.None? ==> forall i :: 0 <= i < |es| ==> !Hits(m, es[i].entry)
    decreases |es|
  {
    if es == [] then None
    else if Hits(m, es[|es| - 1].entry) then Some(|es| - 1)
    else LastHit(m, es[..|es| - 1])
  }

  /** find_entry_direct_block on block b. An entry with inode 0 is -ENOENT
      (for walk_path even after a match); an entry with rec_len 0 that does
      not end the search is read again forever. */
  function FindInBlock(img: Image, bs: nat, b: nat, m: Matcher): Result<Found>
  {
    var c := DirChain(img, bs, b);
    if m.Exact? then
      var k := FirstHit(m, c.entries);
      if k < |c.entries| then Ok(Match(c.entries[k].entry.inode))
      else if c.end == BlockEnd then Ok(NoMatch)
      else if c.end == InodeZero then Err(NotFound)
      else Err(Diverges)
    else if c.end == InodeZero then Err(NotFound)
    else if c.end == Loops then Err(Diverges)
    else match LastHit(m, c.entries)
      case Some(k) => Ok(Match(c.entries[k].entry.inode))
      case None => Ok(NoMatch)
  }

  /** A match names a live entry of the block that matches, and no match
      means that no entry of the block matches and the block was read to its
      end. */
  lemma FindInBlockSound(img: Image, bs: nat, b: nat, m: Matcher)
    ensures FindInBlock(img, bs, b, m).Ok? && FindInBlock(img, bs, b, m).value.Match? ==>
      exists k :: 0 <= k < |DirChain(img, bs, b).entries| &&
        Hits(m, DirChain(img, bs, b).entries[k].entry) &&
        DirChain(img, bs, b).entries[k].entry.inode == FindInBlock(img, bs, b, m).value.inode
    ensures FindInBlock(img, bs, b, m) == Ok(NoMatch) ==>
      DirChain(img, bs, b).end == BlockEnd &&
      forall k :: 0 <= k < |DirChain(img, bs, b).entries| ==> !Hits(m, DirChain(img, bs, b).entries[k].entry)
  {
  }

  lemma {:induction false} FirstHitAfter(m: Matcher, seen: seq<Located>, rest: seq<Located>)
    requires forall i :: 0 <= i < |seen| ==> !Hits(m, seen[i].entry)
    ensures FirstHit(m, seen + rest) == |seen| + FirstHit(m, rest)
    decreases |seen|
  {
    if seen == [] {
      assert seen + rest == rest;
    } else {
      assert (seen + rest)[0] == seen[0];
      assert (seen + rest)[1..] == seen[1..] + rest;
      FirstHitAfter(m, seen[1..], rest);
    }
  }

  // ---------------------------------------------------------------------------
  // The loop of find_entry_direct_block, one entry at a time

  /** The exact search is at offset cur of block b; no entry seen matched. */
  ghost predicate Searched(img: Image, bs: nat, b: nat, name: Path, seen: seq<Located>, cur: nat)
  {
    WalkerAt(img, bs, b, seen, cur) && forall i :: 0 <= i < |seen| ==> !Hits(Exact(name), seen[i].entry)
  }

  lemma SearchedStart(img: Image, bs: nat, b: nat, name: Path)
    ensures Searched(img, bs, b, name, [], b * bs)
  {
    WalkerStart(img, bs, b);
  }

  lemma SearchedStep(img: Image, bs: nat, b: nat, name: Path, seen: seq<Located>, cur: nat)
    requires Searched(img, bs, b, name, seen, cur) && cur < b * bs + bs
    requires DecodeDirEntry(img, cur).inode != 0 && DecodeDirEntry(img, cur).recLen != 0
    requires !Hits(Exact(name), DecodeDirEntry(img, cur))
    ensures Searched(img, bs, b, name, seen + [Located(cur, DecodeDirEntry(img, cur))], cur + DecodeDirEntry(img, cur).recLen)
  {
    WalkerStep(img, bs, b, seen, cur);
    var s := seen + [Located(cur, DecodeDirEntry(img, cur))];
    forall i | 0 <= i < |s| ensures !Hits(Exact(name), s[i].entry) {
      if i < |seen| { assert s[i] == seen[i]; }
    }
  }

  lemma SearchedStops(img: Image, bs: nat, b: nat, name: Path, seen: seq<Located>, cur: nat)
    requires Searched(img, bs, b, name, seen, cur)
    requires cur >= b * bs + bs || DecodeDirEntry(img, cur).inode == 0
    ensures FindInBlock(img, bs, b, Exact(name)) == if cur >= b * bs + bs then Ok(NoMatch) else Err(NotFound)
  {
    WalkerStops(img, bs, b, seen, cur);
  }

  lemma SearchedHit(img: Image, bs: nat, b: nat, name: Path, seen: seq<Located>, cur: nat)
    requires Searched(img, bs, b, name, seen, cur) && cur < b * bs + bs
    requires DecodeDirEntry(img, cur).inode != 0 && Hits(Exact(name), DecodeDirEntry(img, cur))
    ensures FindInBlock(img, bs, b, Exact(name)) == Ok(Match(DecodeDirEntry(img, cur).inode))
  {
    var rest := ChainFrom(img, b * bs + bs, cur).entries;
    FirstHitAfter(Exact(name), seen, rest);
    assert (seen + rest)[|seen|] == rest[0];
  }

  lemma SearchedLoops(img: Image, bs: nat, b: nat, name: Path, seen: seq<Located>, cur: nat)
    requires Searched(img, bs, b, name, seen, cur) && cur < b * bs + bs
    requires DecodeDirEntry(img, cur).inode != 0 && DecodeDirEntry(img, cur).recLen == 0
    requires !Hits(Exact(name), DecodeDirEntry(img, cur))
    ensures FindInBlock(img, bs, b, Exact(name)) == Err(Diverges)
  {
    WalkerLoops(img, bs, b, seen, cur);
    FirstHitAfter(Exact(name), seen, [Located(cur, DecodeDirEntry(img, cur))]);
  }

  /** The typed search (prefix or whole name) is at offset cur of block b, and found holds the
      inode of the last match among the entries seen. */
  ghost predicate Scanned(img: Image, bs: nat, b: nat, m: Matcher, seen: seq<Located>, cur: nat, found: Option<nat>)
  {
    WalkerAt(img, bs, b, seen, cur) &&
    found == match LastHit(m, seen) { case Some(k) => Some(seen[k].entry.inode) case None => None }
  }

  lemma ScannedStart(img: Image, bs: nat, b: nat, m: Matcher)
    ensures Scanned(img, bs, b, m, [], b * bs, None)
  {
    WalkerStart(img, bs, b);
  }

  lemma ScannedStep(img: Image, bs: nat, b: nat, m: Matcher, seen: seq<Located>, cur: nat, found: Option<nat>)
    requires Scanned(img, bs, b, m, seen, cur, found) && cur < b * bs + bs
    requires DecodeDirEntry(img, cur).inode != 0 && DecodeDirEntry(img, cur).recLen != 0
    ensures Scanned(img, bs, b, m, seen + [Located(cur, DecodeDirEntry(img, cur))], cur + DecodeDirEntry(img, cur).recLen,
                    if Hits(m, DecodeDirEntry(img, cur)) then Some(DecodeDirEntry(img, cur).inode) else found)
  {
    WalkerStep(img, bs, b, seen, cur);
    var s := seen + [Located(cur, DecodeDirEntry(img, cur))];
    assert s[..|s| - 1] == seen;
  }

  lemma ScannedStops(img: Image, bs: nat, b: nat, m: Matcher, seen: seq<Located>, cur: nat, found: Option<nat>)
    requires !m.Exact?
    requires Scanned(img, bs, b, m, seen, cur, found)
    requires cur >= b * bs + bs || DecodeDirEntry(img, cur).inode == 0
    ensures FindInBlock(img, bs, b, m) ==
      if cur < b * bs + bs then Err(NotFound) else if found.Some? then Ok(Match(found.value)) else Ok(NoMatch)
  {
    WalkerStops(img, bs, b, seen, cur);
  }

  lemma ScannedLoops(img: Image, bs: nat, b: nat, m: Matcher, seen: seq<Located>, cur: nat, found: Option<nat>)
    requires !m.Exact?
    requires Scanned(img, bs, b, m, seen, cur, found) && cur < b * bs + bs
    requires DecodeDirEntry(img, cur).inode != 0 && DecodeDirEntry(img, cur).recLen == 0
    ensures FindInBlock(img, bs, b, m) == Err(Diverges)
  {
    WalkerLoops(img, bs, b, seen, cur);
  }

  // ---------------------------------------------------------------------------
  // Searching the blocks of the walk in turn

  /** find_entry_direct_block as a function of the block number. */
  function BlockFinder(img: Image, bs: nat, m: Matcher): nat -> Result<Found>
  {
    (b: nat) => FindInBlock(img, bs, b, m)
  }

  /** A block without a match lets the search go on; a match or an error
      ends it with that result. */
  function FindStep(blk: nat -> Result<Found>): (Result<Found>, nat) -> Step<Result<Found>>
  {
    (s: Result<Found>, b: nat) => var r := blk(b); if r == Ok(NoMatch) then More(s) else Halt(r)
  }

  /** Index of the first block that returns a match or an error, or |blocks|. */
  function FirstDecisive(blk: nat -> Result<Found>, blocks: seq<nat>): (k: nat)
    ensures k <= |blocks|
    ensures forall j :: 0 <= j < k ==> blk(blocks[j]) == Ok(NoMatch)
    ensures k < |blocks| ==> blk(blocks[k]) != Ok(NoMatch)
    decreases |blocks|
  {
    if blocks == [] || blk(blocks[0]) != Ok(NoMatch) then 0 else 1 + FirstDecisive(blk, blocks[1..])
  }

  /** The search over blocks returns what the first decisive block returns,
      and goes on when there is none. */
  lemma {:induction false} FindRunSpec(blk: nat -> Result<Found>, blocks: seq<nat>)
    ensures Run(FindStep(blk), More(Ok(NoMatch)), blocks) ==
      if FirstDecisive(blk, blocks) == |blocks| then More(Ok(NoMatch)) else Halt(blk(blocks[FirstDecisive(blk, blocks)]))
    decreases |blocks|
  {
    if blocks != [] && blk(blocks[0]) == Ok(NoMatch) {
      FindRunSpec(blk, blocks[1..]);
    }
  }

  /** What a pointer-block search returns once its scan ended with e: a match
      or an error found on the way, -errno for a short read, -ENOENT for a
      zero entry, and 1 otherwise. */
  function ScanOutcome(r: Step<Result<Found>>, e: End): Result<Found>
  {
    if r.Halt? then r.st
    else if e == ShortRead then Err(IoError)
    else if e == ZeroEntry then Err(NotFound)
    else Ok(NoMatch)
  }

  /** A pointer block searched inside a walk whole, after the blocks visited
      had no match: its result, if it is not 1, is the result of the whole
      walk; if it is 1, its scan ran to its end without a match. */
  lemma FindSub(blk: nat -> Result<Found>, visited: seq<nat>, sc: Scan, whole: Scan, r: Result<Found>)
    requires Run(FindStep(blk), More(Ok(NoMatch)), visited) == More(Ok(NoMatch))
    requires visited + sc.blocks <= whole.blocks
    requires sc.end == Done || sc.end == ZeroEntry || sc.end == ShortRead
    requires sc.end != Done ==> whole == Scan(visited + sc.blocks, sc.end)
    requires r == ScanOutcome(Run(FindStep(blk), More(Ok(NoMatch)), sc.blocks), sc.end)
    ensures r != Ok(NoMatch) ==> r == ScanOutcome(Run(FindStep(blk), More(Ok(NoMatch)), whole.blocks), whole.end)
    ensures r == Ok(NoMatch) ==> sc.end == Done
    ensures r == Ok(NoMatch) ==> Run(FindStep(blk), More(Ok(NoMatch)), visited + sc.blocks) == More(Ok(NoMatch))
  {
    RunExtend(FindStep(blk), Ok(NoMatch), visited, sc.blocks, whole.blocks, Ok(NoMatch));
    FindRunSpec(blk, sc.blocks);
  }

  // ---------------------------------------------------------------------------
  // The search of one directory inode

  /** How the search of a directory ended. Missed: the slot loop reached a
      zero slot or slot 14 without a match. */
  datatype Outcome = Hit(inode: nat) | Failed(error: Error) | Missed(end: End)

  /** The slot loop of find_inode_number_by_path over the directory inode at
      inodeOff, searching each visited block with m. */
  function SearchDir(img: Image, bs: nat, inodeOff: nat, m: Matcher): Outcome
  {
    Decide(BlockFinder(img, bs, m), DirWalk(img, bs, inodeOff))
  }

  /** The blocks the search visits: a zero slot ends them, and a zero entry
      of a single-indirect block ends them with -ENOENT. */
  function DirWalk(img: Image, bs: nat, inodeOff: nat): Scan
  {
    Walk(img, bs, DecodeInode(img, inodeOff).block, Policy(false, true), NeverStop())
  }

  /** A hit is the inode of a live, matching entry of one of the directory's
      blocks. */
  lemma SearchDirHit(img: Image, bs: nat, inodeOff: nat, m: Matcher)
    ensures SearchDir(img, bs, inodeOff, m).Hit? ==>
      SearchDir(img, bs, inodeOff, m).inode != 0 &&
      exists j, k :: 0 <= j < |DirWalk(img, bs, inodeOff).blocks| &&
        0 <= k < |DirChain(img, bs, DirWalk(img, bs, inodeOff).blocks[j]).entries| &&
        Hits(m, DirChain(img, bs, DirWalk(img, bs, inodeOff).blocks[j]).entries[k].entry) &&
        DirChain(img, bs, DirWalk(img, bs, inodeOff).blocks[j]).entries[k].entry.inode == SearchDir(img, bs, inodeOff, m).inode
  {
    var w := DirWalk(img, bs, inodeOff);
    var blk := BlockFinder(img, bs, m);
    DecideSpec(blk, w);
    if SearchDir(img, bs, inodeOff, m).Hit? {
      var j := FirstDecisive(blk, w.blocks);
      FindInBlockSound(img, bs, w.blocks[j], m);
      DirChainShape(img, bs, w.blocks[j]);
    }
  }

  /** A miss means that every block of the directory was read to its end and
      that no entry of any of them matches. */
  lemma SearchDirMiss(img: Image, bs: nat, inodeOff: nat, m: Matcher)
    ensures SearchDir(img, bs, inodeOff, m).Missed? ==>
      forall j, k ::
        0 <= j < |DirWalk(img, bs, inodeOff).blocks| && 0 <= k < |DirChain(img, bs, DirWalk(img, bs, inodeOff).blocks[j]).entries| ==>
          DirChain(img, bs, DirWalk(img, bs, inodeOff).blocks[j]).end == BlockEnd &&
          !Hits(m, DirChain(img, bs, DirWalk(img, bs, inodeOff).blocks[j]).entries[k].entry)
  {
    var w := DirWalk(img, bs, inodeOff);
    var blk := BlockFinder(img, bs, m);
    DecideSpec(blk, w);
    if SearchDir(img, bs, inodeOff, m).Missed? {
      forall j | 0 <= j < |w.blocks|
        ensures DirChain(img, bs, w.blocks[j]).end == BlockEnd
        ensures forall k :: 0 <= k < |DirChain(img, bs, w.blocks[j]).entries| ==> !Hits(m, DirChain(img, bs, w.blocks[j]).entries[k].entry)
      {
        FindInBlockSound(img, bs, w.blocks[j], m);
      }
    }
  }

  /** The outcome of searching the blocks of the walk w with blk. */
  function Decide(blk: nat -> Result<Found>, w: Scan): Outcome
  {
    var r := ScanOutcome(Run(FindStep(blk), More(Ok(NoMatch)), w.blocks), w.end);
    if r.Err? then Failed(r.error)
    else if r.value.Match? then Hit(r.value.inode)
    else Missed(w.end)
  }

  /** A search hits inode n exactly when some block of the walk matches with
      n and every block before it returned 1; it misses exactly when every
      visited block returned 1 and no pointer block ended the walk. */
  lemma DecideSpec(blk: nat -> Result<Found>, w: Scan)
    ensures (Decide(blk, w).Hit? <==> FirstDecisive(blk, w.blocks) < |w.blocks| && blk(w.blocks[FirstDecisive(blk, w.blocks)]).Ok?)
    ensures Decide(blk, w).Hit? ==> blk(w.blocks[FirstDecisive(blk, w.blocks)]) == Ok(Match(Decide(blk, w).inode))
    ensures Decide(blk, w).Missed? <==>
      FirstDecisive(blk, w.blocks) == |w.blocks| && w.end != ShortRead && w.end != ZeroEntry
  {
    FindRunSpec(blk, w.blocks);
  }

  /** What the search of slot i returns: the result of the first block of
      its scan that is not 1, or what ends the scan. */
  function SlotOutcome(blk: nat -> Result<Found>, img: Image, bs: nat, ib: seq<nat>, i: nat): Result<Found>
    requires |ib| == NBlocks && i < TindBlock
  {
    var sc := SlotScan(img, bs, ib, Policy(false, true), i);
    ScanOutcome(Run(FindStep(blk), More(Ok(NoMatch)), sc.blocks), sc.end)
  }

  /** A direct slot's outcome is the search of its one block. */
  lemma SlotOutcomeDirect(blk: nat -> Result<Found>, img: Image, bs: nat, ib: seq<nat>, i: nat)
    requires |ib| == NBlocks && i < NDirBlocks
    ensures SlotOutcome(blk, img, bs, ib, i) == blk(ib[i])
  {
    assert [ib[i]][1..] == [];
  }

  /** A pointer slot's outcome is that of its pointer-block search. */
  lemma SlotOutcomePointer(blk: nat -> Result<Found>, img: Image, bs: nat, ib: seq<nat>, i: nat)
    requires |ib| == NBlocks && NDirBlocks <= i < TindBlock
    ensures var sc := if i == IndBlock then Indirect(img, bs, ib[i], true, []) else Double(img, bs, ib[i], true, []);
      SlotOutcome(blk, img, bs, ib, i) == ScanOutcome(Run(FindStep(blk), More(Ok(NoMatch)), sc.blocks), sc.end)
  {
  }

  /** The slot loop searches slot i after the slots before it returned 1:
      an error or a match there is the outcome of the search, and otherwise
      the loop goes on at slot i + 1. */
  lemma DecideSlot(blk: nat -> Result<Found>, img: Image, bs: nat, ib: seq<nat>, i: nat, visited: seq<nat>, r: Result<Found>)
    requires SlotsAt(FindStep(blk), Ok(NoMatch), img, bs, ib, Policy(false, true), NeverStop(), i, visited, Ok(NoMatch))
    requires i < TindBlock && ib[i] != 0
    requires r == SlotOutcome(blk, img, bs, ib, i)
    ensures r.Err? ==> Decide(blk, Walk(img, bs, ib, Policy(false, true), NeverStop())) == Failed(r.error)
    ensures r.Ok? && r.value.Match? ==> Decide(blk, Walk(img, bs, ib, Policy(false, true), NeverStop())) == Hit(r.value.inode)
    ensures r.Ok? && r.value.NoMatch? ==>
      SlotsAt(FindStep(blk), Ok(NoMatch), img, bs, ib, Policy(false, true), NeverStop(), i + 1,
              visited + SlotScan(img, bs, ib, Policy(false, true), i).blocks, Ok(NoMatch))
  {
    var pol := Policy(false, true);
    var f := FindStep(blk);
    var sc := SlotScan(img, bs, ib, pol, i);
    SlotStep(f, Ok(NoMatch), img, bs, ib, pol, NeverStop(), i, visited, Ok(NoMatch));
    FindRunSpec(blk, sc.blocks);
  }

  /** The slot loop ends at a zero slot or at the triple-indirect slot after
      every block returned 1: the search misses. */
  lemma DecideEnd(blk: nat -> Result<Found>, img: Image, bs: nat, ib: seq<nat>, i: nat, visited: seq<nat>)
    requires SlotsAt(FindStep(blk), Ok(NoMatch), img, bs, ib, Policy(false, true), NeverStop(), i, visited, Ok(NoMatch))
    requires i == TindBlock || ib[i] == 0
    ensures Decide(blk, Walk(img, bs, ib, Policy(false, true), NeverStop())) ==
      Missed(if ib[i] == 0 then ZeroSlot else TripleSlot)
  {
    SlotsEnd(FindStep(blk), Ok(NoMatch), img, bs, ib, Policy(false, true), NeverStop(), i, visited, Ok(NoMatch));
  }

  /** The outcome a decisive block search gives the whole search. */
  function Verdict(r: Result<Found>): (o: Outcome)
    ensures r.Err? ==> o == Failed(r.error)
    ensures r.Ok? && r.value.Match? ==> o == Hit(r.value.inode)
  {
    if r.Err? then Failed(r.error) else if r.value.Match? then Hit(r.value.inode) else Missed(Done)
  }

  /** The search of the directory whose block map is ib. */
  function BlocksOutcome(img: Image, bs: nat, ib: seq<nat>, m: Matcher): Outcome
    requires |ib| == NBlocks
  {
    Decide(BlockFinder(img, bs, m), Walk(img, bs, ib, Policy(false, true), NeverStop()))
  }

  /** The slot loop of the search of the block map ib is at slot i, and
      every block visited so far returned 1. */
  ghost predicate SearchAt(img: Image, bs: nat, ib: seq<nat>, m: Matcher, i: nat, visited: seq<nat>)
  {
    SlotsAt(FindStep(BlockFinder(img, bs, m)), Ok(NoMatch), img, bs, ib, Policy(false, true), NeverStop(), i, visited, Ok(NoMatch))
  }

  lemma SearchAtStart(img: Image, bs: nat, ib: seq<nat>, m: Matcher)
    requires |ib| == NBlocks
    ensures SearchAt(img, bs, ib, m, 0, [])
  {
    SlotsAtStart(FindStep(BlockFinder(img, bs, m)), Ok(NoMatch), img, bs, ib, Policy(false, true), NeverStop());
  }

  /** DecideSlot for the search with m. */
  lemma SearchAtSlot(img: Image, bs: nat, ib: seq<nat>, m: Matcher, i: nat, visited: seq<nat>, r: Result<Found>)
    requires |ib| == NBlocks && SearchAt(img, bs, ib, m, i, visited)
    requires i < TindBlock && ib[i] != 0
    requires r == SlotOutcome(BlockFinder(img, bs, m), img, bs, ib, i)
    ensures !(r.Ok? && r.value.NoMatch?) ==> BlocksOutcome(img, bs, ib, m) == Verdict(r)
    ensures r.Ok? && r.value.NoMatch? ==>
      SearchAt(img, bs, ib, m, i + 1, visited + SlotScan(img, bs, ib, Policy(false, true), i).blocks)
  {
    DecideSlot(BlockFinder(img, bs, m), img, bs, ib, i, visited, r);
  }

  /** DecideEnd for the search with m. */
  lemma SearchAtEnd(img: Image, bs: nat, ib: seq<nat>, m: Matcher, i: nat, visited: seq<nat>)
    requires |ib| == NBlocks && SearchAt(img, bs, ib, m, i, visited) && i <= TindBlock
    requires i == TindBlock || ib[i] == 0
    ensures BlocksOutcome(img, bs, ib, m) == Missed(if ib[i] == 0 then ZeroSlot else TripleSlot)
  {
    DecideEnd(BlockFinder(img, bs, m), img, bs, ib, i, visited);
  }

  // ---------------------------------------------------------------------------
  // The searchers, one method per function of the source

  /** find_entry_direct_block of the FUSE variant. */
  method FindExactInBlock(img: Image, bs: nat, b: nat, name: Path) returns (r: Result<Found>)
    ensures r == FindInBlock(img, bs, b, Exact(name))
  {
    var lo := b * bs;
    var cur := lo;
    ghost var seen: seq<Located> := [];
    SearchedStart(img, bs, b, name);
    while cur < lo + bs
      invariant Searched(img, bs, b, name, seen, cur)
      decreases lo + bs - cur
    {
      var e := DecodeDirEntry(img, cur);
      if e.inode == 0 {
        SearchedStops(img, bs, b, name, seen, cur);
        return Err(NotFound);
      }
      var entryName := EntryNameOf(e);
      if |entryName| == |name| && entryName == name {
        SearchedHit(img, bs, b, name, seen, cur);
        return Ok(Match(e.inode));
      }
      if e.recLen == 0 {
        // The source reads this entry again and again and never returns.
        SearchedLoops(img, bs, b, name, seen, cur);
        return Err(Diverges);
      }
      SearchedStep(img, bs, b, name, seen, cur);
      seen := seen + [Located(cur, e)];
      cur := cur + e.recLen;
    }
    SearchedStops(img, bs, b, name, seen, cur);
    return Ok(NoMatch);
  }

  /** find_entry_direct_block of walk_path: the block is read to its end,
      keeping the found flag and the last matching inode. */
  method FindTypedInBlock(img: Image, bs: nat, b: nat, m: Matcher) returns (r: Result<Found>)
    requires !m.Exact?
    ensures r == FindInBlock(img, bs, b, m)
  {
    var lo := b * bs;
    var cur := lo;
    var found: Option<nat> := None;
    ghost var seen: seq<Located> := [];
    ScannedStart(img, bs, b, m);
    while cur < lo + bs
      invariant Scanned(img, bs, b, m, seen, cur, found)
      decreases lo + bs - cur
    {
      var e := DecodeDirEntry(img, cur);
      if e.inode == 0 {
        ScannedStops(img, bs, b, m, seen, cur, found);
        return Err(NotFound);
      }
      if e.recLen == 0 {
        // Whether or not it matches, this entry is read again and again.
        ScannedLoops(img, bs, b, m, seen, cur, found);
        return Err(Diverges);
      }
      ScannedStep(img, bs, b, m, seen, cur, found);
      if Hits(m, e) {
        found := Some(e.inode);
      }
      seen := seen + [Located(cur, e)];
      cur := cur + e.recLen;
    }
    ScannedStops(img, bs, b, m, seen, cur, found);
    if found.Some? {
      return Ok(Match(found.value));
    }
    return Ok(NoMatch);
  }

  /** find_entry_direct_block, in the variant the matcher belongs to. */
  method FindEntryDirectBlock(img: Image, bs: nat, b: nat, m: Matcher) returns (r: Result<Found>)
    ensures r == FindInBlock(img, bs, b, m)
  {
    match m
    case Exact(name) => r := FindExactInBlock(img, bs, b, name);
    case Prefix(_, _) => r := FindTypedInBlock(img, bs, b, m);
    case Named(_, _) => r := FindTypedInBlock(img, bs, b, m);
  }

  method FindEntryIndirectBlock(img: Image, bs: nat, b: nat, m: Matcher) returns (r: Result<Found>)
    ensures r == ScanOutcome(Run(FindStep(BlockFinder(img, bs, m)), More(Ok(NoMatch)), Indirect(img, bs, b, true, []).blocks),
                             Indirect(img, bs, b, true, []).end)
  {
    if !FullRead(img, b * bs, bs) {
      return Err(IoError);
    }
    ghost var f := FindStep(BlockFinder(img, bs, m));
    IndirectAtStart(f, Ok(NoMatch), img, bs, b);
    var i := 0;
    while i < bs / 4
      invariant IndirectAt(f, Ok(NoMatch), img, bs, b, i, Ok(NoMatch))
    {
      IndirectAtEntry(f, Ok(NoMatch), img, bs, b, i, Ok(NoMatch));
      var e := U32(img, b * bs + 4 * i);
      if e == 0 {
        IndirectAtEnd(f, Ok(NoMatch), img, bs, b, i, Ok(NoMatch), true);
        return Err(NotFound);
      }
      r := FindEntryDirectBlock(img, bs, e, m);
      IndirectAtStep(f, Ok(NoMatch), img, bs, b, i, Ok(NoMatch), true);
      if r != Ok(NoMatch) {
        return r;
      }
      i := i + 1;
    }
    IndirectAtEnd(f, Ok(NoMatch), img, bs, b, i, Ok(NoMatch), true);
    return Ok(NoMatch);
  }

  method FindEntryDoubleIndirectBlock(img: Image, bs: nat, b: nat, m: Matcher) returns (r: Result<Found>)
    ensures r == ScanOutcome(Run(FindStep(BlockFinder(img, bs, m)), More(Ok(NoMatch)), Double(img, bs, b, true, []).blocks),
                             Double(img, bs, b, true, []).end)
  {
    if !FullRead(img, b * bs, bs) {
      return Err(IoError);
    }
    ghost var d := PointerBlock(img, bs, b).value;
    ghost var whole := Double(img, bs, b, true, []);
    ghost var visited: seq<nat> := [];
    var i := 0;
    while i < bs / 4
      invariant i <= bs / 4
      invariant DoubleFrom(img, bs, d, i, true, visited) == whole
      invariant Run(FindStep(BlockFinder(img, bs, m)), More(Ok(NoMatch)), visited) == More(Ok(NoMatch))
    {
      var e := U32(img, b * bs + 4 * i);
      assert e == d[i];
      r := FindEntryIndirectBlock(img, bs, e, m);
      ghost var sc := Indirect(img, bs, e, true, []);
      IndirectAcc(img, bs, e, true, visited);
      FindSub(BlockFinder(img, bs, m), visited, sc, whole, r);
      if r != Ok(NoMatch) {
        return r;
      }
      visited := visited + sc.blocks;
      i := i + 1;
    }
    return Ok(NoMatch);
  }

  /** The search of slot i of the inode's i_block: a direct block, the
      single-indirect block or the double-indirect block. */
  /** One pass of the slot loop over slot i of the block map ib: an error or
      a match is the outcome of the search; otherwise the loop goes on at
      slot i + 1, having visited the blocks visited'. */
  method SearchSlot(img: Image, bs: nat, ib: seq<nat>, i: nat, m: Matcher, ghost visited: seq<nat>)
    returns (r: Result<Found>, ghost visited': seq<nat>)
    requires |ib| == NBlocks && i < TindBlock && ib[i] != 0
    requires SearchAt(img, bs, ib, m, i, visited)
    ensures !(r.Ok? && r.value.NoMatch?) ==> BlocksOutcome(img, bs, ib, m) == Verdict(r)
    ensures r.Ok? && r.value.NoMatch? ==> SearchAt(img, bs, ib, m, i + 1, visited')
  {
    ghost var blk := BlockFinder(img, bs, m);
    if i < NDirBlocks {
      r := FindEntryDirectBlock(img, bs, ib[i], m);
      SlotOutcomeDirect(blk, img, bs, ib, i);
      assert r == blk(ib[i]);
    } else if i == IndBlock {
      r := FindEntryIndirectBlock(img, bs, ib[i], m);
      SlotOutcomePointer(blk, img, bs, ib, i);
    } else {
      r := FindEntryDoubleIndirectBlock(img, bs, ib[i], m);
      SlotOutcomePointer(blk, img, bs, ib, i);
    }
    SearchAtSlot(img, bs, ib, m, i, visited, r);
    visited' := visited + SlotScan(img, bs, ib, Policy(false, true), i).blocks;
  }

  /** The slot loop of find_inode_number_by_path over the block map ib:
      slot by slot until a match, an error, a zero slot or slot 14. */
  method SearchBlocks(img: Image, bs: nat, ib: seq<nat>, m: Matcher) returns (o: Outcome)
    requires |ib| == NBlocks
    ensures o == BlocksOutcome(img, bs, ib, m)
  {
    ghost var visited: seq<nat> := [];
    SearchAtStart(img, bs, ib, m);
    var i := 0;
    while i < TindBlock && ib[i] != 0
      invariant i <= TindBlock && SearchAt(img, bs, ib, m, i, visited)
    {
      var r, visited' := SearchSlot(img, bs, ib, i, m, visited);
      if !(r.Ok? && r.value.NoMatch?) {
        return Verdict(r);
      }
      visited := visited';
      i := i + 1;
    }
    SearchAtEnd(img, bs, ib, m, i, visited);
    o := Missed(if ib[i] == 0 then ZeroSlot else TripleSlot);
  }

  /** The search of the directory inode at inodeOff: its inode record read,
      then its block map searched. */
  method SearchInode(img: Image, bs: nat, inodeOff: nat, m: Matcher) returns (o: Outcome)
    ensures o == SearchDir(img, bs, inodeOff, m)
  {
    var ino := DecodeInode(img, inodeOff);
    o := SearchBlocks(img, bs, ino.block, m);
  }
}
