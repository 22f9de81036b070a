/** walk_path (06-ext2-walk-path/solution.c): dump_file resolves an absolute
    path from the root directory, one component at a time, and copies the
    regular file it names with the size-bounded copier. A component is looked
    up among the entries of the expected file type only: a regular file for
    the last component, a directory for the others.

    The resolution is given in two variants. AsWritten is the source: an
    entry matches when its name is a prefix of the component, and a
    directory whose block map ends at a zero slot before any match answers
    with the inode number resolved so far. Corrected compares whole names and
    answers -ENOENT for every miss. */
module WalkPath {
  import opened Ext2Image
  import opened Ext2Layout
  import opened Ext2Paths
  import opened BlockMap
  import opened DirBlock
  import opened DirLookup
  import opened SizedCopy

  datatype Variant = AsWritten | Corrected

  /** How a component is compared with the entries of a directory. */
  function ComponentMatcher(name: Path, ft: nat, v: Variant): (m: Matcher)
    ensures m.name == name && !m.Exact? && m.fileType == ft
  {
    if v == Corrected then Named(name, ft) else Prefix(name, ft)
  }

  /** The directory search the resolution makes: the component name, of
      expected file type ft, in the directory whose inode record is at off. */
  function Searcher(img: Image, sb: Superblock, v: Variant): (nat, Path, nat) -> Outcome
  {
    (off: nat, name: Path, ft: nat) => SearchDir(img, BlockSize(sb), off, ComponentMatcher(name, ft, v))
  }

  /** find_inode_number_by_path in the directory whose inode record is at
      inodeOff; cur is *file_inode_nr, the inode number resolved so far. */
  function FindInodeByPath(img: Image, sb: Superblock, p: Path, inodeOff: nat, cur: nat, v: Variant): Result<nat>
    requires sb.inodesPerGroup > 0
  {
    PathWalk(Searcher(img, sb, v), Locator(img, sb), v, p, inodeOff, cur)
  }

  /** The resolution with the directory search find and the inode locator
      locate. get_entry_name(path) is NULL (Fault) when no component is left;
      the expected type is a regular file when nothing follows the
      component. A match with nothing following ends the walk with the
      matched inode; otherwise get_remaining_path(path + 1) is resolved in
      the directory found. */
  function PathWalk(find: (nat, Path, nat) -> Outcome, locate: nat -> nat, v: Variant, p: Path, off: nat, cur: nat): Result<nat>
    decreases |p|, 1
  {
    match EntryName(p)
    case None => Err(Fault)
    case Some(name) =>
      var rem := RemainingLen(p, name);
      var o := find(off, name, if rem == 0 then FtRegFile else FtDir);
      if !o.Hit? then Unresolved(o, cur, v)
      else Continue(find, locate, v, p, o.inode)
  }

  /** What follows a match of the first component of p with inode n: the
      inode itself when nothing follows, otherwise the resolution of
      get_remaining_path(path + 1) in the directory found. */
  function Continue(find: (nat, Path, nat) -> Outcome, locate: nat -> nat, v: Variant, p: Path, n: nat): Result<nat>
    requires EntryName(p).Some?
    decreases |p|, 0
  {
    if RemainingLen(p, EntryName(p).value) == 0 then Ok(n)
    else
      match RemainingPath(p[1..])
      case None => Err(Fault)
      case Some(q) => PathWalk(find, locate, v, q, locate(n), n)
  }

  /** A search without a match: its error, or for a miss -ENOENT; as written,
      a miss at a zero slot breaks the slot loop and returns 0 with
      *file_inode_nr left at cur. */
  function Unresolved(o: Outcome, cur: nat, v: Variant): (r: Result<nat>)
    requires !o.Hit?
    ensures r.Ok? <==> o == Missed(ZeroSlot) && v == AsWritten
    ensures r.Ok? ==> r.value == cur
  {
    if o.Failed? then Err(o.error) else if o.end == ZeroSlot && v == AsWritten then Ok(cur) else Err(NotFound)
  }

  /** The directory search of one component, as the resolution makes it. */
  method SearchComponent(img: Image, sb: Superblock, off: nat, name: Path, ft: nat, v: Variant) returns (o: Outcome)
    ensures o == Searcher(img, sb, v)(off, name, ft)
  {
    o := SearchInode(img, BlockSize(sb), off, ComponentMatcher(name, ft, v));
  }

  method FindInodeNumberByPath(img: Image, sb: Superblock, p: Path, inodeOff: nat, cur: nat, v: Variant) returns (r: Result<nat>)
    requires sb.inodesPerGroup > 0
    ensures r == FindInodeByPath(img, sb, p, inodeOff, cur, v)
    decreases |p|, 1
  {
    var name := EntryName(p);
    if name.None? {
      return Err(Fault);
    }
    var rem := RemainingLen(p, name.value);
    var o := SearchComponent(img, sb, inodeOff, name.value, if rem == 0 then FtRegFile else FtDir, v);
    if !o.Hit? {
      r := Unresolved(o, cur, v);
    } else {
      r := FollowMatch(img, sb, p, o.inode, v);
    }
  }

  /** The rest of find_inode_number_by_path once the component has matched
      inode n. */
  method FollowMatch(img: Image, sb: Superblock, p: Path, n: nat, v: Variant) returns (r: Result<nat>)
    requires sb.inodesPerGroup > 0 && EntryName(p).Some?
    ensures r == Continue(Searcher(img, sb, v), Locator(img, sb), v, p, n)
    decreases |p|, 0
  {
    if RemainingLen(p, EntryName(p).value) == 0 {
      r := Ok(n);
    } else {
      var q := RemainingPath(p[1..]);
      if q.None? {
        r := Err(Fault);
      } else {
        var next := Locator(img, sb)(n);
        r := FindInodeNumberByPath(img, sb, q.value, next, n, v);
      }
    }
  }

  /** dump_file(img, path, out): resolution from the root directory (inode 2,
      which is also where *file_inode_nr starts), then the size-bounded copy
      of the inode found. inodes_per_group 0 is a division by zero. */
  function WalkDump(img: Image, p: Path, out0: seq<byte>, v: Variant): Copy
  {
    var sb := DecodeSuperblock(img);
    if sb.inodesPerGroup == 0 then Copy(out0, Some(Fault))
    else
      match FindInodeByPath(img, sb, p, InodeOffset(img, sb, RootInode), RootInode, v)
      case Err(e) => Copy(out0, Some(e))
      case Ok(n) => InodeCopy(img, BlockSize(sb), InodeOffset(img, sb, n), false, out0)
  }

  method DumpFile(img: Image, p: Path, out0: seq<byte>, v: Variant) returns (out: seq<byte>, err: Option<Error>)
    ensures Copy(out, err) == WalkDump(img, p, out0, v)
  {
    var sb := DecodeSuperblock(img);
    if sb.inodesPerGroup == 0 {
      return out0, Some(Fault);
    }
    var rootOff := InodeOffset(img, sb, RootInode);
    var r := FindInodeNumberByPath(img, sb, p, rootOff, RootInode, v);
    if r.Err? {
      return out0, Some(r.error);
    }
    out, err := CopyInode(img, BlockSize(sb), InodeOffset(img, sb, r.value), false, out0);
  }

  // ---------------------------------------------------------------------------
  // What resolution means on a well-formed path

  /** The reference resolution of the components cs: each is looked up, with
      the expected type, in the directory the previous one named. */
  function Resolve(img: Image, sb: Superblock, cs: seq<Path>, inodeOff: nat, cur: nat, v: Variant): Result<nat>
    requires sb.inodesPerGroup > 0 && |cs| >= 1
  {
    ResolveWith(Searcher(img, sb, v), Locator(img, sb), v, cs, inodeOff, cur)
  }

  function ResolveWith(find: (nat, Path, nat) -> Outcome, locate: nat -> nat, v: Variant, cs: seq<Path>, off: nat, cur: nat): Result<nat>
    requires |cs| >= 1
    decreases |cs|
  {
    var o := find(off, cs[0], if |cs| == 1 then FtRegFile else FtDir);
    if !o.Hit? then Unresolved(o, cur, v)
    else if |cs| == 1 then Ok(o.inode)
    else ResolveWith(find, locate, v, cs[1..], locate(o.inode), o.inode)
  }

  /** On an absolute path "/c1/.../cn", the resolution of the path is the
      component-by-component resolution, whatever the search and locator. */
  lemma {:induction false} PathWalkResolves(find: (nat, Path, nat) -> Outcome, locate: nat -> nat, v: Variant, p: Path, off: nat, cur: nat)
    requires IsAbsPath(p, false)
    ensures PathWalk(find, locate, v, p, off, cur) == ResolveWith(find, locate, v, Components(p, false), off, cur)
    decreases |p|
  {
    SplitAbsPath(p, false);
    var cs := Components(p, false);
    var r := Rest(p);
    var o := find(off, cs[0], if |cs| == 1 then FtRegFile else FtDir);
    if o.Hit? && |r| >= 2 {
      PathWalkResolves(find, locate, v, r, locate(o.inode), o.inode);
    }
  }

  /** find_inode_number_by_path on an absolute path "/c1/.../cn" is the
      component-by-component resolution. */
  lemma FindInodeByPathResolves(img: Image, sb: Superblock, p: Path, inodeOff: nat, cur: nat, v: Variant)
    requires sb.inodesPerGroup > 0 && IsAbsPath(p, false)
    ensures FindInodeByPath(img, sb, p, inodeOff, cur, v) == Resolve(img, sb, Components(p, false), inodeOff, cur, v)
  {
    PathWalkResolves(Searcher(img, sb, v), Locator(img, sb), v, p, inodeOff, cur);
  }

  /** The directory at inodeOff holds a live entry named name, of file type
      ft, for inode n. */
  ghost predicate NamedEntry(img: Image, bs: nat, inodeOff: nat, name: Path, ft: nat, n: nat)
  {
    exists j, k :: 0 <= j < |DirWalk(img, bs, inodeOff).blocks| &&
      0 <= k < |DirChain(img, bs, DirWalk(img, bs, inodeOff).blocks[j]).entries| &&
      EntryNameOf(DirChain(img, bs, DirWalk(img, bs, inodeOff).blocks[j]).entries[k].entry) == name &&
      DirChain(img, bs, DirWalk(img, bs, inodeOff).blocks[j]).entries[k].entry.fileType == ft &&
      DirChain(img, bs, DirWalk(img, bs, inodeOff).blocks[j]).entries[k].entry.inode == n
  }

  /** The inode record of the directory in which the corrected resolution
      looks up the last of the components cs: each earlier component is
      followed through its whole-name directory hit. */
  ghost function Reached(img: Image, sb: Superblock, cs: seq<Path>, inodeOff: nat): nat
    requires sb.inodesPerGroup > 0 && |cs| >= 1
    decreases |cs|
  {
    if |cs| == 1 then inodeOff
    else
      var o := SearchDir(img, BlockSize(sb), inodeOff, Named(cs[0], FtDir));
      if o.Hit? then Reached(img, sb, cs[1..], InodeOffset(img, sb, o.inode)) else inodeOff
  }

  /** The corrected resolution succeeds only through hits: the first
      component names a directory entry of the expected type (a directory
      when more follow), and the result is the inode, never 0, of a
      regular-file entry named exactly the last component in the directory
      the earlier components lead to. */
  lemma {:induction false} CorrectedFindsNamedEntry(img: Image, sb: Superblock, cs: seq<Path>, inodeOff: nat, cur: nat)
    requires sb.inodesPerGroup > 0 && |cs| >= 1
    requires Resolve(img, sb, cs, inodeOff, cur, Corrected).Ok?
    ensures Resolve(img, sb, cs, inodeOff, cur, Corrected).value != 0
    ensures SearchDir(img, BlockSize(sb), inodeOff, Named(cs[0], if |cs| == 1 then FtRegFile else FtDir)).Hit?
    ensures NamedEntry(img, BlockSize(sb), Reached(img, sb, cs, inodeOff), cs[|cs| - 1], FtRegFile,
      Resolve(img, sb, cs, inodeOff, cur, Corrected).value)
    decreases |cs|
  {
    hide *;
    CorrectedStep(img, sb, cs, inodeOff, cur);
    var ft := if |cs| == 1 then FtRegFile else FtDir;
    var o := SearchDir(img, BlockSize(sb), inodeOff, Named(cs[0], ft));
    NamedHit(img, BlockSize(sb), inodeOff, cs[0], ft);
    if |cs| > 1 {
      CorrectedFindsNamedEntry(img, sb, cs[1..], InodeOffset(img, sb, o.inode), o.inode);
      assert cs[1..][|cs[1..]| - 1] == cs[|cs| - 1];
    }
  }

  /** One step of the corrected resolution: the first component is a
      whole-name hit, which is the answer for a single component and
      otherwise the directory the rest is resolved in. */
  lemma CorrectedStep(img: Image, sb: Superblock, cs: seq<Path>, inodeOff: nat, cur: nat)
    requires sb.inodesPerGroup > 0 && |cs| >= 1
    requires Resolve(img, sb, cs, inodeOff, cur, Corrected).Ok?
    ensures var o := SearchDir(img, BlockSize(sb), inodeOff, Named(cs[0], if |cs| == 1 then FtRegFile else FtDir));
      o.Hit? &&
      (|cs| == 1 ==> (Resolve(img, sb, cs, inodeOff, cur, Corrected).value == o.inode &&
        Reached(img, sb, cs, inodeOff) == inodeOff)) &&
      (|cs| > 1 ==> (Resolve(img, sb, cs, inodeOff, cur, Corrected) ==
          Resolve(img, sb, cs[1..], InodeOffset(img, sb, o.inode), o.inode, Corrected) &&
        Reached(img, sb, cs, inodeOff) == Reached(img, sb, cs[1..], InodeOffset(img, sb, o.inode))))
  {
    hide SearchDir, InodeOffset;
    var ft := if |cs| == 1 then FtRegFile else FtDir;
    var o := Searcher(img, sb, Corrected)(inodeOff, cs[0], ft);
    assert o == SearchDir(img, BlockSize(sb), inodeOff, Named(cs[0], ft));
    ghost var r := ResolveWith(Searcher(img, sb, Corrected), Locator(img, sb), Corrected, cs, inodeOff, cur);
    assert r.Ok?;
  }

  /** A whole-name hit is the non-zero inode of a directory entry with
      exactly that name and file type. */
  lemma NamedHit(img: Image, bs: nat, inodeOff: nat, name: Path, ft: nat)
    requires SearchDir(img, bs, inodeOff, Named(name, ft)).Hit?
    ensures SearchDir(img, bs, inodeOff, Named(name, ft)).inode != 0
    ensures NamedEntry(img, bs, inodeOff, name, ft, SearchDir(img, bs, inodeOff, Named(name, ft)).inode)
  {
    SearchDirHit(img, bs, inodeOff, Named(name, ft));
  }

  /** As written, a component that no entry matches, looked up in a directory
      whose block map ends at a zero slot (every directory of fewer than
      twelve blocks), resolves to that directory itself: dump_file then copies
      the directory's blocks as if they were the file. */
  lemma MissResolvesToDirectory(img: Image, sb: Superblock, name: Path, inodeOff: nat, cur: nat)
    requires sb.inodesPerGroup > 0 && |name| >= 1 && forall i :: 0 <= i < |name| ==> name[i] != Slash
    requires SearchDir(img, BlockSize(sb), inodeOff, Prefix(name, FtRegFile)) == Missed(ZeroSlot)
    ensures FindInodeByPath(img, sb, Rooted(name), inodeOff, cur, AsWritten) == Ok(cur)
  {
    SingleComponentWalk(Searcher(img, sb, AsWritten), Locator(img, sb), AsWritten, name, inodeOff, cur);
  }

  /** The corrected resolution answers -ENOENT for every miss. */
  lemma CorrectedMissIsNotFound(img: Image, sb: Superblock, name: Path, inodeOff: nat, cur: nat)
    requires sb.inodesPerGroup > 0 && |name| >= 1 && forall i :: 0 <= i < |name| ==> name[i] != Slash
    requires SearchDir(img, BlockSize(sb), inodeOff, Named(name, FtRegFile)).Missed?
    ensures FindInodeByPath(img, sb, Rooted(name), inodeOff, cur, Corrected) == Err(NotFound)
  {
    SingleComponentWalk(Searcher(img, sb, Corrected), Locator(img, sb), Corrected, name, inodeOff, cur);
  }

  /** The path "/name". */
  function Rooted(name: Path): (p: Path)
    ensures |p| == |name| + 1 && p[0] == Slash && p[1..] == name
  {
    [Slash] + name
  }

  /** "/name" with no further '/' is the one component name, looked up as a
      regular file. */
  lemma SingleComponentWalk(find: (nat, Path, nat) -> Outcome, locate: nat -> nat, v: Variant, name: Path, off: nat, cur: nat)
    requires |name| >= 1 && forall i :: 0 <= i < |name| ==> name[i] != Slash
    ensures var o := find(off, name, FtRegFile);
      PathWalk(find, locate, v, Rooted(name), off, cur) == if o.Hit? then Ok(o.inode) else Unresolved(o, cur, v)
  {
    var p := Rooted(name);
    assert DropSlashes(p) == name;
    assert FirstSlash(name) == |name|;
    assert name[..|name|] == name;
  }

  /** As written, the regular-file entry "a" answers a lookup of "ab": the
      entry's name is compared over its own length only. The corrected
      matcher does not accept it. */
  lemma PrefixAcceptsLongerComponent()
    ensures var e := DirEntry(12, 12, 1, FtRegFile, [0x61] + Zeros(NameFieldSize - 1));
      Hits(Prefix([0x61, 0x62], FtRegFile), e) && !Hits(Named([0x61, 0x62], FtRegFile), e)
  {
    var e := DirEntry(12, 12, 1, FtRegFile, [0x61] + Zeros(NameFieldSize - 1));
    assert EntryNameOf(e) == [0x61];
  }
}
