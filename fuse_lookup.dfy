/** The directory side of the FUSE file system (ext2_func.c): readdir fills
    in one entry per live directory entry, and a path is resolved from the
    root directory one component at a time, each component looked up by its
    exact name. */
module FuseLookup {
  import opened Ext2Image
  import opened Ext2Layout
  import opened Ext2Paths
  import opened BlockMap
  import opened DirBlock
  import opened DirList
  import opened DirLookup

  // ---------------------------------------------------------------------------
  // readdir

  /** One filler(buf, name, &st, 0, 0) call: st_mode S_IFREG or S_IFDIR, and
      the name printed with snprintf into name_len + 1 bytes. */
  datatype FuseEntry = FuseEntry(kind: Kind, name: seq<byte>)

  function Filled(e: DirEntry): FuseEntry
  {
    FuseEntry(KindOf(e), EntryNameOf(e))
  }

  /** parse_content_of_inode_as_dir with filler as the report. */
  function FuseListing(img: Image, bs: nat, inodeOff: nat): Listing<FuseEntry>
  {
    ListDir(img, bs, inodeOff, Filled)
  }

  method ReadDir(img: Image, bs: nat, inodeOff: nat) returns (entries: seq<FuseEntry>, err: Option<Error>)
    ensures Listing(entries, err) == FuseListing(img, bs, inodeOff)
  {
    entries, err := ParseContentOfInodeAsDir(img, bs, inodeOff, Filled);
  }

  /** A filled-in name is a C string of at most 255 bytes with no NUL. */
  predicate NameOk(x: FuseEntry)
  {
    |x.name| <= NameFieldSize && forall i :: 0 <= i < |x.name| ==> x.name[i] != 0
  }

  /** x is what readdir fills in for a live directory entry of a known type
      read from the image: its kind follows the entry's file type, and its
      name is the entry's name cut at name_len, which is the whole name_len
      bytes when those hold no NUL. */
  ghost predicate FilledFrom(img: Image, x: FuseEntry)
  {
    exists off: int ::
      var e := DecodeDirEntry(img, off);
      e.inode != 0 && KnownType(e) &&
      (x.kind == Directory <==> e.fileType != FtRegFile) &&
      |x.name| <= e.nameLen && x.name == e.nameField[..|x.name|] &&
      ((forall i :: 0 <= i < e.nameLen ==> e.nameField[i] != 0) ==> x.name == e.nameField[..e.nameLen])
  }

  /** Every name readdir fills in is a well-formed C string of at most 255
      bytes, never longer than its entry's name_len, and it is the entry's
      name_len bytes whenever those hold no NUL. */
  lemma FuseListingNamesOk(img: Image, bs: nat, inodeOff: nat)
    ensures AllOk(FuseListing(img, bs, inodeOff).items, NameOk)
    ensures AllOk(FuseListing(img, bs, inodeOff).items, (x: FuseEntry) => FilledFrom(img, x))
  {
    forall off: int ensures DecodeDirEntry(img, off).inode != 0 && KnownType(DecodeDirEntry(img, off)) ==>
      NameOk(Filled(DecodeDirEntry(img, off))) && FilledFrom(img, Filled(DecodeDirEntry(img, off)))
    {
      var e := DecodeDirEntry(img, off);
      assert |e.nameField| == NameFieldSize;
      DecodedNameLen(img, off);
      if e.inode != 0 && KnownType(e) {
        assert FilledFrom(img, Filled(e));
      }
    }
    ListDirReportsLiveEntries(img, bs, inodeOff, Filled, NameOk);
    ListDirReportsLiveEntries(img, bs, inodeOff, Filled, (x: FuseEntry) => FilledFrom(img, x));
  }

  /** The filled-in name of an entry whose first name_len bytes hold no NUL
      is exactly those bytes. */
  lemma FilledName(e: DirEntry)
    requires e.nameLen <= |e.nameField|
    requires forall i :: 0 <= i < e.nameLen ==> e.nameField[i] != 0
    ensures Filled(e).name == e.nameField[..e.nameLen]
    ensures Filled(e).kind == Directory <==> e.fileType != FtRegFile
  {
  }

  // ---------------------------------------------------------------------------
  // Path resolution

  /** The exact search of a component in the directory whose inode record
      is at off. */
  function Searcher(img: Image, sb: Superblock): (nat, Path) -> Outcome
  {
    (off: nat, name: Path) => SearchDir(img, BlockSize(sb), off, Exact(name))
  }

  /** find_inode_number_by_path(path) in the directory whose inode record is
      at inodeOff. */
  function FindInodeByPath(img: Image, sb: Superblock, p: Path, inodeOff: nat): Result<nat>
    requires sb.inodesPerGroup > 0
  {
    PathWalk(Searcher(img, sb), Locator(img, sb), p, inodeOff)
  }

  /** The resolution with the directory search find and the inode locator
      locate: get_entry_name(path) (NULL is Fault), the search of that
      component, and then: the inode found when nothing follows, -ENOTDIR
      when only one byte follows, and otherwise the resolution of
      get_remaining_path(path + 1) in the directory found. */
  function PathWalk(find: (nat, Path) -> Outcome, locate: nat -> nat, p: Path, off: nat): Result<nat>
    decreases |p|, 1
  {
    match EntryName(p)
    case None => Err(Fault)
    case Some(name) =>
      match find(off, name)
      case Failed(e) => Err(e)
      case Missed(_) => Err(NotFound)
      case Hit(n) => Continue(find, locate, p, name, n)
  }

  /** What follows a match of the component name of p with inode n. */
  function Continue(find: (nat, Path) -> Outcome, locate: nat -> nat, p: Path, name: Path, n: nat): Result<nat>
    requires |p| >= 1
    decreases |p|, 0
  {
    var rem := RemainingLen(p, name);
    if rem == 0 then Ok(n)
    else if rem == 1 then Err(NotDir)
    else
      match RemainingPath(p[1..])
      case None => Err(Fault)
      case Some(q) => PathWalk(find, locate, q, locate(n))
  }

  /** The exact search of one component. */
  method SearchComponent(img: Image, sb: Superblock, off: nat, name: Path) returns (o: Outcome)
    ensures o == Searcher(img, sb)(off, name)
  {
    o := SearchInode(img, BlockSize(sb), off, Exact(name));
  }

  method FindInodeNumberByPath(img: Image, sb: Superblock, p: Path, inodeOff: nat) returns (r: Result<nat>)
    requires sb.inodesPerGroup > 0
    ensures r == FindInodeByPath(img, sb, p, inodeOff)
    decreases |p|, 1
  {
    var name := EntryName(p);
    if name.None? {
      return Err(Fault);
    }
    var o := SearchComponent(img, sb, inodeOff, name.value);
    match o
    case Failed(e) => r := Err(e);
    case Missed(_) => r := Err(NotFound);
    case Hit(n) => r := FollowMatch(img, sb, p, name.value, n);
  }

  /** The rest of find_inode_number_by_path once the component has matched. */
  method FollowMatch(img: Image, sb: Superblock, p: Path, name: Path, n: nat) returns (r: Result<nat>)
    requires sb.inodesPerGroup > 0 && |p| >= 1
    ensures r == Continue(Searcher(img, sb), Locator(img, sb), p, name, n)
    decreases |p|, 0
  {
    var rem := RemainingLen(p, name);
    if rem == 0 {
      r := Ok(n);
    } else if rem == 1 {
      r := Err(NotDir);
    } else {
      var q := RemainingPath(p[1..]);
      if q.None? {
        r := Err(Fault);
      } else {
        var next := Locator(img, sb)(n);
        r := FindInodeNumberByPath(img, sb, q.value, next);
      }
    }
  }

  /** find_dir_inode_number_by_path: resolution from the root directory
      (inode 2). */
  function LookupPath(img: Image, p: Path): Result<nat>
  {
    var sb := DecodeSuperblock(img);
    if sb.inodesPerGroup == 0 then Err(Fault)
    else FindInodeByPath(img, sb, p, InodeOffset(img, sb, RootInode))
  }

  method FindDirInodeNumberByPath(img: Image, p: Path) returns (r: Result<nat>)
    ensures r == LookupPath(img, p)
  {
    var sb := DecodeSuperblock(img);
    if sb.inodesPerGroup == 0 {
      return Err(Fault);
    }
    var rootOff := InodeOffset(img, sb, RootInode);
    r := FindInodeNumberByPath(img, sb, p, rootOff);
  }

  // ---------------------------------------------------------------------------
  // What resolution means on a well-formed path

  /** The reference resolution: look each component up in the directory the
      previous one named; the last one names the result, except that a
      trailing '/' makes it -ENOTDIR whatever the last component is. */
  function Resolve(img: Image, sb: Superblock, cs: seq<Path>, inodeOff: nat, trailing: bool): Result<nat>
    requires sb.inodesPerGroup > 0 && |cs| >= 1
  {
    ResolveWith(Searcher(img, sb), Locator(img, sb), cs, inodeOff, trailing)
  }

  function ResolveWith(find: (nat, Path) -> Outcome, locate: nat -> nat, cs: seq<Path>, off: nat, trailing: bool): Result<nat>
    requires |cs| >= 1
    decreases |cs|
  {
    match find(off, cs[0])
    case Failed(e) => Err(e)
    case Missed(_) => Err(NotFound)
    case Hit(n) =>
      if |cs| == 1 then (if trailing then Err(NotDir) else Ok(n))
      else ResolveWith(find, locate, cs[1..], locate(n), trailing)
  }

  /** On an absolute path "/c1/.../cn" (with or without one trailing '/'),
      the resolution of the path is the component-by-component resolution,
      whatever the search and locator. */
  lemma {:induction false} PathWalkResolves(find: (nat, Path) -> Outcome, locate: nat -> nat, p: Path, off: nat)
    requires IsAbsPath(p, true)
    ensures PathWalk(find, locate, p, off) == ResolveWith(find, locate, Components(p, true), off, p[|p| - 1] == Slash)
    decreases |p|
  {
    SplitAbsPath(p, true);
    var cs := Components(p, true);
    var r := Rest(p);
    var o := find(off, cs[0]);
    if o.Hit? && |r| >= 2 {
      assert r[|r| - 1] == p[|p| - 1];
      PathWalkResolves(find, locate, r, locate(o.inode));
    }
  }

  /** find_inode_number_by_path on an absolute path is the
      component-by-component resolution. */
  lemma FindInodeByPathResolves(img: Image, sb: Superblock, p: Path, inodeOff: nat)
    requires sb.inodesPerGroup > 0 && IsAbsPath(p, true)
    ensures FindInodeByPath(img, sb, p, inodeOff) ==
      Resolve(img, sb, Components(p, true), inodeOff, p[|p| - 1] == Slash)
  {
    PathWalkResolves(Searcher(img, sb), Locator(img, sb), p, inodeOff);
  }

  /** Each step of a successful resolution is a hit of the component in the
      directory the previous step named; a resolved inode is never 0. */
  lemma {:induction false} ResolveFindsEntry(img: Image, sb: Superblock, cs: seq<Path>, inodeOff: nat, trailing: bool)
    requires sb.inodesPerGroup > 0 && |cs| >= 1
    requires Resolve(img, sb, cs, inodeOff, trailing).Ok?
    ensures Resolve(img, sb, cs, inodeOff, trailing).value != 0
    ensures !trailing
    ensures SearchDir(img, BlockSize(sb), inodeOff, Exact(cs[0])).Hit?
    ensures |cs| == 1 ==> Resolve(img, sb, cs, inodeOff, trailing).value == SearchDir(img, BlockSize(sb), inodeOff, Exact(cs[0])).inode
    decreases |cs|
  {
    var o := SearchDir(img, BlockSize(sb), inodeOff, Exact(cs[0]));
    SearchDirHit(img, BlockSize(sb), inodeOff, Exact(cs[0]));
    if |cs| > 1 {
      ResolveFindsEntry(img, sb, cs[1..], InodeOffset(img, sb, o.inode), trailing);
    }
  }

  /** The root path "/" names no component: strtok returns NULL, and
      find_dir_inode_number_by_path hands it to strlen. (The FUSE callbacks
      answer "/" with the root inode before they call it.) */
  lemma RootPathFaults(img: Image)
    ensures LookupPath(img, [Slash]) == Err(Fault)
  {
  }
}
