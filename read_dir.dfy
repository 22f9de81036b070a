/** The command-line directory lister (dump_dir): each live entry of the
    directory inode is passed to report_file with its inode number, 'f' for a
    regular file or 'd' for a directory, and its name. The calls to
    report_file are the log the methods return. */
module ReadDir {
  import opened Ext2Image
  import opened Ext2Layout
  import opened BlockMap
  import opened DirBlock
  import opened DirList

  /** One report_file(inode, type, name) call. */
  datatype Report = Report(inode: nat, kind: char, name: seq<byte>)

  /** What read_direct_block reports for an entry of a known type: the name
      is the on-disk name field printed with "%s", which stops at the first
      NUL rather than after name_len bytes. */
  function Reported(e: DirEntry): Report
  {
    Report(e.inode, if e.fileType == FtRegFile then 'f' else 'd', CString(e.nameField))
  }

  /** The report with the name cut at name_len, as the FUSE lister fills it
      in: what the command-line lister evidently intends. Only the name
      differs from the report as written. */
  function ReportedCut(e: DirEntry): (r: Report)
    ensures r.inode == Reported(e).inode && r.kind == Reported(e).kind
    ensures |r.name| <= e.nameLen && r.name <= Reported(e).name
    ensures e.nameLen <= |e.nameField| && (forall i :: 0 <= i < e.nameLen ==> e.nameField[i] != 0) ==>
      r.name == e.nameField[..e.nameLen]
  {
    Report(e.inode, if e.fileType == FtRegFile then 'f' else 'd', EntryNameOf(e))
  }

  /** The report function: as written, or with the name cut at name_len. */
  function Reporter(cut: bool): DirEntry -> Report
  {
    if cut then ReportedCut else Reported
  }

  /** dump_dir(img, inode_nr): the listing of directory inode inodeNr, with
      the names as written (cut false) or cut at name_len (cut true). A zero
      s_inodes_per_group is a division by zero in the source. */
  function DirListing(img: Image, inodeNr: int, cut: bool): Listing<Report>
  {
    var sb := DecodeSuperblock(img);
    if sb.inodesPerGroup == 0 then Listing([], Some(Fault))
    else ListDir(img, BlockSize(sb), InodeOffset(img, sb, inodeNr), Reporter(cut))
  }

  method DumpDir(img: Image, inodeNr: int, cut: bool) returns (log: seq<Report>, err: Option<Error>)
    ensures Listing(log, err) == DirListing(img, inodeNr, cut)
  {
    var sb := DecodeSuperblock(img);
    if sb.inodesPerGroup == 0 {
      return [], Some(Fault);
    }
    var bs := BlockSize(sb);
    var inodeOff := InodeOffset(img, sb, inodeNr);
    log, err := ParseContentOfInodeAsDir(img, bs, inodeOff, Reporter(cut));
  }

  // ---------------------------------------------------------------------------
  // What the listing reports

  /** A report of a live entry: a non-zero inode, 'f' or 'd', and a name of
      at most 255 bytes without NUL. */
  predicate ReportOk(r: Report)
  {
    r.inode != 0 && (r.kind == 'f' || r.kind == 'd') && |r.name| <= NameFieldSize &&
    forall i :: 0 <= i < |r.name| ==> r.name[i] != 0
  }

  /** Every report of dump_dir names a live entry with a well-formed type and
      name. */
  lemma DirListingReportsOk(img: Image, inodeNr: int, cut: bool)
    ensures AllOk(DirListing(img, inodeNr, cut).items, ReportOk)
  {
    var sb := DecodeSuperblock(img);
    if sb.inodesPerGroup != 0 {
      forall off: int ensures DecodeDirEntry(img, off).inode != 0 && KnownType(DecodeDirEntry(img, off)) ==>
        ReportOk(Reporter(cut)(DecodeDirEntry(img, off)))
      {
        assert |DecodeDirEntry(img, off).nameField| == NameFieldSize;
      }
      ListDirReportsLiveEntries(img, BlockSize(sb), InodeOffset(img, sb, inodeNr), Reporter(cut), ReportOk);
    }
  }

  // ---------------------------------------------------------------------------
  // The reported name is not cut at name_len

  lemma CStringUpTo(field: seq<byte>, k: nat)
    requires k < |field| && field[k] == 0
    requires forall i :: 0 <= i < k ==> field[i] != 0
    ensures CString(field) == field[..k]
  {
    var s := CString(field);
  }

  /** Whenever the bytes of the name field right after the name are not NUL,
      the reported name is longer than name_len. */
  lemma ReportedNameOverruns(e: DirEntry)
    requires e.nameLen < |e.nameField|
    requires forall i :: 0 <= i <= e.nameLen ==> e.nameField[i] != 0
    ensures |Reported(e).name| > e.nameLen
  {
    var s := CString(e.nameField);
  }

  /** An entry "abcd" (name_len 4, rec_len 12) followed by an entry for inode
      13: the name field read with the first entry runs into the second
      entry's inode number, and "abcd\x0d" is reported. */
  lemma ReportedNameExample()
    ensures var img: Image := [12, 0, 0, 0, 12, 0, 4, 1, 0x61, 0x62, 0x63, 0x64, 13, 0, 0, 0, 0];
      var e := DecodeDirEntry(img, 0);
      e.nameLen == 4 && Reported(e).name == [0x61, 0x62, 0x63, 0x64, 13] && EntryNameOf(e) == [0x61, 0x62, 0x63, 0x64]
  {
    var img: Image := [12, 0, 0, 0, 12, 0, 4, 1, 0x61, 0x62, 0x63, 0x64, 13, 0, 0, 0, 0];
    var e := DecodeDirEntry(img, 0);
    var field := e.nameField;
    assert field[..5] == [0x61, 0x62, 0x63, 0x64, 13];
    CStringUpTo(field, 5);
    CStringNoNul(field[..4]);
  }
}
