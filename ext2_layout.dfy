/** The on-disk records of "The Second Extended File System" that the engine
    reads: the superblock (section 3.1), the block group descriptor (3.2), the
    inode with its i_block array (3.5) and the linked directory entry (4.1).
    Only the fields the engine uses are decoded, little-endian. */
module Ext2Layout {
  import opened Ext2Image

  const SuperblockOffset: nat := 1024
  const GroupDescSize: nat := 32      // sizeof(struct ext2_group_desc)
  const InodeRecordSize: nat := 128   // sizeof(struct ext2_inode)
  const NameFieldSize: nat := 255     // EXT2_NAME_LEN
  const RootInode: nat := 2

  const FtUnknown: nat := 0
  const FtRegFile: nat := 1
  const FtDir: nat := 2

  /** Slots of i_block: 12 direct, then single-, double- and triple-indirect. */
  const NDirBlocks: nat := 12
  const IndBlock: nat := 12
  const DindBlock: nat := 13
  const TindBlock: nat := 14
  const NBlocks: nat := 15

  const Mod32: nat := 0x1_0000_0000

  /** The failures the engine reports. IoError: a pointer block the image does
      not hold in full; NotFound, NotDir: -ENOENT, -ENOTDIR; BadFileType: the
      -1 of a directory entry that is neither a file nor a directory;
      Diverges: an entry with rec_len 0, on which the source loops forever;
      Fault: a path the source hands to strlen as NULL, or a division by a zero
      s_inodes_per_group. */
  datatype Error = IoError | NotFound | NotDir | BadFileType | Diverges | Fault

  datatype Result<T> = Ok(value: T) | Err(error: Error)

  datatype Superblock = Superblock(
    firstDataBlock: nat,   // s_first_data_block
    logBlockSize: nat,     // s_log_block_size
    inodesPerGroup: nat,   // s_inodes_per_group
    inodeSize: nat)        // s_inode_size

  /** The superblock record at byte 1024 of the image. */
  function DecodeSuperblock(img: Image): (sb: Superblock)
    ensures sb.firstDataBlock == U32(img, SuperblockOffset + 20)
    ensures sb.logBlockSize == U32(img, SuperblockOffset + 24)
    ensures sb.inodesPerGroup == U32(img, SuperblockOffset + 40)
    ensures sb.inodeSize == U16(img, SuperblockOffset + 88)
  {
    Superblock(U32(img, SuperblockOffset + 20), U32(img, SuperblockOffset + 24),
               U32(img, SuperblockOffset + 40), U16(img, SuperblockOffset + 88))
  }

  function Pow2(k: nat): (p: nat)
    ensures p >= 1
  {
    if k == 0 then 1 else 2 * Pow2(k - 1)
  }

  /** 1024 << s_log_block_size, as a mathematical integer. */
  function BlockSize(sb: Superblock): (bs: nat)
    ensures bs >= 1024 && bs % 1024 == 0
  {
    1024 * Pow2(sb.logBlockSize)
  }

  /** (inode_nr - 1) converted to a 32-bit unsigned value. */
  function InodeIndex(inodeNr: int): (k: nat)
    ensures k < Mod32
    ensures 1 <= inodeNr <= Mod32 ==> k == inodeNr - 1
  {
    (inodeNr - 1) % Mod32
  }

  function GroupOf(sb: Superblock, inodeNr: int): nat
    requires sb.inodesPerGroup > 0
  {
    InodeIndex(inodeNr) / sb.inodesPerGroup
  }

  function IndexInGroup(sb: Superblock, inodeNr: int): (i: nat)
    requires sb.inodesPerGroup > 0
    ensures i < sb.inodesPerGroup
  {
    InodeIndex(inodeNr) % sb.inodesPerGroup
  }

  /** Where the group descriptor of the inode's group is read:
      the descriptor table starts in the block after s_first_data_block. */
  function GroupDescOffset(sb: Superblock, inodeNr: int): nat
    requires sb.inodesPerGroup > 0
  {
    MulNat(BlockSize(sb), sb.firstDataBlock + 1);
    MulNat(GroupOf(sb, inodeNr), GroupDescSize);
    BlockSize(sb) * (sb.firstDataBlock + 1) + GroupOf(sb, inodeNr) * GroupDescSize
  }

  /** bg_inode_table of the descriptor read at off. */
  function InodeTableOf(img: Image, descOff: nat): nat
  {
    U32(img, descOff + 8)
  }

  /** find_inode_offset: byte offset of the inode record of inodeNr. */
  function InodeOffset(img: Image, sb: Superblock, inodeNr: int): (off: nat)
    requires sb.inodesPerGroup > 0
  {
    var table := InodeTableOf(img, GroupDescOffset(sb, inodeNr));
    MulNat(BlockSize(sb), table);
    MulNat(IndexInGroup(sb, inodeNr), sb.inodeSize);
    BlockSize(sb) * table + IndexInGroup(sb, inodeNr) * sb.inodeSize
  }

  /** find_inode_offset as a function of the inode number. */
  function Locator(img: Image, sb: Superblock): nat -> nat
    requires sb.inodesPerGroup > 0
  {
    (n: nat) => InodeOffset(img, sb, n)
  }

  lemma MulNat(a: nat, b: nat)
    ensures a * b >= 0
  {
  }

  /** Inode numbers are 1-based: inode n is entry (n-1) % ipg of group (n-1) / ipg. */
  lemma GroupIndexDecompose(sb: Superblock, inodeNr: int)
    requires sb.inodesPerGroup > 0 && 1 <= inodeNr <= Mod32
    ensures GroupOf(sb, inodeNr) * sb.inodesPerGroup + IndexInGroup(sb, inodeNr) + 1 == inodeNr
  {
  }

  /** The inverse direction: the inode at index i of group g is found there. */
  lemma {:induction false} GroupIndexRoundTrip(sb: Superblock, g: nat, i: nat)
    requires sb.inodesPerGroup > 0 && i < sb.inodesPerGroup
    requires g * sb.inodesPerGroup + i < Mod32
    ensures GroupOf(sb, g * sb.inodesPerGroup + i + 1) == g
    ensures IndexInGroup(sb, g * sb.inodesPerGroup + i + 1) == i
  {
    var n := g * sb.inodesPerGroup + i + 1;
    assert InodeIndex(n) == g * sb.inodesPerGroup + i;
    DivModUnique(g * sb.inodesPerGroup + i, sb.inodesPerGroup, g, i);
  }

  lemma DivModUnique(a: nat, d: nat, q: nat, r: nat)
    requires d > 0 && r < d && a == q * d + r
    ensures a / d == q && a % d == r
  {
    var q', r' := a / d, a % d;
    assert a == q' * d + r';
    if q > q' {
      MulAtLeast(q - q', d);
      assert false;
    } else if q < q' {
      MulAtLeast(q' - q, d);
      assert false;
    }
  }

  lemma MulAtLeast(k: int, d: nat)
    requires k >= 1
    ensures k * d >= d
  {
    assert k * d == (k - 1) * d + d;
  }


  /** Two inodes of one group are inodeSize bytes apart per index. */
  lemma SameGroupStride(img: Image, sb: Superblock, m: int, n: int)
    requires sb.inodesPerGroup > 0 && 1 <= m <= n <= Mod32
    requires GroupOf(sb, m) == GroupOf(sb, n)
    ensures InodeOffset(img, sb, n) - InodeOffset(img, sb, m) == (n - m) * sb.inodeSize
  {
    GroupIndexDecompose(sb, m);
    GroupIndexDecompose(sb, n);
    var i, j := IndexInGroup(sb, m), IndexInGroup(sb, n);
    assert j - i == n - m;
    var base := BlockSize(sb) * InodeTableOf(img, GroupDescOffset(sb, m));
    assert GroupDescOffset(sb, n) == GroupDescOffset(sb, m);
    assert InodeOffset(img, sb, n) - InodeOffset(img, sb, m) == j * sb.inodeSize - i * sb.inodeSize;
    MulSub(j, i, sb.inodeSize);
  }

  lemma MulSub(a: int, b: int, c: int)
    ensures a * c - b * c == (a - b) * c
  {
  }

  datatype Inode = Inode(
    mode: nat,           // i_mode
    size: nat,           // i_size
    block: seq<nat>)     // i_block[15]

  /** The inode record read at off (struct ext2_inode: i_mode at 0, i_size at 4,
      i_block at 40). */
  function DecodeInode(img: Image, off: int): (ino: Inode)
    ensures |ino.block| == NBlocks
    ensures ino.size == U32(img, off + 4) && ino.mode == U16(img, off)
    ensures forall j :: 0 <= j < NBlocks ==> ino.block[j] == U32(img, off + 40 + 4 * j)
  {
    Inode(U16(img, off), U32(img, off + 4), seq(NBlocks, j requires 0 <= j < NBlocks => U32(img, off + 40 + 4 * j)))
  }

  /** The header and name field of struct ext2_dir_entry_2 read at off. */
  datatype DirEntry = DirEntry(
    inode: nat,
    recLen: nat,
    nameLen: nat,
    fileType: nat,
    nameField: seq<byte>)

  function DecodeDirEntry(img: Image, off: int): (e: DirEntry)
  {
    DirEntry(U32(img, off), U16(img, off + 4), ByteAt(img, off + 6), ByteAt(img, off + 7),
             ReadAt(img, off + 8, NameFieldSize))
  }
}
