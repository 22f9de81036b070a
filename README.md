# ext2 reader and B-tree, modelled in Dafny

This project models two parts of a collection of small systems-programming
exercises. Both are written in C.

**The ext2 read-only engine.** The image of an ext2 file system is read in
five variants:

- `04-ext2-read-file` copies a file by inode number.
- `05-ext2-read-dir` lists a directory.
- `06-ext2-walk-path` resolves an absolute path and copies the file it names.
- `08-ext2-read-sparse-file` copies a file with holes.
- `10-ext2-fuse/ext2_func.c` holds the lookup, listing and windowed read
  behind a FUSE file system.

The image is a byte sequence. Fields are little-endian. An inode is found
through its block group's descriptor, and data blocks are found through the
15 block slots of the inode:

- slots 0-11 are direct;
- slot 12 is single-indirect;
- slot 13 is double-indirect;
- slot 14, the triple-indirect slot, is never followed.

The block map walk is specified once (`BlockMap`). Each variant picks its own
rules for holes, zero entries and stopping. The work each variant does per
block is a fold over the visited blocks (`BlockMap.Run`). Each C function
becomes a Dafny method, proved equal to the fold or to the specification
function it stands for. The lemmas then state what the variant computes.

**The B-tree (`09-btree/btree.c`).** The tree holds distinct `int` keys.
Nodes hold at most `2L - 1` keys. It offers:

- insertion that splits on the way back up its route;
- deletion in a single downward pass that rotates or merges;
- a membership test;
- an in-order iterator with an explicit stack.

The nodes are a value datatype (`Tree`). The tree and the iterator are
classes whose methods update their fields, as the C structs are updated.

Where the specification of the repository and its code disagree, the model
follows the code:

- A directory entry with `rec_len` 0 makes the C loop run forever. It is not
  reported as corrupt data; the model calls the outcome `Diverges`.
- The walker of `06-ext2-walk-path` differs from the exact first-match lookup
  of the specification:
  - it compares names by prefix (`strncmp` over the on-disk name length);
  - the last match in a block wins;
  - it searches only entries of the expected type: a regular file for the
    last component, a directory otherwise;
  - a zero block slot ends the search with "found", and the answer is the
    inode resolved so far.
- In the FUSE variant, `find_dir_inode_number_by_path` called on the path `/`
  is a NULL dereference (`strtok` finds no component). The callbacks never
  reach that case, because `get_inode_nr_by_path` answers the root inode for
  `/` before calling it. Also, `-ENOTDIR` comes from a trailing slash, or
  from a doubled slash before the last component (`//a`, `/a//b`), since
  each component subtracts only its length plus one from the remaining
  length; the file type is never compared.
- An inode number below 1 is not rejected. `inode_nr - 1` wraps modulo 2^32.
- The sparse copy zero-fills only direct holes. A zero pointer in an indirect
  block ends that block's list, and a zero indirect slot is read as block 0.
- The read-file variant stops at the first zero slot and writes every block at
  offset 0 of the output.

## Model

| member | source | states |
|---|---|---|
| Ext2Image.ByteAt | 04-ext2-read-file/solution.c:11 | a byte inside the image is that image byte (bytes past the end read as zero) |
| Ext2Image.ReadAt | 04-ext2-read-file/solution.c:11 | a pread of n bytes yields exactly n bytes, byte i being the image byte at offset + i |
| Ext2Image.U32 | 04-ext2-read-file/solution.c:26-33 | a 32-bit on-disk field is below 2^32 |
| Ext2Image.CString | 05-ext2-read-dir/solution.c:28 | a "%s" string is the prefix of the field before its first NUL: no NUL inside, and a NUL right after it unless the field ends |
| Ext2Image.CStringNoNul | 05-ext2-read-dir/solution.c:28 | a field without NUL is taken whole, up to the field's end (the C reads on past it; see "Left out") |
| Ext2Image.Pwrite | 04-ext2-read-file/solution.c:15 | after pwrite(data, off) the range [off, off + \|data\|) holds data, every other byte is unchanged (or zero in a gap the write opens) and the file grows to cover the write |
| Ext2Image.Overwrite | 08-ext2-read-sparse-file/solution.c:29 | writing a prefix at offset 0 leaves the file at least as long, starting with that prefix |
| Ext2Image.PwriteExtends | 08-ext2-read-sparse-file/solution.c:29-33 | a write at offset size_copied extends what was written so far by the new chunk |
| Ext2Layout.DecodeSuperblock | 04-ext2-read-file/solution.c:129-136 | s_first_data_block, s_log_block_size, s_inodes_per_group and s_inode_size are the fields at superblock offsets 20, 24, 40 and 88 |
| Ext2Layout.BlockSize | 04-ext2-read-file/solution.c:136 | 1024 << s_log_block_size is at least 1024 and a multiple of 1024 |
| Ext2Layout.InodeIndex | 04-ext2-read-file/solution.c:135 | (inode_nr - 1) computed as unsigned is below 2^32 and equals inode_nr - 1 for 1 <= inode_nr <= 2^32 |
| Ext2Layout.IndexInGroup | 04-ext2-read-file/solution.c:145 | the index in the group is below s_inodes_per_group |
| Ext2Layout.GroupIndexDecompose | 04-ext2-read-file/solution.c:135-145 | group * inodes_per_group + index_in_group + 1 gives back the inode number |
| Ext2Layout.GroupIndexRoundTrip | 04-ext2-read-file/solution.c:135-145 | the group and index of group * ipg + index + 1 are that group and that index |
| Ext2Layout.SameGroupStride | 04-ext2-read-file/solution.c:146 | two inodes of one group lie (n - m) * s_inode_size bytes apart in the inode table |
| Ext2Layout.DecodeInode | 04-ext2-read-file/solution.c:64-66 | i_mode, i_size and the 15 block slots are the fields at offsets 0, 4 and 40 + 4j of the inode record |
| Ext2Paths.FirstSlash | 06-ext2-walk-path/solution.c:23-26 | the index of the first '/' (or the length when there is none): no '/' before it |
| Ext2Paths.DropSlashes | 06-ext2-walk-path/solution.c:12-21 | the path with its leading slashes skipped: a suffix that does not start with '/' |
| Ext2Paths.EntryName | 06-ext2-walk-path/solution.c:12-21 | strtok's first token is a non-empty run of non-'/' bytes, and there is none exactly when the path is all slashes |
| Ext2Paths.RemainingPath | 06-ext2-walk-path/solution.c:23-26 | strchr(path, '/') is the suffix starting at the first '/', and NULL exactly when the path has no '/' |
| Ext2Paths.SplitAbsPath | 06-ext2-walk-path/solution.c:12-26 | an absolute path is its first component followed by the rest of the path |
| Ext2Paths.EntryNameOfAbs | 06-ext2-walk-path/solution.c:12-21 | the entry name of an absolute path is its first component |
| Ext2Paths.RemainingPathOfAbs | 06-ext2-walk-path/solution.c:23-26 | the remaining path after the first component is the rest of the path, starting with '/' |
| DirBlock.ChainFromShape | 05-ext2-read-dir/solution.c:12-33 | the entries met from an offset lie inside the block, are live and have ascending offsets |
| DirBlock.DirChainShape | 05-ext2-read-dir/solution.c:8-36 | every entry the walk of a directory block meets lies inside the block and is live; offsets ascend; the walk loops exactly when the last entry met has rec_len 0 |
| DirBlock.WalkerStops | 05-ext2-read-dir/solution.c:12-19 | the entry loop ends at the block's end or at an entry of inode 0 |
| DirBlock.WalkerLoops | 05-ext2-read-dir/solution.c:33 | a live entry with rec_len 0 is met again and again |
| DirBlock.EntryNameOf | 10-ext2-fuse/ext2_func.c:59 | the name cut at name_len: a prefix of the name field, at most name_len bytes, NUL-free, and the whole name_len bytes when they hold no NUL |
| BlockMap.PointerBlock | 04-ext2-read-file/solution.c:25-29 | a pointer block read is refused exactly when it is short; otherwise it is block_size / 4 little-endian entries |
| BlockMap.FirstZero | 04-ext2-read-file/solution.c:30-33 | the first zero entry of a pointer block: all entries before it are non-zero |
| BlockMap.Indirect | 04-ext2-read-file/solution.c:23-42 | the blocks of a single-indirect block extend those visited before, are non-zero, and the scan ends short exactly when the pointer block read is short |
| BlockMap.DoubleFrom | 04-ext2-read-file/solution.c:50-58 | the remaining entries of a double-indirect block each add the blocks of their single-indirect block, in order |
| BlockMap.Double | 04-ext2-read-file/solution.c:45-61 | the blocks of a double-indirect block extend those visited before, are non-zero, and a short read of the block itself adds nothing |
| BlockMap.SlotsFrom | 04-ext2-read-file/solution.c:80-118 | the slot loop from slot i extends the blocks visited before; a zero slot ends it only where holes are not filled |
| BlockMap.WalkNonZero | 04-ext2-read-file/solution.c:81-83 | without hole filling no visited block number is 0 |
| BlockMap.WalkIgnoresTriple | 04-ext2-read-file/solution.c:113-118 | the contents of slot 14 are never read: two inodes that agree on slots 0-13 are walked alike |
| BlockMap.WalkEndsAtZeroSlot | 04-ext2-read-file/solution.c:81-83 | slots after a zero slot are never read |
| BlockMap.WalkDirectSlot | 04-ext2-read-file/solution.c:85-87 | direct slot j supplies the j-th visited block |
| BlockMap.WalkEarlierStop | 08-ext2-read-sparse-file/solution.c:97-99 | a stop rule that holds more often visits a prefix of the blocks, and the same walk when it does not stop |
| BlockMap.Run | 05-ext2-read-dir/solution.c:89-124 | a fold that has halted stays halted, and a fold over no blocks changes nothing |
| BlockMap.RunAppend | 05-ext2-read-dir/solution.c:89-124 | folding over a + b is folding over a and then over b |
| BlockMap.RunHaltedPrefix | 05-ext2-read-dir/solution.c:89-124 | once a prefix of the blocks has halted the fold, the later blocks do not matter |
| DirList.FirstUnknown | 05-ext2-read-dir/solution.c:21-23 | the first entry whose file type is neither regular file nor directory: all entries before it are of a known type |
| DirList.Items | 05-ext2-read-dir/solution.c:20-31 | one report per entry, in order |
| DirList.WalkedUnknown | 05-ext2-read-dir/solution.c:21-23 | after a live entry of unknown type the block reports the entries before it and fails |
| DirList.WalkedLoops | 05-ext2-read-dir/solution.c:31-33 | a live known entry with rec_len 0 is reported and the listing diverges |
| DirList.ReadDirectBlock | 05-ext2-read-dir/solution.c:8-36 | appends the block's reports to the log and returns its end (type error, divergence or success) |
| DirList.ReadIndirectBlock | 05-ext2-read-dir/solution.c:38-54 | the listing equals the fold over the blocks of the single-indirect block, with -EIO for a short read |
| DirList.ReadDoubleIndirectBlock | 05-ext2-read-dir/solution.c:56-72 | the listing equals the fold over the blocks of the double-indirect block, with -EIO for a short read |
| DirList.ParseContentOfInodeAsDir | 05-ext2-read-dir/solution.c:75-128 | the reports and the error equal the listing of the directory inode |
| DirList.ListRunSpec | 05-ext2-read-dir/solution.c:89-124 | the fold reports every block's entries in order up to and including the first failing block, whose error it returns |
| DirList.ListDirReportsLiveEntries | 05-ext2-read-dir/solution.c:17-31 | every report comes from a live entry of known type |
| DirList.ListDirComplete | 05-ext2-read-dir/solution.c:75-128 | a listing succeeds exactly when no visited block fails and no pointer block read is short, and it then reports every entry of every visited block |
| ReadDir.DumpDir | 05-ext2-read-dir/solution.c:132-154 | the report_file calls and the result equal the listing of directory inode inode_nr |
| ReadDir.DirListingReportsOk | 05-ext2-read-dir/solution.c:17-31 | every report has a non-zero inode, type 'f' or 'd', and a NUL-free name of at most 255 bytes |
| ReadDir.ReportedNameOverruns | 05-ext2-read-dir/solution.c:28 | when the bytes after the name are not NUL, the reported name is longer than name_len |
| ReadDir.ReportedNameExample | 05-ext2-read-dir/solution.c:28 | the entry "abcd" followed by an entry for inode 13 is reported as "abcd\x0d" |
| ReadDir.ReportedCut | 10-ext2-fuse/ext2_func.c:59 | the corrected report differs only in the name, which is cut at name_len and is a prefix of the name reported as written |
| FileCopy.Chunk | 08-ext2-read-sparse-file/solution.c:11-17 | one block contributes min(block_size, file_size - size_copied) bytes: never more than a block, never past the file size, and at least one byte while bytes remain |
| FileCopy.Copied | 08-ext2-read-sparse-file/solution.c:33 | size_copied never exceeds the file size |
| FileCopy.CopiedStep | 08-ext2-read-sparse-file/solution.c:33 | size_copied grows by the chunk of each block |
| FileCopy.CopiedMono | 08-ext2-read-sparse-file/solution.c:33 | size_copied never decreases |
| FileCopy.BlockData | 08-ext2-read-sparse-file/solution.c:18-24 | the data of one block (zeros for a hole) has the chunk's length |
| FileCopy.FileBytes | 08-ext2-read-sparse-file/solution.c:96-129 | the file contents gathered from the visited blocks is size_copied bytes long |
| FileCopy.FileBytesSnoc | 08-ext2-read-sparse-file/solution.c:28-33 | one more block appends its chunk to the contents |
| FileCopy.FileBytesPrefix | 08-ext2-read-sparse-file/solution.c:96-129 | visiting more blocks only extends the contents |
| FileCopy.FileBytesAt | 08-ext2-read-sparse-file/solution.c:18-28 | byte x of the file is byte x mod block_size of visited block x div block_size |
| SizedCopy.DumpRun | 08-ext2-read-sparse-file/solution.c:9-35 | copying the visited blocks from an empty state writes the file contents at offset 0 |
| SizedCopy.StoppedCopyIsWhole | 08-ext2-read-sparse-file/solution.c:97-99 | a walk that stops because size_copied reached the file size copies exactly file_size bytes without error |
| SizedCopy.StoppedWalk | 08-ext2-read-sparse-file/solution.c:97-99 | a walk that stopped did so because its stop rule holds |
| SizedCopy.DumpRunMore | 08-ext2-read-sparse-file/solution.c:9-35 | a block copy never ends the walk |
| SizedCopy.CopyDirectBlock | 08-ext2-read-sparse-file/solution.c:9-35 | the new size_copied and output are one step of the copy |
| SizedCopy.CopyIndirectBlock | 08-ext2-read-sparse-file/solution.c:38-58 | the state after the single-indirect block is the copy fold over its blocks, with -EIO for a short read |
| SizedCopy.CopyDoubleIndirectBlock | 08-ext2-read-sparse-file/solution.c:61-78 | the state after the double-indirect block is the copy fold over its blocks, with -EIO for a short read |
| SizedCopy.CopySlot | 08-ext2-read-sparse-file/solution.c:101-128 | one slot of copy_inode folds the blocks the slot names |
| SizedCopy.CopyInode | 08-ext2-read-sparse-file/solution.c:80-131 | the output and the error equal the size-bounded copy of the inode |
| ReadFile.WriteOffset | 04-ext2-read-file/solution.c:15 | as written every block is written at offset 0; corrected, block k is written at k * block_size |
| ReadFile.AllBlocks | 04-ext2-read-file/solution.c:9-20 | the whole blocks of the file, |blocks| * block_size bytes |
| ReadFile.PwriteTwice | 04-ext2-read-file/solution.c:15 | a second write of the same size at the same offset erases the first |
| ReadFile.AtZeroRun | 04-ext2-read-file/solution.c:63-124 | as written, only the last visited block remains at offset 0 |
| ReadFile.AtBlockOffsetRun | 04-ext2-read-file/solution.c:63-124 | corrected, the output starts with every visited block in order |
| ReadFile.LastBlockWins | 04-ext2-read-file/solution.c:15 | the output of dump_file as written is the initial output overwritten at 0 by the last visited block only |
| ReadFile.BlocksInOrder | 04-ext2-read-file/solution.c:63-124 | the corrected output holds the visited blocks one after another |
| ReadFile.AllBlocksAt | 04-ext2-read-file/solution.c:9-20 | byte k * block_size + j of the whole-block contents is byte j of the k-th visited block |
| ReadFile.TwoBlocks | 04-ext2-read-file/solution.c:15 | a file of two blocks is copied as the second block alone, and in the corrected copy as both blocks |
| ReadFile.CopyDirectBlock | 04-ext2-read-file/solution.c:9-20 | one block written at its placement |
| ReadFile.CopyIndirectBlock | 04-ext2-read-file/solution.c:23-42 | the output after the single-indirect block is the write fold over its blocks, with -EIO for a short read |
| ReadFile.CopyDoubleIndirectBlock | 04-ext2-read-file/solution.c:45-61 | the output after the double-indirect block is the write fold over its blocks, with -EIO for a short read |
| ReadFile.CopySlot | 04-ext2-read-file/solution.c:85-118 | one slot of copy_inode folds the blocks the slot names |
| ReadFile.CopyInode | 04-ext2-read-file/solution.c:63-124 | the output and the error equal the whole-block copy of the inode |
| ReadFile.DumpFile | 04-ext2-read-file/solution.c:127-149 | the output and error equal the copy of the inode that inode_nr locates |
| ReadSparse.DumpFile | 08-ext2-read-sparse-file/solution.c:134-156 | the output and error equal the hole-filling, size-bounded copy of inode inode_nr |
| ReadSparse.HoleReadsZero | 08-ext2-read-sparse-file/solution.c:18-21 | every byte of the file inside a direct hole is copied as 0 |
| ReadSparse.SparseCopyIsWhole | 08-ext2-read-sparse-file/solution.c:96-99 | a file that fits in the direct slots is copied without error and in full, whatever its holes |
| ReadSparse.SparseDirectOnly | 08-ext2-read-sparse-file/solution.c:101-109 | for such a file the slot loop stops at file_size within the direct slots |
| DirLookup.FirstHit | 10-ext2-fuse/ext2_func.c:190-198 | the first matching entry: no entry before it matches |
| DirLookup.LastHit | 06-ext2-walk-path/solution.c:73-76 | the last matching entry: no entry after it matches, and none matches when there is none |
| DirLookup.FindInBlockSound | 06-ext2-walk-path/solution.c:45-82 | a match is the inode of a matching live entry of the block; no match means the block was read to its end and no entry matches |
| DirLookup.SearchedLoops | 10-ext2-fuse/ext2_func.c:170-202 | in the exact search, a non-matching live entry with rec_len 0 makes the search diverge |
| DirLookup.ScannedLoops | 06-ext2-walk-path/solution.c:50-79 | in the typed search, a live entry with rec_len 0 makes the search diverge |
| DirLookup.FindRunSpec | 06-ext2-walk-path/solution.c:91-100 | the search over several blocks returns the answer of the first block that matches or fails, or no match when none does |
| DirLookup.SearchDirHit | 06-ext2-walk-path/solution.c:123-197 | a hit in a directory is the non-zero inode of a matching entry in one of its visited blocks |
| DirLookup.SearchDirMiss | 06-ext2-walk-path/solution.c:123-197 | a miss means no entry of any visited block matches, and every visited block was read to its end |
| DirLookup.DecideSpec | 06-ext2-walk-path/solution.c:135-195 | the slot loop hits exactly when its first decisive block matches, and misses exactly when no block is decisive and the walk did not end on an error |
| DirLookup.Verdict | 06-ext2-walk-path/solution.c:140-195 | a block answer that is an error fails the search, and a match is a hit |
| DirLookup.FindExactInBlock | 10-ext2-fuse/ext2_func.c:165-204 | the exact search of one block |
| DirLookup.FindTypedInBlock | 06-ext2-walk-path/solution.c:45-82 | the typed search of one block |
| DirLookup.FindEntryDirectBlock | 06-ext2-walk-path/solution.c:45-82 | the search of one block with either matcher |
| DirLookup.FindEntryIndirectBlock | 06-ext2-walk-path/solution.c:84-101 | the search over the blocks of a single-indirect block, where a zero entry is -ENOENT |
| DirLookup.FindEntryDoubleIndirectBlock | 06-ext2-walk-path/solution.c:103-120 | the search over the blocks of a double-indirect block |
| DirLookup.SearchSlot | 06-ext2-walk-path/solution.c:140-191 | a decisive slot fixes the directory's outcome; otherwise the loop goes on at the next slot |
| DirLookup.SearchBlocks | 06-ext2-walk-path/solution.c:135-195 | the slot loop's outcome |
| DirLookup.SearchInode | 06-ext2-walk-path/solution.c:123-197 | the search of the directory inode at inode_offset |
| WalkPath.ComponentMatcher | 06-ext2-walk-path/solution.c:133 | a component is searched by its own name with the expected file type, never by exact name regardless of type |
| WalkPath.Unresolved | 06-ext2-walk-path/solution.c:135-196 | a search without a hit is answered with success, giving the current inode, only as written and only after a zero slot |
| WalkPath.SearchComponent | 06-ext2-walk-path/solution.c:135-195 | the search for one component in one directory |
| WalkPath.FindInodeNumberByPath | 06-ext2-walk-path/solution.c:123-197 | the result of resolving the path from the directory at inode_offset |
| WalkPath.FollowMatch | 06-ext2-walk-path/solution.c:145-153 | after a match, the walk goes on with the rest of the path in the inode found |
| WalkPath.DumpFile | 06-ext2-walk-path/solution.c:318-351 | the output and error equal the path's resolution followed by the size-bounded copy of the inode |
| WalkPath.PathWalkResolves | 06-ext2-walk-path/solution.c:123-197 | resolving an absolute path equals resolving its list of components one by one |
| WalkPath.FindInodeByPathResolves | 06-ext2-walk-path/solution.c:123-197 | find_inode_number_by_path resolves the path's components one by one |
| WalkPath.CorrectedFindsNamedEntry | 06-ext2-walk-path/solution.c:45-82 | with whole-name matching, a resolved path of any length names a non-zero inode: the first component is a hit of the expected type, and the result is a regular-file entry named exactly the last component in the directory the earlier components lead to |
| WalkPath.MissResolvesToDirectory | 06-ext2-walk-path/solution.c:136-138 | as written, a name missing from a directory whose slots end in a zero slot resolves to that directory |
| WalkPath.CorrectedMissIsNotFound | 06-ext2-walk-path/solution.c:196 | corrected, a name missing from the directory is not found |
| WalkPath.SingleComponentWalk | 06-ext2-walk-path/solution.c:135-196 | a one-component path resolves to the component's hit, or to the miss answer |
| WalkPath.PrefixAcceptsLongerComponent | 06-ext2-walk-path/solution.c:73 | the entry "a" matches the component "ab" as written, and not with whole-name matching |
| FuseLookup.ReadDir | 10-ext2-fuse/ext2_func.c:108-161 | the filler calls and the error equal the listing of the directory inode |
| FuseLookup.FuseListingNamesOk | 10-ext2-fuse/ext2_func.c:52-60 | every filled item comes from a live directory entry of a known type read from the image; its name is NUL-free, at most 255 bytes and at most the entry's name_len, and it is exactly the name_len bytes when those hold no NUL; its kind is a directory exactly when the entry is not a regular file |
| FuseLookup.FilledName | 10-ext2-fuse/ext2_func.c:52-60 | the filled name is the name_len bytes of the entry, and it is listed as a directory exactly when it is not a regular file |
| FuseLookup.SearchComponent | 10-ext2-fuse/ext2_func.c:256-319 | the exact search for one component in one directory |
| FuseLookup.FindInodeNumberByPath | 10-ext2-fuse/ext2_func.c:244-321 | the result of resolving the path from the directory at inode_offset |
| FuseLookup.FollowMatch | 10-ext2-fuse/ext2_func.c:264-275 | after a match, a trailing slash alone is -ENOTDIR, and otherwise the walk goes on in the inode found |
| FuseLookup.FindDirInodeNumberByPath | 10-ext2-fuse/ext2_func.c:326-343 | the lookup of a path from the root inode 2 |
| FuseLookup.PathWalkResolves | 10-ext2-fuse/ext2_func.c:244-321 | resolving an absolute path equals resolving its components one by one, with the trailing slash noted |
| FuseLookup.FindInodeByPathResolves | 10-ext2-fuse/ext2_func.c:244-321 | find_inode_number_by_path resolves the path's components one by one |
| FuseLookup.ResolveFindsEntry | 10-ext2-fuse/ext2_func.c:244-321 | a resolved path has no trailing slash, names a non-zero inode and its first component is an entry of the start directory; a one-component path resolves to that entry's inode |
| FuseLookup.RootPathFaults | 10-ext2-fuse/ext2_func.c:3-12 | the path "/" has no component, and the lookup dereferences NULL |
| FuseRead.Memcpy | 10-ext2-fuse/ext2_func.c:400 | a memcpy keeps the buffer's size |
| FuseRead.MemcpyExtends | 10-ext2-fuse/ext2_func.c:400-401 | copying one piece right after another builds the concatenation |
| FuseRead.WinLen | 10-ext2-fuse/ext2_func.c:378-390 | the part of the first c file bytes inside [fuse_offset, fuse_offset + fuse_size): none before the window, all of the window after it, and c - fuse_offset in between |
| FuseRead.Window | 10-ext2-fuse/ext2_func.c:378-390 | the window of a byte sequence has that length |
| FuseRead.WindowEnters | 10-ext2-fuse/ext2_func.c:381-391 | a block that starts before the window and reaches into it contributes its part from fuse_offset |
| FuseRead.WindowContinues | 10-ext2-fuse/ext2_func.c:381-391 | a block met inside the window contributes its first bytes |
| FuseRead.WindowMissed | 10-ext2-fuse/ext2_func.c:385-388 | a block outside the window contributes nothing |
| FuseRead.WinRun | 10-ext2-fuse/ext2_func.c:450-496 | copying the visited blocks gives the windowed state the specification computes |
| FuseRead.NextWinCoherent | 10-ext2-fuse/ext2_func.c:391-402 | each block keeps fuse_buf_offset within fuse_size and every memcpy inside the buffer |
| FuseRead.WinAfterCoherent | 10-ext2-fuse/ext2_func.c:450-496 | the whole read keeps fuse_buf_offset within fuse_size |
| FuseRead.ReadFillsWindow | 10-ext2-fuse/ext2_func.c:450-496 | a read returns at most fuse_size bytes, fills the buffer's front with the requested window of the file, and leaves the rest of the buffer as it was |
| FuseRead.StoppedReadCount | 10-ext2-fuse/ext2_func.c:461-464 | a read that stops on a full window returns its whole length without error |
| FuseRead.ReadIsCopyWindow | 10-ext2-fuse/ext2_func.c:450-496 | the bytes read are the window of the file a full size-bounded copy would produce, and an error is the copy's error |
| FuseRead.CopyDirectBlock | 10-ext2-fuse/ext2_func.c:366-404 | the buffer, size_copied and fuse_buf_offset after one block are the specification's next state, which stays within the buffer |
| FuseRead.CopyIndirectBlock | 10-ext2-fuse/ext2_func.c:407-427 | the state after a single-indirect block is the fold over its blocks, with -EIO for a short read |
| FuseRead.CopyDoubleIndirectBlock | 10-ext2-fuse/ext2_func.c:430-448 | the state after a double-indirect block is the fold over its blocks, with -EIO for a short read |
| FuseRead.CopySlot | 10-ext2-fuse/ext2_func.c:466-490 | one slot of copy_inode folds the blocks the slot names |
| FuseRead.CopyInode | 10-ext2-fuse/ext2_func.c:450-496 | the count, buffer and error equal the windowed read of the inode |
| BTreeNode.FindKeyIndex | 09-btree/btree.c:83-102 | the index is in [-1, keys_size), the match is exact exactly when the key is in the node, and an exact match points at the key |
| BTreeNode.FindKey | 09-btree/btree.c:83-102 | the loop computes the specified search |
| BTreeNode.FindKeyIndexSorted | 09-btree/btree.c:83-102 | in sorted keys the index is the last key at most key, and every later key is greater |
| BTreeNode.InsertKey | 09-btree/btree.c:184-222 | inserting a new key adds exactly one key and keeps the node's kind |
| BTreeNode.InsertKeyIntoNode | 09-btree/btree.c:184-222 | the loops compute the specified insertion |
| BTreeNode.KeysWith | 09-btree/btree.c:199-202 | the key is placed at idx with the keys from idx shifted up |
| BTreeNode.EdgesWithGap | 09-btree/btree.c:209-216 | edge idx becomes two empty edges and the later edges shift up |
| BTreeNode.InsertKeySorted | 09-btree/btree.c:184-222 | insertion keeps the keys sorted, puts the key at the returned index and adds nothing else |
| BTreeNode.InsertKeyEdges | 09-btree/btree.c:207-216 | the edge at the insertion point is handed back as the orphan and replaced by two empty edges; the other edges keep their order |
| BTreeNode.DeleteKey | 09-btree/btree.c:231-261 | deleting a present key removes exactly one key and keeps the node's kind |
| BTreeNode.DeleteKeyFromNode | 09-btree/btree.c:231-261 | the loops compute the specified deletion |
| BTreeNode.ShiftDown | 09-btree/btree.c:243-254 | the element at idx is removed and the later ones shift down |
| BTreeNode.DeleteKeySorted | 09-btree/btree.c:231-261 | deletion keeps the keys sorted and removes the key and nothing else |
| BTreeNode.SplitNode | 09-btree/btree.c:110-139 | the two halves keep the node's kind and hold all its keys but the split key |
| BTreeNode.JoinNodes | 09-btree/btree.c:141-177 | the joined node holds the keys of both halves plus the middle key |
| BTreeNode.JoinSplit | 09-btree/btree.c:110-177 | joining the halves of a split gives back the node |
| BTreeNode.SplitJoin | 09-btree/btree.c:110-177 | splitting a join at its middle key gives back the halves |
| BTreeShape.Around | 09-btree/btree.c:21-26 | for the node layout of keys_size keys between keys_size + 1 edges, the in-order keys of a node are the keys before edge c, the keys of edge c, and the keys after it (the decomposition routing, insertion and deletion rely on) |
| BTreeShape.FlattenExpand | 09-btree/btree.c:353-362 | replacing an edge by a split pair puts the pair's keys in place of the edge's |
| BTreeShape.FlattenReplace | 09-btree/btree.c:353-365 | replacing an edge puts the new child's keys in place of the old |
| BTreeShape.FlattenJoin | 09-btree/btree.c:141-177 | the in-order keys of a join are the left keys, the middle key and the right keys |
| BTreeShape.Remove | 09-btree/btree.c:457-561 | removing a key absent from the sequence changes nothing, and removing a present one shortens it by one |
| BTreeShape.RemoveMembers | 09-btree/btree.c:457-561 | removal keeps every other key and adds none |
| BTreeShape.RemoveSorted | 09-btree/btree.c:457-561 | removal from sorted keys stays sorted and leaves exactly the other keys |
| BTreeSearch.FindBetween | 09-btree/btree.c:311-321 | when the key lies between keys c - 1 and c, the search answers edge c |
| BTreeSearch.BetweenFound | 09-btree/btree.c:311-321 | the edge the search picks in sorted keys is the one whose range holds the key |
| BTreeSearch.Routing | 09-btree/btree.c:311-321 | the key is in a node's subtree exactly when it is in the subtree of the edge the search picks |
| BTreeSearch.RouteFinds | 09-btree/btree.c:302-331 | on a well-shaped sorted tree the route never dereferences NULL, and it finds the key exactly when the key is in the tree |
| BTreeInsert.Orphaned | 09-btree/btree.c:356-362 | the halves put into the two new edges keep the node's keys and kind |
| BTreeInsert.OrphanedExpand | 09-btree/btree.c:354-362 | inserting a key and filling the two new edges is the node with that edge expanded |
| BTreeInsert.Halves | 09-btree/btree.c:110-139 | the halves at index i hold the keys before and after key i |
| BTreeInsert.SplitAtL | 09-btree/btree.c:117-131 | the split at keys[L] is refused unless 0 < L < keys_size - 1; otherwise the halves are keys [0, L) and (L, keys_size) |
| BTreeInsert.PlaceExpands | 09-btree/btree.c:352-394 | placing a key aborts exactly for a full node when L is 2, fits exactly when the node is not full, and a split joins back to the expanded node with L or L + 1 keys on the left |
| BTreeInsert.PlaceLeft | 09-btree/btree.c:370-394 | a key below the middle key goes into the left half of the split |
| BTreeInsert.PlaceRight | 09-btree/btree.c:370-394 | a key above the middle key goes into the right half of the split |
| BTreeInsert.PlaceKeys | 09-btree/btree.c:352-394 | the keys of a placement are the in-order keys of the expanded node |
| BTreeInsert.LeafInserted | 09-btree/btree.c:352-366 | inserting into a leaf gives sorted leaves holding the old keys plus the key |
| BTreeInsert.LiftTook | 09-btree/btree.c:349-395 | what the child returns, lifted into its parent, gives the parent's keys plus the key |
| BTreeInsert.InnerFit | 09-btree/btree.c:353-365 | a child that grew without splitting keeps its parent well shaped and sorted, holding the key |
| BTreeInsert.InnerSplit | 09-btree/btree.c:368-394 | a child split placed into its parent never aborts when L >= 3, and keeps the parent sorted and well shaped, holding the key |
| BTreeInsert.InsCorrect | 09-btree/btree.c:337-406 | inserting an absent key into a subtree gives a fit or a split of the right height, holding exactly the old keys plus the key |
| BTreeInsert.InsertPresent | 09-btree/btree.c:340-343 | inserting a present key changes nothing |
| BTreeInsert.FitValid | 09-btree/btree.c:353-366 | a root that fits is a valid tree of the same depth |
| BTreeInsert.NewRootValid | 09-btree/btree.c:397-404 | a split root under a new one-key root is a valid tree one level deeper |
| BTreeInsert.InsertCorrect | 09-btree/btree.c:337-406 | an insertion never crashes, aborts only when L is 2, and leaves a valid tree holding the old keys plus the key |
| BTreeInsert.InsertAbortsForL2 | 09-btree/btree.c:117-120 | with L = 2, inserting 4 into the full leaf [1, 2, 3] exits |
| BTreeInsert.FullLeafSplits | 09-btree/btree.c:368-394 | with L = 3, inserting 6 into the full leaf [1..5] splits it into [1, 2, 3], 4, [5, 6] |
| BTreeDelete.RightmostLast | 09-btree/btree.c:526-529 | the rightmost key of a subtree is its greatest key in order |
| BTreeDelete.LeftmostFirst | 09-btree/btree.c:538-541 | the leftmost key of a subtree is its least key in order |
| BTreeDelete.RotateRight | 09-btree/btree.c:408-422 | a right rotation keeps the parent's key count |
| BTreeDelete.RotateLeft | 09-btree/btree.c:424-439 | a left rotation keeps the parent's key count |
| BTreeDelete.Merge | 09-btree/btree.c:441-455 | a merge takes one key from the parent and puts the merged node at the left edge, of smaller height |
| BTreeDelete.Step | 09-btree/btree.c:469-557 | one iteration of the delete loop goes down into a child, or empties the root into a lower merged node |
| BTreeDelete.RotateRightFlatten | 09-btree/btree.c:408-422 | a right rotation keeps the in-order keys |
| BTreeDelete.RotateRightShape | 09-btree/btree.c:408-422 | a right rotation keeps the tree well shaped and gives the right child one more key |
| BTreeDelete.RotateLeftFlatten | 09-btree/btree.c:424-439 | a left rotation keeps the in-order keys |
| BTreeDelete.RotateLeftShape | 09-btree/btree.c:424-439 | a left rotation keeps the tree well shaped and gives the left child one more key |
| BTreeDelete.MergeFlatten | 09-btree/btree.c:441-455 | a merge keeps the in-order keys; the merged node holds the left keys, the parent key and the right keys |
| BTreeDelete.MergeKeeps | 09-btree/btree.c:441-455 | a merge of two small children keeps the tree well shaped |
| BTreeDelete.PredecessorStep | 09-btree/btree.c:523-532 | replacing the key by its predecessor and going left keeps the deletion on track |
| BTreeDelete.SuccessorStep | 09-btree/btree.c:535-544 | replacing the key by its successor and going right keeps the deletion on track |
| BTreeDelete.MergeStep | 09-btree/btree.c:498-514 | a merge either descends into the merged node or empties the root |
| BTreeDelete.RotateRightStep | 09-btree/btree.c:490-493 | borrowing from the left sibling descends into a child that can lose a key |
| BTreeDelete.RotateLeftStep | 09-btree/btree.c:494-497 | borrowing from the right sibling descends into a child that can lose a key |
| BTreeDelete.PastCorrect | 09-btree/btree.c:472-516 | when the key is not in the node, the iteration descends towards it or empties the root |
| BTreeDelete.AtKeyCorrect | 09-btree/btree.c:519-556 | when the key is in the node, the iteration descends towards it or its replacement, or empties the root |
| BTreeDelete.StepCorrect | 09-btree/btree.c:469-557 | every iteration on a well-shaped tree descends, keeping the key reachable, or empties the root |
| BTreeDelete.LeafDelete | 09-btree/btree.c:560 | deleting from the final leaf removes exactly the key |
| BTreeDelete.DelCorrect | 09-btree/btree.c:469-560 | the corrected pass deletes the key from any well-shaped subtree that holds it |
| BTreeDelete.DescendDeletes | 09-btree/btree.c:469-557 | after a descent, deleting below deletes from the whole subtree |
| BTreeDelete.EmptiedDeletes | 09-btree/btree.c:506-512 | after the root empties, deleting from the merged node deletes from the tree one level lower |
| BTreeDelete.DeleteCorrect | 09-btree/btree.c:457-561 | the corrected deletion leaves a valid tree holding exactly the old keys without the key, and lowers the depth by at most one |
| BTreeDelete.DeleteContains | 09-btree/btree.c:563-567 | after the deletion, btree_contains answers yes exactly for the other keys of the tree |
| BTreeDelete.DeleteAbsent | 09-btree/btree.c:458-460 | deleting an absent key changes nothing |
| BTreeDelete.AsWrittenCrashes | 09-btree/btree.c:547-556 | as written, a deletion of a key in a depth-2 root that merges the root's last key dereferences NULL |
| BTreeDelete.DepthBugExample | 09-btree/btree.c:547-556 | with L = 3, deleting 4 from the root [4] over [2, 3] and [5, 6] crashes as written and gives the leaf [2, 3, 5, 6] corrected |
| BTrees.BTree.constructor | 09-btree/btree.c:265-273 | a new tree is an empty valid leaf root of depth 1 |
| BTrees.BTree.BuildRoute | 09-btree/btree.c:302-331 | the route reports an exact match exactly when the key is in the tree, and otherwise the nodes and edge indexes walked from the root to a leaf |
| BTrees.BTree.Insert | 09-btree/btree.c:337-406 | the tree stays valid and holds the old keys plus the key; it exits only when L is 2 |
| BTrees.BTree.Delete | 09-btree/btree.c:457-561 | the tree stays valid and holds the old keys without the key; the depth drops by at most one |
| BTrees.BTree.Contains | 09-btree/btree.c:563-567 | the answer is yes exactly when the key is in the tree |
| BTrees.InsertClimb | 09-btree/btree.c:349-405 | the upward loop yields the specified insertion: a new root, a grown root or an exit |
| BTrees.DeletePass | 09-btree/btree.c:469-560 | the downward loop, with its pending parent updates, yields the corrected deletion |
| BTrees.Reattach | 09-btree/btree.c:469-557 | putting the changed nodes back into their parents yields the deleted tree |
| BTrees.DescendStep | 09-btree/btree.c:309-323 | each step of the route either finds the key or goes down one level along the key's path |
| BTrees.DescendEnd | 09-btree/btree.c:325-330 | at the last level the route's exact flag says whether the key is in the tree |
| BTrees.PassOn | 09-btree/btree.c:469-557 | each iteration of the delete loop continues the same deletion one level lower |
| BTrees.PassEnd | 09-btree/btree.c:560 | at the end of the loop, deleting from the node reached completes the deletion |
| BTrees.DeleteDone | 09-btree/btree.c:457-561 | the finished pass gives a valid tree, without the key, at the same depth or one less |
| BTrees.UpIns | 09-btree/btree.c:349-395 | climbing from level k with that level's insertion gives the insertion at the root |
| BTrees.ClimbStart | 09-btree/btree.c:352-366 | placing the key in the last node of the route starts the climb of the specified insertion |
| BTreeIter.Iter.Start | 09-btree/btree.c:577-594 | a new iterator has emitted nothing and has every key of the tree left to emit |
| BTreeIter.Iter.Next | 09-btree/btree.c:602-635 | once finished it answers false and changes nothing; otherwise it returns the least key not yet emitted, greater than every key emitted so far. The keys emitted are sorted, and when it finishes they are all the tree's keys |
| BTreeIter.Iter.Take | 09-btree/btree.c:607-634 | one key is taken from the front of the keys left |
| BTreeIter.Iter.Pop | 09-btree/btree.c:612-623 | finished nodes are popped until a node with a key left is on top, or the iteration finishes exactly when nothing is left |
| BTreeIter.Iter.Dive | 09-btree/btree.c:624-633 | descending along the leftmost edges to a leaf keeps the keys left |
| BTreeIter.Iter.Emitted | 09-btree/btree.c:602-635 | emitting the front key keeps the emitted keys sorted and below all keys left |
| BTreeIter.StartChain | 09-btree/btree.c:582-592 | the stack of btree_iter_start holds all the tree's keys in order |
| BTreeIter.AtLevel | 09-btree/btree.c:607-610 | the key under the top of the stack is the next key to emit |
| BTreeIter.DescendLeft | 09-btree/btree.c:628-632 | pushing the leftmost child keeps the keys left |
| BTreeIter.LeafStart | 09-btree/btree.c:586-592 | at a leaf the keys left begin with the leaf's keys |
| BTreeIter.LeafTake | 09-btree/btree.c:609-615 | taking the next key of a leaf removes it from the front of the keys left |
| BTreeIter.InnerTake | 09-btree/btree.c:607-627 | taking a key of an inner node leaves its right subtree next |
| BTreeIter.PopStep | 09-btree/btree.c:619-622 | popping an exhausted node keeps the keys left |
| BTreeIter.FinishedLast | 09-btree/btree.c:616-618 | an exhausted root leaves nothing to emit |

## Left out

- Failures of the OS calls are not modelled: a negative result of `pread` or `pwrite` and the `-errno` it returns. A read past the end of the image yields zero bytes.
- Only the short read of a pointer block is checked, as the code checks it. The code then returns `-errno`, whose value after a short read it does not set; the model returns `IoError`.
- A short read of a data block leaves the earlier contents of the reused buffer in the C code. The model reads zeros past the end of the image instead.
- The 32-bit sizes of the C integers are not modelled: block size times block number, file offsets and `size_copied` are mathematical integers. The exception is `inode_nr - 1`, which is modelled as `unsigned`.
- A zero `s_inodes_per_group` is a division by zero. The entry points model it as an error, and the inner path walkers require a non-zero value.
- The triple-indirect slot is never followed (the code does not follow it); the walk only notes it.
- The FUSE callbacks and mount code are not part of this model (`10-ext2-fuse/solution.c`). The read, readdir and lookup bodies they call are modelled. The `filler` and `report_file` callbacks become the sequence of their calls.
- `malloc`, `calloc` and `free` of buffers and nodes are not modelled, nor are their failures. Neither are `btree_free`, `_btree_free_helper`, `_free_btree_node`, `_free_route` and `print_node`, which are memory management and printing.
- B-tree nodes are values, so sharing between nodes is not modelled. Where the code updates a node in place through a pointer, the model rebuilds the node and puts it back into its parent (`BTrees.Reattach`).
- `BTreeIter.Iter.Start`: the iterator copies the tree's root and depth when it is created, while the code reads `i->tree->depth` on every call. Changing the tree during an iteration is therefore not modelled.
- `BTreeIter.Iter.Next` requires a non-empty tree: on an empty root the code reads `keys[0]` of a node that has no keys. When it returns false, `x` is left unspecified, as the code leaves `*x` untouched.
- `btree_iter_end` only frees the iterator and is not modelled.
- `BTrees.BTree.Delete` follows the corrected deletion. The deletion as written, which crashes, is modelled by `BTreeDelete.TreeDelete` with the fix flag off.
- `BTrees.BTree.constructor` requires L >= 2. For L below 2 the code's node bounds are degenerate: `_min_keys_size` is negative or zero.
- A stat operation on files is not part of the code modelled here.
- `ReadDir.DumpDir` and `Ext2Image.CStringNoNul`: when the 255-byte name field holds no NUL, `sprintf("%s")` in the read-dir program reads past the end of the entry structure and writes past the 256-byte buffer, which is undefined behaviour. The model stops at the end of the field and reports those 255 bytes.

## Findings

| source | as written | input that shows it | evidently intended | confidence | as-written member | corrected member |
|---|---|---|---|---|---|---|
| 05-ext2-read-dir/solution.c:28 | the name is printed with `sprintf("%s")` from the 255-byte name field, so it runs on into the next entry until a NUL | the entry "abcd" (name_len 4, rec_len 12) followed by an entry for inode 13 is reported as "abcd\x0d" | the name cut at name_len, as the FUSE lister does | not executed | ReadDir.ReportedNameExample | ReadDir.ReportedCut |
| 04-ext2-read-file/solution.c:15 | every data block is written at offset 0 of the output | a file of two blocks b1, b2 is copied as b2 alone | block k written at offset k * block_size | not executed | ReadFile.TwoBlocks | ReadFile.BlocksInOrder |
| 06-ext2-walk-path/solution.c:73 | `strncmp` over the on-disk name length accepts an entry whose name is a prefix of the component | the regular-file entry "a" answers the path "/ab" | the whole component compared with the whole name | not executed | WalkPath.PrefixAcceptsLongerComponent | WalkPath.CorrectedFindsNamedEntry |
| 06-ext2-walk-path/solution.c:136-138 | a zero block slot breaks out of the slot loop, and the function returns 0 with the inode resolved so far | "/x" where the root directory has no entry "x": `dump_file` copies the root directory's inode | -ENOENT when no block holds the component | not executed | WalkPath.MissResolvesToDirectory | WalkPath.CorrectedMissIsNotFound |
| 09-btree/btree.c:550-554 | when a merge at an exact match empties the root, the loop restarts (`--i`) without lowering `t->depth`, so it goes one level too deep | L = 3, the root [4] over the leaves [2, 3] and [5, 6], delete 4: the next iteration reads an edge of a leaf | `--(t->depth)` as in the other merge (lines 507-512) | not executed | BTreeDelete.AsWrittenCrashes | BTreeDelete.DeleteCorrect |
