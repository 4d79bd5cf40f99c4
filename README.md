# ext4 image reader — a verified model

The system is a small read-only ext4 reader. It opens an image file or
a block device and decodes the superblock at byte 1024. It finds an
inode through its block group's descriptor and that group's inode table.
It lists a directory by going through all 15 block pointers of its
inode, the three indirect slots included. For every nonzero pointer it
reads that block as a directory block and scans the linear
`ext4_dir_entry_2` records in it one after another.

The model has one module per source file:

- `Image`: `image.rs`, the positioned read `read_block`.
- `Superblocks`: `superblock.rs`.
- `Groups`: `group.rs`.
- `Inodes`: `inode.rs`.
- `Dir`: `dir.rs`.
- `Ext4Fs`: the `FileSystem` handle of `lib.rs`.

Two helper modules support them:

- `Bytes`: fixed-width unsigned integers and little-endian fields.
- `Results`: `Option` and the I/O `Result`. It shares `image.dfy` with
  `Image`.

The image is an immutable byte sequence. Every read is `Image.ReadBlock`,
which fails in the same cases as a seek followed by `read_exact`.

The decoders are pure, so they are functions. Each has a frame lemma
(only the bytes it decodes matter) and an encoder with a round-trip
lemma.

`Inode::parse` fills a 15-slot array in a loop. It is a method over an
`array`, proved equal to the field-by-field `Inodes.Decode`.

`FileSystem` is a class:

- `ReadGroupDesc` and `ReadInode` are proved equal to the functions
  `GroupDescAt` and `InodeAt`. Lemmas state which bytes of the image
  those functions read.
- `ReadDir` keeps the nested loops of the source and is proved equal to
  `ListDir`. The outer loop runs over the block pointers. The inner
  cursor loop is `ScanBlock`.
- `ListDir` rests on `ScanBlocks` and `ScanRecords`. The lemmas state
  what they return: pointer order, zero pointers skipped, no unused slot,
  the first failure propagated, and exact recovery of encoded records.

A Rust panic is modelled as a precondition:

- an inode number of 0 (the subtraction underflows);
- an inode-per-group count of 0 (division by zero);
- a `log_block_size` of 32 or more (the shift overflows);
- a buffer shorter than a decoder reads (`unwrap`/`expect`).

Everything the source turns into an `Err` or a `None` is modelled as a
result value.

Where the code and the ext4 design differ, the model follows the code:

- `Superblock::parse` reads only the first 136 bytes (the volume name
  ends there), although its documentation asks for 1024.
- `DirectoryEntry::parse` does not check that a record's length covers
  its header and name (`Dir.ShortRecordAccepted`).
- `lib.rs` line 144 iterates over `inode.block_ptrs`. `inode.rs` names
  this field `block`, and the model uses `block`.

## Model

| member | source | states |
|---|---|---|
| Bytes.LeValueOfBytes | src/superblock.rs:62-90 | decoding the `n` little-endian bytes of a value below 256^n gives the value back |
| Bytes.LeBytesOfValue | src/dir.rs:42-50 | re-encoding a decoded little-endian field gives back its bytes, so decoding is injective on fields of one width |
| Bytes.LeValue | src/dir.rs:42-50 | a little-endian field of n bytes holds a value below 256^n |
| Bytes.U16At | src/superblock.rs:86-90 | `read_u16::<LittleEndian>` at an offset: the value whose two-byte little-endian encoding is the bytes there |
| Bytes.U32At | src/group.rs:25-26 | `read_u32::<LittleEndian>` at an offset: the value whose four-byte little-endian encoding is the bytes there |
| Bytes.LeAtFrame | src/inode.rs:33-43 | a field's value depends only on the bytes of that field |
| Image.ReadBlock | src/image.rs:33-46 | succeeds exactly when the offset is below 2^63 and the range lies inside the image (or the size is 0); then returns exactly `size` bytes, those at `offset`; otherwise a short read or an invalid seek |
| Superblocks.Superblock.BlockSize | src/superblock.rs:118-120 | `1024 << log_block_size` in 32 bits: 1024·2^n (at least 1024) for n ≤ 21, 0 for 22 ≤ n < 32, never above 2^31 |
| Superblocks.ShiftOverflows | src/superblock.rs:118-120 | from a shift of 22 on, the set bit leaves the 32-bit word and the block size is 0 |
| Superblocks.BlockSizeExamples | src/superblock.rs:26-31 | log_block_size 0, 1, 2 give 1024, 2048, 4096 bytes |
| Superblocks.TrimTrailingNuls | src/superblock.rs:99-102 | the result is a prefix of the name with no trailing NUL, and every byte removed is a NUL |
| Superblocks.Parse | src/superblock.rs:59-112 | the volume name is at most 16 bytes, is the start of bytes 0x78..0x88, does not end in NUL, and only NULs follow it in the field |
| Superblocks.ParseFrame | src/superblock.rs:5-11 | only the bytes of the six fields at offsets 0x00, 0x04, 0x18, 0x28, 0x58 and 0x78 affect the decoded superblock |
| Superblocks.ParseEncode | src/superblock.rs:59-112 | a superblock written with its fields at their offsets and its name NUL-padded decodes back to itself |
| Groups.Parse | src/group.rs:23-28 | the inode-table block is the number whose little-endian encoding is bytes 8..12 of the descriptor |
| Groups.ParseFrame | src/group.rs:23-28 | only bytes 8..12 affect the decoded descriptor |
| Groups.ParsePut | src/group.rs:5-28 | a block number written at offset 8 of any descriptor buffer decodes back unchanged |
| Inodes.Parse | src/inode.rs:30-46 | the loop that advances a cursor four bytes per pointer yields exactly the field-by-field decoding: mode at 0, size at 4, pointer k at 0x28 + 4k |
| Inodes.Decode | src/inode.rs:5-19 | an inode always carries exactly 15 block pointers |
| Inodes.DecodeFrame | src/inode.rs:30-46 | only bytes 0..2, 4..8 and 0x28..100 affect the decoded inode |
| Inodes.DecodeEncode | src/inode.rs:30-46 | mode, size and 15 pointers written at their offsets decode back unchanged |
| Dir.KindsExclusive | src/dir.rs:84-117 | at most one of the seven type predicates holds, and one holds exactly when the file type is 1 to 7 |
| Dir.Parse | src/dir.rs:36-82 | an accepted record has a nonzero inode and a record length between 1 and the buffer length |
| Dir.ParseFrame | src/dir.rs:36-82 | two buffers of equal length that agree on the 8-byte header and on the name bytes it announces decode alike |
| Dir.ParseCases | src/dir.rs:36-82 | a record is accepted if and only if the header fits, the inode and record length are nonzero, and both the name and the record lie inside the buffer; the entry's fields are the bytes at offsets 0, 7 and 8.., and the record length is the one at offset 4 |
| Dir.ShortRecordAccepted | src/dir.rs:62-67 | a record whose length (8) does not cover its 3-byte name is still accepted |
| Dir.ParseEncode | src/dir.rs:36-82 | a well-formed encoded record decodes to the same entry and consumes exactly its record length, whatever bytes follow it |
| Ext4Fs.InodeLocation | src/lib.rs:57-62 | group · inodes_per_group + local index = inode number − 1, with the local index below inodes_per_group |
| Ext4Fs.InodeLocationUnique | src/lib.rs:57-62 | that decomposition is the only one, so each inode number has exactly one table slot |
| Ext4Fs.InodeLocationExample | src/lib.rs:57-62 | inode 130 with 128 inodes per group is slot 1 of group 1 |
| Ext4Fs.InodeOffsetFitsU64 | src/lib.rs:68-70 | with any block size `block_size` can return, the 64-bit inode offset never wraps |
| Ext4Fs.DescTableAfterSuperblock | src/lib.rs:97-105 | the descriptor table starts at the first block boundary after the block holding byte 1024, so no descriptor overlaps the superblock |
| Ext4Fs.GroupDescAt | src/lib.rs:94-113 | the descriptor read from the group's table slot; it fails only with a seek or read failure (GroupDescAtSlot states which bytes are read) |
| Ext4Fs.InodeAt | src/lib.rs:52-78 | the inode read from its group's inode-table slot, with 15 block pointers; it fails only with a seek or read failure (InodeAtSlot states which bytes are read) |
| Ext4Fs.GroupDescAtSlot | src/lib.rs:94-113 | a descriptor is read from 2048 + 32g with 1 KiB blocks and from block_size + 32g otherwise; the read succeeds exactly when those 32 bytes are in the image, and the descriptor is decoded from them |
| Ext4Fs.InodeAtSlot | src/lib.rs:52-78 | given the group's descriptor, the inode is read from table_block·block_size + local·inode_size; it succeeds exactly when those inode_size bytes are in the image, and the inode is decoded from them |
| Ext4Fs.IsDirectoryMode | src/lib.rs:132-133 | the test `mode & 0xF000 == 0x4000` accepts exactly the modes 0x4000..0x4FFF |
| Ext4Fs.ScanRecords | src/lib.rs:157-168 | the cursor scan yields at most one entry per byte of the block |
| Ext4Fs.ScanRecordsStep | src/lib.rs:161-165 | at a record that decodes, the cursor stays inside the block after the step, and the scan yields that entry followed by the scan from the next record |
| Ext4Fs.ScanRecordsInUse | src/lib.rs:157-168 | no scanned entry is an unused slot (inode 0) |
| Ext4Fs.ScanEncodedRecords | src/lib.rs:157-168 | a block of well-formed records followed by slack that does not decode scans to exactly those entries, in order |
| Ext4Fs.ScanBlocks | src/lib.rs:144-169 | the listing of the blocks the pointers name, in pointer order; it fails only with a seek or read failure (ScanBlocksStep, ScanBlocksPrefix and ScanBlocksSkipsZeros state the rest) |
| Ext4Fs.BlockEntries | src/lib.rs:150-168 | the entries of one directory block, read whole at ptr·block_size; it fails only with a seek or read failure |
| Ext4Fs.ScanBlocksStep | src/lib.rs:144-168 | one more pointer adds nothing when it is zero, otherwise adds the failure or the entries of its block |
| Ext4Fs.ScanBlocksPrefix | src/lib.rs:144-168 | a failed read among the first blocks is the result of the whole listing, and a successful listing extends the listing of every prefix of the pointers |
| Ext4Fs.ScanBlocksSkipsZeros | src/lib.rs:146-148 | scanning all 15 pointers equals scanning only the nonzero ones, so a zero pointer's block never matters |
| Ext4Fs.ScanBlocksInUse | src/lib.rs:141-171 | every entry of a successful listing has a nonzero inode |
| Ext4Fs.ListDir | src/lib.rs:128-172 | read_dir as a function: it fails only with a seek or read failure or with NotADirectory for the inode asked for (ListDirOutcome states when) |
| Ext4Fs.ListDirOutcome | src/lib.rs:128-138 | a readable inode whose type bits are not directory lists as NotADirectory with no entries; a successful listing comes from a directory inode and holds only used slots |
| Ext4Fs.FileSystem.Open | src/lib.rs:32-43 | opening succeeds exactly when the image holds bytes 1024..2048; the superblock is decoded from those bytes, and a shorter image is a short read of them |
| Ext4Fs.FileSystem.ReadGroupDesc | src/lib.rs:94-113 | returns the descriptor at the group's table slot, or the read's failure (GroupDescAt) |
| Ext4Fs.FileSystem.ReadInode | src/lib.rs:52-78 | returns the inode at its group's inode-table slot, or the first failing read (InodeAt) |
| Ext4Fs.FileSystem.ReadDir | src/lib.rs:128-172 | the nested loops return the listing ListDir: NotADirectory for a non-directory, the first failing block read, or the entries of every nonzero block in pointer order |
| Ext4Fs.FileSystem.ScanBlock | src/lib.rs:157-168 | the cursor loop over one block collects exactly ScanRecords of the block |

## Left out

- The `File` handle and its seek position are not modelled. The device
  is an immutable byte sequence read at explicit offsets, and no other
  writer changes it.
- `io::ErrorKind` and OS error details are collapsed into three kinds:
  `ShortRead`, `InvalidSeek` and `NotADirectory`.
- `src/main.rs` is not modelled. It is the command-line front end and
  does only argument handling and printing.
- The `Display` implementations (`src/superblock.rs:123-136`,
  `src/dir.rs:120-128`) are not modelled. They only format text.
- `FileSystem::summary` (`src/lib.rs:83-85`) is not modelled. It calls a
  `Superblock::summary` that the source does not define.
- `String::from_utf8_lossy` is not modelled. Names and the volume label
  are kept as raw bytes, with no UTF-8 replacement characters.
- Extents, indirect blocks, path resolution and file reading are not
  modelled because the source does not implement them. The 15 pointers
  are read as direct block numbers.
- Ext4Fs.InodeLocation: release builds wrap `inode_num - 1` for inode 0
  and mask the shift count of `block_size`. The model follows debug
  builds, where both panic, and states them as preconditions.
- Ext4Fs.FileSystem.ReadInode: requires `inode_size >= 100` up front. The
  source panics on a smaller inode only after both of its reads succeed,
  so the model does not capture the I/O error such an inode would report
  first.
- Ext4Fs.FileSystem.ReadDir: has the same `inode_size >= 100`
  precondition as ReadInode.
- Ext4Fs.FileSystem.ScanBlock: this is read_dir's inner `while` loop as
  its own method. Where the source `break`s out of the cursor loop, the
  method returns, and `ReadDir` goes on to the next pointer.
- Ext4Fs.IsDirectoryMode: `mode & 0xF000` is written arithmetically as
  the mode minus its low 12 bits. Its contract states the set of modes
  the test accepts.
