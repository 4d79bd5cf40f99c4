/** The read path of the driver (src/lib.rs): the superblock read at open,
    inode number to block group and inode-table slot, group number to
    descriptor slot, and the linear scan of a directory's blocks.

    The image is an immutable byte sequence; every read is a positioned
    `Image.ReadBlock`, so the device's seek position needs no model. */
module Ext4Fs {
  import opened Bytes
  import opened Results
  import opened Image
  import Superblocks
  import Groups
  import Inodes
  import Dir

  type Superblock = Superblocks.Superblock
  type GroupDescriptor = Groups.GroupDescriptor
  type Inode = Inodes.Inode
  type DirectoryEntry = Dir.DirectoryEntry

  /** The superblock always sits at byte 1024 and is read as 1024 bytes. */
  const SuperblockOffset: nat := 1024
  const SuperblockSize: nat := 1024
  const DescriptorSize: nat := 32

  /** Superblock values for which reading an inode cannot panic: inode
      numbers are divided by the group size, the block size is a 32-bit
      shift, and a whole inode record (100 bytes) is decoded. */
  predicate SoundGeometry(sb: Superblock) {
    && sb.inodesPerGroup > 0
    && sb.logBlockSize < 32
    && sb.inodeSize >= Inodes.MinLength
  }

  // ---------------------------------------------------------------------
  // Index arithmetic

  /** The block group of inode `inodeNum` (numbered from 1) and its index
      within that group's inode table. */
  function InodeLocation(inodeNum: u32, inodesPerGroup: u32): (loc: (u32, u32))
    requires inodeNum >= 1 && inodesPerGroup > 0
    ensures loc.0 * inodesPerGroup + loc.1 == inodeNum - 1
    ensures loc.1 < inodesPerGroup
  {
    ((inodeNum - 1) / inodesPerGroup, (inodeNum - 1) % inodesPerGroup)
  }

  /** The (group, index) decomposition is the only one with an index
      below the group size. */
  lemma InodeLocationUnique(inodeNum: u32, inodesPerGroup: u32, group: nat, local: nat)
    requires inodeNum >= 1 && inodesPerGroup > 0
    requires local < inodesPerGroup && group * inodesPerGroup + local == inodeNum - 1
    ensures InodeLocation(inodeNum, inodesPerGroup) == (group, local)
  {
    var (g, l) := InodeLocation(inodeNum, inodesPerGroup);
    if g > group {
      MulLeft(g - group, 1, inodesPerGroup);
      assert false;
    } else if g < group {
      MulLeft(group - g, 1, inodesPerGroup);
      assert false;
    }
  }

  lemma InodeLocationExample()
    ensures InodeLocation(130, 128) == (1, 1)
  {
  }

  lemma MulLeft(a: nat, b: nat, c: nat)
    requires a >= b
    ensures a * c >= b * c
  {
  }

  lemma MulBound(a: nat, b: nat, bigA: nat, bigB: nat)
    requires a <= bigA && b <= bigB
    ensures a * b <= bigA * bigB
  {
    MulLeft(bigA, a, b);
    MulLeft(bigB, b, bigA);
  }

  /** Byte offset of the inode-table slot `local` of a table starting at
      block `tableBlock`. */
  function InodeSlotOffset(tableBlock: u32, blockSize: u32, local: u32, inodeSize: u16): nat {
    tableBlock * blockSize + local * inodeSize
  }

  /** With a block size the 32-bit shift can produce (at most 2 GiB), the
      64-bit offset arithmetic of the source never wraps. */
  lemma InodeOffsetFitsU64(tableBlock: u32, blockSize: u32, local: u32, inodeSize: u16)
    requires blockSize <= 0x8000_0000
    ensures InodeSlotOffset(tableBlock, blockSize, local, inodeSize) < 0x1_0000_0000_0000_0000
  {
    MulBound(tableBlock, blockSize, 0xFFFF_FFFF, 0x8000_0000);
    MulBound(local, inodeSize, 0xFFFF_FFFF, 0xFFFF);
  }

  /** Start of the group-descriptor table: block 2 for 1 KiB blocks
      (the superblock fills block 1), block 1 otherwise. */
  function DescTableOffset(blockSize: u32): nat {
    if blockSize == 1024 then 2048 else blockSize
  }

  function DescOffset(blockSize: u32, group: u32): nat {
    DescTableOffset(blockSize) + group * DescriptorSize
  }

  /** For every block size the 32-bit shift yields exactly (1 KiB to
      2 GiB), the table starts at the first block boundary after the block
      that holds the start of the superblock, so no descriptor overlaps
      the superblock. */
  lemma DescTableAfterSuperblock(sb: Superblock, group: u32)
    requires sb.logBlockSize <= 21
    ensures var bs := sb.BlockSize();
      && DescTableOffset(bs) == (SuperblockOffset / bs + 1) * bs
      && DescOffset(bs, group) >= SuperblockOffset + SuperblockSize
  {
    var bs := sb.BlockSize();
    if sb.logBlockSize != 0 {
      Pow2Monotonic(1, sb.logBlockSize);
    }
    DescTableStart(bs);
  }

  lemma DescTableStart(bs: u32)
    requires bs == 1024 || bs >= 2048
    ensures DescTableOffset(bs) == (SuperblockOffset / bs + 1) * bs
    ensures DescTableOffset(bs) >= SuperblockOffset + SuperblockSize
  {
    if bs != 1024 {
      DivBelow(SuperblockOffset, bs);
    }
  }

  lemma DivBelow(a: nat, b: nat)
    requires a < b
    ensures a / b == 0
  {
  }

  // ---------------------------------------------------------------------
  // What the readers return

  /** The descriptor of group `group`: 32 bytes at its table slot. */
  function GroupDescAt(device: seq<u8>, sb: Superblock, group: u32): (r: Result<GroupDescriptor>)
    requires sb.logBlockSize < 32
    ensures r.Err? ==> r.error.IsReadFailure()
  {
    var buf :- ReadBlock(device, DescOffset(sb.BlockSize(), group), DescriptorSize);
    Ok(Groups.Parse(buf))
  }

  /** Inode `inodeNum`: `inodeSize` bytes at its slot of its group's table. */
  function InodeAt(device: seq<u8>, sb: Superblock, inodeNum: u32): (r: Result<Inode>)
    requires inodeNum >= 1 && SoundGeometry(sb)
    ensures r.Err? ==> r.error.IsReadFailure()
    ensures r.Ok? ==> |r.value.block| == Inodes.BlockPointerCount
  {
    var loc := InodeLocation(inodeNum, sb.inodesPerGroup);
    var gd :- GroupDescAt(device, sb, loc.0);
    var buf :- ReadBlock(device, InodeSlotOffset(gd.inodeTableBlock, sb.BlockSize(), loc.1, sb.inodeSize), sb.inodeSize);
    Ok(Inodes.Decode(buf))
  }

  /** Exactly 32 bytes are read, at 2048 + 32 g for 1 KiB blocks and at
      block_size + 32 g otherwise. */
  lemma GroupDescAtSlot(device: seq<u8>, sb: Superblock, group: u32)
    requires sb.logBlockSize < 32
    ensures var off := (if sb.BlockSize() == 1024 then 2048 else sb.BlockSize()) + 32 * group;
      && (GroupDescAt(device, sb, group).Ok? <==> off < SeekLimit && off + 32 <= |device|)
      && (GroupDescAt(device, sb, group).Ok? ==>
            GroupDescAt(device, sb, group).value == Groups.Parse(device[off..off + 32]))
  {
  }

  /** Given the group's descriptor, exactly `inodeSize` bytes are read,
      at table_block * block_size + local * inode_size. */
  lemma InodeAtSlot(device: seq<u8>, sb: Superblock, inodeNum: u32, gd: GroupDescriptor)
    requires inodeNum >= 1 && SoundGeometry(sb)
    requires GroupDescAt(device, sb, InodeLocation(inodeNum, sb.inodesPerGroup).0) == Ok(gd)
    ensures var local := InodeLocation(inodeNum, sb.inodesPerGroup).1;
      var off := gd.inodeTableBlock * sb.BlockSize() + local * sb.inodeSize;
      && (InodeAt(device, sb, inodeNum).Ok? <==> off < SeekLimit && off + sb.inodeSize <= |device|)
      && (InodeAt(device, sb, inodeNum).Ok? ==>
            InodeAt(device, sb, inodeNum).value == Inodes.Decode(device[off..off + sb.inodeSize]))
  {
  }

  // ---------------------------------------------------------------------
  // Directory scan

  /** `mode & 0xF000`: the file-type bits of a 16-bit mode, i.e. the mode
      with its 12 permission bits cleared. */
  function TypeBits(mode: u16): u16 {
    mode - mode % 0x1000
  }

  /** Whether the type bits of `mode` say directory (0x4000). The mask
      test accepts exactly the modes 0x4000 to 0x4FFF: type nibble 4 with
      any permission bits. */
  predicate IsDirectoryMode(mode: u16)
    ensures IsDirectoryMode(mode) <==> 0x4000 <= mode < 0x5000
  {
    TypeBits(mode) == 0x4000
  }

  /** The entries of the bytes of a directory block that remain ahead of
      the scan cursor: records are decoded one after another, each moving
      the cursor on by its record length, until the block ends or a record
      does not decode. */
  function ScanRecords(rest: seq<u8>): (es: seq<DirectoryEntry>)
    ensures |es| <= |rest|
    decreases |rest|
  {
    if rest == [] then []
    else
      match Dir.Parse(rest)
      case None => []
      case Some((entry, recLen)) => [entry] + ScanRecords(rest[recLen..])
  }

  /** Unused slots (inode 0) never show up in a scan: the scan stops at
      the first one. */
  lemma {:induction false} ScanRecordsInUse(rest: seq<u8>)
    ensures forall k :: 0 <= k < |ScanRecords(rest)| ==> ScanRecords(rest)[k].inode != 0
    decreases |rest|
  {
    if rest != [] && Dir.Parse(rest).Some? {
      var (entry, recLen) := Dir.Parse(rest).value;
      ScanRecordsInUse(rest[recLen..]);
    }
  }

  /** Scanning from a cursor at a record that decodes yields that record's
      entry, then whatever the scan from the next record yields. */
  lemma ScanRecordsStep(buf: seq<u8>, cursor: nat, entry: DirectoryEntry, recLen: nat)
    requires cursor < |buf| && Dir.Parse(buf[cursor..]) == Some((entry, recLen))
    ensures cursor + recLen <= |buf|
    ensures ScanRecords(buf[cursor..]) == [entry] + ScanRecords(buf[cursor + recLen..])
  {
    assert buf[cursor..][recLen..] == buf[cursor + recLen..];
  }

  /** The invariant of the cursor loop survives one decoded record. */
  lemma ScanRecordsAdvance(buf: seq<u8>, cursor: nat, found: seq<DirectoryEntry>, entry: DirectoryEntry, recLen: nat,
                           total: seq<DirectoryEntry>)
    requires cursor < |buf| && Dir.Parse(buf[cursor..]) == Some((entry, recLen))
    requires found + ScanRecords(buf[cursor..]) == total
    ensures cursor + recLen <= |buf|
    ensures (found + [entry]) + ScanRecords(buf[cursor + recLen..]) == total
  {
    ScanRecordsStep(buf, cursor, entry, recLen);
    AppendAssoc(found, [entry], ScanRecords(buf[cursor + recLen..]));
  }

  /** The loop stops with nothing left to scan: at the end of the block,
      or at a record that does not decode. */
  lemma ScanRecordsStop(buf: seq<u8>, cursor: nat, found: seq<DirectoryEntry>, total: seq<DirectoryEntry>)
    requires cursor <= |buf| && (cursor == |buf| || Dir.Parse(buf[cursor..]).None?)
    requires found + ScanRecords(buf[cursor..]) == total
    ensures found == total
  {
    assert ScanRecords(buf[cursor..]) == [];
    assert found + [] == found;
  }

  lemma AppendAssoc<T>(a: seq<T>, b: seq<T>, c: seq<T>)
    ensures a + (b + c) == (a + b) + c
  {
  }

  /** The records laid out one after another. */
  function EncodeRecords(records: seq<(DirectoryEntry, nat)>): (bs: seq<u8>)
    requires forall k :: 0 <= k < |records| ==> Dir.WellFormed(records[k].0, records[k].1)
  {
    if records == [] then [] else Dir.Encode(records[0].0, records[0].1) + EncodeRecords(records[1..])
  }

  function EntriesOf(records: seq<(DirectoryEntry, nat)>): (es: seq<DirectoryEntry>)
    ensures |es| == |records|
  {
    if records == [] then [] else [records[0].0] + EntriesOf(records[1..])
  }

  /** A block made of well-formed records, followed by slack that does not
      decode (nothing, a short tail or a zero inode), scans to exactly
      those records' entries, in order. */
  lemma {:induction false} ScanEncodedRecords(records: seq<(DirectoryEntry, nat)>, slack: seq<u8>)
    requires forall k :: 0 <= k < |records| ==> Dir.WellFormed(records[k].0, records[k].1)
    requires Dir.Parse(slack).None?
    ensures ScanRecords(EncodeRecords(records) + slack) == EntriesOf(records)
  {
    if records == [] {
      assert EncodeRecords(records) + slack == slack;
    } else {
      var rest := records[1..];
      assert forall k :: 0 <= k < |rest| ==> Dir.WellFormed(rest[k].0, rest[k].1);
      EncodeRecordsCons(records, slack);
      ScanAfterRecord(records[0].0, records[0].1, EncodeRecords(rest) + slack);
      ScanEncodedRecords(rest, slack);
    }
  }

  lemma EncodeRecordsCons(records: seq<(DirectoryEntry, nat)>, slack: seq<u8>)
    requires records != []
    requires forall k :: 0 <= k < |records| ==> Dir.WellFormed(records[k].0, records[k].1)
    ensures EncodeRecords(records) + slack
         == Dir.Encode(records[0].0, records[0].1) + (EncodeRecords(records[1..]) + slack)
  {
    var rest := records[1..];
    assert forall k :: 0 <= k < |rest| ==> Dir.WellFormed(rest[k].0, rest[k].1);
    AppendAssoc(Dir.Encode(records[0].0, records[0].1), EncodeRecords(rest), slack);
  }

  /** One encoded record contributes its entry and the scan resumes right
      after it. */
  lemma ScanAfterRecord(entry: DirectoryEntry, recLen: nat, tail: seq<u8>)
    requires Dir.WellFormed(entry, recLen)
    ensures ScanRecords(Dir.Encode(entry, recLen) + tail) == [entry] + ScanRecords(tail)
  {
    var buf := Dir.Encode(entry, recLen) + tail;
    Dir.ParseEncode(entry, recLen, tail);
    assert buf[recLen..] == tail;
  }

  /** The entries of the blocks `ptrs` points to, in pointer order; zero
      pointers are skipped without a read, and the first failing read is
      the result. */
  function ScanBlocks(device: seq<u8>, blockSize: u32, ptrs: seq<u32>): (r: Result<seq<DirectoryEntry>>)
    ensures r.Err? ==> r.error.IsReadFailure()
    decreases |ptrs|
  {
    if ptrs == [] then Ok([])
    else
      var before :- ScanBlocks(device, blockSize, ptrs[..|ptrs| - 1]);
      var ptr := ptrs[|ptrs| - 1];
      if ptr == 0 then Ok(before)
      else
        var found :- BlockEntries(device, blockSize, ptr);
        Ok(before + found)
  }

  /** Byte offset of block `ptr`. */
  function BlockByteOffset(ptr: u32, blockSize: u32): nat {
    ptr * blockSize
  }

  /** The entries of directory block `ptr`: one block-sized read at its
      offset, scanned from byte 0. */
  function BlockEntries(device: seq<u8>, blockSize: u32, ptr: u32): (r: Result<seq<DirectoryEntry>>)
    ensures r.Err? ==> r.error.IsReadFailure()
  {
    var buf :- ReadBlock(device, BlockByteOffset(ptr, blockSize), blockSize);
    Ok(ScanRecords(buf))
  }

  /** One more pointer: nothing for a zero pointer, otherwise the failure
      or the entries of its block. */
  lemma ScanBlocksStep(device: seq<u8>, blockSize: u32, ptrs: seq<u32>, i: nat, entries: seq<DirectoryEntry>)
    requires i < |ptrs| && ScanBlocks(device, blockSize, ptrs[..i]) == Ok(entries)
    ensures ptrs[i] == 0 ==> ScanBlocks(device, blockSize, ptrs[..i + 1]) == Ok(entries)
    ensures ptrs[i] != 0 ==>
      ScanBlocks(device, blockSize, ptrs[..i + 1]) ==
        (match BlockEntries(device, blockSize, ptrs[i])
         case Err(e) => Err(e)
         case Ok(found) => Ok(entries + found))
  {
    assert ptrs[..i + 1][..i] == ptrs[..i];
  }

  /** A failure among the first `i` blocks is the failure of the whole
      scan; a successful scan extends the scan of every prefix. */
  lemma {:induction false} ScanBlocksPrefix(device: seq<u8>, blockSize: u32, ptrs: seq<u32>, i: nat)
    requires i <= |ptrs|
    ensures ScanBlocks(device, blockSize, ptrs[..i]).Err? ==>
      ScanBlocks(device, blockSize, ptrs) == ScanBlocks(device, blockSize, ptrs[..i])
    ensures ScanBlocks(device, blockSize, ptrs).Ok? ==>
      && ScanBlocks(device, blockSize, ptrs[..i]).Ok?
      && ScanBlocks(device, blockSize, ptrs[..i]).value <= ScanBlocks(device, blockSize, ptrs).value
    decreases |ptrs| - i
  {
    if i == |ptrs| {
      assert ptrs[..i] == ptrs;
    } else {
      var init := ptrs[..|ptrs| - 1];
      assert init[..i] == ptrs[..i];
      ScanBlocksPrefix(device, blockSize, init, i);
    }
  }

  /** The nonzero pointers, in order. */
  function NonZero(ptrs: seq<u32>): (r: seq<u32>)
    ensures forall k :: 0 <= k < |r| ==> r[k] != 0
  {
    if ptrs == [] then []
    else NonZero(ptrs[..|ptrs| - 1]) + (if ptrs[|ptrs| - 1] == 0 then [] else [ptrs[|ptrs| - 1]])
  }

  /** Zero pointers contribute nothing: scanning only the nonzero ones
      gives the same result. */
  lemma {:induction false} ScanBlocksSkipsZeros(device: seq<u8>, blockSize: u32, ptrs: seq<u32>)
    ensures ScanBlocks(device, blockSize, ptrs) == ScanBlocks(device, blockSize, NonZero(ptrs))
  {
    if ptrs != [] {
      var init := ptrs[..|ptrs| - 1];
      var ptr := ptrs[|ptrs| - 1];
      ScanBlocksSkipsZeros(device, blockSize, init);
      if ptr != 0 {
        var nz := NonZero(init) + [ptr];
        assert NonZero(ptrs) == nz;
        assert nz != [] && nz[..|nz| - 1] == NonZero(init) && nz[|nz| - 1] == ptr;
      } else {
        assert NonZero(ptrs) == NonZero(init);
      }
    }
  }

  /** Every entry a block scan returns is a used slot. */
  lemma {:induction false} ScanBlocksInUse(device: seq<u8>, blockSize: u32, ptrs: seq<u32>)
    ensures ScanBlocks(device, blockSize, ptrs).Ok? ==>
      forall k :: 0 <= k < |ScanBlocks(device, blockSize, ptrs).value| ==>
        ScanBlocks(device, blockSize, ptrs).value[k].inode != 0
  {
    if ptrs != [] {
      ScanBlocksInUse(device, blockSize, ptrs[..|ptrs| - 1]);
      var ptr := ptrs[|ptrs| - 1];
      var read := ReadBlock(device, BlockByteOffset(ptr, blockSize), blockSize);
      if ptr != 0 && read.Ok? {
        ScanRecordsInUse(read.value);
      }
    }
  }

  /** The listing of directory `inodeNum`: NotADirectory unless its type
      bits say directory, otherwise the scan of its 15 block pointers. */
  function ListDir(device: seq<u8>, sb: Superblock, inodeNum: u32): (r: Result<seq<DirectoryEntry>>)
    requires inodeNum >= 1 && SoundGeometry(sb)
    ensures r.Err? ==> r.error.IsReadFailure() || r.error == NotADirectory(inodeNum)
  {
    var inode :- InodeAt(device, sb, inodeNum);
    if !IsDirectoryMode(inode.mode) then Err(NotADirectory(inodeNum))
    else ScanBlocks(device, sb.BlockSize(), inode.block)
  }

  /** A readable inode that is not a directory lists as NotADirectory and
      yields no entries; a listing that succeeds holds only used slots. */
  lemma ListDirOutcome(device: seq<u8>, sb: Superblock, inodeNum: u32)
    requires inodeNum >= 1 && SoundGeometry(sb)
    ensures InodeAt(device, sb, inodeNum).Ok? && !IsDirectoryMode(InodeAt(device, sb, inodeNum).value.mode) ==>
      ListDir(device, sb, inodeNum) == Err(NotADirectory(inodeNum))
    ensures ListDir(device, sb, inodeNum).Ok? ==>
      && InodeAt(device, sb, inodeNum).Ok?
      && IsDirectoryMode(InodeAt(device, sb, inodeNum).value.mode)
      && forall k :: 0 <= k < |ListDir(device, sb, inodeNum).value| ==>
           ListDir(device, sb, inodeNum).value[k].inode != 0
  {
    var inode := InodeAt(device, sb, inodeNum);
    if inode.Ok? {
      ScanBlocksInUse(device, sb.BlockSize(), inode.value.block);
    }
  }

  // ---------------------------------------------------------------------
  // The filesystem handle

  class FileSystem {
    /** The image or device, read-only. */
    const device: seq<u8>
    /** Decoded once, when the image is opened. */
    const superblock: Superblock

    constructor (device: seq<u8>, superblockBytes: seq<u8>)
      requires |superblockBytes| >= Superblocks.MinLength
      ensures this.device == device && superblock == Superblocks.Parse(superblockBytes)
    {
      this.device := device;
      superblock := Superblocks.Parse(superblockBytes);
    }

    /** Reads the 1024 superblock bytes at offset 1024 and decodes them. */
    static method Open(device: seq<u8>) returns (r: Result<FileSystem>)
      ensures r.Ok? <==> |device| >= SuperblockOffset + SuperblockSize
      ensures r.Ok? ==> r.value.device == device
      ensures r.Ok? ==> r.value.superblock
                          == Superblocks.Parse(device[SuperblockOffset..SuperblockOffset + SuperblockSize])
      ensures r.Err? ==> r.error == ShortRead(SuperblockOffset, SuperblockSize)
    {
      var buf := ReadBlock(device, SuperblockOffset, SuperblockSize);
      if buf.Err? {
        return Err(buf.error);
      }
      var fs := new FileSystem(device, buf.value);
      return Ok(fs);
    }

    method ReadGroupDesc(group: u32) returns (r: Result<GroupDescriptor>)
      requires superblock.logBlockSize < 32
      ensures r == GroupDescAt(device, superblock, group)
    {
      var blockSize := superblock.BlockSize();
      var tableOffset := if blockSize == 1024 then 2048 else blockSize;
      var offset := tableOffset + group * DescriptorSize;
      var buf := ReadBlock(device, offset, DescriptorSize);
      if buf.Err? {
        return Err(buf.error);
      }
      return Ok(Groups.Parse(buf.value));
    }

    method ReadInode(inodeNum: u32) returns (r: Result<Inode>)
      requires inodeNum >= 1 && SoundGeometry(superblock)
      ensures r == InodeAt(device, superblock, inodeNum)
    {
      var blockSize := superblock.BlockSize();
      var inodeSize := superblock.inodeSize;
      var inodeIndex := inodeNum - 1;
      var groupIndex := inodeIndex / superblock.inodesPerGroup;
      var localIndex := inodeIndex % superblock.inodesPerGroup;
      assert (groupIndex, localIndex) == InodeLocation(inodeNum, superblock.inodesPerGroup);
      var group := ReadGroupDesc(groupIndex);
      if group.Err? {
        return Err(group.error);
      }
      var inodeOffset := InodeSlotOffset(group.value.inodeTableBlock, blockSize, localIndex, inodeSize);
      var buf := ReadBlock(device, inodeOffset, inodeSize);
      if buf.Err? {
        return Err(buf.error);
      }
      var inode := Inodes.Parse(buf.value);
      return Ok(inode);
    }

    /** Lists a directory: checks the type bits, then scans each nonzero
        block pointer's block with a cursor that advances record by record. */
    method ReadDir(inodeNum: u32) returns (r: Result<seq<DirectoryEntry>>)
      requires inodeNum >= 1 && SoundGeometry(superblock)
      ensures r == ListDir(device, superblock, inodeNum)
    {
      var read := ReadInode(inodeNum);
      if read.Err? {
        return Err(read.error);
      }
      var inode := read.value;
      if !IsDirectoryMode(inode.mode) {
        return Err(NotADirectory(inodeNum));
      }
      var blockSize := superblock.BlockSize();
      var entries: seq<DirectoryEntry> := [];
      for i := 0 to |inode.block|
        invariant ScanBlocks(device, blockSize, inode.block[..i]) == Ok(entries)
      {
        ScanBlocksStep(device, blockSize, inode.block, i, entries);
        var block := inode.block[i];
        if block == 0 {
          continue;
        }
        var blockRead := ReadBlock(device, BlockByteOffset(block, blockSize), blockSize);
        if blockRead.Err? {
          ScanBlocksPrefix(device, blockSize, inode.block, i + 1);
          return Err(blockRead.error);
        }
        var found := ScanBlock(blockRead.value);
        entries := entries + found;
      }
      assert inode.block[..|inode.block|] == inode.block;
      return Ok(entries);
    }

    /** The inner loop of the directory listing over one block: a cursor
        from 0 that moves on by each decoded record's length while it is
        inside the block, stopping at the first record that does not decode. */
    static method ScanBlock(buf: seq<u8>) returns (found: seq<DirectoryEntry>)
      ensures found == ScanRecords(buf)
    {
      found := [];
      var cursor := 0;
      ghost var total := ScanRecords(buf);
      assert buf[cursor..] == buf;
      while cursor < |buf|
        invariant cursor <= |buf|
        invariant found + ScanRecords(buf[cursor..]) == total
        decreases |buf| - cursor
      {
        var parsed := Dir.Parse(buf[cursor..]);
        if parsed.None? {
          ScanRecordsStop(buf, cursor, found, total);
          return;
        }
        var entry := parsed.value.0;
        var recLen := parsed.value.1;
        ScanRecordsAdvance(buf, cursor, found, entry, recLen, total);
        found := found + [entry];
        cursor := cursor + recLen;
      }
      ScanRecordsStop(buf, cursor, found, total);
    }
  }
}
