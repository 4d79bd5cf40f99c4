/** One block-group descriptor: only the location of the group's inode
    table is decoded (src/group.rs). */
module Groups {
  import opened Bytes

  const InodeTableBlockOffset: nat := 0x08

  /** The shortest buffer `Parse` reads without failing. */
  const MinLength: nat := InodeTableBlockOffset + 4

  datatype GroupDescriptor = GroupDescriptor(inodeTableBlock: u32)

  /** The descriptor stored in `buf`: the inode-table block is the
      number whose little-endian encoding is bytes 8..12. */
  function Parse(buf: seq<u8>): (gd: GroupDescriptor)
    requires |buf| >= MinLength
    ensures LeBytes(gd.inodeTableBlock, 4) == buf[InodeTableBlockOffset..MinLength]
  {
    GroupDescriptor(U32At(buf, InodeTableBlockOffset))
  }

  /** No byte outside 8..12 affects the result. */
  lemma ParseFrame(b1: seq<u8>, b2: seq<u8>)
    requires |b1| >= MinLength && |b2| >= MinLength
    requires b1[InodeTableBlockOffset..MinLength] == b2[InodeTableBlockOffset..MinLength]
    ensures Parse(b1) == Parse(b2)
  {
  }

  /** Writing a block number at offset 8 of any descriptor and parsing it
      gives the number back. */
  lemma ParsePut(buf: seq<u8>, tableBlock: u32)
    requires |buf| >= MinLength
    ensures Parse(Put(buf, InodeTableBlockOffset, LeBytes(tableBlock, 4))).inodeTableBlock == tableBlock
  {
    var written := Put(buf, InodeTableBlockOffset, LeBytes(tableBlock, 4));
    LeAtOfBytes(written, InodeTableBlockOffset, tableBlock, 4);
  }
}
