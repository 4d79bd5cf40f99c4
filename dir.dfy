/** Linear directory entries (`ext4_dir_entry_2`) and their decoder
    (src/dir.rs). Names are kept as raw bytes. */
module Dir {
  import opened Bytes
  import opened Results

  const InodeOffset: nat := 0
  const RecLenOffset: nat := 4
  const NameLenOffset: nat := 6
  const FileTypeOffset: nat := 7
  const NameOffset: nat := 8

  const FtRegFile: u8 := 1
  const FtDir: u8 := 2
  const FtChrdev: u8 := 3
  const FtBlkdev: u8 := 4
  const FtFifo: u8 := 5
  const FtSock: u8 := 6
  const FtSymlink: u8 := 7

  datatype DirectoryEntry = DirectoryEntry(inode: u32, name: seq<u8>, fileType: u8)
  {
    predicate IsDirectory() { fileType == FtDir }
    predicate IsFile() { fileType == FtRegFile }
    predicate IsSymlink() { fileType == FtSymlink }
    predicate IsCharDevice() { fileType == FtChrdev }
    predicate IsBlockDevice() { fileType == FtBlkdev }
    predicate IsFifo() { fileType == FtFifo }
    predicate IsSocket() { fileType == FtSock }

    /** How many of the seven type predicates hold. */
    function KindCount(): nat {
      (if IsDirectory() then 1 else 0) + (if IsFile() then 1 else 0)
      + (if IsSymlink() then 1 else 0) + (if IsCharDevice() then 1 else 0)
      + (if IsBlockDevice() then 1 else 0) + (if IsFifo() then 1 else 0)
      + (if IsSocket() then 1 else 0)
    }
  }

  /** The type predicates are mutually exclusive, and one holds exactly
      when the file type is one of the codes 1 to 7. */
  lemma KindsExclusive(e: DirectoryEntry)
    ensures e.KindCount() <= 1
    ensures e.KindCount() == 1 <==> 1 <= e.fileType <= 7
  {
  }

  /** The record at the start of `buf` and the number of bytes it
      occupies, or None for a short header, a zero inode (an unused slot),
      a zero record length, or a name or record running past `buf`. */
  function Parse(buf: seq<u8>): (r: Option<(DirectoryEntry, nat)>)
    ensures r.Some? ==> 1 <= r.value.1 <= |buf|
    ensures r.Some? ==> r.value.0.inode != 0
  {
    if |buf| < NameOffset then None
    else
      var inode := U32At(buf, InodeOffset);
      var recLen := U16At(buf, RecLenOffset);
      var nameLen := buf[NameLenOffset];
      var fileType := buf[FileTypeOffset];
      if inode == 0 || recLen == 0 || |buf| < NameOffset + nameLen || |buf| < recLen then None
      else Some((DirectoryEntry(inode, buf[NameOffset..NameOffset + nameLen], fileType), recLen))
  }

  /** Two buffers of the same length that agree on the header and on the
      name bytes the header announces decode alike: the rest of the record
      and whatever follows it do not matter. */
  lemma ParseFrame(b1: seq<u8>, b2: seq<u8>)
    requires |b1| == |b2| >= NameOffset && b1[..NameOffset] == b2[..NameOffset]
    requires NameOffset + b1[NameLenOffset] <= |b1| ==>
      b1[NameOffset..NameOffset + b1[NameLenOffset]] == b2[NameOffset..NameOffset + b1[NameLenOffset]]
    ensures Parse(b1) == Parse(b2)
  {
    assert forall i :: 0 <= i < NameOffset ==> b1[i] == b1[..NameOffset][i] && b2[i] == b2[..NameOffset][i];
    LeAtFrame(b1, b2, InodeOffset, 4);
    LeAtFrame(b1, b2, RecLenOffset, 2);
  }

  /** The conditions under which a record is rejected, and where the
      fields of an accepted one come from. */
  lemma ParseCases(buf: seq<u8>)
    ensures |buf| < NameOffset ==> Parse(buf) == None
    ensures |buf| >= NameOffset ==>
      (Parse(buf).Some? <==>
        && U32At(buf, InodeOffset) != 0
        && U16At(buf, RecLenOffset) != 0
        && |buf| >= NameOffset + buf[NameLenOffset]
        && |buf| >= U16At(buf, RecLenOffset))
    ensures Parse(buf).Some? ==>
      && Parse(buf).value.0.inode == U32At(buf, InodeOffset)
      && Parse(buf).value.0.fileType == buf[FileTypeOffset]
      && Parse(buf).value.0.name == buf[NameOffset..NameOffset + buf[NameLenOffset]]
      && Parse(buf).value.1 == U16At(buf, RecLenOffset)
      && NameOffset + |Parse(buf).value.0.name| <= |buf|
  {
  }

  /** The record length is not checked against header plus name: a record
      of 8 bytes whose 3-byte name lies beyond it still decodes. */
  lemma ShortRecordAccepted()
    ensures Parse([5, 0, 0, 0, 8, 0, 3, 1, 0x61, 0x62, 0x63])
         == Some((DirectoryEntry(5, [0x61, 0x62, 0x63], FtRegFile), 8))
  {
    var buf: seq<u8> := [5, 0, 0, 0, 8, 0, 3, 1, 0x61, 0x62, 0x63];
    assert buf[0..4] == [5, 0, 0, 0] && LeValue([5, 0, 0, 0]) == 5;
    assert buf[4..6] == [8, 0] && LeValue([8, 0]) == 8;
    assert buf[8..11] == [0x61, 0x62, 0x63];
  }

  /** A well-formed record: a used slot whose length covers header and
      name and fits the 16-bit field. */
  predicate WellFormed(e: DirectoryEntry, recLen: nat) {
    e.inode != 0 && |e.name| < 0x100 && NameOffset + |e.name| <= recLen < 0x1_0000
  }

  /** The `recLen` bytes of a record for `e`, padded with zeros after the name. */
  function Encode(e: DirectoryEntry, recLen: nat): (bs: seq<u8>)
    requires WellFormed(e, recLen)
    ensures |bs| == recLen
  {
    LeBytes(e.inode, 4) + LeBytes(recLen, 2) + [|e.name| as u8, e.fileType]
    + e.name + Zeros(recLen - NameOffset - |e.name|)
  }

  /** An encoded record decodes to the same entry and consumes exactly its
      record length, whatever follows it in the block. */
  lemma ParseEncode(e: DirectoryEntry, recLen: nat, rest: seq<u8>)
    requires WellFormed(e, recLen)
    ensures Parse(Encode(e, recLen) + rest) == Some((e, recLen))
  {
    var buf := Encode(e, recLen) + rest;
    LeAtOfBytes(buf, InodeOffset, e.inode, 4);
    LeAtOfBytes(buf, RecLenOffset, recLen, 2);
    assert buf[NameLenOffset] == |e.name|;
    assert buf[NameOffset..NameOffset + |e.name|] == e.name;
  }
}
