/** The ext4 superblock: the global parameters decoded once when the image
    is opened (src/superblock.rs). */
module Superblocks {
  import opened Bytes

  const InodesCountOffset: nat := 0x00
  const BlocksCountOffset: nat := 0x04
  const LogBlockSizeOffset: nat := 0x18
  const InodesPerGroupOffset: nat := 0x28
  const InodeSizeOffset: nat := 0x58
  const VolumeNameOffset: nat := 0x78
  const VolumeNameLength: nat := 16

  /** The shortest buffer `Parse` reads without failing: the volume name
      is the field that ends last. */
  const MinLength: nat := VolumeNameOffset + VolumeNameLength

  datatype Superblock = Superblock(
    inodesCount: u32,
    blocksCount: u32,
    logBlockSize: u32,
    inodesPerGroup: u32,
    inodeSize: u16,
    volumeName: seq<u8>)
  {
    /** `1024 << logBlockSize` computed in 32 bits: exact up to a shift of
        21 (2 GiB), zero from 22 on, where the set bit leaves the word.
        A shift of 32 or more overflows and is not allowed. */
    function BlockSize(): (r: u32)
      requires logBlockSize < 32
      ensures logBlockSize <= 21 ==> r == 1024 * Pow2(logBlockSize) && r >= 1024
      ensures logBlockSize >= 22 ==> r == 0
      ensures r <= 0x8000_0000
    {
      if logBlockSize <= 21 then
        ShiftFits(logBlockSize);
        (1024 * Pow2(logBlockSize)) % 0x1_0000_0000
      else
        ShiftOverflows(logBlockSize);
        (1024 * Pow2(logBlockSize)) % 0x1_0000_0000
    }
  }

  lemma ShiftFits(n: nat)
    requires n <= 21
    ensures 1024 <= 1024 * Pow2(n) <= 0x8000_0000
  {
    Pow2Monotonic(n, 21);
    Pow2At21And22();
  }

  lemma ShiftOverflows(n: nat)
    requires n >= 22
    ensures (1024 * Pow2(n)) % 0x1_0000_0000 == 0
  {
    var k := Pow2(n - 22);
    Pow2Add(22, n - 22);
    Pow2At21And22();
    assert Pow2(n) == 0x40_0000 * k;
    assert 1024 * Pow2(n) == 0x1_0000_0000 * k;
    WordMultiple(k);
  }

  /** A multiple of 2^32 has no bits left in the low 32-bit word. */
  lemma {:induction false} WordMultiple(k: nat)
    ensures (0x1_0000_0000 * k) % 0x1_0000_0000 == 0
  {
    if k > 0 {
      WordMultiple(k - 1);
      assert 0x1_0000_0000 * k == 0x1_0000_0000 * (k - 1) + 0x1_0000_0000;
    }
  }

  lemma BlockSizeExamples(sb: Superblock)
    requires sb.logBlockSize <= 2
    ensures sb.logBlockSize == 0 ==> sb.BlockSize() == 1024
    ensures sb.logBlockSize == 1 ==> sb.BlockSize() == 2048
    ensures sb.logBlockSize == 2 ==> sb.BlockSize() == 4096
  {
  }

  /** `s` with every trailing NUL byte removed. */
  function TrimTrailingNuls(s: seq<u8>): (r: seq<u8>)
    ensures |r| <= |s| && r == s[..|r|]
    ensures r != [] ==> r[|r| - 1] != 0
    ensures forall i :: |r| <= i < |s| ==> s[i] == 0
  {
    if s != [] && s[|s| - 1] == 0 then TrimTrailingNuls(s[..|s| - 1]) else s
  }

  /** The superblock fields stored in `buf`, the 1024 bytes read from
      offset 1024 of the image. */
  function Parse(buf: seq<u8>): (sb: Superblock)
    requires |buf| >= MinLength
    ensures |sb.volumeName| <= VolumeNameLength
    ensures sb.volumeName == buf[VolumeNameOffset..VolumeNameOffset + |sb.volumeName|]
    ensures sb.volumeName != [] ==> sb.volumeName[|sb.volumeName| - 1] != 0
    ensures forall i :: VolumeNameOffset + |sb.volumeName| <= i < MinLength ==> buf[i] == 0
  {
    Superblock(
      U32At(buf, InodesCountOffset),
      U32At(buf, BlocksCountOffset),
      U32At(buf, LogBlockSizeOffset),
      U32At(buf, InodesPerGroupOffset),
      U16At(buf, InodeSizeOffset),
      TrimTrailingNuls(buf[VolumeNameOffset..VolumeNameOffset + VolumeNameLength]))
  }

  /** Whether byte `i` of a superblock belongs to a field `Parse` decodes. */
  predicate InDecodedField(i: nat) {
    || InodesCountOffset <= i < BlocksCountOffset + 4
    || LogBlockSizeOffset <= i < LogBlockSizeOffset + 4
    || InodesPerGroupOffset <= i < InodesPerGroupOffset + 4
    || InodeSizeOffset <= i < InodeSizeOffset + 2
    || VolumeNameOffset <= i < VolumeNameOffset + VolumeNameLength
  }

  /** Bytes outside the six decoded fields do not affect the result. */
  lemma ParseFrame(b1: seq<u8>, b2: seq<u8>)
    requires |b1| >= MinLength && |b2| >= MinLength
    requires forall i :: 0 <= i < MinLength && InDecodedField(i) ==> b1[i] == b2[i]
    ensures Parse(b1) == Parse(b2)
  {
    LeAtFrame(b1, b2, InodesCountOffset, 4);
    LeAtFrame(b1, b2, BlocksCountOffset, 4);
    LeAtFrame(b1, b2, LogBlockSizeOffset, 4);
    LeAtFrame(b1, b2, InodesPerGroupOffset, 4);
    LeAtFrame(b1, b2, InodeSizeOffset, 2);
    assert b1[VolumeNameOffset..MinLength] == b2[VolumeNameOffset..MinLength];
  }

  /** A 1024-byte superblock region holding `sb`'s fields and zeros
      elsewhere; the name is NUL-padded to 16 bytes. */
  function Encode(sb: Superblock): (buf: seq<u8>)
    requires |sb.volumeName| <= VolumeNameLength
    ensures |buf| == 1024
  {
    var b0 := Zeros(1024);
    var b1 := Put(b0, InodesCountOffset, LeBytes(sb.inodesCount, 4));
    var b2 := Put(b1, BlocksCountOffset, LeBytes(sb.blocksCount, 4));
    var b3 := Put(b2, LogBlockSizeOffset, LeBytes(sb.logBlockSize, 4));
    var b4 := Put(b3, InodesPerGroupOffset, LeBytes(sb.inodesPerGroup, 4));
    var b5 := Put(b4, InodeSizeOffset, LeBytes(sb.inodeSize, 2));
    Put(b5, VolumeNameOffset, sb.volumeName + Zeros(VolumeNameLength - |sb.volumeName|))
  }

  /** Writing a superblock and parsing it back gives the same superblock,
      provided its name has no trailing NUL (those are trimmed away). */
  lemma ParseEncode(sb: Superblock)
    requires |sb.volumeName| <= VolumeNameLength
    requires sb.volumeName != [] ==> sb.volumeName[|sb.volumeName| - 1] != 0
    ensures Parse(Encode(sb)) == sb
  {
    EncodeCounts(sb);
    EncodeGeometry(sb);
    var name := sb.volumeName;
    assert Encode(sb)[VolumeNameOffset..MinLength] == name + Zeros(VolumeNameLength - |name|);
    TrimPadded(name, VolumeNameLength - |name|);
  }

  lemma EncodeCounts(sb: Superblock)
    requires |sb.volumeName| <= VolumeNameLength
    ensures U32At(Encode(sb), InodesCountOffset) == sb.inodesCount
    ensures U32At(Encode(sb), BlocksCountOffset) == sb.blocksCount
  {
    LeAtOfBytes(Encode(sb), InodesCountOffset, sb.inodesCount, 4);
    LeAtOfBytes(Encode(sb), BlocksCountOffset, sb.blocksCount, 4);
  }

  lemma EncodeGeometry(sb: Superblock)
    requires |sb.volumeName| <= VolumeNameLength
    ensures U32At(Encode(sb), LogBlockSizeOffset) == sb.logBlockSize
    ensures U32At(Encode(sb), InodesPerGroupOffset) == sb.inodesPerGroup
    ensures U16At(Encode(sb), InodeSizeOffset) == sb.inodeSize
  {
    LeAtOfBytes(Encode(sb), LogBlockSizeOffset, sb.logBlockSize, 4);
    LeAtOfBytes(Encode(sb), InodesPerGroupOffset, sb.inodesPerGroup, 4);
    LeAtOfBytes(Encode(sb), InodeSizeOffset, sb.inodeSize, 2);
  }

  /** Trimming a NUL-padded name that ends in a non-NUL byte gives the name. */
  lemma {:induction false} TrimPadded(name: seq<u8>, pad: nat)
    requires name != [] ==> name[|name| - 1] != 0
    ensures TrimTrailingNuls(name + Zeros(pad)) == name
  {
    if pad > 0 {
      assert (name + Zeros(pad))[..|name| + pad - 1] == name + Zeros(pad - 1);
      TrimPadded(name, pad - 1);
    } else {
      assert name + Zeros(0) == name;
    }
  }
}
