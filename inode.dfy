/** An inode as the driver decodes it: mode, low 32 bits of the size and
    the 15 raw block pointers of the i_block area (src/inode.rs). */
module Inodes {
  import opened Bytes

  const ModeOffset: nat := 0x00
  const SizeOffset: nat := 0x04
  const BlockOffset: nat := 0x28
  const BlockPointerCount: nat := 15

  /** The shortest buffer `Parse` reads without failing: the last block
      pointer ends at byte 100. */
  const MinLength: nat := BlockOffset + 4 * BlockPointerCount

  /** `block` holds 12 direct pointers and the single, double and triple
      indirect ones, none of them followed. */
  datatype Inode = Inode(mode: u16, size: u32, block: seq<u32>)

  /** The inode stored in `buf`, field by field. */
  function Decode(buf: seq<u8>): (inode: Inode)
    requires |buf| >= MinLength
    ensures |inode.block| == BlockPointerCount
  {
    Inode(
      U16At(buf, ModeOffset),
      U32At(buf, SizeOffset),
      seq(BlockPointerCount, i requires 0 <= i < BlockPointerCount => U32At(buf, BlockOffset + 4 * i)))
  }

  /** Reads mode and size, then the block pointers one after another,
      advancing a cursor four bytes per pointer. */
  method Parse(buf: seq<u8>) returns (inode: Inode)
    requires |buf| >= MinLength
    ensures inode == Decode(buf)
  {
    var mode := U16At(buf, ModeOffset);
    var size := U32At(buf, SizeOffset);
    var block := new u32[BlockPointerCount];
    var pos := BlockOffset;
    for i := 0 to BlockPointerCount
      invariant pos == BlockOffset + 4 * i
      invariant forall j :: 0 <= j < i ==> block[j] == U32At(buf, BlockOffset + 4 * j)
    {
      block[i] := U32At(buf, pos);
      pos := pos + 4;
    }
    inode := Inode(mode, size, block[..]);
  }

  /** Whether byte `i` of an inode belongs to a field `Decode` reads. */
  predicate InDecodedField(i: nat) {
    || ModeOffset <= i < ModeOffset + 2
    || SizeOffset <= i < SizeOffset + 4
    || BlockOffset <= i < MinLength
  }

  /** Bytes 2..4, 8..0x28 and from 100 on do not affect the result. */
  lemma DecodeFrame(b1: seq<u8>, b2: seq<u8>)
    requires |b1| >= MinLength && |b2| >= MinLength
    requires forall i :: 0 <= i < MinLength && InDecodedField(i) ==> b1[i] == b2[i]
    ensures Decode(b1) == Decode(b2)
  {
    LeAtFrame(b1, b2, ModeOffset, 2);
    LeAtFrame(b1, b2, SizeOffset, 4);
    forall k | 0 <= k < BlockPointerCount
      ensures U32At(b1, BlockOffset + 4 * k) == U32At(b2, BlockOffset + 4 * k)
    {
      LeAtFrame(b1, b2, BlockOffset + 4 * k, 4);
    }
  }

  /** The pointers laid out one after another, four bytes each. */
  function PointerBytes(ptrs: seq<u32>): (r: seq<u8>)
    ensures |r| == 4 * |ptrs|
  {
    if ptrs == [] then [] else LeBytes(ptrs[0], 4) + PointerBytes(ptrs[1..])
  }

  lemma {:induction false} PointerBytesAt(ptrs: seq<u32>, k: nat)
    requires k < |ptrs|
    ensures PointerBytes(ptrs)[4 * k..4 * k + 4] == LeBytes(ptrs[k], 4)
  {
    if k > 0 {
      PointerBytesAt(ptrs[1..], k - 1);
      assert PointerBytes(ptrs)[4 * k..4 * k + 4] == PointerBytes(ptrs[1..])[4 * (k - 1)..4 * (k - 1) + 4];
    }
  }

  /** A 100-byte inode holding `inode`'s fields and zeros elsewhere. */
  function Encode(inode: Inode): (buf: seq<u8>)
    requires |inode.block| == BlockPointerCount
    ensures |buf| == MinLength
  {
    var head := Put(Put(Zeros(BlockOffset), ModeOffset, LeBytes(inode.mode, 2)), SizeOffset, LeBytes(inode.size, 4));
    head + PointerBytes(inode.block)
  }

  /** Encoding mode, size and 15 pointers and decoding gives them back. */
  lemma DecodeEncode(inode: Inode)
    requires |inode.block| == BlockPointerCount
    ensures Decode(Encode(inode)) == inode
  {
    var buf := Encode(inode);
    LeAtOfBytes(buf, ModeOffset, inode.mode, 2);
    LeAtOfBytes(buf, SizeOffset, inode.size, 4);
    forall k | 0 <= k < BlockPointerCount
      ensures U32At(buf, BlockOffset + 4 * k) == inode.block[k]
    {
      EncodePointer(inode, k);
    }
    assert Decode(buf).block == inode.block;
  }

  lemma EncodePointer(inode: Inode, k: nat)
    requires |inode.block| == BlockPointerCount && k < BlockPointerCount
    ensures U32At(Encode(inode), BlockOffset + 4 * k) == inode.block[k]
  {
    var buf := Encode(inode);
    PointerBytesAt(inode.block, k);
    assert buf[BlockOffset + 4 * k..BlockOffset + 4 * k + 4] == PointerBytes(inode.block)[4 * k..4 * k + 4];
    LeValueOfBytes(inode.block[k], 4);
  }
}
