/** Fixed-width unsigned integers and little-endian byte fields, the one
    decoding routine every on-disk structure of the model is read with. */
module Bytes {

  type u8 = x: int | 0 <= x < 0x100
  type u16 = x: int | 0 <= x < 0x1_0000
  type u32 = x: int | 0 <= x < 0x1_0000_0000

  /** 256^n: an n-byte field holds the values below it. */
  function Pow256(n: nat): (r: nat)
    ensures r >= 1
  {
    if n == 0 then 1 else 256 * Pow256(n - 1)
  }

  /** 2^n. */
  function Pow2(n: nat): (r: nat)
    ensures r >= 1
  {
    if n == 0 then 1 else 2 * Pow2(n - 1)
  }

  lemma {:induction false} Pow2Add(a: nat, b: nat)
    ensures Pow2(a + b) == Pow2(a) * Pow2(b)
  {
    if a > 0 {
      Pow2Add(a - 1, b);
      calc {
        Pow2(a + b);
        2 * Pow2(a - 1 + b);
        2 * (Pow2(a - 1) * Pow2(b));
        (2 * Pow2(a - 1)) * Pow2(b);
      }
    }
  }

  /** The powers the 32-bit block-size shift turns on: 2^21 is the
      largest factor that keeps 1024 * 2^n below 2^32. */
  lemma Pow2At21And22()
    ensures Pow2(21) == 0x20_0000 && Pow2(22) == 0x40_0000
  {
    assert Pow2(5) == 32;
    Pow2Add(5, 5);
    Pow2Add(10, 10);
    assert Pow2(20) == 0x10_0000;
    assert Pow2(22) == 2 * Pow2(21);
  }

  lemma {:induction false} Pow2Monotonic(a: nat, b: nat)
    requires a <= b
    ensures Pow2(a) <= Pow2(b)
  {
    if a < b {
      Pow2Monotonic(a, b - 1);
    }
  }

  /** The unsigned value of `bs` read least-significant byte first. */
  function LeValue(bs: seq<u8>): (r: nat)
    ensures r < Pow256(|bs|)
  {
    if bs == [] then 0 else bs[0] + 256 * LeValue(bs[1..])
  }

  /** The `n`-byte little-endian field of `buf` that starts at `off`. */
  function LeAt(buf: seq<u8>, off: nat, n: nat): (r: nat)
    requires off + n <= |buf|
    ensures r < Pow256(n)
  {
    LeValue(buf[off..off + n])
  }

  /** The unsigned 16-bit field at `off`: the value whose two-byte
      little-endian encoding is the bytes there. */
  function U16At(buf: seq<u8>, off: nat): (r: u16)
    requires off + 2 <= |buf|
    ensures LeBytes(r, 2) == buf[off..off + 2]
  {
    LeBytesOfValue(buf[off..off + 2]);
    LeAt(buf, off, 2)
  }

  /** The unsigned 32-bit field at `off`: the value whose four-byte
      little-endian encoding is the bytes there. */
  function U32At(buf: seq<u8>, off: nat): (r: u32)
    requires off + 4 <= |buf|
    ensures LeBytes(r, 4) == buf[off..off + 4]
  {
    LeBytesOfValue(buf[off..off + 4]);
    LeAt(buf, off, 4)
  }

  /** The low `n` bytes of `x`, least-significant first. */
  function LeBytes(x: nat, n: nat): (r: seq<u8>)
    ensures |r| == n
  {
    if n == 0 then [] else [x % 256] + LeBytes(x / 256, n - 1)
  }

  /** Decoding an encoded value gives it back. */
  lemma {:induction false} LeValueOfBytes(x: nat, n: nat)
    requires x < Pow256(n)
    ensures LeValue(LeBytes(x, n)) == x
  {
    if n > 0 {
      var bs := LeBytes(x, n);
      assert bs[1..] == LeBytes(x / 256, n - 1);
      LeValueOfBytes(x / 256, n - 1);
    }
  }

  /** Encoding a decoded field gives back its bytes. */
  lemma {:induction false} LeBytesOfValue(bs: seq<u8>)
    ensures LeBytes(LeValue(bs), |bs|) == bs
  {
    if bs != [] {
      var v := LeValue(bs[1..]);
      assert (bs[0] + 256 * v) % 256 == bs[0];
      assert (bs[0] + 256 * v) / 256 == v;
      LeBytesOfValue(bs[1..]);
    }
  }

  /** Two buffers that agree on a field read the same value from it. */
  lemma LeAtFrame(b1: seq<u8>, b2: seq<u8>, off: nat, n: nat)
    requires off + n <= |b1| && off + n <= |b2|
    requires forall i :: off <= i < off + n ==> b1[i] == b2[i]
    ensures LeAt(b1, off, n) == LeAt(b2, off, n)
  {
    assert b1[off..off + n] == b2[off..off + n];
  }

  /** A field holding the encoding of `x` reads back as `x`. */
  lemma LeAtOfBytes(buf: seq<u8>, off: nat, x: nat, n: nat)
    requires off + n <= |buf| && x < Pow256(n)
    requires forall i :: 0 <= i < n ==> buf[off + i] == LeBytes(x, n)[i]
    ensures LeAt(buf, off, n) == x
  {
    assert buf[off..off + n] == LeBytes(x, n);
    LeValueOfBytes(x, n);
  }

  function Zeros(n: nat): (r: seq<u8>)
    ensures |r| == n && forall i :: 0 <= i < n ==> r[i] == 0
  {
    seq(n, _ => 0)
  }

  /** `buf` with `bs` written over it from byte `off` on. */
  function Put(buf: seq<u8>, off: nat, bs: seq<u8>): (r: seq<u8>)
    requires off + |bs| <= |buf|
    ensures |r| == |buf|
    ensures forall i :: 0 <= i < |bs| ==> r[off + i] == bs[i]
    ensures forall i :: 0 <= i < |buf| && !(off <= i < off + |bs|) ==> r[i] == buf[i]
  {
    buf[..off] + bs + buf[off + |bs|..]
  }
}
