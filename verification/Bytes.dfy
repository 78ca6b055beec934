/** Bytes and the little-endian fields stored in byte buffers. */
module Bytes {
  import opened Bits

  type byte = x: int | 0 <= x < 256

  /** The value of a NUL-terminated C string: no byte of it is NUL. */
  type CString = s: seq<byte> | 0 !in s witness []

  function Le16(s: seq<byte>, at: nat): nat
    requires at + 2 <= |s|
  {
    var b0: nat, b1: nat := s[at], s[at + 1];
    b0 + 256 * b1
  }

  function Le32(s: seq<byte>, at: nat): nat
    requires at + 4 <= |s|
  {
    var b0: nat, b1: nat, b2: nat, b3: nat := s[at], s[at + 1], s[at + 2], s[at + 3];
    b0 + 256 * b1 + 0x1_0000 * b2 + 0x100_0000 * b3
  }

  /** The low byte comes first. */
  lemma LowByteFirst(s: seq<byte>, at: nat)
    requires at + 4 <= |s|
    ensures Le16(s, at) % 256 == s[at] && Le16(s, at) / 256 == s[at + 1]
    ensures Le32(s, at) % 0x1_0000 == Le16(s, at) && Le32(s, at) / 0x1_0000 == Le16(s, at + 2)
  {
  }

  /** The two bytes a store of the 16-bit value `v` writes. */
  function Bytes16(v: nat): (r: seq<byte>)
    ensures |r| == 2
  {
    [v % 256, v / 256 % 256]
  }

  /** The four bytes a store of the 32-bit value `v` writes. */
  function Bytes32(v: nat): (r: seq<byte>)
    ensures |r| == 4
  {
    [v % 256, v / 256 % 256, v / 0x1_0000 % 256, v / 0x100_0000 % 256]
  }

  /** `s` after the bytes `v` are stored at offset `at`. */
  function Put(s: seq<byte>, at: nat, v: seq<byte>): (r: seq<byte>)
    requires at + |v| <= |s|
    ensures |r| == |s|
    ensures forall i {:trigger r[i]} :: 0 <= i < |s| ==> r[i] == if at <= i < at + |v| then v[i - at] else s[i]
  {
    seq(|s|, i requires 0 <= i < |s| => if at <= i < at + |v| then v[i - at] else s[i])
  }

  lemma Put16Reads(s: seq<byte>, at: nat, v: nat)
    requires at + 2 <= |s| && v < 0x1_0000
    ensures Le16(Put(s, at, Bytes16(v)), at) == v
  {
  }

  lemma Put32Reads(s: seq<byte>, at: nat, v: nat)
    requires at + 4 <= |s| && v < 0x1_0000_0000
    ensures Le32(Put(s, at, Bytes32(v)), at) == v
  {
    assert v / 0x1_0000 == v / 256 / 256 && v / 0x100_0000 == v / 256 / 256 / 256;
  }

  /** x | (1 << k) for a byte. */
  function WithBit(x: byte, k: nat): byte
    requires k < 8
  {
    SetBitBound(x, k, 8);
    SetBit(x, k)
  }

  /** x & ~(1 << k) for a byte. */
  function WithoutBit(x: byte, k: nat): byte
  {
    ClearBitBound(x, k);
    ClearBit(x, k)
  }
}
