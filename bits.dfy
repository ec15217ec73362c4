/** Bytes and the bit-level helpers the driver uses on them. */
module Bits {

  /** A byte of the SPI bus or of a register (Rust `u8`). */
  type byte = bv8

  /** Bit `i` (0 = least significant) of `b`, as 0 or 1. */
  function Bit(b: byte, i: nat): nat
    requires i < 8
  {
    var lowered := match i
      case 0 => b case 1 => b >> 1 case 2 => b >> 2 case 3 => b >> 3
      case 4 => b >> 4 case 5 => b >> 5 case 6 => b >> 6 case _ => b >> 7;
    if lowered & 1 != 0 then 1 else 0
  }

  /** `u8::count_ones`: the number of bits of `b` that are set. */
  function PopCount(b: byte): (n: nat)
    ensures n <= 8
  {
    Bit(b, 0) + Bit(b, 1) + Bit(b, 2) + Bit(b, 3) + Bit(b, 4) + Bit(b, 5) + Bit(b, 6) + Bit(b, 7)
  }

  /** The five bits of an ATQA's first byte that code the anticollision frame size. */
  const FRAME_SIZE_BITS: byte := 0x1F

  /** `b` is one of the five single-bit values 1, 2, 4, 8, 16. */
  predicate IsSingleLowBit(b: byte)
  {
    b == 0x01 || b == 0x02 || b == 0x04 || b == 0x08 || b == 0x10
  }

  /** Exactly one of the five low bits is set, counted as the driver counts it. */
  lemma OneLowBitSet(b: byte)
    ensures PopCount(b & FRAME_SIZE_BITS) == 1 <==> IsSingleLowBit(b & FRAME_SIZE_BITS)
  {
    var m := b & FRAME_SIZE_BITS;
    assert Bit(m, 5) == 0 && Bit(m, 6) == 0 && Bit(m, 7) == 0;
  }

  /** `n` zero bytes. */
  function Zeros(n: nat): (z: seq<byte>)
    ensures |z| == n
    ensures forall i :: 0 <= i < n ==> z[i] == 0
  {
    seq(n, _ => 0)
  }
}
