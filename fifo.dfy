/**
 * Data drained from the reader's FIFO, and the bit-level splice that appends a partial
 * anticollision response to the UID bits already known.
 */
module Fifo {
  import opened Bits

  /** `FifoData<L>`: a buffer of capacity `L`, the number of bytes received, and the number
      of valid bits in the last of them (0 when the last byte is complete). */
  datatype FifoData = FifoData(buffer: seq<byte>, validBytes: nat, validBits: nat)

  /** The shape every `FifoData<capacity>` the driver builds has. */
  predicate Wf(f: FifoData, capacity: nat)
  {
    |f.buffer| == capacity && f.validBytes <= capacity && f.validBits < 8
  }

  /** The indexing in `copy_bits_to` stays in bounds: the first received byte lands at
      byte `dstValidBits / 8` of the destination and the rest follow it. */
  predicate CopyFits(f: FifoData, dstLen: nat, dstValidBits: nat)
  {
    f.validBytes == 0 || (f.validBytes <= |f.buffer| && dstValidBits / 8 + f.validBytes <= dstLen)
  }

  /** The mask of the bits at or above `k`. */
  function Mask(k: nat): byte
    requires k < 8
  {
    0xFF << k
  }

  lemma MaskBit(k: nat, i: nat)
    requires k < 8 && i < 8
    ensures Bit(Mask(k), i) == 1 <==> k <= i
  {
    if k == 0 { } else if k == 1 { } else if k == 2 { } else if k == 3 { }
    else if k == 4 { } else if k == 5 { } else if k == 6 { } else { }
  }

  /** Each bit of a masked merge comes from `received` where `mask` is set, else from `known`. */
  lemma MergeBit(known: byte, received: byte, mask: byte, i: nat)
    requires i < 8
    ensures Bit((received & mask) | (known & !mask), i)
      == if Bit(mask, i) == 1 then Bit(received, i) else Bit(known, i)
  {
    if i == 0 { } else if i == 1 { } else if i == 2 { } else if i == 3 { }
    else if i == 4 { } else if i == 5 { } else if i == 6 { } else { }
  }

  lemma MergeBits(known: byte, received: byte, k: nat)
    requires k < 8
    ensures forall i :: 0 <= i < 8 ==>
      Bit((received & Mask(k)) | (known & !Mask(k)), i) == if k <= i then Bit(received, i) else Bit(known, i)
  {
    forall i | 0 <= i < 8
      ensures Bit((received & Mask(k)) | (known & !Mask(k)), i) == if k <= i then Bit(received, i) else Bit(known, i)
    {
      MaskBit(k, i);
      MergeBit(known, received, Mask(k), i);
    }
  }

  /** The byte holding the boundary: its bits below `k` from `known`, the rest from `received`. */
  function MergeByte(known: byte, received: byte, k: nat): (m: byte)
    requires k < 8
    ensures forall i :: 0 <= i < k ==> Bit(m, i) == Bit(known, i)
    ensures forall i :: k <= i < 8 ==> Bit(m, i) == Bit(received, i)
  {
    MergeBits(known, received, k);
    (received & Mask(k)) | (known & !Mask(k))
  }

  /** With no bit of the boundary byte known, the merge takes the received byte whole. */
  lemma MergeAtByteStart(known: byte, received: byte)
    ensures MergeByte(known, received, 0) == received
  {
  }

  /** The destination after `copy_bits_to`, stated byte by byte. */
  function SpliceBits(dst: seq<byte>, f: FifoData, dstValidBits: nat): (r: seq<byte>)
    requires CopyFits(f, |dst|, dstValidBits)
    ensures |r| == |dst|
    ensures f.validBytes == 0 ==> r == dst
    ensures f.validBytes > 0 ==>
      var idx := dstValidBits / 8;
      && r[idx] == MergeByte(dst[idx], f.buffer[0], dstValidBits % 8)
      && (forall i :: 1 <= i < f.validBytes ==> r[idx + i] == f.buffer[i])
      && (forall i :: 0 <= i < idx ==> r[i] == dst[i])
      && (forall i :: idx + f.validBytes <= i < |dst| ==> r[i] == dst[i])
  {
    if f.validBytes == 0 then dst
    else
      var idx := dstValidBits / 8;
      dst[..idx] + [MergeByte(dst[idx], f.buffer[0], dstValidBits % 8)]
        + f.buffer[1..f.validBytes] + dst[idx + f.validBytes..]
  }

  /** The `u8` that `copy_bits_to` returns: the destination's valid bits after the copy.
      Adding truncated operands with wrap-around is the same as taking the sum modulo 256. */
  function CopiedBitCount(f: FifoData, dstValidBits: nat): nat
  {
    if f.validBytes == 0 then dstValidBits
    else (dstValidBits + 8 * (f.validBytes - 1) + f.validBits) % 256
  }

  /** Truncating the operands of a `u8` sum to 8 bits does not change the wrapped sum. */
  lemma WrappingSum(a: nat, b: nat, c: nat)
    ensures (a + b % 256 + c % 256) % 256 == (a + b + c) % 256
  {
  }

  /** The `u8` sum `copy_bits_to` returns, `dst_valid_bits + (len * 8) as u8 + valid_bits as u8`,
      with the casts truncating and the additions wrapping around. */
  function WrappingBitCount(dstValidBits: nat, len: nat, validBits: nat): nat
  {
    (dstValidBits + (len * 8) % 256 + validBits % 256) % 256
  }

  /** That sum, over the bytes after the first, is `CopiedBitCount`. */
  lemma CopiedBitCountWraps(f: FifoData, dstValidBits: nat)
    requires f.validBytes > 0
    ensures WrappingBitCount(dstValidBits, f.validBytes - 1, f.validBits) == CopiedBitCount(f, dstValidBits)
  {
    WrappingSum(dstValidBits, (f.validBytes - 1) * 8, f.validBits);
  }

  /** A buffer that is `before` with `m` at `first` and `src` after it, seen through the
      window `lo..hi` that contains those bytes, and outside it. */
  lemma OverwrittenWindow(before: seq<byte>, after: seq<byte>, lo: nat, hi: nat, first: nat, m: byte, src: seq<byte>)
    requires lo <= first && first + 1 + |src| <= hi <= |before|
    requires after == before[..first] + [m] + src + before[first + 1 + |src|..]
    ensures after[lo..hi] == before[lo..first] + [m] + src + before[first + 1 + |src|..hi]
    ensures after[..lo] == before[..lo] && after[hi..] == before[hi..]
  {
    var tail := first + 1 + |src|;
    forall i | 0 <= i < hi - lo
      ensures after[lo..hi][i] == (before[lo..first] + [m] + src + before[tail..hi])[i]
    {
      if lo + i < first {
      } else if lo + i == first {
      } else if lo + i < tail {
        assert after[lo + i] == src[lo + i - first - 1];
      } else {
        assert after[lo + i] == before[lo + i];
      }
    }
    assert after[..lo] == before[..lo] by {
      forall i | 0 <= i < lo ensures after[i] == before[i] { }
    }
    assert after[hi..] == before[hi..] by {
      forall i | hi <= i < |after| ensures after[i] == before[i] {
        assert after[i] == before[tail..][i - tail];
      }
    }
  }

  /** `SpliceBits` on the window `lo..hi` of `before`, written with indices into `before`. */
  lemma SplicedSlice(before: seq<byte>, lo: nat, hi: nat, f: FifoData, dstValidBits: nat)
    requires lo <= hi <= |before|
    requires f.validBytes > 0 && CopyFits(f, hi - lo, dstValidBits)
    ensures var first := lo + dstValidBits / 8;
      SpliceBits(before[lo..hi], f, dstValidBits)
        == before[lo..first] + [MergeByte(before[first], f.buffer[0], dstValidBits % 8)]
          + f.buffer[1..f.validBytes] + before[first + f.validBytes..hi]
  {
    var k := dstValidBits / 8;
    var first := lo + k;
    var window := before[lo..hi];
    assert window[..k] == before[lo..first];
    assert window[k] == before[first];
    assert window[k + f.validBytes..] == before[first + f.validBytes..hi];
  }

  /** A buffer that differs from `before` exactly as `copy_bits_to` writes it matches `SpliceBits`
      on the window `lo..hi` and is unchanged outside it. */
  lemma SplicedWindow(before: seq<byte>, after: seq<byte>, lo: nat, hi: nat, f: FifoData, dstValidBits: nat)
    requires lo <= hi <= |before|
    requires f.validBytes > 0 && CopyFits(f, hi - lo, dstValidBits)
    requires var first := lo + dstValidBits / 8;
      after == before[..first] + [MergeByte(before[first], f.buffer[0], dstValidBits % 8)]
        + f.buffer[1..f.validBytes] + before[first + f.validBytes..]
    ensures after[lo..hi] == SpliceBits(before[lo..hi], f, dstValidBits)
    ensures after[..lo] == before[..lo] && after[hi..] == before[hi..]
  {
    var first := lo + dstValidBits / 8;
    var m := MergeByte(before[first], f.buffer[0], dstValidBits % 8);
    OverwrittenWindow(before, after, lo, hi, first, m, f.buffer[1..f.validBytes]);
    SplicedSlice(before, lo, hi, f, dstValidBits);
  }

  /** Writing `m` at `first` and then copying `src` right after it. */
  lemma CopiedShape(before: seq<byte>, mid: seq<byte>, after: seq<byte>, first: nat, m: byte, src: seq<byte>)
    requires first + 1 + |src| <= |before| && mid == before[first := m] && |after| == |mid|
    requires after[..first + 1 + |src|] == mid[..first + 1] + src
    requires after[first + 1 + |src|..] == mid[first + 1 + |src|..]
    ensures after == before[..first] + [m] + src + before[first + 1 + |src|..]
  {
    var end := first + 1 + |src|;
    assert mid[..first + 1] == before[..first] + [m];
    assert mid[end..] == before[end..];
    assert after == after[..end] + after[end..];
  }

  /** The buffer `copy_bits_to` leaves: `before` with the merged byte written at the first
      index and the other received bytes copied after it. */
  lemma CopyBitsResult(before: seq<byte>, mid: seq<byte>, after: seq<byte>, lo: nat, hi: nat,
                       f: FifoData, dstValidBits: nat)
    requires lo <= hi <= |before| == |after|
    requires f.validBytes > 0 && CopyFits(f, hi - lo, dstValidBits)
    requires var first := lo + dstValidBits / 8;
      && mid == before[first := MergeByte(before[first], f.buffer[0], dstValidBits % 8)]
      && after[..first + f.validBytes] == mid[..first + 1] + f.buffer[1..f.validBytes]
      && after[first + f.validBytes..] == mid[first + f.validBytes..]
    ensures after[lo..hi] == SpliceBits(before[lo..hi], f, dstValidBits)
    ensures after[..lo] == before[..lo] && after[hi..] == before[hi..]
  {
    var first := lo + dstValidBits / 8;
    CopiedShape(before, mid, after, first, MergeByte(before[first], f.buffer[0], dstValidBits % 8),
      f.buffer[1..f.validBytes]);
    SplicedWindow(before, after, lo, hi, f, dstValidBits);
  }

  /** `dst[lo..lo + |src|].copy_from_slice(src)`. */
  method CopyFromSlice(dst: array<byte>, lo: nat, src: seq<byte>)
    requires lo + |src| <= dst.Length
    modifies dst
    ensures dst[..lo + |src|] == old(dst[..lo]) + src
    ensures dst[lo + |src|..] == old(dst[lo + |src|..])
  {
    for i := 0 to |src|
      invariant dst[..lo + i] == old(dst[..lo]) + src[..i]
      invariant dst[lo + i..] == old(dst[lo + i..])
    {
      dst[lo + i] := src[i];
      assert src[..i + 1] == src[..i] + [src[i]];
    }
  }

  /** `dst[idx] = (received & mask) | (dst[idx] & !mask)` with `mask = 0xFF << k`: the bits of
      `dst[idx]` below `k` are kept and the rest come from `received`. */
  method MergeAt(dst: array<byte>, idx: nat, received: byte, k: nat)
    requires idx < dst.Length && k < 8
    modifies dst
    ensures dst[..] == old(dst[..])[idx := MergeByte(old(dst[idx]), received, k)]
  {
    var mask := Mask(k); // 0xFF << k
    dst[idx] := (received & mask) | (dst[idx] & !mask);
  }

  /** `FifoData::copy_bits_to` on the slice `dst[lo..hi]`, in place. */
  method CopyBitsTo(f: FifoData, dst: array<byte>, lo: nat, hi: nat, dstValidBits: nat) returns (n: nat)
    requires lo <= hi <= dst.Length
    requires dstValidBits < 256
    requires CopyFits(f, hi - lo, dstValidBits)
    modifies dst
    ensures dst[lo..hi] == SpliceBits(old(dst[lo..hi]), f, dstValidBits)
    ensures dst[..lo] == old(dst[..lo]) && dst[hi..] == old(dst[hi..])
    ensures n == CopiedBitCount(f, dstValidBits)
  {
    if f.validBytes == 0 {
      return dstValidBits;
    }
    ghost var before := dst[..];
    var dstValidBytes := dstValidBits / 8;
    var dstValidLastBits := dstValidBits % 8;
    var idx := lo + dstValidBytes;
    MergeAt(dst, idx, f.buffer[0], dstValidLastBits);
    ghost var mid := dst[..];
    idx := idx + 1;
    var len := f.validBytes - 1;
    if len > 0 {
      CopyFromSlice(dst, idx, f.buffer[1..1 + len]);
    } else {
      assert mid[..idx] + f.buffer[1..1] == mid[..idx];
    }
    n := WrappingBitCount(dstValidBits, len, f.validBits);
    CopiedBitCountWraps(f, dstValidBits);
    CopyBitsResult(before, mid, dst[..], lo, hi, f, dstValidBits);
  }
}
