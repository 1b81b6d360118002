/**
 The compressor's bit output (qqwry/miniz.c, TDEFL_PUT_BITS): values are collected in a bit buffer, least
 significant bit first, and leave it byte by byte. A byte that finds the output full is dropped; callers look at
 the output position afterwards.
 */
module BitWriter {
  import opened Bits
  import opened Common

  /** Bits placed above a buffer of n bits. */
  lemma {:induction false} ShlAppend(x: nat, n: nat, b: nat, l: nat)
    requires x < Pow2(n) && b < Pow2(l)
    ensures x + Shl(b, n) < Pow2(n + l)
    ensures LowBits(x + Shl(b, n), n + l) == LowBits(x, n) + LowBits(b, l)
  {
    hide LowBits;
    if n == 0 {
      NoLowBits(x);
    } else {
      var y := x + Shl(b, n);
      ShlAppend(x / 2, n - 1, b, l);
      assert y == x % 2 + 2 * (x / 2 + Shl(b, n - 1));
      LowBitsStep(y, n + l);
      LowBitsStep(x, n);
    }
  }

  lemma NoLowBits(v: nat)
    ensures LowBits(v, 0) == []
  {
  }

  /** The stream of bits that a sequence of bytes holds. */
  function BitsOf(bytes: seq<nat>): (bits: seq<bool>)
  {
    if bytes == [] then [] else BitsOf(bytes[..|bytes| - 1]) + LowBits(bytes[|bytes| - 1], 8)
  }

  lemma BitsOfSnoc(bytes: seq<nat>, b: nat)
    ensures BitsOf(bytes + [b]) == BitsOf(bytes) + LowBits(b, 8)
  {
    assert (bytes + [b])[..|bytes|] == bytes;
  }

  lemma {:induction false} BitsOfFront(b: nat, bytes: seq<nat>)
    ensures BitsOf([b] + bytes) == LowBits(b, 8) + BitsOf(bytes)
  {
    hide LowBits;
    if bytes == [] {
      assert [b] + bytes == [b] && [b][..0] == [];
    } else {
      var k := |bytes| - 1;
      BitsOfFront(b, bytes[..k]);
      assert ([b] + bytes)[..k + 1] == [b] + bytes[..k];
    }
  }

  lemma {:induction false} BitsOfConcat(a: seq<nat>, b: seq<nat>)
    ensures BitsOf(a + b) == BitsOf(a) + BitsOf(b)
  {
    hide LowBits;
    if b == [] {
      assert a + b == a;
    } else {
      var k := |b| - 1;
      BitsOfConcat(a, b[..k]);
      assert (a + b)[..|a| + k] == a + b[..k];
      assert BitsOf(a) + BitsOf(b[..k]) + LowBits(b[k], 8) == BitsOf(a) + (BitsOf(b[..k]) + LowBits(b[k], 8));
    }
  }

  /** The lowest byte of a bit buffer and what is left above it. */
  lemma ByteOut(v: nat, n: nat)
    requires n >= 8 && v < Pow2(n)
    ensures LowBits(v, n) == LowBits(v % 256, 8) + LowBits(v / 256, n - 8)
    ensures v / 256 < Pow2(n - 8)
  {
    LowBitsAppend(v, 8, n - 8);
    ShrIsDivision(v, 8);
    assert Pow2(8) == 256;
    LowBitsOfByte(v);
    PowSplit(v, n);
  }

  lemma PowSplit(v: nat, n: nat)
    requires n >= 8 && v < Pow2(n)
    ensures v / 256 < Pow2(n - 8)
  {
    assert Pow2(n) == 256 * Pow2(n - 8) by {
      Pow2Add(8, n - 8);
      assert Pow2(8) == 256;
    }
  }

  lemma {:induction false} LowBitsOfLow(v: nat, n: nat)
    ensures LowBits(Low(v, n), n) == LowBits(v, n)
  {
    ValLowBits(v, n);
    LowBitsVal(LowBits(v, n));
  }

  lemma LowBitsOfByte(v: nat)
    ensures LowBits(v % 256, 8) == LowBits(v, 8)
  {
    LowIsRemainder(v, 8);
    assert Pow2(8) == 256;
    LowBitsOfLow(v, 8);
  }

  /** The output buffer ends 16 bytes before the memory that holds it. */
  const MARGIN: nat := 16

  lemma {:induction false} BitsOfSize(bytes: seq<nat>)
    ensures |BitsOf(bytes)| == 8 * |bytes|
  {
    if bytes != [] {
      BitsOfSize(bytes[..|bytes| - 1]);
    }
  }

  /** The output has grown from place p to place q; what was there before is unchanged. */
  ghost predicate Grown(before: seq<nat>, p: nat, after: seq<nat>, q: nat)
  {
    p <= q <= |after| == |before| && forall i :: 0 <= i < p ==> after[i] == before[i]
  }

  class Writer {
    const out: array<Byte>
    const end: nat
    var pos: nat
    var bitBuf: nat
    var bitsIn: nat

    ghost predicate Valid()
      reads this
    {
      end + MARGIN <= out.Length && pos <= end + 7 && bitsIn < 8 && bitBuf < Pow2(bitsIn)
    }

    /** All bits written so far, when nothing has been dropped. */
    ghost function Stream(): (bits: seq<bool>)
      requires Valid()
      reads this, out
    {
      BitsOf(out[..pos]) + LowBits(bitBuf, bitsIn)
    }

    /** How many bits have been kept so far. */
    ghost function Size(): (n: nat)
      reads this
    {
      8 * pos + bitsIn
    }

    lemma StreamSize()
      requires Valid()
      ensures |Stream()| == Size()
    {
      BitsOfSize(out[..pos]);
    }

    constructor (out: array<Byte>)
      requires out.Length >= MARGIN
      ensures Valid() && this.out == out && pos == 0 && end == out.Length - MARGIN && Stream() == []
    {
      this.out := out;
      end := out.Length - MARGIN;
      pos, bitBuf, bitsIn := 0, 0, 0;
    }

    /**
     Appends l bits. The stream grows by exactly those bits unless the output fills up; a single byte always finds room
     if there was some.
     */
    method PutBits(b: nat, l: nat)
      requires Valid() && l <= 16 && b < Pow2(l)
      modifies this, out
      ensures Valid() && Grown(old(out[..]), old(pos), out[..], pos)
      ensures Size() <= old(Size()) + l && bitsIn == (old(bitsIn) + l) % 8
      ensures pos < end || (old(pos) < end && old(bitsIn) + l <= 8) ==> Stream() == old(Stream()) + LowBits(b, l)
    {
      hide BitsOf, Pow2, Shl, LowBits;
      ghost var before := BitsOf(out[..pos]) + LowBits(bitBuf, bitsIn) + LowBits(b, l);
      ShlAppend(bitBuf, bitsIn, b, l);
      bitBuf := bitBuf + Shl(b, bitsIn);
      bitsIn := bitsIn + l;
      Widen(bitBuf, bitsIn);
      ghost var pos0, total, dropped := pos, bitsIn, false;
      assert BitsOf(out[..pos]) + LowBits(bitBuf, bitsIn) == before;
      while bitsIn >= 8
        invariant pos0 <= pos <= end + 7 && bitsIn <= total && bitBuf < Pow2(bitsIn)
        invariant bitsIn % 8 == total % 8
        invariant 8 * pos + bitsIn <= 8 * pos0 + total && Grown(old(out[..]), pos0, out[..], pos)
        invariant pos > pos0 ==> bitsIn + 8 <= total
        invariant dropped ==> pos >= end && (pos0 < end ==> total >= 16)
        invariant !dropped ==> BitsOf(out[..pos]) + LowBits(bitBuf, bitsIn) == before
      {
        ByteOut(bitBuf, bitsIn);
        if pos < end {
          ghost var done := out[..pos];
          out[pos] := bitBuf % 256;
          pos := pos + 1;
          assert out[..pos] == done + [bitBuf % 256];
          BitsOfSnoc(done, bitBuf % 256);
        } else {
          dropped := true;
        }
        bitBuf := bitBuf / 256;
        bitsIn := bitsIn - 8;
      }
    }
  }

  /** The 32-bit buffer of the original holds what PutBits collects. */
  lemma Widen(v: nat, n: nat)
    requires n <= 23 && v < Pow2(n)
    ensures v < 0x1_0000_0000
  {
    Pow2Mono(n, 23);
    Pow2Values();
    assert Pow2(23) == 128 * Pow2(16) by { Pow2Add(7, 16); }
  }
}
