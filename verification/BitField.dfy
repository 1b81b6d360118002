/**
 A bitmap packed into bytes, most significant bit first (avhttp/include/avhttp/bitfield.hpp). The bits behind the last
 one, in its byte, are kept zero.
 */
module BitField {
  import Bits

  type Byte = bv8

  /** The mask of place k in a byte. */
  function Mask(k: nat): (m: Byte)
    requires k < 8
  {
    if k == 0 then 0x80 else if k == 1 then 0x40 else if k == 2 then 0x20 else if k == 3 then 0x10
    else if k == 4 then 0x08 else if k == 5 then 0x04 else if k == 6 then 0x02 else 0x01
  }

  /** The mask of the first k places of a byte, and of the others. */
  function Front(k: nat): (m: Byte)
    requires k <= 8
  {
    if k == 0 then 0x00 else if k == 1 then 0x80 else if k == 2 then 0xC0 else if k == 3 then 0xE0
    else if k == 4 then 0xF0 else if k == 5 then 0xF8 else if k == 6 then 0xFC else if k == 7 then 0xFE else 0xFF
  }

  function Back(k: nat): (m: Byte)
    requires k <= 8
  {
    if k == 0 then 0xFF else if k == 1 then 0x7F else if k == 2 then 0x3F else if k == 3 then 0x1F
    else if k == 4 then 0x0F else if k == 5 then 0x07 else if k == 6 then 0x03 else if k == 7 then 0x01 else 0x00
  }

  predicate BitAt(b: Byte, k: nat)
    requires k < 8
  {
    b & Mask(k) != 0
  }

  lemma SetOne(b: Byte, k: nat, j: nat)
    requires k < 8 && j < 8
    ensures BitAt(b | Mask(k), j) <==> j == k || BitAt(b, j)
  {
  }

  lemma ClearOne(b: Byte, k: nat, j: nat)
    requires k < 8 && j < 8
    ensures BitAt(b & !Mask(k), j) <==> j != k && BitAt(b, j)
  {
  }

  lemma KeepFront(b: Byte, k: nat, j: nat)
    requires k <= 8 && j < 8
    ensures BitAt(b & Front(k), j) <==> j < k && BitAt(b, j)
  {
  }

  lemma SetBack(b: Byte, k: nat, j: nat)
    requires k <= 8 && j < 8
    ensures BitAt(b | Back(k), j) <==> j >= k || BitAt(b, j)
  {
  }

  lemma Uniform(j: nat)
    requires j < 8
    ensures BitAt(0xFF, j) && !BitAt(0x00, j)
  {
  }

  /** The bits of a byte sequence, place by place. */
  predicate BitOf(bytes: seq<Byte>, i: nat)
    requires i < 8 * |bytes|
  {
    BitAt(bytes[i / 8], i % 8)
  }

  function BytesFor(bits: nat): (n: nat)
  {
    (bits + 7) / 8
  }

  /** The bits from n on, up to the end of their byte, are zero. */
  ghost predicate ZeroBehind(bytes: seq<Byte>, n: nat)
  {
    forall i: nat :: n <= i < 8 * |bytes| ==> !BitOf(bytes, i)
  }

  /** The number of true elements. */
  function Trues(bits: seq<bool>): (n: nat)
    ensures n <= |bits|
  {
    if bits == [] then 0 else Trues(bits[..|bits| - 1]) + (if bits[|bits| - 1] then 1 else 0)
  }

  /** The first n bits. */
  ghost function FirstBits(bytes: seq<Byte>, n: nat): (bits: seq<bool>)
    requires n <= 8 * |bytes|
    ensures |bits| == n
  {
    seq(n, i requires 0 <= i < n => BitOf(bytes, i))
  }

  function Filled(n: nat, val: bool): (bits: seq<bool>)
  {
    seq(n, _ => val)
  }

  /** How many bits of a half byte are set. */
  function NibbleCount(n: Byte): (c: nat)
  {
    if n == 0 then 0
    else if n == 1 || n == 2 || n == 4 || n == 8 then 1
    else if n == 3 || n == 5 || n == 6 || n == 9 || n == 10 || n == 12 then 2
    else if n == 7 || n == 11 || n == 13 || n == 14 then 3 else 4
  }

  lemma LowNibble(b: Byte)
    ensures NibbleCount(b & 0x0F) == Bits.BitInt(BitAt(b, 4)) + Bits.BitInt(BitAt(b, 5)) + Bits.BitInt(BitAt(b, 6)) + Bits.BitInt(BitAt(b, 7))
  {
  }

  lemma HighNibble(b: Byte)
    ensures NibbleCount(b >> 4) == Bits.BitInt(BitAt(b, 0)) + Bits.BitInt(BitAt(b, 1)) + Bits.BitInt(BitAt(b, 2)) + Bits.BitInt(BitAt(b, 3))
  {
  }

  lemma LastBit(b: Byte, k: nat)
    requires k < 8
    ensures (b >> (7 - k)) & 1 == (if BitAt(b, k) then 1 else 0)
  {
  }

  lemma SetBitAt(bytes: seq<Byte>, i: nat, j: nat)
    requires i < 8 * |bytes| && j < 8 * |bytes|
    ensures BitOf(bytes[i / 8 := bytes[i / 8] | Mask(i % 8)], j) <==> j == i || BitOf(bytes, j)
  {
    hide BitAt, Mask;
    if j / 8 == i / 8 {
      SetOne(bytes[i / 8], i % 8, j % 8);
    }
  }

  lemma ClearBitAt(bytes: seq<Byte>, i: nat, j: nat)
    requires i < 8 * |bytes| && j < 8 * |bytes|
    ensures BitOf(bytes[i / 8 := bytes[i / 8] & !Mask(i % 8)], j) <==> j != i && BitOf(bytes, j)
  {
    hide BitAt, Mask;
    if j / 8 == i / 8 {
      ClearOne(bytes[i / 8], i % 8, j % 8);
    }
  }

  /** Clearing the bits behind n in its byte. */
  lemma Trimmed(bytes: seq<Byte>, n: nat, j: nat)
    requires |bytes| == BytesFor(n) && n % 8 != 0 && j < 8 * |bytes|
    ensures BitOf(bytes[|bytes| - 1 := bytes[|bytes| - 1] & Front(n % 8)], j) <==> j < n && BitOf(bytes, j)
  {
    hide BitAt, Front;
    if j / 8 == |bytes| - 1 {
      KeepFront(bytes[|bytes| - 1], n % 8, j % 8);
    }
  }

  lemma TrimmedBits(bytes: seq<Byte>, n: nat)
    requires |bytes| == BytesFor(n)
    ensures n % 8 == 0 ==> ZeroBehind(bytes, n)
    ensures n % 8 != 0 ==> ZeroBehind(bytes[|bytes| - 1 := bytes[|bytes| - 1] & Front(n % 8)], n)
    ensures n % 8 != 0 ==> FirstBits(bytes[|bytes| - 1 := bytes[|bytes| - 1] & Front(n % 8)], n) == FirstBits(bytes, n)
  {
    hide BitOf, Front;
    if n % 8 != 0 {
      var now := bytes[|bytes| - 1 := bytes[|bytes| - 1] & Front(n % 8)];
      forall j: nat | j < 8 * |bytes|
        ensures BitOf(now, j) <==> j < n && BitOf(bytes, j)
      {
        Trimmed(bytes, n, j);
      }
    }
  }

  class Bitmap {
    var bytes: array<Byte>
    var size: nat

    ghost predicate Valid()
      reads this, bytes
    {
      bytes.Length == BytesFor(size) && ZeroBehind(bytes[..], size)
    }

    ghost function Contents(): (bits: seq<bool>)
      requires Valid()
      reads this, bytes
    {
      FirstBits(bytes[..], size)
    }

    /** An empty bitmap. */
    constructor ()
      ensures Valid() && Contents() == [] && fresh(bytes)
    {
      bytes := new Byte[0];
      size := 0;
    }

    method GetBit(i: nat) returns (b: bool)
      requires Valid() && i < size
      ensures b == Contents()[i]
    {
      b := bytes[i / 8] & Mask(i % 8) != 0;
    }

    method SetBit(i: nat)
      requires Valid() && i < size
      modifies bytes
      ensures Valid() && Contents() == old(Contents())[i := true]
    {
      hide BitOf, Mask;
      ghost var was := bytes[..];
      bytes[i / 8] := bytes[i / 8] | Mask(i % 8);
      assert bytes[..] == was[i / 8 := was[i / 8] | Mask(i % 8)];
      forall j: nat | j < 8 * |was|
        ensures BitOf(bytes[..], j) <==> j == i || BitOf(was, j)
      {
        SetBitAt(was, i, j);
      }
    }

    method ClearBit(i: nat)
      requires Valid() && i < size
      modifies bytes
      ensures Valid() && Contents() == old(Contents())[i := false]
    {
      hide BitOf, Mask;
      ghost var was := bytes[..];
      bytes[i / 8] := bytes[i / 8] & !Mask(i % 8);
      assert bytes[..] == was[i / 8 := was[i / 8] & !Mask(i % 8)];
      forall j: nat | j < 8 * |was|
        ensures BitOf(bytes[..], j) <==> j != i && BitOf(was, j)
      {
        ClearBitAt(was, i, j);
      }
    }

    /** Clears the bits behind the last one. */
    method ClearTrailing()
      requires bytes.Length == BytesFor(size)
      modifies bytes
      ensures ZeroBehind(bytes[..], size) && FirstBits(bytes[..], size) == old(FirstBits(bytes[..], size))
    {
      hide BitOf, Front, ZeroBehind, FirstBits;
      ghost var was := bytes[..];
      TrimmedBits(was, size);
      if size % 8 != 0 {
        var last := bytes.Length - 1;
        bytes[last] := bytes[last] & Front(size % 8);
        assert bytes[..] == was[last := was[last] & Front(size % 8)];
      }
    }

    /** Changes the size; what is added has arbitrary contents. */
    method ResizeRaw(bits: nat)
      requires Valid()
      modifies this, bytes
      ensures Valid() && size == bits && fresh(bytes)
      ensures Carried(old(Contents()), bytes[..], bits)
    {
      hide BitOf, FirstBits, ZeroBehind, Carried;
      ghost var was, s := bytes[..], size;
      var n := BytesFor(bits);
      var grown := new Byte[n];
      var k := if n < bytes.Length then n else bytes.Length;
      forall i | 0 <= i < k { grown[i] := bytes[i]; }
      bytes := grown;
      size := bits;
      ghost var copied := bytes[..];
      ClearTrailing();
      CarryOver(was, s, copied, bytes[..], bits);
    }

    /** Changes the size; what is added has the given value. */
    method Resize(bits: nat, val: bool)
      requires Valid()
      modifies this, bytes
      ensures Valid() && size == bits && fresh(bytes)
      ensures Contents() == if bits <= old(size) then old(Contents())[..bits] else old(Contents()) + Filled(bits - old(size), val)
    {
      hide BitOf, Back, FirstBits, Filled;
      var s, b := size, size % 8;
      ghost var was := Contents();
      ResizeRaw(bits);
      ghost var raw := bytes[..];
      if s >= size {
        Shrunk(was, raw, size);
        return;
      }
      var oldBytes, newBytes := BytesFor(s), BytesFor(size);
      if val {
        if oldBytes > 0 && b != 0 {
          bytes[oldBytes - 1] := bytes[oldBytes - 1] | Back(b);
        }
        forall i | oldBytes <= i < newBytes { bytes[i] := 0xFF; }
        ghost var filled := bytes[..];
        GrownTrue(was, raw, filled, size);
        ClearTrailing();
      } else {
        forall i | oldBytes <= i < newBytes { bytes[i] := 0x00; }
        GrownFalse(was, raw, bytes[..], size);
      }
    }

    /** The number of bits that are set: whole bytes by half-byte tables, the rest bit by bit. */
    method Count() returns (ret: nat)
      requires Valid()
      ensures ret == Trues(Contents())
    {
      hide BitOf, BitAt, NibbleCount, Trues, FirstBits;
      ret := 0;
      var numBytes := size / 8;
      ghost var all := bytes[..];
      NoBits(all);
      for i := 0 to numBytes
        invariant ret == Trues(FirstBits(all, 8 * i))
      {
        ret := ret + NibbleCount(bytes[i] & 0x0F) + NibbleCount(bytes[i] >> 4);
        WholeByte(all, i);
      }
      var rest := size - numBytes * 8;
      for i := 0 to rest
        invariant ret == Trues(FirstBits(all, 8 * numBytes + i))
      {
        if (bytes[numBytes] >> (7 - i)) & 1 == 1 {
          ret := ret + 1;
        }
        OneBit(all, numBytes, i);
      }
    }
  }

  lemma NoBits(bytes: seq<Byte>)
    ensures Trues(FirstBits(bytes, 8 * 0)) == 0
  {
  }

  /** Bit k of byte i. */
  lemma TruesStep(bytes: seq<Byte>, i: nat, k: nat)
    requires i < |bytes| && k < 8
    ensures Trues(FirstBits(bytes, 8 * i + k + 1)) == Trues(FirstBits(bytes, 8 * i + k)) + Bits.BitInt(BitAt(bytes[i], k))
  {
    hide BitAt;
    var n := 8 * i + k;
    assert n / 8 == i && n % 8 == k;
    assert FirstBits(bytes, n + 1)[..n] == FirstBits(bytes, n);
  }

  lemma WholeByte(bytes: seq<Byte>, i: nat)
    requires i < |bytes|
    ensures Trues(FirstBits(bytes, 8 * (i + 1)))
         == Trues(FirstBits(bytes, 8 * i)) + NibbleCount(bytes[i] & 0x0F) + NibbleCount(bytes[i] >> 4)
  {
    hide BitAt, NibbleCount, Trues, FirstBits;
    TruesStep(bytes, i, 0);
    TruesStep(bytes, i, 1);
    TruesStep(bytes, i, 2);
    TruesStep(bytes, i, 3);
    TruesStep(bytes, i, 4);
    TruesStep(bytes, i, 5);
    TruesStep(bytes, i, 6);
    TruesStep(bytes, i, 7);
    LowNibble(bytes[i]);
    HighNibble(bytes[i]);
  }

  lemma OneBit(bytes: seq<Byte>, i: nat, k: nat)
    requires i < |bytes| && k < 8
    ensures Trues(FirstBits(bytes, 8 * i + k + 1))
         == Trues(FirstBits(bytes, 8 * i + k)) + (if (bytes[i] >> (7 - k)) & 1 == 1 then 1 else 0)
  {
    hide BitAt, Trues, FirstBits;
    TruesStep(bytes, i, k);
    LastBit(bytes[i], k);
  }

  /** What resizing without a value leaves of the old bits. */
  ghost predicate Carried(was: seq<bool>, raw: seq<Byte>, n: nat)
  {
    && |raw| == BytesFor(n)
    && (forall i: nat :: i < n && i < |was| ==> BitOf(raw, i) == was[i])
    && (forall i: nat :: i < 8 * |raw| && |was| <= i < 8 * BytesFor(|was|) ==> !BitOf(raw, i))
  }

  lemma Shrunk(was: seq<bool>, raw: seq<Byte>, n: nat)
    requires Carried(was, raw, n) && n <= |was|
    ensures FirstBits(raw, n) == was[..n]
  {
    hide BitOf;
  }

  lemma GrownFalse(was: seq<bool>, raw: seq<Byte>, now: seq<Byte>, n: nat)
    requires Carried(was, raw, n) && |was| < n && |now| == |raw|
    requires forall i :: 0 <= i < |raw| ==> now[i] == if i < BytesFor(|was|) then raw[i] else 0x00
    ensures FirstBits(now, n) == was + Filled(n - |was|, false) && ZeroBehind(now, n)
  {
    hide BitAt;
    forall i: nat | i < 8 * |now|
      ensures BitOf(now, i) <==> i < |was| && was[i]
    {
      Uniform(i % 8);
      assert i / 8 < BytesFor(|was|) <==> i < 8 * BytesFor(|was|);
      assert now[i / 8] == raw[i / 8] ==> BitOf(now, i) == BitOf(raw, i);
    }
  }

  lemma GrownTrue(was: seq<bool>, raw: seq<Byte>, now: seq<Byte>, n: nat)
    requires Carried(was, raw, n) && |was| < n && |now| == |raw|
    requires forall i :: 0 <= i < |raw| ==> now[i] == if i >= BytesFor(|was|) then 0xFF
                                                      else if i == BytesFor(|was|) - 1 && |was| % 8 != 0 then raw[i] | Back(|was| % 8)
                                                      else raw[i]
    ensures FirstBits(now, n) == was + Filled(n - |was|, true)
  {
    hide BitAt, Back;
    forall i: nat | i < n
      ensures BitOf(now, i) <==> i >= |was| || was[i]
    {
      Uniform(i % 8);
      SetBack(raw[i / 8], |was| % 8, i % 8);
      assert i / 8 < BytesFor(|was|) <==> i < 8 * BytesFor(|was|);
      assert now[i / 8] == raw[i / 8] ==> BitOf(now, i) == BitOf(raw, i);
    }
  }

  /** Copying whole bytes and clearing the bits behind the last one carries the old bits over. */
  lemma CarryOver(was: seq<Byte>, s: nat, copied: seq<Byte>, now: seq<Byte>, n: nat)
    requires |was| == BytesFor(s) && ZeroBehind(was, s) && |copied| == |now| == BytesFor(n)
    requires forall i :: 0 <= i < |was| && i < |copied| ==> copied[i] == was[i]
    requires FirstBits(now, n) == FirstBits(copied, n) && ZeroBehind(now, n)
    ensures Carried(FirstBits(was, s), now, n)
  {
    hide BitAt;
    forall i: nat | i < 8 * |now| && i < 8 * |was|
      ensures BitOf(copied, i) == BitOf(was, i)
      ensures BitOf(now, i) == (i < n && BitOf(was, i))
    {
      assert copied[i / 8] == was[i / 8];
      assert i < n ==> FirstBits(now, n)[i] == FirstBits(copied, n)[i];
    }
  }
}
