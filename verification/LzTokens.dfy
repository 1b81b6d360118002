/**
 LZ77 tokens and their deflate symbols (section 3.2.5 of RFC 1951). The compressor maps a match to symbols and
 extra bits with three pairs of tables, the inflater maps them back with base values (qqwry/miniz.c,
 s_tdefl_len_sym and its companions, s_length_base and its companions). Constant runs of the tables are written as
 ranges.
 */
module LzTokens {
  import opened Bits

  /** A literal byte, or a match of len + 3 bytes at distance dist + 1, as the compressor stores them. */
  datatype Token = Literal(byte: nat) | Match(len: nat, dist: nat)

  predicate WellFormed(t: Token)
  {
    match t
    case Literal(b) => b < 256
    case Match(m, d) => m < 256 && d < 32768
  }

  /** The length symbol of a match of m + 3 bytes. */
  function LenSym(m: nat): (r: nat)
  {
    if m < 1 then 257 else if m < 2 then 258 else if m < 3 then 259 else if m < 4 then 260 else
    if m < 5 then 261 else if m < 6 then 262 else if m < 7 then 263 else if m < 8 then 264 else
    if m < 10 then 265 else if m < 12 then 266 else if m < 14 then 267 else if m < 16 then 268 else
    if m < 20 then 269 else if m < 24 then 270 else if m < 28 then 271 else if m < 32 then 272 else
    if m < 40 then 273 else if m < 48 then 274 else if m < 56 then 275 else if m < 64 then 276 else
    if m < 80 then 277 else if m < 96 then 278 else if m < 112 then 279 else if m < 128 then 280 else
    if m < 160 then 281 else if m < 192 then 282 else if m < 224 then 283 else if m < 255 then 284 else 285
  }

  /** How many extra bits that symbol carries. */
  function LenExtra(m: nat): (r: nat)
  {
    if m < 8 then 0 else if m < 16 then 1 else if m < 32 then 2 else if m < 64 then 3 else if m < 128 then 4 else
    if m < 255 then 5 else 0
  }

  /** The symbol of a distance d + 1 with d below 512, and its extra bits. */
  function SmallDistSym(d: nat): (r: nat)
  {
    if d < 1 then 0 else if d < 2 then 1 else if d < 3 then 2 else if d < 4 then 3 else if d < 6 then 4 else
    if d < 8 then 5 else if d < 12 then 6 else if d < 16 then 7 else if d < 24 then 8 else if d < 32 then 9 else
    if d < 48 then 10 else if d < 64 then 11 else if d < 96 then 12 else if d < 128 then 13 else
    if d < 192 then 14 else if d < 256 then 15 else if d < 384 then 16 else 17
  }

  function SmallDistExtra(d: nat): (r: nat)
  {
    if d < 4 then 0 else if d < 8 then 1 else if d < 16 then 2 else if d < 32 then 3 else if d < 64 then 4 else
    if d < 128 then 5 else if d < 256 then 6 else 7
  }

  /** The symbol of a larger distance by its high byte, and its extra bits. */
  function LargeDistSym(h: nat): (r: nat)
  {
    if h < 2 then 0 else if h < 3 then 18 else if h < 4 then 19 else if h < 6 then 20 else if h < 8 then 21 else
    if h < 12 then 22 else if h < 16 then 23 else if h < 24 then 24 else if h < 32 then 25 else
    if h < 48 then 26 else if h < 64 then 27 else if h < 96 then 28 else 29
  }

  function LargeDistExtra(h: nat): (r: nat)
  {
    if h < 2 then 0 else if h < 4 then 8 else if h < 8 then 9 else if h < 16 then 10 else if h < 32 then 11 else
    if h < 64 then 12 else 13
  }

  function DistSym(d: nat): (r: nat)
  {
    if d < 512 then SmallDistSym(d) else LargeDistSym(d / 256)
  }

  function DistExtra(d: nat): (r: nat)
  {
    if d < 512 then SmallDistExtra(d) else LargeDistExtra(d / 256)
  }

  // ---------- the inflater's tables ----------

  /** The symbols that stand for lengths and distances; section 3.2.6 of RFC 1951 rules the others out. */
  const LENGTHS_USED: nat := 29
  const DISTS_USED: nat := 30

  const LENGTH_BASE: seq<nat> :=
    [3, 4, 5, 6, 7, 8, 9, 10, 11, 13, 15, 17, 19, 23, 27, 31, 35, 43, 51, 59, 67, 83, 99, 115, 131, 163, 195,
     227, 258, 0, 0]

  const LENGTH_EXTRA: seq<nat> :=
    [0, 0, 0, 0, 0, 0, 0, 0, 1, 1, 1, 1, 2, 2, 2, 2, 3, 3, 3, 3, 4, 4, 4, 4, 5, 5, 5, 5, 0, 0, 0]

  const DIST_BASE: seq<nat> :=
    [1, 2, 3, 4, 5, 7, 9, 13, 17, 25, 33, 49, 65, 97, 129, 193, 257, 385, 513, 769, 1025, 1537, 2049, 3073,
     4097, 6145, 8193, 12289, 16385, 24577, 0, 0]

  const DIST_EXTRA: seq<nat> :=
    [0, 0, 0, 0, 1, 1, 2, 2, 3, 3, 4, 4, 5, 5, 6, 6, 7, 7, 8, 8, 9, 9, 10, 10, 11, 11, 12, 12, 13, 13, 0, 0]

  /** Masking off all but the low n bits is taking a remainder. */
  lemma Mask(v: nat, n: nat)
    requires n <= 13
    ensures Low(v, n) == v % (if n == 0 then 1 else if n == 1 then 2 else if n == 2 then 4 else if n == 3 then 8
                              else if n == 4 then 16 else if n == 5 then 32 else if n == 6 then 64
                              else if n == 7 then 128 else if n == 8 then 256 else if n == 9 then 512
                              else if n == 10 then 1024 else if n == 11 then 2048 else if n == 12 then 4096 else 8192)
  {
    LowIsRemainder(v, n);
    Pow2Values();
    assert Pow2(3) == 8 && Pow2(6) == 64 && Pow2(8) == 256 && Pow2(11) == 2048 && Pow2(12) == 4096 && Pow2(13) == 8192;
  }

  lemma LengthCaseA(m: nat)
    requires m < 16
    ensures 257 <= LenSym(m) <= 285 && LenExtra(m) <= 5 && LENGTH_EXTRA[LenSym(m) - 257] == LenExtra(m)
    ensures LENGTH_BASE[LenSym(m) - 257] + Low(m, LenExtra(m)) == m + 3
  {
    hide Low;
    Mask(m, 0);
    Mask(m, 1);
  }

  lemma LengthCaseB(m: nat)
    requires 16 <= m < 64
    ensures 257 <= LenSym(m) <= 285 && LenExtra(m) <= 5 && LENGTH_EXTRA[LenSym(m) - 257] == LenExtra(m)
    ensures LENGTH_BASE[LenSym(m) - 257] + Low(m, LenExtra(m)) == m + 3
  {
    hide Low;
    Mask(m, 2);
    Mask(m, 3);
  }

  lemma LengthCaseC(m: nat)
    requires 64 <= m < 128
    ensures 257 <= LenSym(m) <= 285 && LenExtra(m) <= 5 && LENGTH_EXTRA[LenSym(m) - 257] == LenExtra(m)
    ensures LENGTH_BASE[LenSym(m) - 257] + Low(m, LenExtra(m)) == m + 3
  {
    hide Low;
    Mask(m, 4);
  }

  lemma LengthCaseD(m: nat)
    requires 128 <= m < 256
    ensures 257 <= LenSym(m) <= 285 && LenExtra(m) <= 5 && LENGTH_EXTRA[LenSym(m) - 257] == LenExtra(m)
    ensures LENGTH_BASE[LenSym(m) - 257] + Low(m, LenExtra(m)) == m + 3
  {
    hide Low;
    Mask(m, 0);
    Mask(m, 5);
  }

  lemma SmallDistCaseA(d: nat)
    requires d < 16
    ensures SmallDistSym(d) < 18 && SmallDistExtra(d) <= 7 && DIST_EXTRA[SmallDistSym(d)] == SmallDistExtra(d)
    ensures DIST_BASE[SmallDistSym(d)] + Low(d, SmallDistExtra(d)) == d + 1
  {
    hide Low;
    Mask(d, 0);
    Mask(d, 1);
    Mask(d, 2);
  }

  lemma SmallDistCaseB(d: nat)
    requires 16 <= d < 64
    ensures SmallDistSym(d) < 18 && SmallDistExtra(d) <= 7 && DIST_EXTRA[SmallDistSym(d)] == SmallDistExtra(d)
    ensures DIST_BASE[SmallDistSym(d)] + Low(d, SmallDistExtra(d)) == d + 1
  {
    hide Low;
    Mask(d, 3);
    Mask(d, 4);
  }

  lemma SmallDistCaseC(d: nat)
    requires 64 <= d < 256
    ensures SmallDistSym(d) < 18 && SmallDistExtra(d) <= 7 && DIST_EXTRA[SmallDistSym(d)] == SmallDistExtra(d)
    ensures DIST_BASE[SmallDistSym(d)] + Low(d, SmallDistExtra(d)) == d + 1
  {
    hide Low;
    Mask(d, 5);
    Mask(d, 6);
  }

  lemma SmallDistCaseD(d: nat)
    requires 256 <= d < 512
    ensures SmallDistSym(d) < 18 && SmallDistExtra(d) <= 7 && DIST_EXTRA[SmallDistSym(d)] == SmallDistExtra(d)
    ensures DIST_BASE[SmallDistSym(d)] + Low(d, SmallDistExtra(d)) == d + 1
  {
    hide Low;
    Mask(d, 7);
  }

  lemma LargeDistCaseA(d: nat)
    requires 512 <= d < 1024
    ensures LargeDistSym(d / 256) < 30 && LargeDistExtra(d / 256) <= 13
    ensures DIST_EXTRA[LargeDistSym(d / 256)] == LargeDistExtra(d / 256)
    ensures DIST_BASE[LargeDistSym(d / 256)] + Low(d, LargeDistExtra(d / 256)) == d + 1
  {
    hide Low;
    var h := d / 256;
    assert 2 <= h < 4;
    Mask(d, 8);
  }

  lemma LargeDistCaseB(d: nat)
    requires 1024 <= d < 2048
    ensures LargeDistSym(d / 256) < 30 && LargeDistExtra(d / 256) <= 13
    ensures DIST_EXTRA[LargeDistSym(d / 256)] == LargeDistExtra(d / 256)
    ensures DIST_BASE[LargeDistSym(d / 256)] + Low(d, LargeDistExtra(d / 256)) == d + 1
  {
    hide Low;
    var h := d / 256;
    assert 4 <= h < 8;
    Mask(d, 9);
  }

  lemma LargeDistCaseC(d: nat)
    requires 2048 <= d < 4096
    ensures LargeDistSym(d / 256) < 30 && LargeDistExtra(d / 256) <= 13
    ensures DIST_EXTRA[LargeDistSym(d / 256)] == LargeDistExtra(d / 256)
    ensures DIST_BASE[LargeDistSym(d / 256)] + Low(d, LargeDistExtra(d / 256)) == d + 1
  {
    hide Low;
    var h := d / 256;
    assert 8 <= h < 16;
    Mask(d, 10);
  }

  lemma LargeDistCaseD(d: nat)
    requires 4096 <= d < 8192
    ensures LargeDistSym(d / 256) < 30 && LargeDistExtra(d / 256) <= 13
    ensures DIST_EXTRA[LargeDistSym(d / 256)] == LargeDistExtra(d / 256)
    ensures DIST_BASE[LargeDistSym(d / 256)] + Low(d, LargeDistExtra(d / 256)) == d + 1
  {
    hide Low;
    var h := d / 256;
    assert 16 <= h < 32;
    Mask(d, 11);
  }

  lemma LargeDistCaseE(d: nat)
    requires 8192 <= d < 16384
    ensures LargeDistSym(d / 256) < 30 && LargeDistExtra(d / 256) <= 13
    ensures DIST_EXTRA[LargeDistSym(d / 256)] == LargeDistExtra(d / 256)
    ensures DIST_BASE[LargeDistSym(d / 256)] + Low(d, LargeDistExtra(d / 256)) == d + 1
  {
    hide Low;
    var h := d / 256;
    assert 32 <= h < 64;
    Mask(d, 12);
  }

  lemma LargeDistCaseF(d: nat)
    requires 16384 <= d < 32768
    ensures LargeDistSym(d / 256) < 30 && LargeDistExtra(d / 256) <= 13
    ensures DIST_EXTRA[LargeDistSym(d / 256)] == LargeDistExtra(d / 256)
    ensures DIST_BASE[LargeDistSym(d / 256)] + Low(d, LargeDistExtra(d / 256)) == d + 1
  {
    hide Low;
    var h := d / 256;
    assert 64 <= h < 128;
    Mask(d, 13);
  }

  /** The inflater recovers the length: base value plus the extra bits the compressor has written. */
  lemma LengthRecovered(m: nat)
    requires m < 256
    ensures 257 <= LenSym(m) <= 285 && LenExtra(m) <= 5 && LENGTH_EXTRA[LenSym(m) - 257] == LenExtra(m)
    ensures LENGTH_BASE[LenSym(m) - 257] + Low(m, LenExtra(m)) == m + 3
  {
    hide *;
    if m < 16 {
      LengthCaseA(m);
    } else if m < 64 {
      LengthCaseB(m);
    } else if m < 128 {
      LengthCaseC(m);
    } else {
      LengthCaseD(m);
    }
  }

  /** The inflater recovers the distance. */
  lemma DistanceRecovered(d: nat)
    requires d < 32768
    ensures DistSym(d) < 30 && DistExtra(d) <= 13 && DIST_EXTRA[DistSym(d)] == DistExtra(d)
    ensures DIST_BASE[DistSym(d)] + Low(d, DistExtra(d)) == d + 1
  {
    hide SmallDistSym, SmallDistExtra, LargeDistSym, LargeDistExtra, Low;
    if d < 16 {
      SmallDistCaseA(d);
    } else if d < 64 {
      SmallDistCaseB(d);
    } else if d < 256 {
      SmallDistCaseC(d);
    } else if d < 512 {
      SmallDistCaseD(d);
    } else if d < 1024 {
      LargeDistCaseA(d);
    } else if d < 2048 {
      LargeDistCaseB(d);
    } else if d < 4096 {
      LargeDistCaseC(d);
    } else if d < 8192 {
      LargeDistCaseD(d);
    } else if d < 16384 {
      LargeDistCaseE(d);
    } else {
      LargeDistCaseF(d);
    }
  }
}
