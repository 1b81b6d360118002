/**
 The deflate format in numbers (section 3 of RFC 1951), as the reader and the writer of qqwry/miniz.c follow it: the order
 of bits, the kinds of blocks, the fixed codes, the packed code lengths, and the lengths and distances of copies.
 */
module DeflateFormat {
  import opened Bits
  import opened Canonical
  import opened InflateBlock
  import opened HeaderFormat
  import opened StreamSpec
  import opened LzTokens
  import BitWriter
  import DeflateBlock
  import DeflateStream
  import InflateTable
  import StaticBlock
  import Rle = CodeLengthRle

  // ---------- bits ----------

  /** Bits fill a byte from its least significant end. */
  lemma {:induction false} BitOfByte(bytes: seq<nat>, j: nat, i: nat)
    requires j < |bytes| && i < 8
    ensures |BitWriter.BitsOf(bytes)| == 8 * |bytes|
    ensures BitWriter.BitsOf(bytes)[8 * j + i] == (bytes[j] / Pow2(i) % 2 == 1)
  {
    var k := |bytes| - 1;
    BitCount(bytes[..k]);
    FieldIsLowBits(bytes[k], 8);
    if j < k {
      BitOfByte(bytes[..k], j, i);
    }
  }

  lemma {:induction false} BitCount(bytes: seq<nat>)
    ensures |BitWriter.BitsOf(bytes)| == 8 * |bytes|
  {
    if bytes != [] {
      BitCount(bytes[..|bytes| - 1]);
    }
  }

  /** The bits of a code travel from its most significant one on. */
  lemma {:induction false} BitOfCode(v: nat, n: nat, i: nat)
    requires i < n
    ensures HighFirst(v, n)[i] == (v / Pow2(n - 1 - i) % 2 == 1)
  {
    if i < n - 1 {
      BitOfCode(v / 2, n - 1, i);
      HalfFirst(v, n - 2 - i);
    }
  }

  lemma HalfFirst(v: nat, k: nat)
    ensures v / 2 / Pow2(k) == v / Pow2(k + 1)
  {
    ShrIsDivision(v / 2, k);
    ShrIsDivision(v, k + 1);
  }

  // ---------- blocks ----------

  /**
   The first bit tells whether the block is the last; the next two are 00 for stored bytes, 01 for the fixed codes, 10 for
   dynamic ones, their low bit first; 11 is an error.
   */
  lemma KindReads(done: seq<nat>, final: bool, rest: seq<bool>)
    ensures ReadOne(done, [final, false, false] + rest) == Finish(final, ReadStored(done, rest))
    ensures ReadOne(done, [final, true, false] + rest) == Finish(final, Whole(StaticLit(), StaticDist(), done, rest))
    ensures ReadOne(done, [final, false, true] + rest) == Finish(final, BlockBytes(done, rest))
    ensures ReadOne(done, [final, true, true] + rest) == Bad
  {
    hide ReadStored, Whole, BlockBytes;
    forall a: bool, b: bool
      ensures GetBits([final, a, b] + rest, 3) == Got(BitInt(final) + 2 * BitInt(a) + 4 * BitInt(b), rest)
    {
      ThreeBitValue(final, a, b, rest);
    }
  }

  function Finish(final: bool, r: Parse<seq<nat>>): (p: Parse<Piece>)
  {
    match r
    case Bad => Bad
    case Got(bytes, rest) => Got(Piece(final, bytes), rest)
  }

  lemma ThreeBitValue(a: bool, b: bool, c: bool, rest: seq<bool>)
    ensures GetBits([a, b, c] + rest, 3) == Got(BitInt(a) + 2 * BitInt(b) + 4 * BitInt(c), rest)
  {
    var bits := [a, b, c];
    assert (bits + rest)[..3] == bits && (bits + rest)[3..] == rest;
    assert bits[..2] == [a, b] && [a, b][..1] == [a] && [a][..0] == [];
    assert Pow2(0) == 1 && Pow2(1) == 2 && Pow2(2) == 4;
    assert Val([a]) == BitInt(a);
    assert Val([a, b]) == BitInt(a) + 2 * BitInt(b);
  }

  // ---------- stored bytes ----------

  function Negated(bits: seq<bool>): (r: seq<bool>)
    ensures |r| == |bits|
  {
    seq(|bits|, i requires 0 <= i < |bits| => !bits[i])
  }

  lemma {:induction false} ComplementBits(v: nat, n: nat)
    requires v < Pow2(n)
    ensures LowBits(Pow2(n) - 1 - v, n) == Negated(LowBits(v, n))
  {
    if n > 0 {
      var c := Pow2(n) - 1 - v;
      assert c / 2 == Pow2(n - 1) - 1 - v / 2 && c % 2 == 1 - v % 2;
      ComplementBits(v / 2, n - 1);
      LowBitsStep(v, n);
      LowBitsStep(c, n);
      NegatedFront(v % 2 == 1, LowBits(v / 2, n - 1));
    }
  }

  lemma NegatedFront(b: bool, bits: seq<bool>)
    ensures Negated([b] + bits) == [!b] + Negated(bits)
  {
  }

  /** Up to seven bits are passed over, so that a whole number of bytes is left. */
  ghost predicate Pads(pad: seq<bool>, rest: seq<bool>)
  {
    |pad| < 8 && |rest| % 8 == 0
  }

  /** A stored block: the length in 16 bits, the same bits negated, and the bytes. */
  lemma StoredFormat(done: seq<nat>, pad: seq<bool>, data: seq<nat>, rest: seq<bool>)
    requires |data| < 65536 && (forall i :: 0 <= i < |data| ==> data[i] < 256) && Pads(pad, rest)
    ensures var n := Field(|data|, 16);
            ReadStored(done, pad + (n + (Negated(n) + (BitWriter.BitsOf(data) + rest)))) == Got(done + data, rest)
  {
    hide Field, Negated, BitWriter.BitsOf, GetBits, ReadBytes, Pow2, Surplus, LowBits, ReadStored;
    var n, more := Field(|data|, 16), BitWriter.BitsOf(data) + rest;
    BitCount(data);
    CheckIs(|data|);
    FieldRead(|data|, 16, Negated(n) + more);
    FieldRead(0xFFFF - |data|, 16, more);
    StoredSteps(done, pad, |data|, n, Negated(n), more);
    DeflateStream.BytesRead(done, data, rest);
  }

  lemma StoredSteps(done: seq<nat>, pad: seq<bool>, len: nat, n: seq<bool>, check: seq<bool>, more: seq<bool>)
    requires len < 65536 && |pad| < 8 && |n| == 16 && |check| == 16 && |more| % 8 == 0
    requires GetBits(n + (check + more), 16) == Got(len, check + more) && GetBits(check + more, 16) == Got(0xFFFF - len, more)
    ensures ReadStored(done, pad + (n + (check + more))) == ReadBytes(done, len, more)
  {
    hide GetBits, ReadBytes, Surplus;
    WholeBytes(0, |more|);
    PadPassed(pad, n + (check + more));
  }

  lemma WholeBytes(n: nat, m: nat)
    requires m % 8 == 0
    ensures (32 + 8 * n + m) % 8 == 0
  {
  }

  lemma PadPassed(pad: seq<bool>, behind: seq<bool>)
    requires |pad| < 8 && |behind| % 8 == 0
    ensures (pad + behind)[Surplus(|pad + behind|)..] == behind
  {
    assert |pad + behind| % 8 == |pad|;
  }

  lemma CheckIs(n: nat)
    requires n < 65536
    ensures n < Pow2(16) && 0xFFFF - n < Pow2(16) && Negated(Field(n, 16)) == Field(0xFFFF - n, 16)
  {
    hide Field, Negated, LowBits;
    Pow2Values();
    ComplementBits(n, 16);
    FieldIsLowBits(n, 16);
    FieldIsLowBits(0xFFFF - n, 16);
  }

  /** A block whose length and check do not agree is an error. */
  lemma StoredChecked(done: seq<nat>, pad: seq<bool>, len: nat, check: seq<bool>, rest: seq<bool>)
    requires len < 65536 && |check| == 16 && check != Negated(Field(len, 16)) && Pads(pad, rest)
    ensures ReadStored(done, pad + (Field(len, 16) + (check + rest))) == Bad
  {
    hide Field, Negated, GetBits, ReadBytes, Pow2, Surplus, LowBits, Val;
    var behind := Field(len, 16) + (check + rest);
    WholeBytes(0, |rest|);
    PadPassed(pad, behind);
    CheckIs(len);
    FieldRead(len, 16, check + rest);
    CheckValue(check, rest);
    LowBitsVal(check);
    FieldIsLowBits(0xFFFF - len, 16);
    assert Val(check) != 0xFFFF - len;
  }

  lemma CheckValue(check: seq<bool>, rest: seq<bool>)
    ensures GetBits(check + rest, |check|) == Got(Val(check), rest)
  {
    assert (check + rest)[..|check|] == check && (check + rest)[|check|..] == rest;
  }

  // ---------- fixed codes ----------

  /** The fixed code of a literal or length symbol, as a number; its length is that of the table in section 3.2.6. */
  function FixedCode(s: nat): (code: nat)
    requires s < 288
  {
    if s < 144 then 0x30 + s else if s < 256 then 0x190 + (s - 144) else if s < 280 then s - 256 else 0xC0 + (s - 280)
  }

  function FixedLength(s: nat): (n: nat)
  {
    if s < 144 then 8 else if s < 256 then 9 else if s < 280 then 7 else 8
  }

  lemma FixedEnds()
    ensures End(StaticLit(), 6) == 0 && End(StaticLit(), 7) == 24 && End(StaticLit(), 8) == 200
    ensures End(StaticDist(), 4) == 0
  {
    hide End, StaticLit, StaticDist;
    StaticBlock.NoCodes(StaticLit());
    StaticBlock.LitEnd(1); StaticBlock.LitEnd(2); StaticBlock.LitEnd(3); StaticBlock.LitEnd(4);
    StaticBlock.LitEnd(5); StaticBlock.LitEnd(6); StaticBlock.LitEnd(7); StaticBlock.LitEnd(8);
    StaticBlock.NoCodes(StaticDist());
    StaticBlock.DistEnd(1); StaticBlock.DistEnd(2); StaticBlock.DistEnd(3); StaticBlock.DistEnd(4);
  }

  lemma FixedLitCode(s: nat)
    requires s < 288
    ensures Used(StaticLit(), s) && CodeBits(StaticLit(), s) == HighFirst(FixedCode(s), FixedLength(s))
  {
    hide End, Count, HighFirst;
    FixedEnds();
    StaticBlock.CountLit(s, FixedLength(s));
  }

  lemma FixedDistCode(s: nat)
    requires s < 32
    ensures Used(StaticDist(), s) && CodeBits(StaticDist(), s) == HighFirst(s, 5)
  {
    hide End, Count, HighFirst;
    FixedEnds();
    StaticBlock.CountDist(s, 5);
  }

  // ---------- packed code lengths ----------

  function Same(x: nat, n: nat): (s: seq<nat>)
    ensures |s| == n && forall i :: 0 <= i < n ==> s[i] == x
  {
    seq(n, _ => x)
  }

  /**
   A code-length symbol below 16 is a length; 16 repeats the last length 3 to 6 times by two bits, 17 is 3 to 10 zeros by
   three bits and 18 is 11 to 138 zeros by seven bits.
   */
  lemma PlainLength(cl: seq<nat>, total: nat, out: seq<nat>, c: nat, rest: seq<bool>)
    requires InflateTable.Acceptable(cl) && Used(cl, c) && c < 16 && |out| < total
    ensures ReadLengths(cl, total, out, CodeBits(cl, c) + rest) == ReadLengths(cl, total, out + [c], rest)
  {
    hide ReadLengths, CodeBits, InflateTable.Acceptable;
    DeflateBlock.SymRead(cl, total, out, Rle.Sym(c, 0), rest);
    assert CodeBits(cl, c) + [] == CodeBits(cl, c);
  }

  lemma PackedLength(cl: seq<nat>, total: nat, out: seq<nat>, c: nat, x: nat, rest: seq<bool>)
    requires InflateTable.Acceptable(cl) && Used(cl, c) && |out| < total
    ensures c == 16 && x < 4 && out != [] ==>
            ReadLengths(cl, total, out, CodeBits(cl, 16) + (Field(x, 2) + rest))
            == ReadLengths(cl, total, out + Same(out[|out| - 1], 3 + x), rest)
    ensures c == 17 && x < 8 ==>
            ReadLengths(cl, total, out, CodeBits(cl, 17) + (Field(x, 3) + rest))
            == ReadLengths(cl, total, out + Same(0, 3 + x), rest)
    ensures c == 18 && x < 128 ==>
            ReadLengths(cl, total, out, CodeBits(cl, 18) + (Field(x, 7) + rest))
            == ReadLengths(cl, total, out + Same(0, 11 + x), rest)
  {
    hide ReadLengths, CodeBits, InflateTable.Acceptable, Field, LowBits;
    if 16 <= c <= 18 && x < Rle.ExtraRange(c) && (c == 16 ==> out != []) {
      DeflateBlock.SymRead(cl, total, out, Rle.Sym(c, x), rest);
      FieldIsLowBits(x, ExtraBits(c));
      assert CodeBits(cl, c) + (Field(x, ExtraBits(c)) + rest) == DeflateBlock.SymCode(cl, Rle.Sym(c, x)) + rest;
      assert Rle.Copies(0, Rle.Span(Rle.Sym(c, x))) == Same(0, Rle.Span(Rle.Sym(c, x)));
      if out != [] {
        assert Rle.Copies(out[|out| - 1], 3 + x) == Same(out[|out| - 1], 3 + x);
      }
    }
  }

  /** A repetition without a length before it is an error. */
  lemma NothingToRepeat(cl: seq<nat>, total: nat, rest: seq<bool>)
    requires InflateTable.Acceptable(cl) && Used(cl, 16) && total > 0
    ensures ReadLengths(cl, total, [], CodeBits(cl, 16) + rest) == Bad
  {
    hide CodeBits, InflateTable.Acceptable, DecodeSym;
    DecodeCode(cl, 16, rest);
  }

  // ---------- lengths and distances ----------

  /** The extra bits of a length symbol and the least length it stands for; 285 stands for 258 alone. */
  function LengthBits(s: nat): (n: nat)
    requires 257 <= s <= 285
  {
    if s < 265 || s == 285 then 0 else (s - 261) / 4
  }

  function LengthStart(s: nat): (n: nat)
    requires 257 <= s <= 285
  {
    if s == 257 then 3 else if s == 285 then 258 else LengthStart(s - 1) + Pow2(LengthBits(s - 1))
  }

  /** The same for a distance symbol. */
  function DistBits(t: nat): (n: nat)
    requires t < 30
  {
    if t < 4 then 0 else (t - 2) / 2
  }

  function DistStart(t: nat): (n: nat)
    requires t < 30
  {
    if t == 0 then 1 else DistStart(t - 1) + Pow2(DistBits(t - 1))
  }

  lemma Powers()
    ensures Pow2(0) == 1 && Pow2(1) == 2 && Pow2(2) == 4 && Pow2(3) == 8 && Pow2(4) == 16 && Pow2(5) == 32
    ensures Pow2(6) == 64 && Pow2(7) == 128 && Pow2(8) == 256 && Pow2(9) == 512 && Pow2(10) == 1024
    ensures Pow2(11) == 2048 && Pow2(12) == 4096 && Pow2(13) == 8192
  {
    assert Pow2(6) == 64;
    assert Pow2(11) == 2048;
  }

  /** An entry of the table of lengths, and the next one. */
  ghost predicate LengthRow(s: nat)
    requires 257 <= s < 285
  {
    && LENGTH_EXTRA[s - 257] == LengthBits(s)
    && (s < 284 ==> LENGTH_BASE[s - 256] == LENGTH_BASE[s - 257] + Pow2(LengthBits(s)))
  }

  lemma LengthRows(s: nat)
    requires 257 <= s < 285
    ensures LengthRow(s)
  {
    hide Pow2;
    Powers();
    if s < 271 {
      assert LengthRow(s);
    } else {
      assert LengthRow(s);
    }
  }

  lemma LengthEnds()
    ensures LENGTH_BASE[0] == 3 && LENGTH_BASE[28] == 258 && LENGTH_EXTRA[28] == 0
  {
  }

  /** The table of lengths starts at 3 and goes up by as many as each symbol stands for. */
  lemma {:induction false} LengthTable(s: nat)
    requires 257 <= s <= 285
    ensures LENGTH_EXTRA[s - 257] == LengthBits(s) && LENGTH_BASE[s - 257] == LengthStart(s)
  {
    hide Pow2, LengthRow;
    LengthEnds();
    if s < 285 {
      LengthRowIs(s);
    }
    if 257 < s < 285 {
      LengthTable(s - 1);
      LengthRowIs(s - 1);
    }
  }

  lemma LengthRowIs(s: nat)
    requires 257 <= s < 285
    ensures LENGTH_EXTRA[s - 257] == LengthBits(s)
    ensures s < 284 ==> LENGTH_BASE[s - 256] == LENGTH_BASE[s - 257] + Pow2(LengthBits(s))
  {
    LengthRows(s);
  }

  ghost predicate DistRow(t: nat)
    requires t < 30
  {
    DIST_EXTRA[t] == DistBits(t) && (t < 29 ==> DIST_BASE[t + 1] == DIST_BASE[t] + Pow2(DistBits(t)))
  }

  lemma DistRowsFront(t: nat)
    requires t < 15
    ensures DistRow(t)
  {
    hide Pow2;
    Powers();
  }

  lemma DistRowsRear(t: nat)
    requires 15 <= t < 30
    ensures DistRow(t)
  {
    hide Pow2;
    Powers();
  }

  lemma DistRowIs(t: nat)
    requires t < 30
    ensures DIST_EXTRA[t] == DistBits(t)
    ensures t < 29 ==> DIST_BASE[t + 1] == DIST_BASE[t] + Pow2(DistBits(t))
  {
    hide Pow2;
    if t < 15 {
      DistRowsFront(t);
    } else {
      DistRowsRear(t);
    }
  }

  lemma DistFirst()
    ensures DIST_BASE[0] == 1
  {
  }

  /** That of distances starts at 1. */
  lemma {:induction false} DistTable(t: nat)
    requires t < 30
    ensures DIST_EXTRA[t] == DistBits(t) && DIST_BASE[t] == DistStart(t)
  {
    hide Pow2;
    DistFirst();
    DistRowIs(t);
    if t > 0 {
      DistTable(t - 1);
      DistRowIs(t - 1);
    }
  }

  /**
   A copy is read from its length symbol, whose code has been read, the extra bits, the distance code and its extra
   bits.
   */
  lemma CopyReads(dist: seq<nat>, s: nat, x: nat, t: nat, y: nat, rest: seq<bool>)
    requires InflateTable.Acceptable(dist) && Used(dist, t) && 257 <= s <= 285 && t < 30
    requires x < Pow2(LengthBits(s)) && y < Pow2(DistBits(t))
    ensures ReadCopy(dist, s, Field(x, LengthBits(s)) + (CodeBits(dist, t) + (Field(y, DistBits(t)) + rest)))
         == Got(Copy(LengthStart(s) + x, DistStart(t) + y), rest)
  {
    hide CodeBits, Field, InflateTable.Acceptable, GetBits, DecodeSym, Pow2, LengthStart, DistStart, LengthBits, DistBits;
    LengthTable(s);
    DistTable(t);
    var tail := Field(y, DistBits(t)) + rest;
    FieldRead(x, LengthBits(s), CodeBits(dist, t) + tail);
    DecodeCode(dist, t, tail);
    FieldRead(y, DistBits(t), rest);
  }

  /** Symbols 286 and 287, and distance symbols 30 and 31, stand for nothing. */
  lemma ReservedIsBad(dist: seq<nat>, s: nat, t: nat, x: nat, bits: seq<bool>, rest: seq<bool>)
    ensures s > 285 ==> ReadCopy(dist, s, bits) == Bad
    ensures InflateTable.Acceptable(dist) && Used(dist, t) && t >= 30 && 257 <= s <= 285 && x < Pow2(LengthBits(s)) ==>
            ReadCopy(dist, s, Field(x, LengthBits(s)) + (CodeBits(dist, t) + rest)) == Bad
  {
    hide CodeBits, Field, InflateTable.Acceptable, GetBits, DecodeSym, Pow2, LengthBits;
    if InflateTable.Acceptable(dist) && Used(dist, t) && t >= 30 && 257 <= s <= 285 && x < Pow2(LengthBits(s)) {
      LengthTable(s);
      FieldRead(x, LengthBits(s), CodeBits(dist, t) + rest);
      DecodeCode(dist, t, rest);
    }
  }

  /** The compressor gives a length the symbol that stands for it, and 258 the symbol 285. */
  lemma SymbolOfLength(m: nat)
    requires m < 256
    ensures 257 <= LenSym(m) <= 285 && (LenSym(m) == 285 <==> m == 255) && LenExtra(m) == LengthBits(LenSym(m))
    ensures LengthStart(LenSym(m)) <= m + 3 < LengthStart(LenSym(m)) + Pow2(LengthBits(LenSym(m)))
  {
    LastSymbol(m);
    hide LenSym, LenExtra, Pow2, Low, LengthBits, LengthStart;
    LengthRecovered(m);
    LengthTable(LenSym(m));
    LowIsRemainder(m, LenExtra(m));
  }

  lemma LastSymbol(m: nat)
    ensures LenSym(m) == 285 <==> m >= 255
  {
  }

  lemma SymbolOfDistance(d: nat)
    requires d < 32768
    ensures DistSym(d) < 30 && DistExtra(d) == DistBits(DistSym(d))
    ensures DistStart(DistSym(d)) <= d + 1 < DistStart(DistSym(d)) + Pow2(DistBits(DistSym(d)))
  {
    hide DistSym, DistExtra, Pow2, Low, DistBits, DistStart;
    DistanceRecovered(d);
    DistTable(DistSym(d));
    LowIsRemainder(d, DistExtra(d));
  }
}
