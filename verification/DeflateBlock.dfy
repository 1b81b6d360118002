/**
 A deflate block with dynamic codes, end to end: what the compressor writes for a buffer of recorded tokens
 (qqwry/miniz.c, tdefl_start_dynamic_block and tdefl_compress_block) is read back by the inflater as exactly
 those tokens.
 */
module DeflateBlock {
  import opened Bits
  import opened Canonical
  import opened InflateBlock
  import opened LzTokens
  import opened LzCounts
  import InflateTable
  import Rle = CodeLengthRle

  // ---------- tokens ----------

  function ItemOf(t: Token): (i: Item)
  {
    match t
    case Literal(b) => Lit(b)
    case Match(m, d) => Copy(m + 3, d + 1)
  }

  function ItemsOf(toks: seq<Token>): (items: seq<Item>)
    ensures |items| == |toks|
  {
    seq(|toks|, i requires 0 <= i < |toks| => ItemOf(toks[i]))
  }

  /** The symbols of a token have codes. */
  ghost predicate Coded(lit: seq<nat>, dist: seq<nat>, t: Token)
  {
    WellFormed(t) && Used(lit, LitSym(t)) && (t.Match? ==> Used(dist, DistSym(t.dist)))
  }

  ghost function TokenCode(lit: seq<nat>, dist: seq<nat>, t: Token): (bits: seq<bool>)
    requires Coded(lit, dist, t)
  {
    match t
    case Literal(b) => CodeBits(lit, b)
    case Match(m, d) =>
      CodeBits(lit, LenSym(m)) + LowBits(Low(m, LenExtra(m)), LenExtra(m))
      + (CodeBits(dist, DistSym(d)) + LowBits(Low(d, DistExtra(d)), DistExtra(d)))
  }

  ghost predicate AllCoded(lit: seq<nat>, dist: seq<nat>, toks: seq<Token>)
  {
    forall i :: 0 <= i < |toks| ==> Coded(lit, dist, toks[i])
  }

  ghost function TokensCode(lit: seq<nat>, dist: seq<nat>, toks: seq<Token>): (bits: seq<bool>)
    requires AllCoded(lit, dist, toks)
  {
    if toks == [] then [] else TokenCode(lit, dist, toks[0]) + TokensCode(lit, dist, toks[1..])
  }

  lemma DistanceRead(dist: seq<nat>, d: nat, len: nat, rest: seq<bool>)
    requires InflateTable.Acceptable(dist) && d < 32768 && Used(dist, DistSym(d))
    ensures ReadDistance(dist, len, CodeBits(dist, DistSym(d)) + LowBits(Low(d, DistExtra(d)), DistExtra(d)) + rest)
         == Got(Copy(len, d + 1), rest)
  {
    hide CodeBits, LowBits, Low, DistSym, DistExtra, InflateTable.Acceptable, GetBits, DecodeSym;
    DistanceRecovered(d);
    var extra := LowBits(Low(d, DistExtra(d)), DistExtra(d));
    assert CodeBits(dist, DistSym(d)) + extra + rest == CodeBits(dist, DistSym(d)) + (extra + rest);
    DecodeCode(dist, DistSym(d), extra + rest);
    GetPut(Low(d, DistExtra(d)), DistExtra(d), rest);
  }

  lemma CopyRead(dist: seq<nat>, m: nat, d: nat, rest: seq<bool>)
    requires InflateTable.Acceptable(dist) && m < 256 && d < 32768 && Used(dist, DistSym(d))
    ensures ReadCopy(dist, LenSym(m), LowBits(Low(m, LenExtra(m)), LenExtra(m))
                                      + (CodeBits(dist, DistSym(d)) + LowBits(Low(d, DistExtra(d)), DistExtra(d)) + rest))
         == Got(Copy(m + 3, d + 1), rest)
  {
    hide CodeBits, LowBits, Low, LenSym, LenExtra, DistSym, DistExtra, InflateTable.Acceptable, GetBits, ReadDistance;
    LengthRecovered(m);
    var tail := CodeBits(dist, DistSym(d)) + LowBits(Low(d, DistExtra(d)), DistExtra(d)) + rest;
    GetPut(Low(m, LenExtra(m)), LenExtra(m), tail);
    DistanceRead(dist, d, m + 3, rest);
  }

  /** One token is read as its literal or copy. */
  lemma TokenRead(lit: seq<nat>, dist: seq<nat>, t: Token, rest: seq<bool>)
    requires InflateTable.Acceptable(lit) && InflateTable.Acceptable(dist) && Coded(lit, dist, t)
    ensures ReadItems(lit, dist, TokenCode(lit, dist, t) + rest) == Prepend(ItemOf(t), ReadItems(lit, dist, rest))
  {
    hide CodeBits, LowBits, Low, LenSym, LenExtra, DistSym, DistExtra, InflateTable.Acceptable, ReadCopy, DecodeSym,
         Used;
    LitSymRange(t);
    match t {
      case Literal(b) =>
        DecodeCode(lit, b, rest);
      case Match(m, d) =>
        LengthRecovered(m);
        var l, le := CodeBits(lit, LenSym(m)), LowBits(Low(m, LenExtra(m)), LenExtra(m));
        var e, ee := CodeBits(dist, DistSym(d)), LowBits(Low(d, DistExtra(d)), DistExtra(d));
        assert TokenCode(lit, dist, t) == l + le + (e + ee);
        assert l + le + (e + ee) + rest == l + (le + (e + ee + rest));
        DecodeCode(lit, LenSym(m), le + (e + ee + rest));
        CopyRead(dist, m, d, rest);
    }
  }

  /** The tokens of a block, with the end-of-block code, are read back. */
  lemma {:induction false} TokensRead(lit: seq<nat>, dist: seq<nat>, toks: seq<Token>, rest: seq<bool>)
    requires InflateTable.Acceptable(lit) && InflateTable.Acceptable(dist) && AllCoded(lit, dist, toks)
             && Used(lit, 256)
    ensures ReadItems(lit, dist, TokensCode(lit, dist, toks) + (CodeBits(lit, 256) + rest)) == Got(ItemsOf(toks), rest)
  {
    hide CodeBits, InflateTable.Acceptable, TokenCode, Used, Coded, ItemOf, ReadItems;
    if toks == [] {
      BlockEnd(lit, dist, rest);
      assert TokensCode(lit, dist, toks) + (CodeBits(lit, 256) + rest) == CodeBits(lit, 256) + rest;
    } else {
      var tail := TokensCode(lit, dist, toks[1..]) + (CodeBits(lit, 256) + rest);
      TokensRead(lit, dist, toks[1..], rest);
      TokenRead(lit, dist, toks[0], tail);
      assert TokensCode(lit, dist, toks) + (CodeBits(lit, 256) + rest) == TokenCode(lit, dist, toks[0]) + tail;
      assert ItemsOf(toks) == [ItemOf(toks[0])] + ItemsOf(toks[1..]);
    }
  }

  lemma BlockEnd(lit: seq<nat>, dist: seq<nat>, rest: seq<bool>)
    requires InflateTable.Acceptable(lit) && Used(lit, 256)
    ensures ReadItems(lit, dist, CodeBits(lit, 256) + rest) == Got([], rest)
  {
    DecodeCode(lit, 256, rest);
  }

  // ---------- packed code lengths ----------

  ghost function SymCode(cl: seq<nat>, t: Rle.Sym): (bits: seq<bool>)
    requires Used(cl, t.code)
  {
    CodeBits(cl, t.code) + (if t.code < 16 then [] else LowBits(t.extra, ExtraBits(t.code)))
  }

  ghost predicate SymsCoded(cl: seq<nat>, toks: seq<Rle.Sym>)
  {
    forall i :: 0 <= i < |toks| ==> Used(cl, toks[i].code)
  }

  ghost function SymsCode(cl: seq<nat>, toks: seq<Rle.Sym>): (bits: seq<bool>)
    requires SymsCoded(cl, toks)
  {
    if toks == [] then [] else SymCode(cl, toks[0]) + SymsCode(cl, toks[1..])
  }

  lemma ExtraFits(t: Rle.Sym)
    requires Rle.WellFormed(t) && t.code >= 16
    ensures t.extra < Pow2(ExtraBits(t.code))
  {
    assert Pow2(2) == 4 && Pow2(3) == 8;
    Pow2Values();
  }

  lemma SymRead(cl: seq<nat>, total: nat, out: seq<nat>, t: Rle.Sym, rest: seq<bool>)
    requires InflateTable.Acceptable(cl) && Used(cl, t.code) && Rle.WellFormed(t) && (t.code == 16 ==> out != [])
    requires |out| < total
    ensures ReadLengths(cl, total, out, SymCode(cl, t) + rest) == ReadLengths(cl, total, Rle.Step(out, t), rest)
  {
    hide CodeBits, LowBits, InflateTable.Acceptable, GetBits, DecodeSym, Used;
    if t.code < 16 {
      assert SymCode(cl, t) + rest == CodeBits(cl, t.code) + rest;
      DecodeCode(cl, t.code, rest);
    } else {
      var extra := LowBits(t.extra, ExtraBits(t.code));
      assert SymCode(cl, t) + rest == CodeBits(cl, t.code) + (extra + rest);
      DecodeCode(cl, t.code, extra + rest);
      ExtraFits(t);
      GetPut(t.extra, ExtraBits(t.code), rest);
    }
  }

  /** Packed code lengths are unpacked by the inflater. */
  lemma {:induction false} LengthsRead(cl: seq<nat>, toks: seq<Rle.Sym>, k: nat, rest: seq<bool>)
    requires InflateTable.Acceptable(cl) && Rle.Valid(toks) && SymsCoded(cl, toks) && k <= |toks|
    ensures Rle.Valid(toks[..k]) && SymsCoded(cl, toks[k..])
    ensures ReadLengths(cl, |Rle.Meaning(toks)|, Rle.Meaning(toks[..k]), SymsCode(cl, toks[k..]) + rest)
         == Got(Rle.Meaning(toks), rest)
    decreases |toks| - k
  {
    hide InflateTable.Acceptable, SymCode, Used, ReadLengths, Rle.Meaning, Rle.Step;
    Rle.ValidPrefix(toks, k);
    assert toks[..|toks|] == toks;
    Rle.MeaningGrows(toks, k, |toks|);
    if k == |toks| {
      assert SymsCode(cl, toks[k..]) + rest == rest;
      AllUnpacked(cl, Rle.Meaning(toks), rest);
    } else {
      LengthsRead(cl, toks, k + 1, rest);
      var tail := SymsCode(cl, toks[k + 1..]) + rest;
      assert toks[k..][1..] == toks[k + 1..];
      assert SymsCode(cl, toks[k..]) + rest == SymCode(cl, toks[k]) + tail;
      StepMeaning(toks, k);
      SymRead(cl, |Rle.Meaning(toks)|, Rle.Meaning(toks[..k]), toks[k], tail);
    }
  }

  lemma AllUnpacked(cl: seq<nat>, out: seq<nat>, rest: seq<bool>)
    ensures ReadLengths(cl, |out|, out, rest) == Got(out, rest)
  {
  }

  lemma StepMeaning(toks: seq<Rle.Sym>, k: nat)
    requires Rle.Valid(toks) && k < |toks|
    ensures Rle.Valid(toks[..k]) && Rle.Valid(toks[..k + 1])
    ensures toks[k].code == 16 ==> Rle.Meaning(toks[..k]) != []
    ensures Rle.Meaning(toks[..k + 1]) == Rle.Step(Rle.Meaning(toks[..k]), toks[k])
  {
    assert toks[..k + 1][..k] == toks[..k];
  }

  // ---------- trailing zero lengths ----------

  ghost predicate ZeroFrom(sizes: seq<nat>, n: nat)
  {
    n <= |sizes| && forall i :: n <= i < |sizes| ==> sizes[i] == 0
  }

  lemma {:induction false} TrimCount(sizes: seq<nat>, n: nat, l: nat)
    requires ZeroFrom(sizes, n) && l >= 1
    ensures Count(sizes[..n], l) == Count(sizes, l)
  {
    if n == |sizes| {
      assert sizes[..n] == sizes;
    } else {
      var k := |sizes| - 1;
      TrimCount(sizes[..k], n, l);
      assert sizes[..k][..n] == sizes[..n];
    }
  }

  lemma {:induction false} TrimEnd(sizes: seq<nat>, n: nat, l: nat)
    requires ZeroFrom(sizes, n)
    ensures End(sizes[..n], l) == End(sizes, l)
  {
    if l > 0 {
      TrimEnd(sizes, n, l - 1);
      TrimCount(sizes, n, l);
    }
  }

  lemma {:induction false} TrimUsed(sizes: seq<nat>, n: nat)
    requires ZeroFrom(sizes, n)
    ensures InflateTable.UsedCount(sizes[..n]) == InflateTable.UsedCount(sizes)
  {
    if n == |sizes| {
      assert sizes[..n] == sizes;
    } else {
      var k := |sizes| - 1;
      TrimUsed(sizes[..k], n);
      assert sizes[..k][..n] == sizes[..n];
    }
  }

  lemma TrimAcceptable(sizes: seq<nat>, n: nat)
    requires ZeroFrom(sizes, n) && InflateTable.Acceptable(sizes)
    ensures InflateTable.Acceptable(sizes[..n])
  {
    TrimEnd(sizes, n, InflateTable.MAX_BITS);
    TrimUsed(sizes, n);
  }

  lemma TrimCode(sizes: seq<nat>, n: nat, s: nat)
    requires ZeroFrom(sizes, n) && Used(sizes, s)
    ensures s < n && Used(sizes[..n], s) && CodeBits(sizes[..n], s) == CodeBits(sizes, s)
  {
    hide HighFirst, End, Count;
    TrimEnd(sizes, n, sizes[s] - 1);
    assert sizes[..n][..s] == sizes[..s];
  }

  /** How many lengths are sent: at least `lo`, up to the last one below `hi` that is not zero. */
  method Trim(sizes: seq<nat>, lo: nat, hi: nat) returns (n: nat)
    requires lo <= hi && ZeroFrom(sizes, hi)
    ensures lo <= n <= hi && ZeroFrom(sizes, n) && (n > lo ==> sizes[n - 1] != 0)
  {
    n := hi;
    while n > lo && sizes[n - 1] == 0
      invariant lo <= n <= hi && ZeroFrom(sizes, n)
    {
      n := n - 1;
    }
  }

  // ---------- the header ----------

  /** Where a code-length symbol stands in the sending order. */
  const PLACE: seq<nat> := [3, 17, 15, 13, 11, 9, 7, 5, 4, 6, 8, 10, 12, 14, 16, 18, 0, 1, 2]

  lemma Places(i: nat, c: nat)
    requires i < 19 && c < 19
    ensures PLACE[c] == i <==> DEZIGZAG[i] == c
    ensures PLACE[c] < 19 && DEZIGZAG[i] < 19
  {
  }

  ghost predicate SmallSizes(cl: seq<nat>)
  {
    |cl| == 19 && forall c :: 0 <= c < 19 ==> cl[c] < 8
  }

  /** The symbols from place n on have no length. */
  ghost predicate SentUpTo(cl: seq<nat>, n: nat)
    requires |cl| == 19
  {
    forall c :: 0 <= c < 19 && PLACE[c] >= n ==> cl[c] == 0
  }

  ghost function CodeSizeBits(cl: seq<nat>, i: nat, n: nat): (bits: seq<bool>)
    requires SmallSizes(cl) && i <= n <= 19
    decreases n - i
  {
    if i == n then []
    else
      Places(i, 0);
      LowBits(cl[DEZIGZAG[i]], 3) + CodeSizeBits(cl, i + 1, n)
  }

  /** The lengths read before place i. */
  ghost function ReadSoFar(cl: seq<nat>, i: nat): (acc: seq<nat>)
    requires |cl| == 19
    ensures |acc| == 19
  {
    seq(19, c requires 0 <= c < 19 => if PLACE[c] < i then cl[c] else 0)
  }

  lemma ReadOneMore(cl: seq<nat>, i: nat)
    requires |cl| == 19 && i < 19
    ensures DEZIGZAG[i] < 19 && ReadSoFar(cl, i)[DEZIGZAG[i] := cl[DEZIGZAG[i]]] == ReadSoFar(cl, i + 1)
  {
    Places(i, 0);
    var before, after := ReadSoFar(cl, i)[DEZIGZAG[i] := cl[DEZIGZAG[i]]], ReadSoFar(cl, i + 1);
    forall c | 0 <= c < 19
      ensures before[c] == after[c]
    {
      Places(i, c);
    }
  }

  lemma CodeSizeStep(cl: seq<nat>, i: nat, n: nat)
    requires SmallSizes(cl) && i < n <= 19
    ensures DEZIGZAG[i] < 19 && CodeSizeBits(cl, i, n) == LowBits(cl[DEZIGZAG[i]], 3) + CodeSizeBits(cl, i + 1, n)
  {
    hide LowBits;
    Places(i, 0);
  }

  lemma CodeSizeRead(acc: seq<nat>, i: nat, n: nat, x: nat, rest: seq<bool>)
    requires |acc| == 19 && i < n <= 19 && x < 8
    ensures DEZIGZAG[i] < 19
    ensures ReadCodeSizes(acc, i, n, LowBits(x, 3) + rest) == ReadCodeSizes(acc[DEZIGZAG[i] := x], i + 1, n, rest)
  {
    hide LowBits, GetBits, Pow2;
    Places(i, 0);
    EightValues(x);
    GetPut(x, 3, rest);
  }

  lemma NoCodeSizes(cl: seq<nat>, n: nat, rest: seq<bool>)
    requires SmallSizes(cl) && SentUpTo(cl, n) && n <= 19
    ensures ReadCodeSizes(ReadSoFar(cl, n), n, n, CodeSizeBits(cl, n, n) + rest) == Got(cl, rest)
  {
    assert ReadSoFar(cl, n) == cl;
    assert CodeSizeBits(cl, n, n) + rest == rest;
  }

  lemma {:induction false} CodeSizesRead(cl: seq<nat>, i: nat, n: nat, rest: seq<bool>)
    requires SmallSizes(cl) && SentUpTo(cl, n) && i <= n <= 19
    ensures ReadCodeSizes(ReadSoFar(cl, i), i, n, CodeSizeBits(cl, i, n) + rest) == Got(cl, rest)
    decreases n - i
  {
    hide LowBits, ReadCodeSizes, CodeSizeBits, ReadSoFar, SentUpTo;
    if i == n {
      NoCodeSizes(cl, n, rest);
    } else {
      CodeSizesRead(cl, i + 1, n, rest);
      CodeSizeStep(cl, i, n);
      ReadOneMore(cl, i);
      var size, tail := cl[DEZIGZAG[i]], CodeSizeBits(cl, i + 1, n) + rest;
      assert LowBits(size, 3) + CodeSizeBits(cl, i + 1, n) + rest == LowBits(size, 3) + tail;
      CodeSizeRead(ReadSoFar(cl, i), i, n, size, tail);
    }
  }

  lemma EightValues(x: nat)
    requires x < 8
    ensures x < Pow2(3)
  {
    assert Pow2(3) == 8;
  }

  ghost function HeaderBits(nl: nat, nd: nat, nb: nat, cl: seq<nat>): (bits: seq<bool>)
    requires 257 <= nl && 1 <= nd && 4 <= nb <= 19 && SmallSizes(cl)
  {
    LowBits(nl - 257, 5) + (LowBits(nd - 1, 5) + (LowBits(nb - 4, 4) + CodeSizeBits(cl, 0, nb)))
  }

  lemma HeaderRead(nl: nat, nd: nat, nb: nat, cl: seq<nat>, rest: seq<bool>)
    requires 257 <= nl <= 288 && 1 <= nd <= 32 && 4 <= nb <= 19 && SmallSizes(cl) && SentUpTo(cl, nb)
    ensures ReadHeader(HeaderBits(nl, nd, nb, cl) + rest) == Got(Header(nl, nd, cl), rest)
  {
    hide LowBits, GetBits, CodeSizeBits, ReadCodeSizes, Pow2;
    var sizes := CodeSizeBits(cl, 0, nb) + rest;
    var b3 := LowBits(nb - 4, 4) + sizes;
    var b2 := LowBits(nd - 1, 5) + b3;
    assert HeaderBits(nl, nd, nb, cl) + rest == LowBits(nl - 257, 5) + b2;
    HeaderRanges();
    GetPut(nl - 257, 5, b2);
    GetPut(nd - 1, 5, b3);
    GetPut(nb - 4, 4, sizes);
    assert ReadSoFar(cl, 0) == Zeros(19);
    CodeSizesRead(cl, 0, nb, rest);
  }

  lemma HeaderRanges()
    ensures Pow2(5) == 32 && Pow2(4) == 16
  {
    Pow2Values();
  }

  // ---------- the whole block ----------

  /** What the compressor sends, after the two bits that announce dynamic codes. */
  datatype Block = Block(nb: nat, cl: seq<nat>, syms: seq<Rle.Sym>, lit: seq<nat>, dist: seq<nat>, toks: seq<Token>)

  ghost predicate Sendable(b: Block)
  {
    && 257 <= |b.lit| <= 286 && 1 <= |b.dist| <= 30 && 4 <= b.nb <= 19
    && InflateTable.Acceptable(b.lit) && InflateTable.Acceptable(b.dist) && InflateTable.Acceptable(b.cl)
    && SmallSizes(b.cl) && SentUpTo(b.cl, b.nb)
    && Rle.Valid(b.syms) && SymsCoded(b.cl, b.syms) && Rle.Meaning(b.syms) == b.lit + b.dist
    && AllCoded(b.lit, b.dist, b.toks) && Used(b.lit, 256)
  }

  ghost function BlockBits(b: Block): (bits: seq<bool>)
    requires Sendable(b)
  {
    HeaderBits(|b.lit|, |b.dist|, b.nb, b.cl) + (SymsCode(b.cl, b.syms)
    + (TokensCode(b.lit, b.dist, b.toks) + CodeBits(b.lit, 256)))
  }

  /** Whatever follows the block, the inflater reads exactly its tokens and stops exactly behind it. */
  lemma BlockRead(b: Block, rest: seq<bool>)
    requires Sendable(b)
    ensures ReadBlock(BlockBits(b) + rest) == Got(ItemsOf(b.toks), rest)
  {
    hide HeaderBits, SymsCode, TokensCode, CodeBits, ReadHeader, ReadLengths, ReadItems, InflateTable.Acceptable,
         SmallSizes, SentUpTo, SymsCoded, AllCoded, Used, Rle.Valid, Rle.Meaning, ItemsOf;
    var header, syms := HeaderBits(|b.lit|, |b.dist|, b.nb, b.cl), SymsCode(b.cl, b.syms);
    var body, end := TokensCode(b.lit, b.dist, b.toks), CodeBits(b.lit, 256);
    var r2 := body + (end + rest);
    assert BlockBits(b) + rest == header + (syms + r2);
    HeaderRead(|b.lit|, |b.dist|, b.nb, b.cl, syms + r2);
    AllLengthsRead(b.cl, b.syms, r2);
    assert (b.lit + b.dist)[..|b.lit|] == b.lit && (b.lit + b.dist)[|b.lit|..] == b.dist;
    TokensRead(b.lit, b.dist, b.toks, rest);
  }

  lemma AllLengthsRead(cl: seq<nat>, syms: seq<Rle.Sym>, rest: seq<bool>)
    requires InflateTable.Acceptable(cl) && Rle.Valid(syms) && SymsCoded(cl, syms)
    ensures ReadLengths(cl, |Rle.Meaning(syms)|, [], SymsCode(cl, syms) + rest) == Got(Rle.Meaning(syms), rest)
  {
    LengthsRead(cl, syms, 0, rest);
    assert syms[..0] == [] && syms[0..] == syms;
  }
}
