/**
 Writing a block with dynamic codes (qqwry/miniz.c, tdefl_start_dynamic_block, tdefl_compress_block): the symbol
 statistics become code lengths, the lengths are packed and sent with a code of their own, and the recorded tokens
 follow. The result is a block from which the inflater recovers the tokens.
 */
module BlockWriter {
  import opened Bits
  import opened Canonical
  import opened InflateBlock
  import opened DeflateBlock
  import opened LzTokens
  import opened LzCounts
  import BitWriter
  import HeaderFormat
  import HuffmanTable
  import HuffmanAgreement
  import InflateTable
  import LzBuffer
  import LzEmit
  import Rle = CodeLengthRle

  // ---------- tables ----------

  /** Builds a table in fresh arrays. */
  method BuildTable(counts: seq<nat>, limit: nat) returns (sizes: seq<nat>, codes: seq<nat>)
    requires |counts| <= HuffmanTable.MAX_SYMBOLS && HuffmanTable.Total(counts) < 65536 && 1 <= limit <= 15
    requires |HuffmanTable.UsedSyms(counts)| <= Pow2(limit)
    ensures |sizes| == |codes| == |counts| && HuffmanTable.LengthsFor(counts, sizes, limit)
    ensures HuffmanTable.CodesFor(sizes, codes) && InflateTable.Acceptable(sizes)
    ensures LzEmit.CodesFit(sizes, codes, |counts|)
  {
    hide HuffmanTable.LengthsFor, HuffmanTable.KeepsMinimum, HuffmanTable.CodesFor, HuffmanTable.Total,
         InflateTable.Acceptable, LzEmit.CodesFit;
    var sizesOf, codesOf := new nat[HuffmanTable.MAX_SYMBOLS], new nat[HuffmanTable.MAX_SYMBOLS];
    HuffmanTable.OptimizeTable(counts, sizesOf, codesOf, limit);
    sizes, codes := sizesOf[..|counts|], codesOf[..|counts|];
    HuffmanAgreement.TableAccepted(counts, sizes, limit);
    ShorterCodes(sizes, codesOf[..], codes);
    assert forall c :: 0 <= c < |counts| ==> sizes[c] == sizesOf[c] && codes[c] == codesOf[c];
    SizesAreSmall(counts, sizes, limit);
    CodesAreSmall(sizes, codes);
  }

  lemma ShorterCodes(sizes: seq<nat>, all: seq<nat>, codes: seq<nat>)
    requires HuffmanTable.CodesFor(sizes, all) && |sizes| <= |all| && codes == all[..|sizes|]
    ensures HuffmanTable.CodesFor(sizes, codes)
  {
  }

  lemma SizesAreSmall(counts: seq<nat>, sizes: seq<nat>, limit: nat)
    requires HuffmanTable.LengthsFor(counts, sizes, limit) && limit <= 15
    ensures forall c :: 0 <= c < |sizes| ==> sizes[c] <= 15
  {
  }

  lemma CodesAreSmall(sizes: seq<nat>, codes: seq<nat>)
    requires |sizes| == |codes| && HuffmanTable.CodesFor(sizes, codes) && forall c :: 0 <= c < |sizes| ==>
             sizes[c] <= 15
    requires forall c :: 0 <= c < |sizes| && sizes[c] == 0 ==> codes[c] == 0
    ensures LzEmit.CodesFit(sizes, codes, |sizes|)
  {
    hide CodeBits;
  }

  /** Stored codes are written as the codes of their symbols. */
  lemma StoredBits(sizes: seq<nat>, codes: seq<nat>, s: nat)
    requires HuffmanTable.CodesFor(sizes, codes) && Used(sizes, s)
    ensures LowBits(codes[s], sizes[s]) == CodeBits(sizes, s)
  {
    hide LowBits, CodeBits, Val;
    LowBitsVal(CodeBits(sizes, s));
  }

  // ---------- the code-length code ----------

  ghost function Tallies(syms: seq<Rle.Sym>): (counts: seq<nat>)
    ensures |counts| == 19
  {
    seq(19, c requires 0 <= c < 19 => Rle.Tally(syms, c))
  }

  lemma {:induction false} TotalTallies(syms: seq<Rle.Sym>)
    requires forall i :: 0 <= i < |syms| ==> syms[i].code < 19
    ensures HuffmanTable.Total(Tallies(syms)) == |syms|
  {
    if syms == [] {
      TotalOfZeros(Tallies(syms));
    } else {
      hide HuffmanTable.Total;
      var k := |syms| - 1;
      var c, counts := syms[k].code, Tallies(syms[..k]);
      TotalTallies(syms[..k]);
      TotalOneMore(counts, c);
      assert Tallies(syms) == counts[c := counts[c] + 1];
    }
  }

  lemma {:induction false} TalliedOnce(syms: seq<Rle.Sym>, i: nat)
    requires i < |syms|
    ensures Rle.Tally(syms, syms[i].code) >= 1
  {
    var k := |syms| - 1;
    if i < k {
      TalliedOnce(syms[..k], i);
    }
  }

  lemma LengthCounts(lens: seq<nat>, p: seq<nat>, counts: seq<nat>, syms: seq<Rle.Sym>)
    requires Rle.Emitted(p, counts, syms) && Rle.Meaning(syms) == lens && |lens| <= 320
    ensures HuffmanTable.Total(counts) < 65536 && |HuffmanTable.UsedSyms(counts)| <= Pow2(7)
  {
    assert counts == Tallies(syms);
    TotalTallies(syms);
    Pow2Values();
  }

  lemma LengthsAreCoded(p: seq<nat>, counts: seq<nat>, syms: seq<Rle.Sym>, cl: seq<nat>)
    requires Rle.Emitted(p, counts, syms) && HuffmanTable.LengthsFor(counts, cl, 7)
    ensures SymsCoded(cl, syms) && SmallSizes(cl)
  {
    hide HuffmanTable.UsedSyms, Complete, Rle.Flat;
    forall i | 0 <= i < |syms|
      ensures Used(cl, syms[i].code)
    {
      TalliedOnce(syms, i);
    }
  }

  /** Packs the lengths and builds the code to send them with. */
  method PackLengths(lens: seq<nat>) returns (cl: seq<nat>, codes: seq<nat>, packed: seq<nat>, ghost syms: seq<Rle.Sym>)
    requires |lens| <= 320 && forall i :: 0 <= i < |lens| ==> lens[i] < 16
    ensures |cl| == |codes| == 19 && SmallSizes(cl) && InflateTable.Acceptable(cl) && HuffmanTable.CodesFor(cl, codes)
    ensures LzEmit.CodesFit(cl, codes, 19)
    ensures Rle.Valid(syms) && packed == Rle.Flat(syms) && Rle.Meaning(syms) == lens && SymsCoded(cl, syms)
  {
    hide Rle.Emitted, HuffmanTable.LengthsFor, HuffmanTable.Total, HuffmanTable.UsedSyms, InflateTable.Acceptable,
         HuffmanTable.CodesFor, SmallSizes, SymsCoded, Pow2;
    var bytes, counts := new nat[320], new nat[19];
    var n;
    n, syms := Rle.Pack(lens, bytes, counts);
    packed := bytes[..n];
    Rle.EmittedValid(packed, counts[..], syms);
    PackedBytes(packed, counts[..], syms);
    LengthCounts(lens, packed, counts[..], syms);
    cl, codes := BuildTable(counts[..], 7);
    LengthsAreCoded(packed, counts[..], syms, cl);
  }

  lemma PackedBytes(p: seq<nat>, counts: seq<nat>, syms: seq<Rle.Sym>)
    requires Rle.Emitted(p, counts, syms)
    ensures p == Rle.Flat(syms) && |counts| == 19
  {
  }

  /** How many lengths of the code-length code are sent. */
  method CountSent(cl: seq<nat>) returns (nb: nat)
    requires |cl| == 19
    ensures 4 <= nb <= 19 && SentUpTo(cl, nb) && (nb > 4 ==> cl[HeaderFormat.Order(nb - 1)] != 0)
  {
    var i := 18;
    while i >= 0
      invariant -1 <= i <= 18
      invariant forall c :: 0 <= c < 19 && PLACE[c] > i ==> cl[c] == 0
    {
      Places(i, DEZIGZAG[i]);
      HeaderFormat.OrderIsSent(i);
      if cl[DEZIGZAG[i]] != 0 {
        break;
      }
      forall c | 0 <= c < 19 && PLACE[c] > i - 1
        ensures cl[c] == 0
      {
        Places(i, c);
      }
      i := i - 1;
    }
    nb := if i + 1 < 4 then 4 else i + 1;
  }

  // ---------- sending the header ----------

  method PutCodeSizes(w: BitWriter.Writer, nb: nat, cl: seq<nat>)
    requires w.Valid() && nb <= 19 && SmallSizes(cl)
    modifies w, w.out
    ensures w.Valid() && BitWriter.Grown(old(w.out[..]), old(w.pos), w.out[..], w.pos)
    ensures w.pos < w.end ==> w.Stream() == old(w.Stream()) + CodeSizeBits(cl, 0, nb)
  {
    hide LowBits, BitWriter.BitsOf, Pow2, CodeSizeBits;
    ghost var goal := w.Stream() + CodeSizeBits(cl, 0, nb);
    for i := 0 to nb
      invariant w.Valid() && BitWriter.Grown(old(w.out[..]), old(w.pos), w.out[..], w.pos)
      invariant w.pos < w.end ==> w.Stream() + CodeSizeBits(cl, i, nb) == goal
    {
      CodeSizeStep(cl, i, nb);
      EightValues(cl[DEZIGZAG[i]]);
      ghost var before, bits, tail := w.Stream(), LowBits(cl[DEZIGZAG[i]], 3), CodeSizeBits(cl, i + 1, nb);
      assert before + bits + tail == before + (bits + tail);
      w.PutBits(cl[DEZIGZAG[i]], 3);
    }
    NoMoreSizes(cl, nb, w.Stream());
  }

  lemma NoMoreSizes(cl: seq<nat>, n: nat, stream: seq<bool>)
    requires SmallSizes(cl) && n <= 19
    ensures stream + CodeSizeBits(cl, n, n) == stream
  {
  }

  method PutHeader(w: BitWriter.Writer, nl: nat, nd: nat, nb: nat, cl: seq<nat>)
    requires w.Valid() && 257 <= nl <= 288 && 1 <= nd <= 32 && 4 <= nb <= 19 && SmallSizes(cl)
    modifies w, w.out
    ensures w.Valid() && BitWriter.Grown(old(w.out[..]), old(w.pos), w.out[..], w.pos)
    ensures w.pos < w.end ==> w.Stream() == old(w.Stream()) + HeaderBits(nl, nd, nb, cl)
  {
    hide LowBits, BitWriter.BitsOf, Pow2, CodeSizeBits, SmallSizes;
    HeaderRanges();
    ghost var s, a, b, c, e := w.Stream(), LowBits(nl - 257, 5), LowBits(nd - 1, 5), LowBits(nb - 4, 4), CodeSizeBits(cl, 0, nb);
    assert s + a + b + c + e == s + (a + (b + (c + e)));
    w.PutBits(nl - 257, 5);
    w.PutBits(nd - 1, 5);
    w.PutBits(nb - 4, 4);
    PutCodeSizes(w, nb, cl);
  }

  method PutSymbol(w: BitWriter.Writer, sizes: seq<nat>, codes: seq<nat>, s: nat)
    requires w.Valid() && HuffmanTable.CodesFor(sizes, codes) && LzEmit.CodesFit(sizes, codes, |sizes|)
             && Used(sizes, s)
    modifies w, w.out
    ensures w.Valid() && BitWriter.Grown(old(w.out[..]), old(w.pos), w.out[..], w.pos)
    ensures w.pos < w.end ==> w.Stream() == old(w.Stream()) + CodeBits(sizes, s)
  {
    hide LowBits, BitWriter.BitsOf, CodeBits, HuffmanTable.CodesFor, Pow2;
    StoredBits(sizes, codes, s);
    w.PutBits(codes[s], sizes[s]);
  }

  /** Sends the packed lengths: each code, and from 16 on its extra bits. */
  method PutLengths(w: BitWriter.Writer, cl: seq<nat>, codes: seq<nat>, packed: seq<nat>, ghost syms: seq<Rle.Sym>)
    requires w.Valid() && |cl| == 19 && HuffmanTable.CodesFor(cl, codes) && LzEmit.CodesFit(cl, codes, 19)
    requires Rle.Valid(syms) && packed == Rle.Flat(syms) && SymsCoded(cl, syms)
    modifies w, w.out
    ensures w.Valid() && BitWriter.Grown(old(w.out[..]), old(w.pos), w.out[..], w.pos)
    ensures w.pos < w.end ==> w.Stream() == old(w.Stream()) + SymsCode(cl, syms)
  {
    hide LowBits, BitWriter.BitsOf, CodeBits, HuffmanTable.CodesFor, LzEmit.CodesFit, Rle.Flat, Rle.WellFormed, SymCode;
    var i := 0;
    ghost var k, goal := 0, w.Stream() + SymsCode(cl, syms);
    assert packed[0..] == packed && syms[0..] == syms;
    while i < |packed|
      invariant 0 <= i <= |packed| && 0 <= k <= |syms| && packed[i..] == Rle.Flat(syms[k..])
      invariant w.Valid() && BitWriter.Grown(old(w.out[..]), old(w.pos), w.out[..], w.pos)
      invariant w.pos < w.end ==> w.Stream() + SymsCode(cl, syms[k..]) == goal
      decreases |packed| - i
    {
      Rle.ReadStep(packed, i, syms, k);
      NextSym(cl, syms, k);
      var code := packed[i];
      PutSymbol(w, cl, codes, code);
      if code >= 16 {
        SymParts(cl, syms[k]);
        w.PutBits(packed[i + 1], ExtraBits(code));
        i := i + 2;
      } else {
        SymParts(cl, syms[k]);
        i := i + 1;
      }
      k := k + 1;
    }
    Rle.FlatFront(syms[k..]);
  }

  lemma NextSym(cl: seq<nat>, syms: seq<Rle.Sym>, k: nat)
    requires k < |syms| && SymsCoded(cl, syms) && Rle.Valid(syms)
    ensures Used(cl, syms[k].code) && Rle.WellFormed(syms[k])
    ensures SymsCode(cl, syms[k..]) == SymCode(cl, syms[k]) + SymsCode(cl, syms[k + 1..])
  {
    assert syms[k..][1..] == syms[k + 1..];
  }

  lemma SymParts(cl: seq<nat>, t: Rle.Sym)
    requires Used(cl, t.code) && Rle.WellFormed(t)
    ensures t.code < 16 ==> SymCode(cl, t) == CodeBits(cl, t.code)
    ensures t.code >= 16 ==> SymCode(cl, t) == CodeBits(cl, t.code) + LowBits(t.extra, ExtraBits(t.code))
    ensures t.code >= 16 ==> t.extra < Pow2(ExtraBits(t.code)) && ExtraBits(t.code) <= 16
  {
    if t.code >= 16 {
      ExtraFits(t);
    }
  }

  // ---------- the block ----------

  lemma {:induction false} NotTallied(toks: seq<Token>, s: nat)
    requires forall i :: 0 <= i < |toks| ==> WellFormed(toks[i])
    ensures s >= 286 ==> LitTally(toks, s) == 0
    ensures s >= 30 ==> DistTally(toks, s) == 0
  {
    hide LenSym, DistSym;
    if toks != [] {
      NotTallied(toks[..|toks| - 1], s);
      LitSymRange(toks[|toks| - 1]);
    }
  }

  /** No length is given to the symbols that the format reserves. */
  lemma ReservedUnused(toks: seq<Token>, lit: seq<nat>, dist: seq<nat>, litSizes: seq<nat>, distSizes: seq<nat>)
    requires Counted(toks, lit, dist) && forall i :: 0 <= i < |toks| ==> WellFormed(toks[i])
    requires HuffmanTable.LengthsFor(lit[END_OF_BLOCK := 1], litSizes, 15)
             && HuffmanTable.LengthsFor(dist, distSizes, 15)
    ensures ZeroFrom(litSizes, 286) && ZeroFrom(distSizes, 30) && Used(litSizes, 256)
  {
    hide HuffmanTable.UsedSyms, HuffmanTable.Total, Complete, LitTally, DistTally;
    forall s | 286 <= s < |litSizes|
      ensures litSizes[s] == 0
    {
      NotTallied(toks, s);
    }
    forall s | 30 <= s < |distSizes|
      ensures distSizes[s] == 0
    {
      NotTallied(toks, s);
    }
    assert lit[END_OF_BLOCK := 1][256] == 1;
  }

  lemma RoomForSymbols(counts: seq<nat>)
    requires |counts| <= 288
    ensures |HuffmanTable.UsedSyms(counts)| <= Pow2(15)
  {
    hide Pow2;
    Pow2Values();
  }

  /** The two tables, cut to the lengths that are sent. */
  ghost predicate SentTables(t: LzEmit.Tables, nl: nat, nd: nat)
  {
    && LzEmit.Usable(t) && ZeroFrom(t.litSizes, nl) && ZeroFrom(t.distSizes, nd)
    && HuffmanTable.CodesFor(t.litSizes, t.litCodes) && HuffmanTable.CodesFor(t.distSizes, t.distCodes)
  }

  lemma SameToken(t: LzEmit.Tables, nl: nat, nd: nat, tok: Token)
    requires SentTables(t, nl, nd) && Coded(t.litSizes, t.distSizes, tok)
    ensures Coded(t.litSizes[..nl], t.distSizes[..nd], tok)
    ensures LzEmit.TokenBits(t, tok) == TokenCode(t.litSizes[..nl], t.distSizes[..nd], tok)
  {
    hide LowBits, Low, CodeBits, LenSym, LenExtra, DistSym, DistExtra, HuffmanTable.CodesFor, ZeroFrom;
    LitSymRange(tok);
    TrimCode(t.litSizes, nl, LitSym(tok));
    StoredBits(t.litSizes, t.litCodes, LitSym(tok));
    if tok.Match? {
      TrimCode(t.distSizes, nd, DistSym(tok.dist));
      StoredBits(t.distSizes, t.distCodes, DistSym(tok.dist));
    }
  }

  /** Both ways to write the tokens down agree. */
  lemma {:induction false} SameTokens(t: LzEmit.Tables, nl: nat, nd: nat, toks: seq<Token>)
    requires SentTables(t, nl, nd) && AllCoded(t.litSizes, t.distSizes, toks) && LzEmit.AllWellFormed(toks)
    ensures AllCoded(t.litSizes[..nl], t.distSizes[..nd], toks)
    ensures LzEmit.TokensBits(t, toks) == TokensCode(t.litSizes[..nl], t.distSizes[..nd], toks)
  {
    hide SentTables, LzEmit.TokenBits, TokenCode, Coded, WellFormed;
    if toks != [] {
      UsableTables(t, nl, nd);
      SameTokens(t, nl, nd, toks[1..]);
      SameToken(t, nl, nd, toks[0]);
    } else {
      UsableTables(t, nl, nd);
    }
  }

  lemma UsableTables(t: LzEmit.Tables, nl: nat, nd: nat)
    requires SentTables(t, nl, nd)
    ensures LzEmit.Usable(t) && nl <= |t.litSizes| && nd <= |t.distSizes|
  {
  }

  lemma TokensAreCoded(toks: seq<Token>, lit: seq<nat>, dist: seq<nat>, litSizes: seq<nat>, distSizes: seq<nat>)
    requires Counted(toks, lit, dist) && forall i :: 0 <= i < |toks| ==> WellFormed(toks[i])
    requires HuffmanTable.LengthsFor(lit[END_OF_BLOCK := 1], litSizes, 15)
             && HuffmanTable.LengthsFor(dist, distSizes, 15)
    ensures AllCoded(litSizes, distSizes, toks)
  {
    hide HuffmanTable.UsedSyms, HuffmanTable.Total, Complete, LitTally, DistTally, LenSym, DistSym, WellFormed;
    forall i | 0 <= i < |toks|
      ensures Coded(litSizes, distSizes, toks[i])
    {
      LitSymRange(toks[i]);
      SymbolsHaveCodes(toks, lit, dist, litSizes, distSizes, i);
    }
  }

  /** A stream that has grown by a block, and what the inflater makes of that block. */
  ghost predicate Delivers(before: seq<bool>, after: seq<bool>, toks: seq<Token>)
  {
    exists body: seq<bool> :: after == before + (LowBits(2, 2) + body) && ReadsAs(body, toks)
  }

  /** Whatever follows, the inflater reads the tokens and stops where the block ends. */
  ghost predicate ReadsAs(body: seq<bool>, toks: seq<Token>)
  {
    forall rest: seq<bool> :: ReadBlock(body + rest) == Got(ItemsOf(toks), rest)
  }

  /** The stream has grown by a block in the format of section 3.2.7 of RFC 1951. */
  ghost predicate Formatted(before: seq<bool>, after: seq<bool>, toks: seq<Token>)
  {
    exists b: Block :: Sendable(b) && b.toks == toks && HeaderFormat.SentAs(b, before, after)
  }

  lemma BlockDelivers(b: Block, before: seq<bool>, after: seq<bool>)
    requires Sendable(b) && after == before + (LowBits(2, 2) + BlockBits(b))
    ensures Delivers(before, after, b.toks) && Formatted(before, after, b.toks)
  {
    hide BlockBits, HeaderFormat.SentAs, Sendable, ReadBlock, LowBits, ItemsOf;
    forall rest: seq<bool>
      ensures ReadBlock(BlockBits(b) + rest) == Got(ItemsOf(b.toks), rest)
    {
      BlockRead(b, rest);
    }
    assert ReadsAs(BlockBits(b), b.toks);
    HeaderFormat.BlockIsFormatted(b, before, after);
  }

  lemma BlockIsSendable(t: LzEmit.Tables, nl: nat, nd: nat, nb: nat, cl: seq<nat>, syms: seq<Rle.Sym>, toks: seq<Token>)
    requires SentTables(t, nl, nd) && 257 <= nl <= 286 && 1 <= nd <= 30 && 4 <= nb <= 19
    requires InflateTable.Acceptable(t.litSizes) && InflateTable.Acceptable(t.distSizes) && InflateTable.Acceptable(cl)
    requires SmallSizes(cl) && SentUpTo(cl, nb) && Rle.Valid(syms) && SymsCoded(cl, syms)
    requires Rle.Meaning(syms) == t.litSizes[..nl] + t.distSizes[..nd]
    requires AllCoded(t.litSizes, t.distSizes, toks) && Used(t.litSizes, 256) && LzEmit.AllWellFormed(toks)
    ensures Sendable(Block(nb, cl, syms, t.litSizes[..nl], t.distSizes[..nd], toks))
    ensures LzEmit.TokensBits(t, toks) == TokensCode(t.litSizes[..nl], t.distSizes[..nd], toks)
    ensures LzEmit.LitBits(t, 256) == CodeBits(t.litSizes[..nl], 256)
  {
    hide InflateTable.Acceptable, SmallSizes, SentUpTo, Rle.Valid, Rle.Meaning, SymsCoded, AllCoded, CodeBits, LowBits,
         LzEmit.TokensBits, TokensCode, LzEmit.AllWellFormed, HuffmanTable.CodesFor, LzEmit.CodesFit, ZeroFrom;
    UsableTables(t, nl, nd);
    TrimAcceptable(t.litSizes, nl);
    TrimAcceptable(t.distSizes, nd);
    SameTokens(t, nl, nd, toks);
    TrimCode(t.litSizes, nl, 256);
    StoredBits(t.litSizes, t.litCodes, 256);
  }

  /** Sends the lengths of both tables. */
  method PutTables(w: BitWriter.Writer, lit: seq<nat>, dist: seq<nat>)
    returns (nl: nat, nd: nat, nb: nat, cl: seq<nat>, ghost syms: seq<Rle.Sym>)
    requires w.Valid() && ZeroFrom(lit, 286) && ZeroFrom(dist, 30)
    requires (forall i :: 0 <= i < |lit| ==> lit[i] <= 15) && (forall i :: 0 <= i < |dist| ==> dist[i] <= 15)
    modifies w, w.out
    ensures w.Valid() && BitWriter.Grown(old(w.out[..]), old(w.pos), w.out[..], w.pos)
    ensures 257 <= nl <= 286 && ZeroFrom(lit, nl) && 1 <= nd <= 30 && ZeroFrom(dist, nd) && 4 <= nb <= 19
    ensures (nl > 257 ==> lit[nl - 1] != 0) && (nd > 1 ==> dist[nd - 1] != 0)
    ensures |cl| == 19 && (nb > 4 ==> cl[HeaderFormat.Order(nb - 1)] != 0)
    ensures SmallSizes(cl) && SentUpTo(cl, nb) && InflateTable.Acceptable(cl)
    ensures Rle.Valid(syms) && SymsCoded(cl, syms) && Rle.Meaning(syms) == lit[..nl] + dist[..nd]
    ensures w.pos < w.end ==> w.Stream() == old(w.Stream()) + (LowBits(2, 2) + (HeaderBits(nl, nd, nb, cl) + SymsCode(cl, syms)))
  {
    hide LowBits, BitWriter.BitsOf, Pow2, HeaderBits, SymsCode, SmallSizes, SentUpTo, InflateTable.Acceptable,
         SymsCoded,
         HuffmanTable.CodesFor, LzEmit.CodesFit, Rle.Valid, Rle.Meaning, Rle.Flat;
    nl := Trim(lit, 257, 286);
    nd := Trim(dist, 1, 30);
    var codes, packed;
    cl, codes, packed, syms := PackLengths(lit[..nl] + dist[..nd]);
    nb := CountSent(cl);
    TwoFits();
    ghost var before, header, body := w.Stream(), HeaderBits(nl, nd, nb, cl), SymsCode(cl, syms);
    w.PutBits(2, 2);
    PutHeader(w, nl, nd, nb, cl);
    PutLengths(w, cl, codes, packed, syms);
    assert before + LowBits(2, 2) + header + body == before + (LowBits(2, 2) + (header + body));
  }

  lemma TwoFits()
    ensures 2 < Pow2(2)
  {
    assert Pow2(2) == 4;
  }

  /**
   Writes the packed tokens as a block with dynamic codes, with the plain or the unrolled token writer. If the output
   has room, the stream grows by a block that the inflater reads as exactly those tokens, whatever follows it, and whose
   header holds the lengths of the code-length code in the order of the format.
   */
  method WriteDynamic(w: BitWriter.Writer, litCount: array<nat>, distCount: array<nat>, bytes: seq<nat>, fast: bool,
                      ghost groups: seq<seq<Token>>, ghost toks: seq<Token>)
    returns (ok: bool)
    requires w.Valid() && litCount != distCount
    requires Counted(toks, litCount[..], distCount[..]) && |toks| <= MAX_TOKENS
    requires bytes == LzBuffer.Stored(groups) && LzBuffer.Grouped(groups) && LzBuffer.Concat(groups) == toks
    modifies litCount, w, w.out
    ensures w.Valid() && BitWriter.Grown(old(w.out[..]), old(w.pos), w.out[..], w.pos)
    ensures ok ==> w.pos < w.end && Delivers(old(w.Stream()), w.Stream(), toks)
    ensures ok ==> Formatted(old(w.Stream()), w.Stream(), toks)
    ensures !fast ==> (ok <==> w.pos < w.end)
  {
    hide LowBits, BitWriter.BitsOf, Pow2, HeaderBits, SymsCode, SmallSizes, SentUpTo, InflateTable.Acceptable,
         SymsCoded,
         HuffmanTable.CodesFor, LzEmit.CodesFit, Rle.Valid, Rle.Meaning, HuffmanTable.LengthsFor, Counted, WellFormed,
         HuffmanTable.Total, LzEmit.TokensBits, TokensCode, LzEmit.LitBits, CodeBits, Delivers, Formatted, AllCoded,
         ZeroFrom,
         LzBuffer.Grouped, LzBuffer.Stored, LzBuffer.Concat;
    ghost var before, lits, dists := w.Stream(), litCount[..], distCount[..];
    LzEmit.GroupsWellFormed(groups);
    CountsFit(toks, lits, dists);
    CountedShape(toks, lits, dists);
    litCount[END_OF_BLOCK] := 1;
    assert litCount[..] == lits[END_OF_BLOCK := 1] && distCount[..] == dists;
    RoomForSymbols(litCount[..]);
    RoomForSymbols(distCount[..]);
    var lit, litCodes := BuildTable(litCount[..], 15);
    var dist, distCodes := BuildTable(distCount[..], 15);
    ReservedUnused(toks, lits, dists, lit, dist);
    TokensAreCoded(toks, lits, dists, lit, dist);
    SizesAreSmall(lits[END_OF_BLOCK := 1], lit, 15);
    SizesAreSmall(dists, dist, 15);
    var nl, nd, nb, cl;
    ghost var syms;
    nl, nd, nb, cl, syms := PutTables(w, lit, dist);
    var t := LzEmit.Tables(lit, litCodes, dist, distCodes);
    ghost var middle := w.Stream();
    if fast {
      ok := LzEmit.CompressFast(w, t, bytes, groups);
    } else {
      ok := LzEmit.Compress(w, t, bytes, groups);
    }
    BlockIsSendable(t, nl, nd, nb, cl, syms, toks);
    if ok {
      FinishBlock(t, nl, nd, nb, cl, syms, toks, before, middle, w.Stream());
    }
  }

  lemma FinishBlock(t: LzEmit.Tables, nl: nat, nd: nat, nb: nat, cl: seq<nat>, syms: seq<Rle.Sym>, toks: seq<Token>,
                    before: seq<bool>, middle: seq<bool>, after: seq<bool>)
    requires LzEmit.Usable(t) && nl <= |t.litSizes| && nd <= |t.distSizes| && LzEmit.AllWellFormed(toks)
    requires Sendable(Block(nb, cl, syms, t.litSizes[..nl], t.distSizes[..nd], toks))
    requires LzEmit.TokensBits(t, toks) == TokensCode(t.litSizes[..nl], t.distSizes[..nd], toks)
    requires LzEmit.LitBits(t, 256) == CodeBits(t.litSizes[..nl], 256)
    requires middle == before + (LowBits(2, 2) + (HeaderBits(nl, nd, nb, cl) + SymsCode(cl, syms)))
    requires after == middle + LzEmit.TokensBits(t, toks) + LzEmit.LitBits(t, 256)
    ensures Delivers(before, after, toks) && Formatted(before, after, toks)
  {
    hide LowBits, Formatted, HeaderBits, SymsCode, TokensCode, CodeBits, LzEmit.TokensBits, LzEmit.LitBits, Delivers, Pow2,
         AllCoded, InflateTable.Acceptable, SmallSizes, SentUpTo, SymsCoded, Rle.Valid, Rle.Meaning, LzEmit.AllWellFormed;
    var b := Block(nb, cl, syms, t.litSizes[..nl], t.distSizes[..nd], toks);
    var h, s, k, e := HeaderBits(nl, nd, nb, cl), SymsCode(cl, syms), LzEmit.TokensBits(t, toks), LzEmit.LitBits(t, 256);
    assert before + (LowBits(2, 2) + (h + s)) + k + e == before + (LowBits(2, 2) + (h + (s + (k + e))));
    BlockDelivers(b, before, after);
  }

  lemma CountedShape(toks: seq<Token>, lit: seq<nat>, dist: seq<nat>)
    requires Counted(toks, lit, dist)
    ensures |lit| == 288 && |dist| == 32
  {
  }
}
