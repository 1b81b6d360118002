/**
 Blocks with fixed codes (section 3.2.6 of RFC 1951; qqwry/miniz.c, tdefl_start_static_block): the codes are complete,
 every token has a code, and the block is never much longer than the packed tokens.
 */
module StaticBlock {
  import opened Bits
  import opened Canonical
  import opened InflateBlock
  import opened DeflateBlock
  import opened LzTokens
  import opened LzCounts
  import opened StreamSpec
  import BitWriter
  import BlockWriter
  import HuffmanTable
  import InflateTable
  import LzBuffer
  import LzEmit

  function Clamp(x: int, hi: nat): (r: nat)
  {
    if x < 0 then 0 else if x < hi then x else hi
  }

  lemma {:induction false} CountLit(n: nat, l: nat)
    requires n <= 288
    ensures Count(StaticLit()[..n], l)
         == if l == 8 then Clamp(n, 144) + Clamp(n - 280, 8)
            else if l == 9 then Clamp(n - 144, 112)
            else if l == 7 then Clamp(n - 256, 24)
            else 0
  {
    if n > 0 {
      CountLit(n - 1, l);
      assert StaticLit()[..n][..n - 1] == StaticLit()[..n - 1];
    }
  }

  lemma {:induction false} CountDist(n: nat, l: nat)
    requires n <= 32
    ensures Count(StaticDist()[..n], l) == if l == 5 then n else 0
  {
    if n > 0 {
      CountDist(n - 1, l);
      assert StaticDist()[..n][..n - 1] == StaticDist()[..n - 1];
    }
  }

  /** The fixed codes use up the code space. */
  lemma StaticAcceptable()
    ensures InflateTable.Acceptable(StaticLit()) && InflateTable.Acceptable(StaticDist())
  {
    assert StaticLit()[..288] == StaticLit() && StaticDist()[..32] == StaticDist();
    LitSpace();
    DistSpace();
    Pow2Values();
    assert Pow2(15) == 32768;
  }

  lemma LitEnd(l: nat)
    requires l > 0
    ensures End(StaticLit(), l) == 2 * End(StaticLit(), l - 1) + if l == 8 then 152 else if l == 9 then 112 else if l == 7 then 24 else 0
  {
    CountLit(288, l);
    assert StaticLit()[..288] == StaticLit();
  }

  lemma LitSpace()
    ensures End(StaticLit(), 15) == 32768
  {
    hide End;
    NoCodes(StaticLit());
    LitEnd(1); LitEnd(2); LitEnd(3); LitEnd(4); LitEnd(5); LitEnd(6); LitEnd(7); LitEnd(8);
    LitEnd(9); LitEnd(10); LitEnd(11); LitEnd(12); LitEnd(13); LitEnd(14); LitEnd(15);
  }

  lemma DistEnd(l: nat)
    requires l > 0
    ensures End(StaticDist(), l) == 2 * End(StaticDist(), l - 1) + if l == 5 then 32 else 0
  {
    CountDist(32, l);
    assert StaticDist()[..32] == StaticDist();
  }

  lemma DistSpace()
    ensures End(StaticDist(), 15) == 32768
  {
    hide End;
    NoCodes(StaticDist());
    DistEnd(1); DistEnd(2); DistEnd(3); DistEnd(4); DistEnd(5); DistEnd(6); DistEnd(7); DistEnd(8);
    DistEnd(9); DistEnd(10); DistEnd(11); DistEnd(12); DistEnd(13); DistEnd(14); DistEnd(15);
  }

  lemma NoCodes(sizes: seq<nat>)
    ensures End(sizes, 0) == 0
  {
  }

  // ---------- the tables ----------

  method StaticTables() returns (t: LzEmit.Tables)
    ensures t.litSizes == StaticLit() && t.distSizes == StaticDist() && LzEmit.Usable(t)
    ensures HuffmanTable.CodesFor(t.litSizes, t.litCodes) && HuffmanTable.CodesFor(t.distSizes, t.distCodes)
  {
    hide HuffmanTable.CodesFor;
    var lit, litCodes := new nat[288], new nat[288];
    for i := 0 to 144
      invariant forall k :: 0 <= k < i ==> lit[k] == 8
    {
      lit[i] := 8;
    }
    for i := 144 to 256
      invariant forall k :: 0 <= k < i ==> lit[k] == StaticLit()[k]
    {
      lit[i] := 9;
    }
    for i := 256 to 280
      invariant forall k :: 0 <= k < i ==> lit[k] == StaticLit()[k]
    {
      lit[i] := 7;
    }
    for i := 280 to 288
      invariant forall k :: 0 <= k < i ==> lit[k] == StaticLit()[k]
    {
      lit[i] := 8;
    }
    var dist, distCodes := new nat[32](_ => 5), new nat[32];
    assert lit[..] == StaticLit() && dist[..] == StaticDist();
    HuffmanTable.StaticTable(lit, litCodes, 288, 15);
    assert lit[..288] == StaticLit() && litCodes[..] == litCodes[..288];
    HuffmanTable.StaticTable(dist, distCodes, 32, 15);
    assert dist[..32] == StaticDist() && lit[..] == StaticLit();
    t := LzEmit.Tables(lit[..], litCodes[..], dist[..], distCodes[..]);
    BlockWriter.CodesAreSmall(t.litSizes, t.litCodes);
    BlockWriter.CodesAreSmall(t.distSizes, t.distCodes);
  }

  // ---------- the size of the tokens ----------

  lemma TokenSize(t: LzEmit.Tables, tok: Token)
    requires t.litSizes == StaticLit() && t.distSizes == StaticDist() && LzEmit.Usable(t) && WellFormed(tok)
    ensures 3 * |LzEmit.TokenBits(t, tok)| <= 31 * |LzBuffer.PayloadOf(tok)|
  {
    hide LenSym, LenExtra, DistSym, DistExtra, Low, LzEmit.Usable;
    LitSymRange(tok);
    LzEmit.UsableShape(t);
    if tok.Match? {
      ExtraSizes(tok.len, tok.dist);
    }
  }

  lemma ExtraSizes(m: nat, d: nat)
    requires WellFormed(Match(m, d))
    ensures |LowBits(Low(m, LenExtra(m)), LenExtra(m))| <= 5 && |LowBits(Low(d, DistExtra(d)), DistExtra(d))| <= 13
    ensures LenSym(m) >= 256 && StaticLit()[LenSym(m)] + LenExtra(m) <= 13
  {
    hide LowBits, Low;
    LengthRecovered(m);
    DistanceRecovered(d);
    LowBitsSize(m, LenExtra(m));
    LowBitsSize(d, DistExtra(d));
  }

  lemma LowBitsSize(v: nat, n: nat)
    ensures |LowBits(Low(v, n), n)| == n
  {
  }

  lemma {:induction false} TokensSize(t: LzEmit.Tables, toks: seq<Token>)
    requires t.litSizes == StaticLit() && t.distSizes == StaticDist() && LzEmit.Usable(t) && LzEmit.AllWellFormed(toks)
    ensures 3 * |LzEmit.TokensBits(t, toks)| <= 31 * |LzBuffer.Payload(toks)|
  {
    hide LzEmit.TokenBits, LzBuffer.PayloadOf, LzEmit.Usable, WellFormed;
    if toks != [] {
      TokensSize(t, toks[1..]);
      TokenSize(t, toks[0]);
    }
  }

  lemma {:induction false} PayloadConcat(a: seq<Token>, b: seq<Token>)
    ensures LzBuffer.Payload(a + b) == LzBuffer.Payload(a) + LzBuffer.Payload(b)
  {
    hide LzBuffer.PayloadOf;
    if a == [] {
      assert a + b == b;
    } else {
      PayloadConcat(a[1..], b);
      assert (a + b)[1..] == a[1..] + b;
    }
  }

  lemma {:induction false} StoredSize(groups: seq<seq<Token>>)
    ensures |LzBuffer.Payload(LzBuffer.Concat(groups))| <= |LzBuffer.Stored(groups)|
  {
    hide LzBuffer.Payload, Val, LzBuffer.Flags;
    if groups == [] {
      LzBuffer.NoTokens();
    } else {
      StoredSize(groups[1..]);
      PayloadConcat(groups[0], LzBuffer.Concat(groups[1..]));
    }
  }

  // ---------- the block ----------

  /** Whatever follows, the inflater reads the tokens and stops where the block ends. */
  ghost predicate ReadsAs(body: seq<bool>, toks: seq<Token>)
  {
    forall rest: seq<bool> :: ReadItems(StaticLit(), StaticDist(), body + rest) == Got(ItemsOf(toks), rest)
  }

  ghost predicate Delivers(before: seq<bool>, after: seq<bool>, toks: seq<Token>)
  {
    exists body: seq<bool> :: after == before + (LowBits(1, 2) + body) && ReadsAs(body, toks)
  }

  /** Every symbol has a fixed code. */
  lemma AllHaveCodes(toks: seq<Token>)
    requires LzEmit.AllWellFormed(toks)
    ensures AllCoded(StaticLit(), StaticDist(), toks) && Used(StaticLit(), 256)
  {
    hide LenSym, DistSym;
    forall i | 0 <= i < |toks|
      ensures Coded(StaticLit(), StaticDist(), toks[i])
    {
      LitSymRange(toks[i]);
    }
  }

  lemma StaticRead(toks: seq<Token>)
    requires LzEmit.AllWellFormed(toks) && AllCoded(StaticLit(), StaticDist(), toks) && Used(StaticLit(), 256)
    ensures ReadsAs(TokensCode(StaticLit(), StaticDist(), toks) + CodeBits(StaticLit(), 256), toks)
  {
    hide TokensCode, CodeBits, ReadItems, ItemsOf, AllCoded, InflateTable.Acceptable, StaticLit, StaticDist, Used,
         LzEmit.AllWellFormed;
    StaticAcceptable();
    var a, b := TokensCode(StaticLit(), StaticDist(), toks), CodeBits(StaticLit(), 256);
    forall rest: seq<bool>
      ensures ReadItems(StaticLit(), StaticDist(), a + b + rest) == Got(ItemsOf(toks), rest)
    {
      TokensRead(StaticLit(), StaticDist(), toks, rest);
      assert a + (b + rest) == a + b + rest;
    }
  }

  lemma FinishStatic(t: LzEmit.Tables, toks: seq<Token>, before: seq<bool>, after: seq<bool>)
    requires t.litSizes == StaticLit() && t.distSizes == StaticDist() && LzEmit.Usable(t) && LzEmit.AllWellFormed(toks)
    requires HuffmanTable.CodesFor(t.litSizes, t.litCodes) && HuffmanTable.CodesFor(t.distSizes, t.distCodes)
    requires after == before + LowBits(1, 2) + LzEmit.TokensBits(t, toks) + LzEmit.LitBits(t, 256)
    ensures Delivers(before, after, toks)
  {
    hide TokensCode, CodeBits, ReadsAs, LzEmit.TokensBits, LowBits, HuffmanTable.CodesFor, LzEmit.AllWellFormed,
         LzEmit.Usable,
         StaticLit, StaticDist, AllCoded;
    AllHaveCodes(toks);
    LzEmit.UsableShape(t);
    assert t.litSizes[..288] == t.litSizes && t.distSizes[..32] == t.distSizes;
    BlockWriter.SameTokens(t, 288, 32, toks);
    BlockWriter.StoredBits(t.litSizes, t.litCodes, 256);
    StaticRead(toks);
    var a, b := LzEmit.TokensBits(t, toks), LzEmit.LitBits(t, 256);
    assert before + LowBits(1, 2) + a + b == before + (LowBits(1, 2) + (a + b));
  }

  /** Writes the packed tokens as a block with fixed codes, which fits whenever there is 31/24 of their size. */
  method WriteStatic(w: BitWriter.Writer, bytes: seq<nat>, fast: bool, ghost groups: seq<seq<Token>>) returns (ok: bool)
    requires w.Valid() && bytes == LzBuffer.Stored(groups) && LzBuffer.Grouped(groups)
    modifies w, w.out
    ensures w.Valid() && BitWriter.Grown(old(w.out[..]), old(w.pos), w.out[..], w.pos)
    ensures ok ==> w.pos < w.end && Delivers(old(w.Stream()), w.Stream(), LzBuffer.Concat(groups))
    ensures !fast ==> (ok <==> w.pos < w.end)
    ensures 3 * old(w.Size()) + 31 * |bytes| + 27 < 24 * w.end ==> ok
  {
    hide TokensCode, LzEmit.TokensBits, LowBits, HuffmanTable.CodesFor, LzEmit.AllWellFormed, LzEmit.Usable, StaticDist,
         LzBuffer.Stored, LzBuffer.Grouped, LzBuffer.Concat, LzBuffer.Payload, BitWriter.BitsOf, Pow2, Delivers, Used, AllCoded;
    var t := StaticTables();
    ghost var toks, before := LzBuffer.Concat(groups), w.Stream();
    LzEmit.GroupsWellFormed(groups);
    LzEmit.UsableShape(t);
    AllHaveCodes(toks);
    TokensSize(t, toks);
    StoredSize(groups);
    OneFits();
    EndSize(t);
    w.PutBits(1, 2);
    if fast {
      ok := LzEmit.CompressFast(w, t, bytes, groups);
    } else {
      ok := LzEmit.Compress(w, t, bytes, groups);
    }
    if ok {
      FinishStatic(t, toks, before, w.Stream());
    }
  }

  lemma OneFits()
    ensures 1 < Pow2(2)
  {
    assert Pow2(2) == 4;
  }

  lemma EndSize(t: LzEmit.Tables)
    requires t.litSizes == StaticLit() && |t.litCodes| == 288
    ensures |LzEmit.LitBits(t, END_OF_BLOCK)| == 7
  {
  }
}
