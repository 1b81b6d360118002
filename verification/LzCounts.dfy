/**
 Symbol statistics of recorded tokens (qqwry/miniz.c, m_huff_count in tdefl_record_literal and
 tdefl_record_match). The tables built from them give a code to every symbol that the recorded tokens need.
 */
module LzCounts {
  import opened LzTokens
  import HuffmanTable

  const LIT_SYMBOLS: nat := 288
  const DIST_SYMBOLS: nat := 32
  const END_OF_BLOCK: nat := 256

  /** More tokens than this do not fit into the token buffer. */
  const MAX_TOKENS: nat := 58254

  /** The literal/length symbol of a token. */
  function LitSym(t: Token): (s: nat)
  {
    match t
    case Literal(b) => b
    case Match(m, _) => LenSym(m)
  }

  lemma LitSymRange(t: Token)
    requires WellFormed(t)
    ensures LitSym(t) < 286 && LitSym(t) != END_OF_BLOCK
    ensures t.Match? ==> DistSym(t.dist) < 30
  {
    if t.Match? {
      LengthRecovered(t.len);
      DistanceRecovered(t.dist);
    }
  }

  function LitTally(toks: seq<Token>, s: nat): (n: nat)
  {
    if toks == [] then 0
    else LitTally(toks[..|toks| - 1], s) + (if LitSym(toks[|toks| - 1]) == s then 1 else 0)
  }

  function DistTally(toks: seq<Token>, s: nat): (n: nat)
  {
    if toks == [] then 0
    else
      var t := toks[|toks| - 1];
      DistTally(toks[..|toks| - 1], s) + (if t.Match? && DistSym(t.dist) == s then 1 else 0)
  }

  /** The statistics belong to the tokens. */
  ghost predicate Counted(toks: seq<Token>, lit: seq<nat>, dist: seq<nat>)
  {
    && |lit| == LIT_SYMBOLS && |dist| == DIST_SYMBOLS
    && (forall s :: 0 <= s < LIT_SYMBOLS ==> lit[s] == LitTally(toks, s))
    && (forall s :: 0 <= s < DIST_SYMBOLS ==> dist[s] == DistTally(toks, s))
    && HuffmanTable.Total(lit) == |toks| && HuffmanTable.Total(dist) <= |toks|
  }

  lemma {:induction false} TotalOneMore(counts: seq<nat>, s: nat)
    requires s < |counts|
    ensures HuffmanTable.Total(counts[s := counts[s] + 1]) == HuffmanTable.Total(counts) + 1
  {
    var k := |counts| - 1;
    if s < k {
      TotalOneMore(counts[..k], s);
      assert counts[s := counts[s] + 1][..k] == counts[..k][s := counts[..k][s] + 1];
    } else {
      assert counts[s := counts[s] + 1][..k] == counts[..k];
    }
  }

  lemma {:induction false} TotalOfZeros(counts: seq<nat>)
    requires forall s :: 0 <= s < |counts| ==> counts[s] == 0
    ensures HuffmanTable.Total(counts) == 0
  {
    if counts != [] {
      TotalOfZeros(counts[..|counts| - 1]);
    }
  }

  lemma CountNone(lit: seq<nat>, dist: seq<nat>)
    requires |lit| == LIT_SYMBOLS && |dist| == DIST_SYMBOLS
    requires (forall s :: 0 <= s < LIT_SYMBOLS ==> lit[s] == 0) && (forall s :: 0 <= s < DIST_SYMBOLS ==> dist[s] == 0)
    ensures Counted([], lit, dist)
  {
    TotalOfZeros(lit);
    TotalOfZeros(dist);
  }

  lemma CountToken(toks: seq<Token>, lit: seq<nat>, dist: seq<nat>, t: Token)
    requires Counted(toks, lit, dist) && WellFormed(t)
    ensures LitSym(t) < |lit| && (t.Match? ==> DistSym(t.dist) < |dist|)
    ensures t.Literal? ==> Counted(toks + [t], lit[LitSym(t) := lit[LitSym(t)] + 1], dist)
    ensures t.Match? ==> Counted(toks + [t], lit[LitSym(t) := lit[LitSym(t)] + 1],
                                 dist[DistSym(t.dist) := dist[DistSym(t.dist)] + 1])
  {
    hide LenSym, DistSym, HuffmanTable.Total;
    assert (toks + [t])[..|toks|] == toks;
    LitSymRange(t);
    TotalOneMore(lit, LitSym(t));
    if t.Match? {
      TotalOneMore(dist, DistSym(t.dist));
    }
  }

  lemma {:induction false} TalliedAtLeastOnce(toks: seq<Token>, i: nat)
    requires i < |toks|
    ensures LitTally(toks, LitSym(toks[i])) >= 1
    ensures toks[i].Match? ==> DistTally(toks, DistSym(toks[i].dist)) >= 1
  {
    hide LenSym, DistSym;
    var k := |toks| - 1;
    if i < k {
      TalliedAtLeastOnce(toks[..k], i);
    }
  }

  /**
   Every symbol of a recorded token, and the end-of-block symbol whose count is set to one, has a code when the
   tables are built from the statistics.
   */
  lemma SymbolsHaveCodes(toks: seq<Token>, lit: seq<nat>, dist: seq<nat>, litSizes: seq<nat>, distSizes: seq<nat>,
                         i: nat)
    requires Counted(toks, lit, dist) && i < |toks| && WellFormed(toks[i])
    requires HuffmanTable.LengthsFor(lit[END_OF_BLOCK := 1], litSizes, 15)
    requires HuffmanTable.LengthsFor(dist, distSizes, 15)
    ensures 1 <= litSizes[LitSym(toks[i])] <= 15 && 1 <= litSizes[END_OF_BLOCK] <= 15
    ensures toks[i].Match? ==> 1 <= distSizes[DistSym(toks[i].dist)] <= 15
  {
    hide LenSym, DistSym, HuffmanTable.Total, HuffmanTable.UsedSyms;
    LitSymRange(toks[i]);
    TalliedAtLeastOnce(toks, i);
    assert lit[END_OF_BLOCK := 1][END_OF_BLOCK] == 1;
  }

  /** The statistics of a buffer of 64 KB, with the end-of-block symbol, stay within 16 bits. */
  lemma CountsFit(toks: seq<Token>, lit: seq<nat>, dist: seq<nat>)
    requires Counted(toks, lit, dist) && |toks| <= MAX_TOKENS && forall i :: 0 <= i < |toks| ==> WellFormed(toks[i])
    ensures HuffmanTable.Total(lit[END_OF_BLOCK := 1]) < 65536 && HuffmanTable.Total(dist) < 65536
  {
    hide LenSym, DistSym, HuffmanTable.Total;
    NeverTallied(toks);
    TotalOneMore(lit, END_OF_BLOCK);
  }

  lemma {:induction false} NeverTallied(toks: seq<Token>)
    requires forall i :: 0 <= i < |toks| ==> WellFormed(toks[i])
    ensures LitTally(toks, END_OF_BLOCK) == 0
  {
    hide LenSym;
    if toks != [] {
      NeverTallied(toks[..|toks| - 1]);
      LitSymRange(toks[|toks| - 1]);
    }
  }
}
