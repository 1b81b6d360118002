/**
 Compressor and inflater agree. They are written independently: one numbers codes and stores them
 bit-reversed (tdefl_optimize_huffman_table), the other rebuilds its tables from the code lengths alone
 (tinfl_decompress). Every table the compressor builds is one the inflater accepts, and every code it stores is
 read back as its symbol, whatever bits follow.
 */
module HuffmanAgreement {
  import opened Bits
  import opened Canonical
  import HuffmanTable
  import InflateTable

  lemma {:induction false} CompleteAtMore(sizes: seq<nat>, m: nat, n: nat)
    requires Complete(sizes, m) && m <= n
    ensures Complete(sizes, n)
    decreases n
  {
    if m < n {
      CompleteAtMore(sizes, m, n - 1);
      HuffmanTable.NoneOfLength(sizes, n);
    }
  }

  lemma {:induction false} UsedCounts(counts: seq<nat>, sizes: seq<nat>)
    requires |sizes| == |counts| && forall c :: 0 <= c < |counts| ==> (sizes[c] > 0 <==> counts[c] > 0)
    ensures InflateTable.UsedCount(sizes) == |HuffmanTable.UsedSyms(counts)|
  {
    if counts != [] {
      var k := |counts| - 1;
      UsedCounts(counts[..k], sizes[..k]);
    }
  }

  /** The inflater accepts every table of the compressor. */
  lemma TableAccepted(counts: seq<nat>, sizes: seq<nat>, limit: nat)
    requires HuffmanTable.LengthsFor(counts, sizes, limit) && limit <= InflateTable.MAX_BITS
    requires |counts| <= InflateTable.MAX_SYMBOLS
    ensures InflateTable.Acceptable(sizes)
  {
    UsedCounts(counts, sizes);
    if |HuffmanTable.UsedSyms(counts)| >= 2 {
      CompleteAtMore(sizes, limit, InflateTable.MAX_BITS);
    }
  }

  /** A buffer whose low bits are a stored code starts with that code. */
  lemma CodeIsRead(sizes: seq<nat>, codes: seq<nat>, s: nat, bitBuf: nat)
    requires HuffmanTable.CodesFor(sizes, codes) && Used(sizes, s)
    requires Low(bitBuf, sizes[s]) == codes[s]
    ensures InflateTable.StartsWith(bitBuf, CodeBits(sizes, s))
  {
    var n, code := sizes[s], CodeBits(sizes, s);
    ValLowBits(bitBuf, n);
    LowBitsVal(LowBits(bitBuf, n));
    LowBitsVal(code);
  }

  /**
   A bit buffer that holds the stored code of a symbol the compressor has counted, followed by anything, is one
   that tables built from the same lengths answer with that symbol and the length of its code.
   */
  lemma StoredCodeDecodes(counts: seq<nat>, sizes: seq<nat>, codes: seq<nat>, limit: nat, look: seq<int>,
                          tree: seq<int>,
                          s: nat, bitBuf: nat)
    requires HuffmanTable.LengthsFor(counts, sizes, limit) && HuffmanTable.CodesFor(sizes, codes)
    requires InflateTable.TableFor(sizes, look, tree) && |look| == InflateTable.LOOKUP_SIZE
    requires s < |counts| && counts[s] > 0 && Low(bitBuf, sizes[s]) == codes[s]
    ensures InflateTable.Answer(look, tree, bitBuf) == (s, sizes[s])
  {
    hide InflateTable.TableFor, InflateTable.Answer, HuffmanTable.UsedSyms, HuffmanTable.CodesFor, Complete;
    CodeIsRead(sizes, codes, s, bitBuf);
    InflateTable.AnswerIsCode(sizes, look, tree, bitBuf, s);
  }
}
