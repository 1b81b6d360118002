/**
 Canonical Huffman codes (section 3.2.2 of RFC 1951).

 The compressor and the inflater each turn a table of code lengths into codes by counting the lengths
 and numbering the symbols of one length consecutively. This module states that numbering once and
 proves what makes it a code: no code is a prefix of another, and the codes of a complete set of
 lengths exhaust all bit strings.
 */
module Canonical {
  import opened Bits

  /** How many symbols have length l. */
  function Count(sizes: seq<nat>, l: nat): (n: nat)
  {
    if sizes == [] then 0
    else
      var k := |sizes| - 1;
      Count(sizes[..k], l) + (if sizes[k] == l then 1 else 0)
  }

  /** One past the last code of length l; the codes of length l start at 2 * End(sizes, l - 1). */
  function End(sizes: seq<nat>, l: nat): (e: nat)
  {
    if l == 0 then 0 else 2 * End(sizes, l - 1) + Count(sizes, l)
  }

  predicate Used(sizes: seq<nat>, s: nat)
  {
    s < |sizes| && sizes[s] > 0
  }

  /** The code of symbol s, as a number of sizes[s] bits. */
  function Code(sizes: seq<nat>, s: nat): (c: nat)
    requires Used(sizes, s)
  {
    2 * End(sizes, sizes[s] - 1) + Count(sizes[..s], sizes[s])
  }

  /** The code of symbol s in the order its bits travel. */
  function CodeBits(sizes: seq<nat>, s: nat): (bits: seq<bool>)
    requires Used(sizes, s)
    ensures |bits| == sizes[s]
  {
    HighFirst(Code(sizes, s), sizes[s])
  }

  /** All lengths are at most m and the codes of m bits do not run past 2^m. */
  ghost predicate Fits(sizes: seq<nat>, m: nat)
  {
    && (forall i :: 0 <= i < |sizes| ==> sizes[i] <= m)
    && End(sizes, m) <= Pow2(m)
  }

  ghost predicate Complete(sizes: seq<nat>, m: nat)
  {
    && (forall i :: 0 <= i < |sizes| ==> sizes[i] <= m)
    && End(sizes, m) == Pow2(m)
  }

  // ---------- the Kraft sum ----------

  /** The Kraft sum of the lengths, scaled by 2^m. */
  function KraftSum(sizes: seq<nat>, m: nat): (k: nat)
  {
    if sizes == [] then 0
    else
      var i := |sizes| - 1;
      KraftSum(sizes[..i], m) + (if 1 <= sizes[i] <= m then Pow2(m - sizes[i]) else 0)
  }

  lemma {:induction false} EndSnoc(sizes: seq<nat>, x: nat, m: nat)
    ensures End(sizes + [x], m) == End(sizes, m) + (if 1 <= x <= m then Pow2(m - x) else 0)
  {
    if m > 0 {
      EndSnoc(sizes, x, m - 1);
      assert (sizes + [x])[..|sizes|] == sizes;
    }
  }

  /** Counting codes level by level computes the Kraft sum of the individual lengths. */
  lemma {:induction false} EndIsKraftSum(sizes: seq<nat>, m: nat)
    ensures End(sizes, m) == KraftSum(sizes, m)
  {
    if sizes == [] {
      EndOfEmpty(m);
    } else {
      var i := |sizes| - 1;
      assert sizes == sizes[..i] + [sizes[i]];
      EndIsKraftSum(sizes[..i], m);
      EndSnoc(sizes[..i], sizes[i], m);
    }
  }

  lemma {:induction false} EndOfEmpty(m: nat)
    ensures End([], m) == 0
  {
    if m > 0 {
      EndOfEmpty(m - 1);
    }
  }

  // ---------- ranges of codes ----------

  lemma {:induction false} CountPrefix(sizes: seq<nat>, i: nat, l: nat)
    requires i <= |sizes|
    ensures Count(sizes[..i], l) <= Count(sizes, l)
    ensures i < |sizes| && sizes[i] == l ==> Count(sizes[..i], l) < Count(sizes, l)
    decreases |sizes|
  {
    if i < |sizes| {
      var k := |sizes| - 1;
      assert sizes[..k][..i] == sizes[..i];
      CountPrefix(sizes[..k], i, l);
    } else {
      assert sizes[..i] == sizes;
    }
  }

  /** A later symbol of the same length has a larger rank. */
  lemma CountStrict(sizes: seq<nat>, i: nat, j: nat, l: nat)
    requires i < j <= |sizes| && sizes[i] == l
    ensures Count(sizes[..i], l) < Count(sizes[..j], l)
  {
    assert sizes[..j][..i] == sizes[..i];
    CountPrefix(sizes[..j], i, l);
  }

  lemma CodeRange(sizes: seq<nat>, s: nat)
    requires Used(sizes, s)
    ensures 2 * End(sizes, sizes[s] - 1) <= Code(sizes, s) < End(sizes, sizes[s])
  {
    CountPrefix(sizes, s, sizes[s]);
  }

  /** A set of lengths that fits at m bits fits at every shorter length. */
  lemma {:induction false} FitsBelow(sizes: seq<nat>, l: nat, m: nat)
    requires Fits(sizes, m) && l <= m
    ensures End(sizes, l) <= Pow2(l)
    decreases m - l
  {
    if l < m {
      FitsBelow(sizes, l + 1, m);
      assert End(sizes, l + 1) >= 2 * End(sizes, l);
    }
  }

  lemma CodeFits(sizes: seq<nat>, s: nat, m: nat)
    requires Used(sizes, s) && Fits(sizes, m)
    ensures Code(sizes, s) < Pow2(sizes[s])
  {
    CodeRange(sizes, s);
    FitsBelow(sizes, sizes[s], m);
  }

  // ---------- no code is a prefix of another ----------

  /** Cutting a number down to l bits keeps it past the codes of length l. */
  lemma {:induction false} ShrPastEnd(sizes: seq<nat>, x: nat, l: nat, d: nat)
    requires x >= End(sizes, l + d)
    ensures Shr(x, d) >= End(sizes, l)
  {
    if d > 0 {
      assert End(sizes, l + d) >= 2 * End(sizes, l + d - 1);
      ShrPastEnd(sizes, x / 2, l, d - 1);
    }
  }

  lemma {:induction false} ShrBelow(x: nat, n: nat, d: nat)
    requires x < Pow2(n + d)
    ensures Shr(x, d) < Pow2(n)
  {
    if d > 0 {
      assert Pow2(n + d) == 2 * Pow2(n + d - 1);
      ShrBelow(x / 2, n, d - 1);
    }
  }

  /** The first l bits of a longer code lie past every code of length l. */
  lemma LongerCodeIsPast(sizes: seq<nat>, t: nat, l: nat)
    requires Used(sizes, t) && l < sizes[t]
    ensures Shr(Code(sizes, t), sizes[t] - l) >= End(sizes, l)
  {
    CodeRange(sizes, t);
    var d := sizes[t] - 1 - l;
    ShrPastEnd(sizes, Code(sizes, t) / 2, l, d);
  }

  /** Canonical codes are prefix-free. */
  lemma PrefixFree(sizes: seq<nat>, s: nat, t: nat, m: nat)
    requires Fits(sizes, m)
    requires Used(sizes, s) && Used(sizes, t) && s != t
    ensures !(CodeBits(sizes, s) <= CodeBits(sizes, t))
  {
    var c, d := Code(sizes, s), Code(sizes, t);
    var l := sizes[s];
    if l <= sizes[t] && CodeBits(sizes, t)[..l] == CodeBits(sizes, s) {
      HighFirstPrefix(d, sizes[t], l);
      CodeFits(sizes, s, m);
      CodeFits(sizes, t, m);
      ShrBelow(d, l, sizes[t] - l);
      HighFirstInjective(c, Shr(d, sizes[t] - l), l);
      CodeRange(sizes, s);
      if l < sizes[t] {
        LongerCodeIsPast(sizes, t, l);
      } else if s < t {
        CountStrict(sizes, s, t, l);
      } else {
        CountStrict(sizes, t, s, l);
      }
      assert false;
    }
  }

  // ---------- a complete set of codes exhausts the bit strings ----------

  /** The symbol whose code of length l is v. */
  lemma {:induction false} SymbolOfRank(sizes: seq<nat>, l: nat, r: nat) returns (s: nat)
    requires r < Count(sizes, l)
    ensures s < |sizes| && sizes[s] == l && Count(sizes[..s], l) == r
  {
    var k := |sizes| - 1;
    if r < Count(sizes[..k], l) {
      s := SymbolOfRank(sizes[..k], l, r);
      assert sizes[..k][..s] == sizes[..s];
    } else {
      s := k;
    }
  }

  lemma {:induction false} CoveringSymbol(sizes: seq<nat>, bits: seq<bool>, l: nat) returns (s: nat)
    requires l <= |bits|
    requires FromHighFirst(bits[..l]) < End(sizes, l)
    ensures Used(sizes, s) && CodeBits(sizes, s) <= bits
  {
    var v := FromHighFirst(bits[..l]);
    var p := bits[..l - 1];
    assert bits[..l][..l - 1] == p;
    assert v / 2 == FromHighFirst(p);
    if v < 2 * End(sizes, l - 1) {
      s := CoveringSymbol(sizes, bits, l - 1);
    } else {
      s := SymbolOfRank(sizes, l, v - 2 * End(sizes, l - 1));
      HighFirstOfBits(bits[..l]);
    }
  }

  /** With a complete set of lengths, every bit string that is long enough starts with a code. */
  lemma CompleteCovers(sizes: seq<nat>, m: nat, bits: seq<bool>)
    requires Complete(sizes, m) && m <= |bits|
    ensures exists s: nat :: Used(sizes, s) && CodeBits(sizes, s) <= bits
  {
    var s := CoveringSymbol(sizes, bits, m);
  }

  // ---------- the two rules of RFC 1951 ----------

  /** Codes of one length are ordered as their symbols; shorter codes precede longer ones bit by bit. */
  lemma CanonicalOrder(sizes: seq<nat>, s: nat, t: nat)
    requires Used(sizes, s) && Used(sizes, t)
    requires sizes[s] < sizes[t] || (sizes[s] == sizes[t] && s < t)
    ensures Code(sizes, s) < Shr(Code(sizes, t), sizes[t] - sizes[s])
  {
    CodeRange(sizes, s);
    if sizes[s] < sizes[t] {
      LongerCodeIsPast(sizes, t, sizes[s]);
    } else {
      CountStrict(sizes, s, t, sizes[s]);
    }
  }

  // ---------- reversing a code ----------

  /** The loop with which both sides turn a code around, so that its first bit becomes the lowest one. */
  method ReverseCode(code: nat, size: nat) returns (rev: nat)
    ensures rev == Val(HighFirst(code, size))
  {
    rev := 0;
    var c, l := code, size;
    ghost var tail: seq<bool> := [];
    while l > 0
      invariant 0 <= l <= size
      invariant HighFirst(code, size) == HighFirst(c, l) + tail && rev == Val(tail)
    {
      ValCons(c % 2 == 1, tail);
      tail := [c % 2 == 1] + tail;
      rev := 2 * rev + c % 2;
      c := c / 2;
      l := l - 1;
    }
    assert HighFirst(c, l) + tail == tail;
  }

  /** Counts how often each length occurs. */
  method CountSizes(sizes: seq<nat>, n: nat) returns (counts: array<nat>)
    requires forall i :: 0 <= i < |sizes| ==> sizes[i] < n
    ensures fresh(counts) && counts.Length == n
    ensures forall l :: 0 <= l < n ==> counts[l] == Count(sizes, l)
  {
    counts := new nat[n](_ => 0);
    for i := 0 to |sizes|
      invariant forall l :: 0 <= l < n ==> counts[l] == Count(sizes[..i], l)
    {
      assert sizes[..i + 1][..i] == sizes[..i];
      counts[sizes[i]] := counts[sizes[i]] + 1;
    }
    assert sizes[..|sizes|] == sizes;
  }
}
