/**
 The header of a block with dynamic codes, bit by bit (sections 3.1.1 and 3.2.7 of RFC 1951; qqwry/miniz.c, the order in
 which the lengths of the code-length code travel, tdefl_start_dynamic_block and tinfl_decompress).
 */
module HeaderFormat {
  import opened Bits
  import opened Canonical
  import opened InflateBlock
  import opened DeflateBlock
  import InflateTable
  import Rle = CodeLengthRle

  /** A number in n bits, the least significant first. */
  function Field(v: nat, n: nat): (bits: seq<bool>)
    ensures |bits| == n
  {
    seq(n, i requires 0 <= i < n => v / Pow2(i) % 2 == 1)
  }

  lemma FieldIsLowBits(v: nat, n: nat)
    ensures Field(v, n) == LowBits(v, n)
  {
    forall i | 0 <= i < n
      ensures Field(v, n)[i] == LowBits(v, n)[i]
    {
      ShrIsDivision(v, i);
    }
  }

  /** A number of n bits is read back. */
  lemma FieldRead(v: nat, n: nat, rest: seq<bool>)
    requires v < Pow2(n)
    ensures GetBits(Field(v, n) + rest, n) == Got(v, rest)
  {
    hide Field, LowBits, GetBits, Pow2;
    FieldIsLowBits(v, n);
    GetPut(v, n, rest);
  }

  /** The code-length symbol whose length is sent in place j: 16, 17, 18, 0, 8, 7, 9, 6 and so on up to 1, 15. */
  function Order(j: nat): (c: nat)
    requires j < 19
    ensures c < 19
  {
    if j < 3 then 16 + j
    else if j == 3 then 0
    else if j % 2 == 0 then 8 + (j - 4) / 2
    else 7 - (j - 5) / 2
  }

  lemma OrderIsSent(j: nat)
    requires j < 19
    ensures DEZIGZAG[j] == Order(j) && PLACE[Order(j)] == j
  {
    if j < 10 {
      OrderFront(j);
    } else {
      OrderRear(j);
    }
    Places(j, Order(j));
  }

  lemma OrderFront(j: nat)
    requires j < 10
    ensures DEZIGZAG[j] == Order(j)
  {
  }

  lemma OrderRear(j: nat)
    requires 10 <= j < 19
    ensures DEZIGZAG[j] == Order(j)
  {
  }

  /** Every symbol has its place. */
  lemma OrderOnto(c: nat) returns (j: nat)
    requires c < 19
    ensures j < 19 && Order(j) == c
  {
    j := PLACE[c];
    Places(j, c);
    OrderIsSent(j);
  }

  /** Three bits of each number. */
  function Threes(xs: seq<nat>): (bits: seq<bool>)
  {
    if xs == [] then [] else [xs[0] % 2 == 1, xs[0] / 2 % 2 == 1, xs[0] / 4 % 2 == 1] + Threes(xs[1..])
  }

  lemma ThreeBits(x: nat)
    ensures LowBits(x, 3) == [x % 2 == 1, x / 2 % 2 == 1, x / 4 % 2 == 1]
  {
    FieldIsLowBits(x, 3);
    assert Pow2(0) == 1 && Pow2(1) == 2 && Pow2(2) == 4;
  }

  /** The lengths sent are those of the symbols, in order. */
  ghost predicate InOrder(cl: seq<nat>, xs: seq<nat>)
  {
    |cl| == 19 && |xs| <= 19 && forall j :: 0 <= j < |xs| ==> cl[Order(j)] == xs[j]
  }

  /** And the symbols behind the last one sent have none. */
  ghost predicate RestZero(cl: seq<nat>, n: nat)
  {
    |cl| == 19 && forall j :: n <= j < 19 ==> cl[Order(j)] == 0
  }

  lemma {:induction false} SizesInOrder(cl: seq<nat>, i: nat, xs: seq<nat>)
    requires SmallSizes(cl) && i <= |xs| && InOrder(cl, xs)
    ensures CodeSizeBits(cl, i, |xs|) == Threes(xs[i..])
    decreases |xs| - i
  {
    hide LowBits, Threes, CodeSizeBits, Order;
    if i == |xs| {
      assert xs[i..] == [];
      NoSizes(cl, i);
    } else {
      SizesInOrder(cl, i + 1, xs);
      CodeSizeStep(cl, i, |xs|);
      OrderIsSent(i);
      ThreeBits(xs[i]);
      assert xs[i..] == [xs[i]] + xs[i + 1..];
      ThreesMore(xs[i], xs[i + 1..]);
    }
  }

  lemma NoSizes(cl: seq<nat>, n: nat)
    requires SmallSizes(cl) && n <= 19
    ensures CodeSizeBits(cl, n, n) == Threes([])
  {
  }

  lemma ThreesMore(x: nat, xs: seq<nat>)
    ensures Threes([x] + xs) == [x % 2 == 1, x / 2 % 2 == 1, x / 4 % 2 == 1] + Threes(xs)
  {
    assert ([x] + xs)[1..] == xs;
  }

  /** The bits of a header. */
  function Announced(hlit: nat, hdist: nat, xs: seq<nat>): (bits: seq<bool>)
    requires |xs| >= 4
  {
    Field(hlit, 5) + Field(hdist, 5) + Field(|xs| - 4, 4) + Threes(xs)
  }

  lemma HeaderInOrder(nl: nat, nd: nat, cl: seq<nat>, xs: seq<nat>)
    requires 257 <= nl && 1 <= nd && 4 <= |xs| <= 19 && SmallSizes(cl) && InOrder(cl, xs)
    ensures HeaderBits(nl, nd, |xs|, cl) == Announced(nl - 257, nd - 1, xs)
  {
    hide LowBits, Field, Threes, CodeSizeBits, InOrder;
    FieldIsLowBits(nl - 257, 5);
    FieldIsLowBits(nd - 1, 5);
    FieldIsLowBits(|xs| - 4, 4);
    SizesInOrder(cl, 0, xs);
    assert xs[0..] == xs;
  }

  /** The lengths of the code-length code by symbol. */
  function BySymbol(xs: seq<nat>): (cl: seq<nat>)
    requires |xs| <= 19
    ensures |cl| == 19
  {
    seq(19, c requires 0 <= c < 19 => if PLACE[c] < |xs| then xs[PLACE[c]] else 0)
  }

  lemma BySymbolInOrder(xs: seq<nat>)
    requires |xs| <= 19 && forall j :: 0 <= j < |xs| ==> xs[j] < 8
    ensures InOrder(BySymbol(xs), xs) && RestZero(BySymbol(xs), |xs|)
    ensures SmallSizes(BySymbol(xs)) && SentUpTo(BySymbol(xs), |xs|)
  {
    hide Order;
    forall j | 0 <= j < 19
      ensures BySymbol(xs)[Order(j)] == if j < |xs| then xs[j] else 0
    {
      OrderIsSent(j);
    }
  }

  /**
   The reader takes five bits for the number of literal codes, five for that of distance codes and four for the number of
   lengths, then three bits for each length, and gives it to the symbol whose place it is; the other symbols have none.
   */
  lemma HeaderReads(hlit: nat, hdist: nat, xs: seq<nat>, rest: seq<bool>) returns (cl: seq<nat>)
    requires hlit < 32 && hdist < 32 && 4 <= |xs| <= 19 && forall j :: 0 <= j < |xs| ==> xs[j] < 8
    ensures ReadHeader(Announced(hlit, hdist, xs) + rest) == Got(Header(hlit + 257, hdist + 1, cl), rest)
    ensures |cl| == 19
    ensures forall j :: 0 <= j < 19 ==> cl[Order(j)] == if j < |xs| then xs[j] else 0
    ensures xs[0] == cl[16] && xs[1] == cl[17] && xs[2] == cl[18] && xs[3] == cl[0]
  {
    hide ReadHeader, HeaderBits, Announced, SmallSizes, SentUpTo;
    cl := BySymbol(xs);
    BySymbolInOrder(xs);
    HeaderInOrder(hlit + 257, hdist + 1, cl, xs);
    HeaderRead(hlit + 257, hdist + 1, |xs|, cl, rest);
    FirstPlaces();
  }

  lemma FirstPlaces()
    ensures Order(0) == 16 && Order(1) == 17 && Order(2) == 18 && Order(3) == 0
  {
  }

  // ---------- the writer ----------

  /** What is sent of a block: the two bits of its kind, the header with the lengths in order, then the coded data. */
  ghost predicate SentAs(b: Block, before: seq<bool>, after: seq<bool>)
    requires Sendable(b)
  {
    exists xs: seq<nat> ::
      && |xs| == b.nb && InOrder(b.cl, xs) && RestZero(b.cl, |xs|)
      && after == before + [false, true] + Announced(|b.lit| - 257, |b.dist| - 1, xs)
                  + (SymsCode(b.cl, b.syms) + (TokensCode(b.lit, b.dist, b.toks) + CodeBits(b.lit, 256)))
  }

  function SentLengths(cl: seq<nat>, n: nat): (xs: seq<nat>)
    requires |cl| == 19 && n <= 19
    ensures |xs| == n
  {
    seq(n, j requires 0 <= j < n => cl[Order(j)])
  }

  lemma UnsentAreZero(cl: seq<nat>, n: nat)
    requires |cl| == 19 && SentUpTo(cl, n)
    ensures RestZero(cl, n)
  {
    hide Order;
    forall j | n <= j < 19
      ensures cl[Order(j)] == 0
    {
      OrderIsSent(j);
    }
  }

  lemma KindTwo()
    ensures LowBits(2, 2) == [false, true]
  {
  }

  lemma BlockIsFormatted(b: Block, before: seq<bool>, after: seq<bool>)
    requires Sendable(b) && after == before + (LowBits(2, 2) + BlockBits(b))
    ensures SentAs(b, before, after)
  {
    hide LowBits, Announced, HeaderBits, SymsCode, TokensCode, CodeBits, AllCoded, InflateTable.Acceptable, SentUpTo,
         SymsCoded, Rle.Valid, Rle.Meaning, RestZero, Used;
    var xs := SentLengths(b.cl, b.nb);
    assert InOrder(b.cl, xs);
    UnsentAreZero(b.cl, b.nb);
    HeaderInOrder(|b.lit|, |b.dist|, b.cl, xs);
    KindTwo();
    var h, rest := HeaderBits(|b.lit|, |b.dist|, b.nb, b.cl),
      SymsCode(b.cl, b.syms) + (TokensCode(b.lit, b.dist, b.toks) + CodeBits(b.lit, 256));
    assert before + ([false, true] + (h + rest)) == before + [false, true] + h + rest;
  }
}
