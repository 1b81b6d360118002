/**
 What the inflater makes of a block with dynamic codes (sections 3.2.3 to 3.2.7 of RFC 1951; qqwry/miniz.c,
 tinfl_decompress), as a function from the bits of the block to its literals and copies and the bits that follow.
 Symbols are decoded by their codes; module InflateTable shows that the inflater's tables do just that.
 */
module InflateBlock {
  import opened Bits
  import opened Canonical
  import InflateTable
  import LzTokens
  import Rle = CodeLengthRle

  datatype Parse<T> = Got(value: T, rest: seq<bool>) | Bad

  datatype Item = Lit(byte: nat) | Copy(len: nat, dist: nat)

  ghost function GetBits(bits: seq<bool>, n: nat): (r: Parse<nat>)
    ensures r.Got? ==> r.value < Pow2(n) && |r.rest| == |bits| - n
  {
    if |bits| < n then Bad else Got(Val(bits[..n]), bits[n..])
  }

  ghost predicate Codes(sizes: seq<nat>, s: nat, bits: seq<bool>)
  {
    Used(sizes, s) && CodeBits(sizes, s) <= bits
  }

  ghost function DecodeSym(sizes: seq<nat>, bits: seq<bool>): (r: Parse<nat>)
    ensures r.Got? ==> r.value < |sizes| && |r.rest| < |bits|
  {
    if exists s: nat :: Codes(sizes, s, bits) then
      var s: nat :| Codes(sizes, s, bits);
      Got(s, bits[sizes[s]..])
    else Bad
  }

  function ExtraBits(code: nat): (n: nat)
  {
    if code == 16 then 2 else if code == 17 then 3 else 7
  }

  /** Unpacks code lengths until there are at least `total` of them. */
  ghost function ReadLengths(cl: seq<nat>, total: nat, out: seq<nat>, bits: seq<bool>): (r: Parse<seq<nat>>)
    ensures r.Got? ==> |r.rest| <= |bits|
    decreases |bits|
  {
    if |out| >= total then if |out| == total then Got(out, bits) else Bad
    else
      match DecodeSym(cl, bits)
      case Bad => Bad
      case Got(code, rest) =>
        if code < 16 then ReadLengths(cl, total, out + [code], rest)
        else if code == 16 && out == [] then Bad
        else
          match GetBits(rest, ExtraBits(code))
          case Bad => Bad
          case Got(x, rest') => ReadLengths(cl, total, Rle.Step(out, Rle.Sym(code, x)), rest')
  }

  /** The distance of a copy whose length has been read. */
  ghost function ReadDistance(dist: seq<nat>, len: nat, bits: seq<bool>): (r: Parse<Item>)
    ensures r.Got? ==> |r.rest| <= |bits|
  {
    match DecodeSym(dist, bits)
    case Bad => Bad
    case Got(s, rest) =>
      if s >= LzTokens.DISTS_USED then Bad
      else
        match GetBits(rest, LzTokens.DIST_EXTRA[s])
        case Bad => Bad
        case Got(x, rest') => Got(Copy(len, LzTokens.DIST_BASE[s] + x), rest')
  }

  /** A copy, from its length symbol on. */
  ghost function ReadCopy(dist: seq<nat>, s: nat, bits: seq<bool>): (r: Parse<Item>)
    ensures r.Got? ==> |r.rest| <= |bits|
  {
    if s < 257 || s - 257 >= LzTokens.LENGTHS_USED then Bad
    else
      match GetBits(bits, LzTokens.LENGTH_EXTRA[s - 257])
      case Bad => Bad
      case Got(x, rest) => ReadDistance(dist, LzTokens.LENGTH_BASE[s - 257] + x, rest)
  }

  function Prepend(x: Item, r: Parse<seq<Item>>): (r': Parse<seq<Item>>)
  {
    match r
    case Bad => Bad
    case Got(items, rest) => Got([x] + items, rest)
  }

  /** Literals and copies up to the end-of-block symbol. */
  ghost function ReadItems(lit: seq<nat>, dist: seq<nat>, bits: seq<bool>): (r: Parse<seq<Item>>)
    ensures r.Got? ==> |r.rest| <= |bits|
    decreases |bits|
  {
    match DecodeSym(lit, bits)
    case Bad => Bad
    case Got(s, rest) =>
      if s == 256 then Got([], rest)
      else if s < 256 then Prepend(Lit(s), ReadItems(lit, dist, rest))
      else
        match ReadCopy(dist, s, rest)
        case Bad => Bad
        case Got(item, rest') => Prepend(item, ReadItems(lit, dist, rest'))
  }

  // ---------- the header ----------

  /** The order in which the lengths of the code-length code are sent. */
  const DEZIGZAG: seq<nat> := [16, 17, 18, 0, 8, 7, 9, 6, 10, 5, 11, 4, 12, 3, 13, 2, 14, 1, 15]

  function Zeros(n: nat): (s: seq<nat>)
  {
    seq(n, _ => 0)
  }

  /** Reads the lengths from place i to n of the sending order. */
  ghost function ReadCodeSizes(cl: seq<nat>, i: nat, n: nat, bits: seq<bool>): (r: Parse<seq<nat>>)
    requires |cl| == 19 && i <= n <= 19
    ensures r.Got? ==> |r.rest| <= |bits|
    decreases n - i
  {
    if i == n then Got(cl, bits)
    else
      match GetBits(bits, 3)
      case Bad => Bad
      case Got(x, rest) => ReadCodeSizes(cl[DEZIGZAG[i] := x], i + 1, n, rest)
  }

  datatype Header = Header(lits: nat, dists: nat, cl: seq<nat>)

  ghost function ReadHeader(bits: seq<bool>): (r: Parse<Header>)
    ensures r.Got? ==> |r.rest| <= |bits|
  {
    match GetBits(bits, 5)
    case Bad => Bad
    case Got(hlit, bits1) =>
      match GetBits(bits1, 5)
      case Bad => Bad
      case Got(hdist, bits2) =>
        match GetBits(bits2, 4)
        case Bad => Bad
        case Got(hclen, bits3) =>
          assert Pow2(4) == 16;
          match ReadCodeSizes(Zeros(19), 0, hclen + 4, bits3)
          case Bad => Bad
          case Got(cl, bits4) => Got(Header(hlit + 257, hdist + 1, cl), bits4)
  }

  /** A block with dynamic codes, after the three bits that announce it. */
  ghost function ReadBlock(bits: seq<bool>): (r: Parse<seq<Item>>)
    ensures r.Got? ==> |r.rest| <= |bits|
  {
    match ReadHeader(bits)
    case Bad => Bad
    case Got(h, bits1) =>
      if !InflateTable.Acceptable(h.cl) then Bad
      else
        match ReadLengths(h.cl, h.lits + h.dists, [], bits1)
        case Bad => Bad
        case Got(lens, bits2) =>
          if |lens| != h.lits + h.dists then Bad
          else
            var lit, dist := lens[..h.lits], lens[h.lits..];
            if !InflateTable.Acceptable(lit) || !InflateTable.Acceptable(dist) then Bad
            else ReadItems(lit, dist, bits2)
  }

  // ---------- reading what was written ----------

  lemma GetPut(v: nat, n: nat, rest: seq<bool>)
    requires v < Pow2(n)
    ensures GetBits(LowBits(v, n) + rest, n) == Got(v, rest)
  {
    hide LowBits, Val;
    var bits := LowBits(v, n) + rest;
    assert bits[..n] == LowBits(v, n) && bits[n..] == rest;
    ValLowBits(v, n);
    LowSmall(v, n);
  }

  lemma DecodeCode(sizes: seq<nat>, s: nat, rest: seq<bool>)
    requires InflateTable.Acceptable(sizes) && Used(sizes, s)
    ensures DecodeSym(sizes, CodeBits(sizes, s) + rest) == Got(s, rest)
  {
    hide CodeBits, InflateTable.Acceptable;
    var bits := CodeBits(sizes, s) + rest;
    assert Codes(sizes, s, bits);
    forall t: nat | Codes(sizes, t, bits)
      ensures t == s
    {
      InflateTable.SameSymbol(sizes, s, t, bits);
    }
    assert bits[sizes[s]..] == rest;
  }
}
