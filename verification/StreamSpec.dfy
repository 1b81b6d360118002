/**
 What a deflate stream stands for (section 3.2.3 of RFC 1951): blocks of three kinds, each adding bytes to those before
 it, up to the block that is marked as the last. A stream ends with a whole byte, so that the number of bits still to be
 read tells how far the reader is from a byte boundary.
 */
module StreamSpec {
  import opened InflateBlock
  import opened LzExpand

  /** The bytes that the rest of a block leads to. */
  ghost function Whole(lit: seq<nat>, dist: seq<nat>, done: seq<nat>, bits: seq<bool>): (r: Parse<seq<nat>>)
  {
    Expanded(done, ReadItems(lit, dist, bits))
  }

  ghost function Expanded(done: seq<nat>, items: Parse<seq<Item>>): (r: Parse<seq<nat>>)
  {
    match items
    case Bad => Bad
    case Got(value, rest) =>
      match Expand(done, value)
      case Unreachable => Bad
      case Bytes(bytes) => Got(bytes, rest)
  }

  /** The bytes that a block leads to. */
  ghost function BlockBytes(done: seq<nat>, bits: seq<bool>): (r: Parse<seq<nat>>)
  {
    Expanded(done, ReadBlock(bits))
  }

  // ---------- fixed codes ----------

  /** The code lengths of a block with fixed codes. */
  function StaticLit(): (sizes: seq<nat>)
    ensures |sizes| == 288
  {
    seq(288, i => if i < 144 then 8 else if i < 256 then 9 else if i < 280 then 7 else 8)
  }

  function StaticDist(): (sizes: seq<nat>)
    ensures |sizes| == 32
  {
    seq(32, _ => 5)
  }

  // ---------- stored bytes ----------

  ghost function ReadBytes(done: seq<nat>, n: nat, bits: seq<bool>): (r: Parse<seq<nat>>)
    ensures r.Got? ==> |r.rest| <= |bits|
    decreases n
  {
    if n == 0 then Got(done, bits)
    else
      match GetBits(bits, 8)
      case Bad => Bad
      case Got(b, rest) => ReadBytes(done + [b], n - 1, rest)
  }

  /** How many bits are left of a byte. */
  function Surplus(n: nat): (k: nat)
    ensures k < 8 && k <= n
  {
    n % 8
  }

  /** A block of stored bytes: up to a byte boundary, the length, its complement, the bytes. */
  ghost function ReadStored(done: seq<nat>, bits: seq<bool>): (r: Parse<seq<nat>>)
    ensures r.Got? ==> |r.rest| <= |bits|
  {
    match GetBits(bits[Surplus(|bits|)..], 16)
    case Bad => Bad
    case Got(len, bits1) =>
      match GetBits(bits1, 16)
      case Bad => Bad
      case Got(check, bits2) => if len + check != 0xFFFF then Bad else ReadBytes(done, len, bits2)
  }

  // ---------- blocks ----------

  ghost function ReadBody(kind: nat, done: seq<nat>, bits: seq<bool>): (r: Parse<seq<nat>>)
    ensures r.Got? ==> |r.rest| <= |bits|
  {
    if kind == 0 then ReadStored(done, bits)
    else if kind == 1 then Whole(StaticLit(), StaticDist(), done, bits)
    else if kind == 2 then BlockBytes(done, bits)
    else Bad
  }

  datatype Piece = Piece(final: bool, bytes: seq<nat>)

  /** One block with the three bits that announce it. */
  ghost function ReadOne(done: seq<nat>, bits: seq<bool>): (r: Parse<Piece>)
    ensures r.Got? ==> |r.rest| < |bits|
  {
    match GetBits(bits, 3)
    case Bad => Bad
    case Got(head, bits1) =>
      match ReadBody(head / 2, done, bits1)
      case Bad => Bad
      case Got(bytes, rest) => Got(Piece(head % 2 == 1, bytes), rest)
  }

  /** Blocks up to the last one. */
  ghost function ReadStream(done: seq<nat>, bits: seq<bool>): (r: Parse<seq<nat>>)
    decreases |bits|
  {
    match ReadOne(done, bits)
    case Bad => Bad
    case Got(block, rest) => if block.final then Got(block.bytes, rest) else ReadStream(block.bytes, rest)
  }
}
