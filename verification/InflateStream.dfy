/**
 The inflater's loop over blocks of all kinds (qqwry/miniz.c, tinfl_decompress, with an output buffer that does not
 wrap, on a stream without the wrapper of RFC 1950).
 */
module InflateStream {
  import opened InflateBlock
  import opened Inflater
  import opened InflateLoop
  import opened LzExpand
  import opened StreamSpec
  import Bits
  import BitWriter
  import StaticBlock
  import Canonical
  import InflateTable

  // ---------- stored bytes ----------

  lemma BytesGrow(done: seq<nat>, n: nat, bits: seq<bool>)
    ensures ReadBytes(done, n, bits).Got? ==> |ReadBytes(done, n, bits).value| == |done| + n
    decreases n
  {
    if n > 0 {
      var next := GetBits(bits, 8);
      if next.Got? {
        BytesGrow(done + [next.value], n - 1, next.rest);
      }
    }
  }

  /** Whole bytes are read as they are. */
  lemma {:induction false} BytesThrough(done: seq<nat>, n: nat, more: nat, bytes: seq<nat>)
    requires n <= |bytes| && forall i :: 0 <= i < |bytes| ==> bytes[i] < 256
    ensures ReadBytes(done, n + more, BitWriter.BitsOf(bytes)) == ReadBytes(done + bytes[..n], more, BitWriter.BitsOf(bytes[n..]))
    decreases n
  {
    hide GetBits, BitWriter.BitsOf, Bits.LowBits;
    if n == 0 {
      assert done + bytes[..0] == done && bytes[0..] == bytes;
    } else {
      var b, tail := bytes[0], bytes[1..];
      assert bytes == [b] + tail;
      BitWriter.BitsOfFront(b, tail);
      Bits.ByteFits(b);
      GetPut(b, 8, BitWriter.BitsOf(tail));
      BytesThrough(done + [b], n - 1, more, tail);
      assert done + [b] + tail[..n - 1] == done + bytes[..n] && tail[n - 1..] == bytes[n..];
    }
  }

  /** Two bytes make a sixteen-bit number, the low one first. */
  lemma TwoBytes(bits: seq<bool>)
    ensures GetBits(bits, 16)
         == match GetBits(bits, 8)
            case Bad => Bad
            case Got(a, rest) => match GetBits(rest, 8) case Bad => Bad case Got(b, rest') => Got(a + 256 * b, rest')
  {
    hide Bits.Val;
    if |bits| >= 16 {
      var low, high := bits[..8], bits[8..][..8];
      assert bits[..16] == low + high && bits[8..][8..] == bits[16..];
      Bits.ValConcat(low, high);
      assert Bits.Pow2(8) == 256;
    }
  }

  method GetWord(r: Reader) returns (ok: bool, word: nat)
    requires r.Valid()
    modifies r
    ensures r.Later(old(r.Balance()), old(r.pads))
    ensures if r.pads == old(r.pads) then GetBits(old(r.Stream()), 16) == if ok then Got(word, r.Stream()) else Bad
            else GetBits(old(r.Stream()), 16).Bad?
    ensures ok && old(r.Balance()) <= 0 ==> word == 0
  {
    hide GetBits, Pending, Bits.Pow2;
    TwoBytes(r.Stream());
    word := 0;
    var low, high;
    ok, low := r.Get(8);
    if ok {
      ok, high := r.Get(8);
      if ok {
        word := low + 256 * high;
      }
    }
  }

  lemma SurplusIs(input: seq<nat>, pos: nat, bitBuf: nat, numBits: nat)
    requires pos <= |input|
    ensures Surplus(|Pending(input, pos, bitBuf, numBits)|) == numBits % 8
  {
    BitWriter.BitsOfSize(input[pos..]);
  }

  /** Skips to a byte boundary. */
  method SkipToByte(r: Reader)
    requires r.Valid()
    modifies r
    ensures r.Later(old(r.Balance()), old(r.pads)) && r.pads == old(r.pads)
    ensures r.Stream() == old(r.Stream())[Surplus(|old(r.Stream())|)..]
  {
    hide Pending, Surplus;
    SurplusIs(r.input, r.pos, r.bitBuf, r.numBits);
    r.Drop(r.numBits % 8);
  }

  /** Copies bytes that are already in the bit buffer. */
  method CopyBuffered(r: Reader, out: array<nat>, at: nat, n: nat) returns (status: Status, end: nat, left: nat)
    requires r.Valid() && at <= out.Length
    modifies r, out
    ensures r.Later(old(r.Balance()), old(r.pads)) && at <= end <= out.Length
    ensures status == Done ==> r.numBits == 0 || left == 0
    ensures var whole := ReadBytes(old(out[..at]), n, old(r.Stream()));
            if r.pads == old(r.pads) then status == Done ==> ReadBytes(out[..end], left, r.Stream()) == whole
            else whole.Bad?
    ensures status != Done ==> TooMuch(ReadBytes(old(out[..at]), n, old(r.Stream())), out.Length)
  {
    hide GetBits, Pending, Bits.Pow2;
    ghost var whole, p0 := ReadBytes(out[..at], n, r.Stream()), r.pads;
    BytesGrow(out[..at], n, r.Stream());
    end, left := at, n;
    while left > 0 && r.numBits > 0
      invariant r.Later(old(r.Balance()), old(r.pads)) && at <= end <= out.Length && end + left == at + n
      invariant if r.pads == p0 then whole == ReadBytes(out[..end], left, r.Stream()) else whole.Bad?
    {
      ghost var done := out[..end];
      var ok, b := r.Get(8);
      if !ok {
        return NeedsInput, end, left;
      }
      if end == out.Length {
        return OutputFull, end, left;
      }
      out[end] := b;
      assert out[..end + 1] == done + [b];
      end, left := end + 1, left - 1;
    }
    status := Done;
  }

  /** Copies bytes straight from the input. */
  method CopyInput(r: Reader, out: array<nat>, at: nat, n: nat) returns (status: Status, end: nat)
    requires r.Valid() && at <= out.Length && (r.numBits == 0 || n == 0)
    modifies r, out
    ensures r.Later(old(r.Balance()), old(r.pads)) && at <= end <= out.Length
    ensures r.pads == old(r.pads)
    ensures status == Done ==> ReadBytes(old(out[..at]), n, old(r.Stream())) == Got(out[..end], r.Stream())
    ensures status != Done ==> TooMuch(ReadBytes(old(out[..at]), n, old(r.Stream())), out.Length)
  {
    hide GetBits, Pending, ReadBytes, Bits.Pow2;
    ghost var whole := ReadBytes(out[..at], n, r.Stream());
    BytesGrow(out[..at], n, r.Stream());
    end := at;
    var left: nat := n;
    while left > 0
      invariant r.Later(old(r.Balance()), old(r.pads)) && at <= end <= out.Length && end + left == at + n
      invariant r.pads == old(r.pads) && (r.numBits == 0 || left == 0)
      invariant whole == ReadBytes(out[..end], left, r.Stream())
    {
      if end == out.Length {
        return OutputFull, end;
      }
      if r.pos == |r.input| {
        NoBytesLeft(out[..end], left, r.input, r.bitBuf);
        return if r.more then NeedsInput else Failed, end;
      }
      var room, have := out.Length - end, |r.input| - r.pos;
      var k := if room < have then room else have;
      k := if left < k then left else k;
      ghost var done := out[..end];
      forall i | 0 <= i < k { out[end + i] := r.input[r.pos + i]; }
      assert out[..end + k] == done + r.input[r.pos..r.pos + k];
      MovedOn(done, k, left - k, r.input, r.pos, r.bitBuf);
      r.pos := r.pos + k;
      end, left := end + k, left - k;
    }
    NoMoreBytes(out[..end], r.Stream());
    status := Done;
  }

  lemma NoMoreBytes(done: seq<nat>, bits: seq<bool>)
    ensures ReadBytes(done, 0, bits) == Got(done, bits)
  {
  }

  lemma NoBytesLeft(done: seq<nat>, n: nat, input: seq<nat>, bitBuf: nat)
    requires n > 0
    ensures ReadBytes(done, n, Pending(input, |input|, bitBuf, 0)).Bad?
  {
    assert input[|input|..] == [];
  }

  lemma MovedOn(done: seq<nat>, k: nat, more: nat, input: seq<nat>, pos: nat, bitBuf: nat)
    requires pos + k <= |input| && forall i :: 0 <= i < |input| ==> input[i] < 256
    ensures ReadBytes(done, k + more, Pending(input, pos, bitBuf, 0))
         == ReadBytes(done + input[pos..pos + k], more, Pending(input, pos + k, bitBuf, 0))
    ensures |Pending(input, pos + k, bitBuf, 0)| <= |Pending(input, pos, bitBuf, 0)|
  {
    hide ReadBytes, BitWriter.BitsOf;
    NoneBuffered(input, pos, bitBuf);
    NoneBuffered(input, pos + k, bitBuf);
    BytesThrough(done, k, more, input[pos..]);
    assert input[pos..][..k] == input[pos..pos + k] && input[pos..][k..] == input[pos + k..];
    BitWriter.BitsOfSize(input[pos..]);
    BitWriter.BitsOfSize(input[pos + k..]);
  }

  lemma NoneBuffered(input: seq<nat>, pos: nat, bitBuf: nat)
    requires pos <= |input|
    ensures Pending(input, pos, bitBuf, 0) == BitWriter.BitsOf(input[pos..])
  {
  }

  /** A block of stored bytes. */
  method InflateStored(r: Reader, out: array<nat>, at: nat) returns (status: Status, end: nat)
    requires r.Valid() && at <= out.Length
    modifies r, out
    ensures r.Later(old(r.Balance()), old(r.pads)) && end <= out.Length
    ensures var whole := ReadStored(old(out[..at]), old(r.Stream()));
            && (if r.pads == old(r.pads) then status == Done ==> whole == Got(out[..end], r.Stream()) else whole.Bad?)
            && (status != Done ==> TooMuch(whole, out.Length))
    ensures old(r.Balance()) <= 0 ==> status != Done
  {
    hide GetBits, Pending, ReadBytes, Surplus;
    end := at;
    SkipToByte(r);
    var ok, len := GetWord(r);
    if !ok {
      return NeedsInput, end;
    }
    var check;
    ok, check := GetWord(r);
    if !ok {
      return NeedsInput, end;
    }
    if len + check != 0xFFFF {
      return Failed, end;
    }
    var left;
    status, end, left := CopyBuffered(r, out, at, len);
    if status == Done {
      status, end := CopyInput(r, out, end, left);
    }
  }

  // ---------- blocks ----------

  /** A result that fits into the output. */
  ghost predicate Fits(whole: Parse<seq<nat>>, room: nat)
  {
    whole.Got? && |whole.value| <= room
  }

  /** A block with fixed codes. */
  method InflateStatic(r: Reader, out: array<nat>, at: nat) returns (status: Status, end: nat)
    requires r.Valid() && at <= out.Length
    modifies r, out
    ensures r.Later(old(r.Balance()), old(r.pads)) && end <= out.Length
    ensures var whole := Whole(StaticLit(), StaticDist(), old(out[..at]), old(r.Stream()));
            && (Fits(whole, out.Length) ==> status == Done)
            && (status == Done && (whole.Got? || r.pads == old(r.pads)) ==>
                  r.pads == old(r.pads) && whole == Got(out[..end], r.Stream()))
  {
    hide ReadItems, Expand, InflateTable.Acceptable, InflateTable.TableFor, Pending, StaticLit, StaticDist, Whole;
    StaticBlock.StaticAcceptable();
    SmallSizes(StaticLit());
    SmallSizes(StaticDist());
    GaplessStatic();
    var ok, distLook, distTree := MakeTable(StaticDist());
    var litLook, litTree;
    ok, litLook, litTree := MakeTable(StaticLit());
    status, end := InflateItems(r, litLook, litTree, distLook, distTree, out, at, StaticLit(), StaticDist());
  }

  lemma SmallSizes(sizes: seq<nat>)
    requires InflateTable.Acceptable(sizes)
    ensures |sizes| <= InflateTable.MAX_SYMBOLS && forall i :: 0 <= i < |sizes| ==> sizes[i] <= InflateTable.MAX_BITS
  {
  }

  lemma GaplessStatic()
    ensures BothGapless(StaticLit(), StaticDist())
  {
    hide StaticLit, StaticDist, Canonical.End, Bits.Pow2;
    StaticBlock.StaticAcceptable();
    SmallSizes(StaticLit());
    SmallSizes(StaticDist());
    StaticBlock.LitSpace();
    StaticBlock.DistSpace();
    Bits.Pow2Values();
  }

  /** The body of a block of any kind. */
  method InflateBody(r: Reader, kind: nat, out: array<nat>, at: nat) returns (status: Status, end: nat)
    requires r.Valid() && at <= out.Length && kind <= 3
    modifies r, out
    ensures r.Later(old(r.Balance()), old(r.pads)) && end <= out.Length
    ensures var whole := ReadBody(kind, old(out[..at]), old(r.Stream()));
            && (Fits(whole, out.Length) ==> status == Done && whole == Got(out[..end], r.Stream()))
            && (whole.Got? && status == Done ==> r.pads == old(r.pads) && whole == Got(out[..end], r.Stream()))
            && (status == Done && (kind == 2 ==> GaplessBlock(old(r.Stream()))) && r.pads == old(r.pads) ==>
                  whole == Got(out[..end], r.Stream()))
    ensures kind == 0 && old(r.Balance()) <= 0 ==> status != Done
  {
    hide ReadStored, Whole, BlockBytes, Pending, StaticLit, StaticDist, GaplessBlock;
    if kind == 0 {
      status, end := InflateStored(r, out, at);
    } else if kind == 3 {
      status, end := Failed, at;
    } else if kind == 1 {
      status, end := InflateStatic(r, out, at);
    } else {
      status, end := InflateDynamic(r, out, at);
    }
  }

  lemma BodyGrows(kind: nat, done: seq<nat>, bits: seq<bool>)
    ensures ReadBody(kind, done, bits).Got? ==> |done| <= |ReadBody(kind, done, bits).value|
  {
    hide GetBits, ReadBytes, Expand, ReadBlock, StaticLit, StaticDist, Whole;
    if kind == 0 {
      StoredGrows(done, bits);
    } else if kind == 1 {
      WholeGrows(StaticLit(), StaticDist(), done, bits);
    } else {
      var items := ReadBlock(bits);
      if items.Got? {
        ExpandGrows(done, items.value);
      }
    }
  }

  lemma StoredGrows(done: seq<nat>, bits: seq<bool>)
    ensures ReadStored(done, bits).Got? ==> |done| <= |ReadStored(done, bits).value|
  {
    hide GetBits, ReadBytes, Surplus;
    forall n: nat, bits': seq<bool>
      ensures ReadBytes(done, n, bits').Got? ==> |done| <= |ReadBytes(done, n, bits').value|
    {
      BytesGrow(done, n, bits');
    }
  }

  lemma {:induction false} StreamGrows(done: seq<nat>, bits: seq<bool>)
    ensures ReadStream(done, bits).Got? ==> |done| <= |ReadStream(done, bits).value|
    decreases |bits|
  {
    hide GetBits, ReadBody;
    var head := GetBits(bits, 3);
    if head.Got? {
      BodyGrows(head.value / 2, done, head.rest);
      var one := ReadOne(done, bits);
      if one.Got? {
        StreamGrows(one.value.bytes, one.rest);
      }
    }
  }

  /** The stream goes on with the block that follows. */
  lemma StreamStep(done: seq<nat>, bits: seq<bool>, head: nat, rest: seq<bool>, whole: Parse<seq<nat>>)
    requires GetBits(bits, 3) == Got(head, rest) && whole == ReadStream(done, bits) && whole.Got?
    ensures var body := ReadBody(head / 2, done, rest);
            && body.Got? && |body.value| <= |whole.value|
            && whole == if head % 2 == 1 then body else ReadStream(body.value, body.rest)
  {
    hide GetBits, ReadBody;
    var body := ReadBody(head / 2, done, rest);
    if body.Got? {
      StreamGrows(body.value, body.rest);
    }
  }

  /** The codes of all dynamic blocks, as far as they can be read, have no gaps. */
  ghost predicate GaplessStream(done: seq<nat>, bits: seq<bool>)
    decreases |bits|
  {
    match GetBits(bits, 3)
    case Bad => true
    case Got(head, rest) =>
      && (head / 2 == 2 ==> GaplessBlock(rest))
      && match ReadBody(head / 2, done, rest)
         case Bad => true
         case Got(bytes, rest') => head % 2 == 0 ==> GaplessStream(bytes, rest')
  }

  /** Behind a block that was read, the stream goes on. */
  lemma GaplessStep(done: seq<nat>, bits: seq<bool>, head: nat, rest: seq<bool>)
    requires GetBits(bits, 3) == Got(head, rest) && GaplessStream(done, bits)
    ensures head / 2 == 2 ==> GaplessBlock(rest)
    ensures var body := ReadBody(head / 2, done, rest);
            body.Got? ==>
              && (head % 2 == 0 ==> GaplessStream(body.value, body.rest))
              && ReadStream(done, bits) == if head % 2 == 1 then body else ReadStream(body.value, body.rest)
  {
    hide GetBits, ReadBody, GaplessBlock;
  }

  /**
   Inflates a whole stream. If the bits stand for bytes that fit into the output, those bytes are written, and the
   reader stops behind the last block. If the codes have no gaps and no zeros had to be supplied, nothing else is taken
   for a stream.
   */
  method Inflate(r: Reader, out: array<nat>) returns (status: Status, end: nat)
    requires r.Valid()
    modifies r, out
    ensures r.Valid() && end <= out.Length
    ensures var whole := ReadStream([], old(r.Stream()));
            && (Fits(whole, out.Length) ==> status == Done && whole == Got(out[..end], r.Stream()))
            && (whole.Got? && status == Done ==> r.pads == old(r.pads) && whole == Got(out[..end], r.Stream()))
            && (status == Done && GaplessStream([], old(r.Stream())) && r.pads == old(r.pads) ==>
                  whole == Got(out[..end], r.Stream()))
  {
    hide GetBits, ReadBody, ReadStream, Pending, GaplessStream, GaplessBlock, Bits.Pow2;
    end := 0;
    ghost var whole, gapless, p0 := ReadStream([], r.Stream()), GaplessStream([], r.Stream()), r.pads;
    assert out[..0] == [];
    EightHeads();
    while true
      invariant r.Valid() && end <= out.Length && p0 <= r.pads && (r.pads > p0 ==> whole.Bad?)
      invariant r.pads == p0 && (whole.Got? || gapless) ==> whole == ReadStream(out[..end], r.Stream())
      invariant r.pads == p0 && gapless ==> GaplessStream(out[..end], r.Stream())
      decreases Positive(r.Balance())
    {
      ghost var done, bits, was := out[..end], r.Stream(), r.pads;
      var ok, head := r.Get(3);
      if !ok || r.pads > was {
        NoHead(done, bits);
      }
      if !ok {
        return NeedsInput, end;
      }
      if r.pads == p0 && whole.Got? {
        StreamStep(done, bits, head, r.Stream(), whole);
      }
      if r.pads == p0 && gapless {
        GaplessStep(done, bits, head, r.Stream());
      }
      status, end := InflateBody(r, head / 2, out, end);
      if status != Done || head % 2 == 1 {
        return;
      }
    }
  }

  lemma NoHead(done: seq<nat>, bits: seq<bool>)
    requires GetBits(bits, 3).Bad?
    ensures ReadStream(done, bits).Bad?
  {
  }

  lemma EightHeads()
    ensures Bits.Pow2(3) == 8
  {
  }
}
