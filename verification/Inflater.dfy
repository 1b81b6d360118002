/**
 The inflater's reading of a block with dynamic codes (qqwry/miniz.c, TINFL_GET_BITS, TINFL_HUFF_DECODE and
 tinfl_decompress), on the lookup tables it builds: bytes are moved into a bit buffer as they are needed and symbols
 are decoded by table. The results are those of module InflateBlock. When the input runs out, the work ends for a caller
 that announces more input; otherwise zero bytes are supplied.
 */
module Inflater {
  import opened Bits
  import opened Canonical
  import opened InflateBlock
  import BitWriter
  import InflateTable

  const BUFFER_BITS: nat := 64

  /** What the bit buffer and the input hold. */
  ghost function Pending(input: seq<nat>, pos: nat, bitBuf: nat, numBits: nat): (bits: seq<bool>)
    requires pos <= |input|
  {
    LowBits(bitBuf, numBits) + BitWriter.BitsOf(input[pos..])
  }

  lemma OneByteMore(input: seq<nat>, pos: nat, bitBuf: nat, numBits: nat)
    requires pos < |input| && input[pos] < 256 && bitBuf < Pow2(numBits)
    ensures bitBuf + Shl(input[pos], numBits) < Pow2(numBits + 8)
    ensures Pending(input, pos + 1, bitBuf + Shl(input[pos], numBits), numBits + 8) == Pending(input, pos, bitBuf, numBits)
  {
    hide LowBits, Shl, BitWriter.BitsOf;
    ByteFits(input[pos]);
    BitWriter.ShlAppend(bitBuf, numBits, input[pos], 8);
    assert input[pos..] == [input[pos]] + input[pos + 1..];
    BitWriter.BitsOfFront(input[pos], input[pos + 1..]);
  }

  lemma BitsTaken(input: seq<nat>, pos: nat, bitBuf: nat, numBits: nat, n: nat)
    requires pos <= |input| && bitBuf < Pow2(numBits) && n <= numBits
    ensures Shr(bitBuf, n) < Pow2(numBits - n)
    ensures Pending(input, pos, bitBuf, numBits)[n..] == Pending(input, pos, Shr(bitBuf, n), numBits - n)
    ensures Pending(input, pos, bitBuf, numBits)[..n] == LowBits(bitBuf, n)
  {
    hide BitWriter.BitsOf;
    ShrBelow(bitBuf, numBits - n, n);
    LowBitsAppend(bitBuf, n, numBits - n);
  }

  lemma FirstBits(input: seq<nat>, pos: nat, bitBuf: nat, numBits: nat, k: nat)
    requires pos <= |input| && k <= numBits
    ensures k <= |Pending(input, pos, bitBuf, numBits)|
            && Pending(input, pos, bitBuf, numBits)[..k] == LowBits(bitBuf, k)
  {
    hide BitWriter.BitsOf;
    InflateTable.LowBitsPrefix(bitBuf, k, numBits);
  }

  lemma NoInputLeft(input: seq<nat>, bitBuf: nat, numBits: nat)
    ensures Pending(input, |input|, bitBuf, numBits) == LowBits(bitBuf, numBits)
  {
    assert input[|input|..] == [];
  }

  class Reader {
    const input: seq<nat>
    /** The caller announces more input; otherwise zero bytes are supplied behind the end. */
    const more: bool
    var pos: nat
    var bitBuf: nat
    var numBits: nat
    /** How many zero bytes have been supplied. */
    ghost var pads: nat

    ghost predicate Valid()
      reads this
    {
      && pos <= |input| && (forall i :: 0 <= i < |input| ==> input[i] < 256)
      && numBits <= BUFFER_BITS && bitBuf < Pow2(numBits)
      && (pads > 0 ==> !more && pos == |input| && bitBuf < Pow2(Positive(Balance())))
    }

    /** The bits not yet read. */
    ghost function Stream(): (bits: seq<bool>)
      requires Valid()
      reads this
    {
      Pending(input, pos, bitBuf, numBits)
    }

    /** How many bits of the input are left; negative when zeros have been read beyond it. */
    ghost function Balance(): (n: int)
      reads this
    {
      numBits + 8 * (|input| - pos) - 8 * pads
    }

    /** The reader has moved on from a state with this balance and so many zero bytes. */
    ghost predicate Later(balance: int, zeros: nat)
      reads this
    {
      Valid() && Balance() <= balance && zeros <= pads
    }

    constructor (input: seq<nat>, more: bool)
      requires forall i :: 0 <= i < |input| ==> input[i] < 256
      ensures Valid() && this.input == input && Stream() == BitWriter.BitsOf(input) && numBits == 0 && pads == 0
    {
      this.input, this.more := input, more;
      pos, bitBuf, numBits, pads := 0, 0, 0, 0;
      new;
      assert input[0..] == input && LowBits(0, 0) == [];
    }

    /** Moves a byte into the bit buffer: the next one, or a zero behind the end of an input that is all there is. */
    method FillByte() returns (ok: bool)
      requires Valid() && numBits + 8 <= BUFFER_BITS
      modifies this
      ensures Valid() && Balance() == old(Balance()) && (ok <==> old(pos) < |input| || !more)
      ensures numBits == old(numBits) + (if ok then 8 else 0) && (!ok ==> bitBuf == old(bitBuf))
      ensures pos == old(pos) + (if old(pos) < |input| then 1 else 0)
      ensures pads == old(pads) + (if old(pos) == |input| && !more then 1 else 0)
      ensures pads == old(pads) ==> Stream() == old(Stream())
    {
      hide Pending, Pow2, Shl;
      ok := true;
      if pos < |input| {
        OneByteMore(input, pos, bitBuf, numBits);
        bitBuf := bitBuf + Shl(input[pos], numBits);
        pos := pos + 1;
      } else if more {
        return false;
      } else {
        WiderBuffer(bitBuf, numBits);
        pads := pads + 1;
      }
      numBits := numBits + 8;
    }

    /** Moves four bytes into the bit buffer. */
    method FillWord()
      requires Valid() && numBits + 32 <= BUFFER_BITS && pos + 4 <= |input|
      modifies this
      ensures Valid() && Stream() == old(Stream()) && pos == old(pos) + 4 && numBits == old(numBits) + 32
      ensures Balance() == old(Balance()) && pads == old(pads)
    {
      hide Pending, Pow2;
      for i := 0 to 4
        invariant Valid() && Stream() == old(Stream()) && pos == old(pos) + i && numBits == old(numBits) + 8 * i
        invariant Balance() == old(Balance()) && pads == old(pads)
      {
        var ok := FillByte();
      }
    }

    /** Removes bits from the buffer. */
    method Drop(n: nat)
      requires Valid() && n <= numBits
      modifies this
      ensures Valid() && n <= |old(Stream())| && Stream() == old(Stream())[n..]
      ensures pos == old(pos) && numBits == old(numBits) - n && pads == old(pads) && Balance() == old(Balance()) - n
    {
      hide Pending, Pow2, Shr;
      BitsTaken(input, pos, bitBuf, numBits, n);
      FirstBits(input, pos, bitBuf, numBits, n);
      if pads > 0 {
        ZerosTaken(bitBuf, Balance(), n);
      }
      bitBuf := Shr(bitBuf, n);
      numBits := numBits - n;
    }

    /** Reads n bits. Zeros are supplied only when there are fewer; without them it fails. */
    method Get(n: nat) returns (ok: bool, b: nat)
      requires Valid() && n <= 16
      modifies this
      ensures Later(old(Balance()), old(pads)) && b < Pow2(n)
      ensures if pads == old(pads) then GetBits(old(Stream()), n) == if ok then Got(b, Stream()) else Bad
              else ok && GetBits(old(Stream()), n).Bad?
      ensures ok ==> Balance() == old(Balance()) - n && (old(Balance()) <= 0 ==> b == 0)
    {
      hide Pending, Pow2, LowBits, Low, Val;
      ok, b := true, 0;
      Pow2Positive(n);
      ghost var p0 := pads;
      while numBits < n
        invariant Valid() && Balance() == old(Balance()) && p0 <= pads
        invariant if pads == p0 then Stream() == old(Stream()) else GetBits(old(Stream()), n).Bad?
        decreases n - numBits
      {
        if pos == |input| {
          NoInputLeft(input, bitBuf, numBits);
        }
        ok := FillByte();
        if !ok {
          return;
        }
      }
      ok := true;
      FirstBits(input, pos, bitBuf, numBits, n);
      ValLowBits(bitBuf, n);
      LowBelow(bitBuf, n);
      b := Low(bitBuf, n);
      if Balance() <= 0 {
        NothingReal(input, pos, bitBuf, numBits, pads, n);
      }
      Drop(n);
    }

    /** The bits at hand are enough to decode a symbol. */
    ghost predicate Ready(look: seq<int>, tree: seq<int>)
      requires |look| == InflateTable.LOOKUP_SIZE
      reads this
    {
      numBits >= InflateTable.MAX_BITS || InflateTable.Decided(look, tree, bitBuf, numBits)
    }

    /** Near the end of the input: takes bytes one at a time, and none beyond the next code. */
    method FillSlowly(look: seq<int>, tree: seq<int>, ghost sizes: seq<nat>) returns (ok: bool)
      requires Valid() && InflateTable.TableFor(sizes, look, tree) && |look| == InflateTable.LOOKUP_SIZE
      modifies this
      ensures Later(old(Balance()), old(pads)) && (ok ==> Ready(look, tree))
      ensures pads == old(pads) ==> Stream() == old(Stream()) && (!ok ==> DecodeSym(sizes, Stream()).Bad?)
      ensures pads > old(pads) ==> ok && DecodeSym(sizes, old(Stream())).Bad?
    {
      hide Pending, Pow2, InflateTable.TableFor, InflateTable.Decided, InflateTable.Agrees, CodeBits, DecodeSym;
      ghost var p0 := pads;
      while numBits < InflateTable.MAX_BITS
        invariant Valid() && Balance() == old(Balance()) && p0 <= pads
        invariant if pads == p0 then Stream() == old(Stream()) else DecodeSym(sizes, old(Stream())).Bad?
        decreases InflateTable.MAX_BITS - numBits
      {
        var found := InflateTable.TryDecode(look, tree, bitBuf, numBits, sizes);
        if found {
          return true;
        }
        if pos == |input| {
          NoInputLeft(input, bitBuf, numBits);
          NoCodeLeft(sizes, bitBuf, numBits);
        }
        ok := FillByte();
        if !ok {
          return;
        }
      }
      return true;
    }

    /** Makes sure that the next symbol can be decoded. */
    method Refill(look: seq<int>, tree: seq<int>, ghost sizes: seq<nat>) returns (ok: bool)
      requires Valid() && InflateTable.TableFor(sizes, look, tree) && |look| == InflateTable.LOOKUP_SIZE
      modifies this
      ensures Later(old(Balance()), old(pads)) && (ok ==> Ready(look, tree))
      ensures pads == old(pads) ==> Stream() == old(Stream()) && (!ok ==> DecodeSym(sizes, Stream()).Bad?)
      ensures pads > old(pads) ==> ok && DecodeSym(sizes, old(Stream())).Bad?
    {
      hide Pending, Pow2, InflateTable.TableFor, InflateTable.Decided, DecodeSym;
      ok := true;
      if numBits < InflateTable.MAX_BITS {
        if |input| - pos < 2 {
          ok := FillSlowly(look, tree, sizes);
        } else {
          var done := FillByte();
          done := FillByte();
        }
      }
    }

    /** Decodes a symbol with the bits at hand: the symbol whose code comes next, if there is one. */
    method Take(look: seq<int>, tree: seq<int>, ghost sizes: seq<nat>) returns (sym: nat)
      requires Valid() && InflateTable.TableFor(sizes, look, tree) && |look| == InflateTable.LOOKUP_SIZE
               && Ready(look, tree)
      modifies this
      ensures Later(old(Balance()), old(pads)) && pads == old(pads) && (sym < |sizes| || sym == 0)
      ensures pos == old(pos) && numBits + InflateTable.MAX_BITS >= old(numBits)
      ensures DecodeSym(sizes, old(Stream())).Got? ==> DecodeSym(sizes, old(Stream())) == Got(sym, Stream())
      ensures Complete(sizes, InflateTable.MAX_BITS) ==> DecodeSym(sizes, old(Stream())).Got?
    {
      hide Pending, Pow2, InflateTable.TableFor, InflateTable.Decided, InflateTable.StartsWith, InflateTable.Answer,
           CodeBits, DecodeSym, Complete;
      var codeLen;
      sym, codeLen := InflateTable.DecodeSymbol(look, tree, bitBuf, sizes);
      EnoughBits(look, tree, bitBuf, numBits);
      TakenIsCode(sizes, look, tree, input, pos, bitBuf, numBits, sym, codeLen);
      Drop(codeLen);
    }

    /** Decodes the next symbol. Zeros are supplied only when the input holds no whole code; without them it fails. */
    method Decode(look: seq<int>, tree: seq<int>, ghost sizes: seq<nat>) returns (ok: bool, sym: nat)
      requires Valid() && InflateTable.TableFor(sizes, look, tree) && |look| == InflateTable.LOOKUP_SIZE
      modifies this
      ensures Later(old(Balance()), old(pads)) && (ok ==> sym < |sizes| || sym == 0)
      ensures DecodeSym(sizes, old(Stream())).Got? ==>
                pads == old(pads) && ok && DecodeSym(sizes, old(Stream())) == Got(sym, Stream())
      ensures ok && pads == old(pads) && Complete(sizes, InflateTable.MAX_BITS) ==> DecodeSym(sizes, old(Stream())).Got?
    {
      hide Pending, Pow2, InflateTable.TableFor, InflateTable.Decided, DecodeSym, Complete;
      ok := Refill(look, tree, sizes);
      sym := 0;
      if ok {
        sym := Take(look, tree, sizes);
      }
    }
  }

  function Positive(n: int): (k: nat)
  {
    if n < 0 then 0 else n
  }

  lemma Pow2Positive(n: nat)
    ensures 0 < Pow2(n)
  {
  }

  lemma WiderBuffer(v: nat, n: nat)
    requires v < Pow2(n)
    ensures v < Pow2(n + 8)
  {
    hide Pow2;
    Pow2Mono(n, n + 8);
  }

  lemma LowBelow(v: nat, n: nat)
    ensures Low(v, n) < Pow2(n)
  {
    hide Low, Val;
    ValLowBits(v, n);
  }

  /** What is left of the input in the buffer shrinks with what is taken; the rest are zeros. */
  lemma ZerosTaken(v: nat, balance: int, n: nat)
    requires v < Pow2(Positive(balance))
    ensures Shr(v, n) < Pow2(Positive(balance - n))
  {
    hide Pow2, Shr;
    var k := Positive(balance);
    if k < n {
      Pow2Mono(k, n);
      ShrBelow(v, 0, n);
    } else {
      ShrBelow(v, k - n, n);
    }
  }

  /** Beyond the end of the input only zeros are read. */
  lemma NothingReal(input: seq<nat>, pos: nat, bitBuf: nat, numBits: nat, pads: nat, n: nat)
    requires pos <= |input| && n <= numBits && bitBuf < Pow2(numBits)
    requires pads > 0 ==> pos == |input| && bitBuf < Pow2(Positive(numBits - 8 * pads))
    requires numBits + 8 * (|input| - pos) - 8 * pads <= 0
    ensures Low(bitBuf, n) == 0
  {
    assert Pow2(0) == 1;
    assert bitBuf == 0;
    LowSmall(0, n);
  }

  /** A code that comes next agrees with the bits at hand. */
  lemma NextCodeAgrees(sizes: seq<nat>, input: seq<nat>, pos: nat, bitBuf: nat, numBits: nat, s: nat)
    requires pos <= |input| && Used(sizes, s) && CodeBits(sizes, s) <= Pending(input, pos, bitBuf, numBits)
    ensures InflateTable.Agrees(bitBuf, numBits, CodeBits(sizes, s))
    ensures sizes[s] <= numBits ==> InflateTable.StartsWith(bitBuf, CodeBits(sizes, s))
  {
    hide Pending, CodeBits, LowBits;
    var stream, code := Pending(input, pos, bitBuf, numBits), CodeBits(sizes, s);
    var k := if numBits < |code| then numBits else |code|;
    FirstBits(input, pos, bitBuf, numBits, k);
    assert stream[..k] == code[..k];
  }

  /** A code that the buffer starts with comes next. */
  lemma StartingCodeIsNext(sizes: seq<nat>, input: seq<nat>, pos: nat, bitBuf: nat, numBits: nat, s: nat)
    requires pos <= |input| && Used(sizes, s) && InflateTable.StartsWith(bitBuf, CodeBits(sizes, s))
             && sizes[s] <= numBits
    ensures Codes(sizes, s, Pending(input, pos, bitBuf, numBits))
  {
    hide Pending, CodeBits, LowBits;
    FirstBits(input, pos, bitBuf, numBits, sizes[s]);
  }

  /** With all input in the buffer, an undecided buffer holds no code. */
  lemma NoCodeLeft(sizes: seq<nat>, bitBuf: nat, numBits: nat)
    requires forall s: nat :: Used(sizes, s) && InflateTable.Agrees(bitBuf, numBits, CodeBits(sizes, s)) ==>
             sizes[s] > numBits
    ensures DecodeSym(sizes, LowBits(bitBuf, numBits)).Bad?
  {
    hide LowBits, CodeBits, InflateTable.Agrees;
    var none: seq<nat> := [];
    NoInputLeft(none, bitBuf, numBits);
    forall s: nat | Used(sizes, s)
      ensures !Codes(sizes, s, LowBits(bitBuf, numBits))
    {
      if Codes(sizes, s, LowBits(bitBuf, numBits)) {
        NextCodeAgrees(sizes, none, 0, bitBuf, numBits, s);
      }
    }
  }

  lemma EnoughBits(look: seq<int>, tree: seq<int>, bitBuf: nat, numBits: nat)
    requires |look| == InflateTable.LOOKUP_SIZE
    requires numBits >= InflateTable.MAX_BITS || InflateTable.Decided(look, tree, bitBuf, numBits)
    ensures InflateTable.Answer(look, tree, bitBuf).1 <= InflateTable.MAX_BITS
        ==> InflateTable.Answer(look, tree, bitBuf).1 <= numBits
  {
    hide InflateTable.Answer, InflateTable.Decided;
    if numBits < InflateTable.MAX_BITS {
      InflateTable.DecidedAnswer(look, tree, bitBuf, numBits);
    }
  }

  lemma TakenIsCode(sizes: seq<nat>, look: seq<int>, tree: seq<int>, input: seq<nat>, pos: nat, bitBuf: nat,
                    numBits: nat,
                    sym: nat, codeLen: nat)
    requires InflateTable.TableFor(sizes, look, tree) && |look| == InflateTable.LOOKUP_SIZE && pos <= |input|
    requires numBits >= InflateTable.MAX_BITS || InflateTable.Decided(look, tree, bitBuf, numBits)
    requires forall s: nat :: Used(sizes, s) && InflateTable.StartsWith(bitBuf, CodeBits(sizes, s)) ==>
             sym == s && codeLen == sizes[s]
    requires codeLen <= numBits
    ensures var stream := Pending(input, pos, bitBuf, numBits);
            && codeLen <= |stream|
            && (DecodeSym(sizes, stream).Got? ==> DecodeSym(sizes, stream) == Got(sym, stream[codeLen..]))
            && (Complete(sizes, InflateTable.MAX_BITS) ==> DecodeSym(sizes, stream).Got?)
  {
    hide Pending, CodeBits, LowBits, InflateTable.Agrees, InflateTable.StartsWith, InflateTable.Decided,
         InflateTable.TableFor,
         Complete, InflateTable.Acceptable;
    var stream := Pending(input, pos, bitBuf, numBits);
    FirstBits(input, pos, bitBuf, numBits, codeLen);
    forall s: nat | Codes(sizes, s, stream)
      ensures s == sym && sizes[s] == codeLen
    {
      NextCodeAgrees(sizes, input, pos, bitBuf, numBits, s);
      CodeIsShort(sizes, look, tree, bitBuf, numBits, s);
    }
    if Complete(sizes, InflateTable.MAX_BITS) {
      TableAccepts(sizes, look, tree);
      var s := InflateTable.CompleteDecodes(sizes, bitBuf);
      InflateTable.StartsAgrees(bitBuf, CodeBits(sizes, s), numBits);
      CodeIsShort(sizes, look, tree, bitBuf, numBits, s);
      StartingCodeIsNext(sizes, input, pos, bitBuf, numBits, s);
    }
  }

  lemma TableAccepts(sizes: seq<nat>, look: seq<int>, tree: seq<int>)
    requires InflateTable.TableFor(sizes, look, tree)
    ensures InflateTable.Acceptable(sizes)
  {
  }

  /** When the buffer is decided, a code that agrees with it ends within it. */
  lemma CodeIsShort(sizes: seq<nat>, look: seq<int>, tree: seq<int>, bitBuf: nat, numBits: nat, s: nat)
    requires InflateTable.TableFor(sizes, look, tree) && |look| == InflateTable.LOOKUP_SIZE
    requires numBits >= InflateTable.MAX_BITS || InflateTable.Decided(look, tree, bitBuf, numBits)
    requires Used(sizes, s) && InflateTable.Agrees(bitBuf, numBits, CodeBits(sizes, s))
    ensures sizes[s] <= numBits
  {
    hide InflateTable.Decided, InflateTable.Agrees, CodeBits, InflateTable.TableFor, InflateTable.Acceptable;
    TableAccepts(sizes, look, tree);
    InflateTable.CodeLengthBound(sizes, s);
    InflateTable.DecidedIff(sizes, look, tree, bitBuf, numBits, s);
  }
}
