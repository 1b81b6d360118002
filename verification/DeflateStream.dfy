/**
 The compressor's output (qqwry/miniz.c, tdefl_record_literal, tdefl_record_match, tdefl_flush_block): tokens are
 recorded until their buffer is full, then written as a block with dynamic codes, with fixed codes, or as stored bytes
 when that is shorter. Whichever is chosen, the inflater recovers the bytes.
 */
module DeflateStream {
  import opened Bits
  import opened InflateBlock
  import opened DeflateBlock
  import opened LzExpand
  import opened StreamSpec
  import BitWriter
  import BlockWriter
  import LzBuffer
  import LzCounts
  import LzEmit
  import LzMatch
  import LzTokens
  import StaticBlock
  import Common

  const OUT_BUF_SIZE: nat := 85196

  // ---------- what a block adds ----------

  /** The body of a block of some kind, written after `before`: it is read as `data`, whatever follows. */
  ghost predicate BodyReads(kind: nat, before: nat, body: seq<bool>, done: seq<nat>, data: seq<nat>)
  {
    forall rest: seq<bool> :: Surplus(before + 2 + |body| + |rest|) == 0 ==>
      ReadBody(kind, done, body + rest) == Got(done + data, rest)
  }

  ghost predicate AddsBody(before: seq<bool>, after: seq<bool>, done: seq<nat>, data: seq<nat>)
  {
    exists kind: nat, body: seq<bool> ::
      kind < 3 && after == before + (LowBits(kind, 2) + body) && BodyReads(kind, |before|, body, done, data)
  }

  ghost predicate BlockReads(before: nat, block: seq<bool>, final: bool, done: seq<nat>, data: seq<nat>)
  {
    forall rest: seq<bool> :: Surplus(before + |block| + |rest|) == 0 ==>
      ReadOne(done, block + rest) == Got(Piece(final, done + data), rest)
  }

  /** A stream that has grown by a block with more data. */
  ghost predicate Adds(before: seq<bool>, after: seq<bool>, final: bool, done: seq<nat>, data: seq<nat>)
  {
    exists block: seq<bool> :: after == before + block && BlockReads(|before|, block, final, done, data)
  }

  lemma HeadRead(final: bool, kind: nat, tail: seq<bool>)
    requires kind < 3
    ensures GetBits(LowBits(BitInt(final), 1) + (LowBits(kind, 2) + tail), 3) == Got(BitInt(final) + 2 * kind, tail)
  {
    hide LowBits, Val;
    var head := BitInt(final) + 2 * kind;
    assert Pow2(3) == 8 && Low(head, 1) == BitInt(final) && Shr(head, 1) == kind;
    LowBitsAppend(head, 1, 2);
    BitWriter.LowBitsOfLow(head, 1);
    GetPut(head, 3, tail);
    assert LowBits(head, 3) + tail == LowBits(BitInt(final), 1) + (LowBits(kind, 2) + tail);
  }

  lemma OneRead(final: bool, kind: nat, body: seq<bool>, done: seq<nat>, data: seq<nat>, rest: seq<bool>)
    requires kind < 3 && ReadBody(kind, done, body + rest) == Got(done + data, rest)
    ensures ReadOne(done, LowBits(BitInt(final), 1) + (LowBits(kind, 2) + body) + rest) == Got(Piece(final, done + data), rest)
  {
    hide LowBits, ReadBody, GetBits;
    HeadRead(final, kind, body + rest);
    assert LowBits(BitInt(final), 1) + (LowBits(kind, 2) + body) + rest
        == LowBits(BitInt(final), 1) + (LowBits(kind, 2) + (body + rest));
    var head := BitInt(final) + 2 * kind;
    assert head / 2 == kind && (head % 2 == 1 <==> final);
  }

  lemma BodyWithHead(before: nat, kind: nat, body: seq<bool>, final: bool, done: seq<nat>, data: seq<nat>)
    requires kind < 3 && BodyReads(kind, before + 1, body, done, data)
    ensures BlockReads(before, LowBits(BitInt(final), 1) + (LowBits(kind, 2) + body), final, done, data)
  {
    hide LowBits, ReadBody, ReadOne, Surplus;
    var block := LowBits(BitInt(final), 1) + (LowBits(kind, 2) + body);
    OneBit(final);
    TwoBits(kind);
    forall rest: seq<bool> | Surplus(before + |block| + |rest|) == 0
      ensures ReadOne(done, block + rest) == Got(Piece(final, done + data), rest)
    {
      assert before + |block| + |rest| == before + 1 + 2 + |body| + |rest|;
      OneRead(final, kind, body, done, data, rest);
    }
  }

  /** The bit that marks the last block, then the body. */
  lemma WithHead(before: seq<bool>, after: seq<bool>, final: bool, done: seq<nat>, data: seq<nat>)
    requires AddsBody(before + LowBits(BitInt(final), 1), after, done, data)
    ensures Adds(before, after, final, done, data)
  {
    hide LowBits, BodyReads, BlockReads;
    var start := before + LowBits(BitInt(final), 1);
    var kind: nat, body: seq<bool> :|
      kind < 3 && after == start + (LowBits(kind, 2) + body) && BodyReads(kind, |start|, body, done, data);
    OneBit(final);
    BodyWithHead(|before|, kind, body, final, done, data);
    assert after == before + (LowBits(BitInt(final), 1) + (LowBits(kind, 2) + body));
  }

  lemma OneBit(final: bool)
    ensures |LowBits(BitInt(final), 1)| == 1
  {
  }

  lemma TwoBits(kind: nat)
    ensures |LowBits(kind, 2)| == 2
  {
  }

  /** Tokens that stand for the data. */
  ghost predicate StandFor(toks: seq<LzTokens.Token>, done: seq<nat>, data: seq<nat>)
  {
    Expand(done, ItemsOf(toks)) == Bytes(done + data)
  }

  lemma DynamicAdds(before: seq<bool>, after: seq<bool>, toks: seq<LzTokens.Token>, done: seq<nat>, data: seq<nat>)
    requires BlockWriter.Delivers(before, after, toks) && StandFor(toks, done, data)
    ensures AddsBody(before, after, done, data)
  {
    hide LowBits, ReadBlock, Expand, ItemsOf;
    var body: seq<bool> :| after == before + (LowBits(2, 2) + body) && BlockWriter.ReadsAs(body, toks);
    forall rest: seq<bool>
      ensures ReadBody(2, done, body + rest) == Got(done + data, rest)
    {
      assert ReadBlock(body + rest) == Got(ItemsOf(toks), rest);
    }
    assert BodyReads(2, |before|, body, done, data);
  }

  lemma StaticAdds(before: seq<bool>, after: seq<bool>, toks: seq<LzTokens.Token>, done: seq<nat>, data: seq<nat>)
    requires StaticBlock.Delivers(before, after, toks) && StandFor(toks, done, data)
    ensures AddsBody(before, after, done, data)
  {
    hide LowBits, ReadItems, Expand, ItemsOf, StaticLit, StaticDist;
    var body: seq<bool> :| after == before + (LowBits(1, 2) + body) && StaticBlock.ReadsAs(body, toks);
    forall rest: seq<bool>
      ensures ReadBody(1, done, body + rest) == Got(done + data, rest)
    {
      assert ReadItems(StaticLit(), StaticDist(), body + rest) == Got(ItemsOf(toks), rest);
    }
    assert BodyReads(1, |before|, body, done, data);
  }

  // ---------- stored blocks ----------

  /** Zero bits up to a byte boundary. */
  function PadSize(n: nat): (k: nat)
    ensures k < 8
  {
    if n % 8 == 0 then 0 else 8 - n % 8
  }

  ghost function StoredBody(before: nat, data: seq<nat>): (bits: seq<bool>)
    requires |data| < 65536
  {
    LowBits(0, PadSize(before + 2)) + (LowBits(|data|, 16) + (LowBits(0xFFFF - |data|, 16) + BitWriter.BitsOf(data)))
  }

  lemma {:induction false} BytesRead(done: seq<nat>, data: seq<nat>, rest: seq<bool>)
    requires forall i :: 0 <= i < |data| ==> data[i] < 256
    ensures ReadBytes(done, |data|, BitWriter.BitsOf(data) + rest) == Got(done + data, rest)
    decreases |data|
  {
    hide LowBits, GetBits, BitWriter.BitsOf;
    if data == [] {
      NoBytes(rest);
      assert done + data == done;
    } else {
      var tail := BitWriter.BitsOf(data[1..]) + rest;
      assert data == [data[0]] + data[1..];
      BitWriter.BitsOfFront(data[0], data[1..]);
      assert BitWriter.BitsOf(data) + rest == LowBits(data[0], 8) + tail;
      assert Pow2(8) == 256;
      GetPut(data[0], 8, tail);
      BytesRead(done + [data[0]], data[1..], rest);
      assert done + [data[0]] + data[1..] == done + data;
    }
  }

  lemma NoBytes(rest: seq<bool>)
    ensures BitWriter.BitsOf([]) + rest == rest
  {
  }

  lemma StoredReads(before: nat, done: seq<nat>, data: seq<nat>)
    requires |data| < 65536 && forall i :: 0 <= i < |data| ==> data[i] < 256
    ensures BodyReads(0, before, StoredBody(before, data), done, data)
  {
    hide StoredBody, ReadStored, Surplus;
    forall rest: seq<bool> | Surplus(before + 2 + |StoredBody(before, data)| + |rest|) == 0
      ensures ReadBody(0, done, StoredBody(before, data) + rest) == Got(done + data, rest)
    {
      StoredRead(before, done, data, rest);
    }
  }

  lemma StoredRead(before: nat, done: seq<nat>, data: seq<nat>, rest: seq<bool>)
    requires |data| < 65536 && forall i :: 0 <= i < |data| ==> data[i] < 256
    requires Surplus(before + 2 + |StoredBody(before, data)| + |rest|) == 0
    ensures ReadStored(done, StoredBody(before, data) + rest) == Got(done + data, rest)
  {
    hide LowBits, ReadBytes, GetBits, BitWriter.BitsOf, Pow2, Surplus, PadSize;
    var k, len := PadSize(before + 2), |data|;
    var pad, a, b, c := LowBits(0, k), LowBits(len, 16), LowBits(0xFFFF - len, 16), BitWriter.BitsOf(data);
    Sixteen(len);
    BitWriter.BitsOfSize(data);
    Sizes(k, len, 0xFFFF - len);
    var bits := StoredBody(before, data) + rest;
    assert |bits| == k + (32 + 8 * len) + |rest|;
    Aligned(before + 2, k, 4 + len, |rest|);
    assert bits[k..] == a + (b + (c + rest));
    GetPut(len, 16, b + (c + rest));
    GetPut(0xFFFF - len, 16, c + rest);
    BytesRead(done, data, rest);
  }

  lemma Sixteen(n: nat)
    requires n < 65536
    ensures n < Pow2(16) && 0xFFFF - n < Pow2(16)
  {
    Pow2Values();
    assert Pow2(16) == 65536;
  }

  lemma Sizes(k: nat, u: nat, v: nat)
    ensures |LowBits(0, k)| == k && |LowBits(u, 16)| == 16 && |LowBits(v, 16)| == 16
  {
  }

  /** In a stream of whole bytes, the bits after the pad are whole bytes. */
  lemma Aligned(start: nat, pad: nat, bytes: nat, rest: nat)
    requires pad == PadSize(start) && Surplus(start + (pad + 8 * bytes) + rest) == 0
    ensures Surplus(pad + 8 * bytes + rest) == pad
  {
    var q := if start % 8 == 0 then start / 8 else start / 8 + 1;
    assert start + pad == 8 * q;
    var n := start + (pad + 8 * bytes) + rest;
    var r := n / 8;
    assert n == 8 * r;
    assert rest == 8 * (r - q - bytes);
    assert pad + 8 * bytes + rest == 8 * (r - q) + pad;
  }

  lemma PadOf(bits: nat, pos: nat, bitsIn: nat)
    requires bits == 8 * pos + bitsIn && bitsIn < 8
    ensures PadSize(bits) == if bitsIn == 0 then 0 else 8 - bitsIn
  {
  }

  /** Fills up the byte at hand. */
  method Align(w: BitWriter.Writer)
    requires w.Valid()
    modifies w, w.out
    ensures w.Valid() && BitWriter.Grown(old(w.out[..]), old(w.pos), w.out[..], w.pos)
    ensures w.Size() <= old(w.Size()) + 7 && w.bitsIn == 0
    ensures old(w.pos) < w.end ==> w.Stream() == old(w.Stream()) + LowBits(0, PadSize(|old(w.Stream())|))
  {
    hide LowBits, BitWriter.BitsOf, Pow2, PadSize;
    w.StreamSize();
    PadOf(|w.Stream()|, w.pos, w.bitsIn);
    ZeroFits();
    if w.bitsIn > 0 {
      w.PutBits(0, 8 - w.bitsIn);
    } else {
      LzEmit.NoBits(0, w.Stream());
    }
  }

  lemma ZeroFits()
    ensures forall k: nat :: 0 < Pow2(k)
  {
  }

  method PutBytes(w: BitWriter.Writer, data: seq<nat>)
    requires w.Valid() && forall i :: 0 <= i < |data| ==> data[i] < 256
    modifies w, w.out
    ensures w.Valid() && BitWriter.Grown(old(w.out[..]), old(w.pos), w.out[..], w.pos)
    ensures w.Size() <= old(w.Size()) + 8 * |data|
    ensures w.pos < w.end ==> w.Stream() == old(w.Stream()) + BitWriter.BitsOf(data)
  {
    hide LowBits, BitWriter.BitsOf, Pow2;
    ghost var start := w.Stream();
    NoData(start);
    for i := 0 to |data|
      invariant w.Valid() && BitWriter.Grown(old(w.out[..]), old(w.pos), w.out[..], w.pos)
      invariant w.Size() <= old(w.Size()) + 8 * i
      invariant w.pos < w.end ==> w.Stream() == start + BitWriter.BitsOf(data[..i])
    {
      ByteFits(data[i]);
      assert data[..i + 1] == data[..i] + [data[i]];
      BitWriter.BitsOfSnoc(data[..i], data[i]);
      ghost var a, b := BitWriter.BitsOf(data[..i]), LowBits(data[i], 8);
      assert start + a + b == start + (a + b);
      w.PutBits(data[i], 8);
    }
    assert data[..|data|] == data;
  }

  lemma NoData(start: seq<bool>)
    ensures start + BitWriter.BitsOf([]) == start
  {
  }

  /** The two bits that announce a stored block, the pad, the length and its complement. */
  method PutStoredHead(w: BitWriter.Writer, n: nat)
    requires w.Valid() && n < 65536
    modifies w, w.out
    ensures w.Valid() && BitWriter.Grown(old(w.out[..]), old(w.pos), w.out[..], w.pos)
    ensures w.Size() <= old(w.Size()) + 41
    ensures w.pos < w.end ==>
              var typed := old(w.Stream()) + LowBits(0, 2);
              w.Stream() == typed + LowBits(0, PadSize(|typed|)) + LowBits(n, 16) + LowBits(0xFFFF - n, 16)
  {
    hide LowBits, BitWriter.BitsOf, Pow2, PadSize;
    ZeroFits();
    Sixteen(n);
    w.PutBits(0, 2);
    Align(w);
    w.PutBits(n, 16);
    w.PutBits(0xFFFF - n, 16);
  }

  /** Writes the bytes as they are. */
  method WriteStored(w: BitWriter.Writer, data: seq<nat>, ghost done: seq<nat>)
    requires w.Valid() && |data| < 65536 && forall i :: 0 <= i < |data| ==> data[i] < 256
    modifies w, w.out
    ensures w.Valid() && BitWriter.Grown(old(w.out[..]), old(w.pos), w.out[..], w.pos)
    ensures w.Size() <= old(w.Size()) + 41 + 8 * |data|
    ensures w.pos < w.end ==> AddsBody(old(w.Stream()), w.Stream(), done, data)
    ensures w.pos < w.end ==> StoredForm(old(w.Stream()), w.Stream(), data)
  {
    hide LowBits, BitWriter.BitsOf, Pow2, AddsBody, PadSize, StoredBody;
    ghost var start := w.Stream();
    PutStoredHead(w, |data|);
    PutBytes(w, data);
    if w.pos < w.end {
      StoredAdds(start, w.Stream(), done, data);
    }
  }

  /** The stream has grown by a stored block. */
  ghost predicate StoredForm(before: seq<bool>, after: seq<bool>, data: seq<nat>)
  {
    |data| < 65536 && after == before + (LowBits(0, 2) + StoredBody(|before|, data))
  }

  lemma StoredAdds(before: seq<bool>, after: seq<bool>, done: seq<nat>, data: seq<nat>)
    requires |data| < 65536 && forall i :: 0 <= i < |data| ==> data[i] < 256
    requires after == before + LowBits(0, 2) + LowBits(0, PadSize(|before + LowBits(0, 2)|)) + LowBits(|data|, 16)
                      + LowBits(0xFFFF - |data|, 16) + BitWriter.BitsOf(data)
    ensures AddsBody(before, after, done, data) && StoredForm(before, after, data)
  {
    hide LowBits, BitWriter.BitsOf, BodyReads, PadSize;
    TwoBits(0);
    var pad, a, b, c := LowBits(0, PadSize(|before| + 2)), LowBits(|data|, 16), LowBits(0xFFFF - |data|, 16), BitWriter.BitsOf(data);
    assert before + LowBits(0, 2) + pad + a + b + c == before + (LowBits(0, 2) + (pad + (a + (b + c))));
    StoredReads(|before|, done, data);
  }

  // ---------- the choice ----------

  /** Going back to a saved state of the output undoes what was written since. */
  method Restore(w: BitWriter.Writer, pos: nat, bitBuf: nat, bitsIn: nat, ghost before: seq<nat>)
    requires w.Valid() && BitWriter.Grown(before, pos, w.out[..], w.pos) && bitsIn < 8 && bitBuf < Pow2(bitsIn)
    modifies w
    ensures w.Valid() && w.Stream() == BitWriter.BitsOf(before[..pos]) + LowBits(bitBuf, bitsIn)
    ensures w.pos == pos && w.bitsIn == bitsIn
  {
    w.pos, w.bitBuf, w.bitsIn := pos, bitBuf, bitsIn;
    assert w.out[..pos] == before[..pos];
  }

  /**
   Writes the tokens or the bytes they stand for: with fixed codes if there is little data, otherwise with dynamic codes,
   but as stored bytes if that turns out to be shorter, and with fixed codes if the dynamic ones do not fit. One of these
   always fits, and the stream grows by a block that is read as the data. `kind` is the kind of block chosen, and `tried`
   what came of writing it with codes first.
   */
  method WriteBlock(w: BitWriter.Writer, d: LzBuffer.CodeBuffer, bytes: seq<nat>, total: nat, rawAllowed: bool,
                    raw: seq<nat>,
                    fast: bool, forceStatic: bool, forceRaw: bool,
                    ghost groups: seq<seq<LzTokens.Token>>, ghost done: seq<nat>, ghost data: seq<nat>)
    returns (ghost kind: nat, ghost tried: Try)
    requires w.Valid() && w.out != d.buf && d.litCount != d.distCount
    requires LzCounts.Counted(LzBuffer.Concat(groups), d.litCount[..], d.distCount[..])
    requires |LzBuffer.Concat(groups)| <= LzCounts.MAX_TOKENS && |bytes| <= LzBuffer.CODE_BUF_SIZE
    requires bytes == LzBuffer.Stored(groups) && LzBuffer.Grouped(groups)
             && StandFor(LzBuffer.Concat(groups), done, data)
    requires total == |data| && (rawAllowed ==> raw == data && total <= LzMatch.DICT_SIZE)
    requires forall i :: 0 <= i < |data| ==> data[i] < 256
    requires w.Size() <= 100 && w.end + BitWriter.MARGIN >= OUT_BUF_SIZE
    modifies d.litCount, w, w.out
    ensures w.Valid() && w.pos < w.end && AddsBody(old(w.Stream()), w.Stream(), done, data)
    ensures OfKind(kind, old(w.Stream()), w.Stream(), LzBuffer.Concat(groups), data)
    ensures Tried(tried, forceStatic || total < 48, old(w.Stream()), LzBuffer.Concat(groups))
    ensures kind == 0 <==> rawAllowed && (forceRaw || (total > 0 && tried.bytes - old(w.pos) + 1 >= total))
    ensures kind == 2 ==> !forceStatic && total >= 48 && tried.ok
    ensures kind == 1 ==> forceStatic || total < 48 || !tried.ok
    ensures kind != 0 && tried.ok ==> w.pos == tried.bytes
  {
    hide LowBits, BitWriter.BitsOf, Pow2, AddsBody, StandFor, LzCounts.Counted, LzBuffer.Stored, LzBuffer.Grouped,
         LzBuffer.Concat,
         BlockWriter.Delivers, StaticBlock.Delivers, BlockWriter.Formatted, StoredForm, Tried;
    kind, tried := 0, Try(false, w.pos);
    NotTried(w.pos, forceStatic || total < 48, w.Stream(), LzBuffer.Concat(groups));
    var useRaw := forceRaw && rawAllowed;
    var pos, bitBuf, bitsIn := w.pos, w.bitBuf, w.bitsIn;
    ghost var before, start, toks := w.out[..], w.Stream(), LzBuffer.Concat(groups);
    assert w.out[..pos] == before[..pos];
    var ok := false;
    if !useRaw {
      if forceStatic || total < 48 {
        ok := StaticBlock.WriteStatic(w, bytes, fast, groups);
        kind := 1;
        if ok {
          StaticAdds(start, w.Stream(), toks, done, data);
        }
      } else {
        ok := BlockWriter.WriteDynamic(w, d.litCount, d.distCount, bytes, fast, groups, toks);
        kind := 2;
        if ok {
          DynamicAdds(start, w.Stream(), toks, done, data);
        }
      }
      tried := Try(ok, w.pos);
      w.StreamSize();
      HasTried(tried, kind, w.bitsIn, start, w.Stream(), toks);
    }
    if (useRaw || (total > 0 && w.pos - pos + 1 >= total)) && rawAllowed {
      Restore(w, pos, bitBuf, bitsIn, before);
      WriteStored(w, raw, done);
      kind := 0;
    } else if !ok {
      Restore(w, pos, bitBuf, bitsIn, before);
      ok := StaticBlock.WriteStatic(w, bytes, fast, groups);
      kind := 1;
      StaticAdds(start, w.Stream(), toks, done, data);
    }
  }

  /** A block was written with codes, up to byte `bytes` of the output, or was given up. */
  datatype Try = Try(ok: bool, bytes: nat)

  /** A block that was written with codes has so many bytes. */
  ghost predicate Tried(t: Try, fixed: bool, start: seq<bool>, toks: seq<LzTokens.Token>)
  {
    t.ok ==> exists coded: seq<bool> :: OfKind(if fixed then 1 else 2, start, coded, toks, []) && |coded| / 8 == t.bytes
  }

  /** The stream has grown by a stored block, one with fixed codes or one with dynamic codes. */
  ghost predicate OfKind(kind: nat, before: seq<bool>, after: seq<bool>, toks: seq<LzTokens.Token>, data: seq<nat>)
  {
    match kind
    case 0 => StoredForm(before, after, data)
    case 1 => StaticBlock.Delivers(before, after, toks)
    case 2 => BlockWriter.Delivers(before, after, toks) && BlockWriter.Formatted(before, after, toks)
    case _ => false
  }

  lemma NotTried(pos: nat, fixed: bool, start: seq<bool>, toks: seq<LzTokens.Token>)
    ensures Tried(Try(false, pos), fixed, start, toks)
  {
  }

  lemma HasTried(t: Try, kind: nat, bitsIn: nat, start: seq<bool>, after: seq<bool>, toks: seq<LzTokens.Token>)
    requires 1 <= kind <= 2 && bitsIn < 8 && |after| == 8 * t.bytes + bitsIn && (t.ok ==> OfKind(kind, start, after, toks, []))
    ensures Tried(t, kind == 1, start, toks)
  {
    hide OfKind;
    assert |after| / 8 == t.bytes;
  }

  // ---------- whole streams ----------

  /** What has been sent so far, whatever follows, leads to the data and goes on from there. */
  ghost predicate Leads(stream: seq<bool>, data: seq<nat>)
  {
    forall rest: seq<bool> :: Surplus(|stream| + |rest|) == 0 ==> ReadStream([], stream + rest) == ReadStream(data, rest)
  }

  /** A finished stream is read as the data; only the bits that fill up its last byte are left. */
  ghost predicate Complete(stream: seq<bool>, data: seq<nat>)
  {
    exists pad: seq<bool> :: |pad| < 8 && ReadsUpTo(stream, data, pad)
  }

  ghost predicate ReadsUpTo(stream: seq<bool>, data: seq<nat>, pad: seq<bool>)
  {
    forall rest: seq<bool> :: Surplus(|stream| + |rest|) == 0 ==> ReadStream([], stream + rest) == Got(data, pad + rest)
  }

  lemma LeadsNowhere()
    ensures Leads([], [])
  {
    forall rest: seq<bool>
      ensures ReadStream([], [] + rest) == ReadStream([], rest)
    {
      assert [] + rest == rest;
    }
  }

  lemma LeadsOn(sent: seq<bool>, before: seq<bool>, after: seq<bool>, done: seq<nat>, data: seq<nat>)
    requires Leads(sent + before, done) && Surplus(|sent|) == 0 && Adds(before, after, false, done, data)
    ensures Leads(sent + after, done + data)
  {
    hide ReadStream, ReadOne, Surplus, BlockReads;
    var block: seq<bool> :| after == before + block && BlockReads(|before|, block, false, done, data);
    forall rest: seq<bool> | Surplus(|sent + after| + |rest|) == 0
      ensures ReadStream([], sent + after + rest) == ReadStream(done + data, rest)
    {
      assert sent + after + rest == sent + before + (block + rest);
      SameSurplus(|sent|, |before| + |block| + |rest|);
      LeadsAt(sent + before, done, block + rest);
      BlockAt(|before|, block, false, done, data, rest);
      NextBlock(done, block + rest);
    }
  }

  lemma LeadsToEnd(sent: seq<bool>, before: seq<bool>, after: seq<bool>, done: seq<nat>, data: seq<nat>, pad: seq<bool>)
    requires Leads(sent + before, done) && Surplus(|sent|) == 0 && Adds(before, after, true, done, data) && |pad| < 8
    ensures Complete(sent + (after + pad), done + data)
  {
    hide ReadStream, ReadOne, Surplus, Leads, BlockReads;
    var block: seq<bool> :| after == before + block && BlockReads(|before|, block, true, done, data);
    var stream := sent + (after + pad);
    forall rest: seq<bool> | Surplus(|stream| + |rest|) == 0
      ensures ReadStream([], stream + rest) == Got(done + data, pad + rest)
    {
      assert stream + rest == sent + before + (block + (pad + rest));
      SameSurplus(|sent|, |before| + |block| + |pad + rest|);
      LastRead(sent + before, |before|, block, done, data, pad + rest);
    }
    assert ReadsUpTo(stream, done + data, pad);
  }

  lemma LastRead(stream: seq<bool>, before: nat, block: seq<bool>, done: seq<nat>, data: seq<nat>, rest: seq<bool>)
    requires Leads(stream, done) && BlockReads(before, block, true, done, data)
    requires Surplus(|stream| + |block + rest|) == 0 && Surplus(before + |block| + |rest|) == 0
    ensures ReadStream([], stream + (block + rest)) == Got(done + data, rest)
  {
    hide ReadStream, ReadOne, Surplus, Leads, BlockReads;
    LeadsAt(stream, done, block + rest);
    BlockAt(before, block, true, done, data, rest);
    NextBlock(done, block + rest);
  }

  lemma LeadsAt(stream: seq<bool>, data: seq<nat>, rest: seq<bool>)
    requires Leads(stream, data) && Surplus(|stream| + |rest|) == 0
    ensures ReadStream([], stream + rest) == ReadStream(data, rest)
  {
    hide ReadStream, Surplus;
  }

  lemma BlockAt(before: nat, block: seq<bool>, final: bool, done: seq<nat>, data: seq<nat>, rest: seq<bool>)
    requires BlockReads(before, block, final, done, data) && Surplus(before + |block| + |rest|) == 0
    ensures ReadOne(done, block + rest) == Got(Piece(final, done + data), rest)
  {
    hide ReadOne, Surplus;
  }

  lemma SameSurplus(a: nat, b: nat)
    requires Surplus(a) == 0
    ensures Surplus(a + b) == Surplus(b)
  {
    var q := a / 8;
    assert a + b == 8 * q + b;
  }

  lemma NextBlock(done: seq<nat>, bits: seq<bool>)
    ensures ReadStream(done, bits)
         == match ReadOne(done, bits)
            case Bad => Bad
            case Got(piece, rest) => if piece.final then Got(piece.bytes, rest) else ReadStream(piece.bytes, rest)
  {
  }

  // ---------- flushing ----------

  datatype Mode = NoFlush | SyncFlush | Finish

  /** The bit that marks the last block. */
  method PutFinal(w: BitWriter.Writer, final: bool)
    requires w.Valid() && w.pos == 0 && w.end >= 2
    modifies w, w.out
    ensures w.Valid() && w.Size() <= 8 && w.Stream() == old(w.Stream()) + LowBits(BitInt(final), 1)
  {
    assert Pow2(1) == 2;
    w.PutBits(BitInt(final), 1);
  }

  /** An empty stored block, which ends at a byte boundary. */
  method PutSync(w: BitWriter.Writer, ghost done: seq<nat>)
    requires w.Valid()
    modifies w, w.out
    ensures w.Valid() && old(w.pos) <= w.pos
    ensures w.pos < w.end ==> Adds(old(w.Stream()), w.Stream(), false, done, [])
  {
    hide LowBits, BitWriter.BitsOf, Pow2, PadSize, Adds;
    ghost var start := w.Stream();
    ZeroFits();
    Sixteen(0);
    w.PutBits(0, 3);
    Align(w);
    w.PutBits(0, 16);
    w.PutBits(0xFFFF, 16);
    if w.pos < w.end {
      SyncAdds(start, w.Stream(), done);
    }
  }

  lemma SyncAdds(before: seq<bool>, after: seq<bool>, done: seq<nat>)
    requires after == before + LowBits(0, 3) + LowBits(0, PadSize(|before + LowBits(0, 3)|)) + LowBits(0, 16) + LowBits(0xFFFF, 16)
    ensures Adds(before, after, false, done, [])
  {
    hide LowBits, BitWriter.BitsOf, PadSize, AddsBody, Adds;
    ThreeZeros();
    var head, pad := before + LowBits(BitInt(false), 1), LowBits(0, PadSize(|before + LowBits(0, 3)|));
    assert before + LowBits(0, 3) == head + LowBits(0, 2);
    NoData(head + LowBits(0, 2) + pad + LowBits(0, 16) + LowBits(0xFFFF, 16));
    StoredAdds(head, after, done, []);
    WithHead(before, after, false, done, []);
  }

  lemma ThreeZeros()
    ensures LowBits(0, 3) == LowBits(BitInt(false), 1) + LowBits(0, 2)
  {
  }

  // ---------- the compressor ----------

  method NewCodes() returns (codes: LzBuffer.CodeBuffer)
    ensures fresh(codes) && fresh(codes.buf) && fresh(codes.litCount) && fresh(codes.distCount)
    ensures codes.Valid() && codes.Tokens() == [] && codes.pos == 1
    ensures codes.litCount.Length == LzCounts.LIT_SYMBOLS && codes.distCount.Length == LzCounts.DIST_SYMBOLS
  {
    var buf := new Common.Byte[LzBuffer.CODE_BUF_SIZE];
    var litCount, distCount := new nat[LzCounts.LIT_SYMBOLS](_ => 0), new nat[LzCounts.DIST_SYMBOLS](_ => 0);
    LzCounts.CountNone(litCount[..], distCount[..]);
    codes := new LzBuffer.CodeBuffer(buf, litCount, distCount);
  }

  class Deflater {
    const codes: LzBuffer.CodeBuffer
    const w: BitWriter.Writer
    const fast: bool
    const forceStatic: bool
    const forceRaw: bool
    /** The bytes handed to the caller. */
    var sent: seq<Common.Byte>
    /** How many bytes the recorded tokens stand for. */
    var total: nat
    /** Those bytes, and the bytes of the blocks before. */
    ghost var block: seq<Common.Byte>
    ghost var done: seq<nat>
    var finished: bool

    ghost predicate Shape()
      reads codes
    {
      && w.out != codes.buf && codes.litCount != codes.distCount
      && codes.buf.Length == LzBuffer.CODE_BUF_SIZE
      && codes.litCount.Length == LzCounts.LIT_SYMBOLS && codes.distCount.Length == LzCounts.DIST_SYMBOLS
      && w.end + BitWriter.MARGIN == w.out.Length == OUT_BUF_SIZE
    }

    ghost function Data(): (bytes: seq<nat>)
      reads this
    {
      done + block
    }

    /** The tokens stand for the block at hand, and what was sent leads to the blocks before. */
    ghost predicate Valid()
      reads this, codes, codes.buf, codes.litCount, codes.distCount, w, w.out
    {
      && Shape() && codes.Valid() && w.Valid() && w.pos == 0
      && total == |block| && StandFor(codes.Tokens(), done, block) && !finished && Leads(BitWriter.BitsOf(sent) + w.Stream(), done)
    }

    constructor (fast: bool, forceStatic: bool, forceRaw: bool)
      ensures Valid() && Data() == [] && sent == [] && codes.pos == 1
      ensures fresh(codes) && fresh(codes.buf) && fresh(codes.litCount) && fresh(codes.distCount) && fresh(w)
              && fresh(w.out)
    {
      hide LzBuffer.CodeBuffer.Valid, Leads, StandFor, BitWriter.BitsOf, LowBits;
      var buffer := NewCodes();
      codes := buffer;
      var out := new Common.Byte[OUT_BUF_SIZE];
      w := new BitWriter.Writer(out);
      this.fast, this.forceStatic, this.forceRaw := fast, forceStatic, forceRaw;
      sent, total, block, done, finished := [], 0, [], [], false;
      new;
      LeadsNowhere();
      NoBytes([]);
      NoTokensYet();
      assert BitWriter.BitsOf(sent) + w.Stream() == [];
    }

    /** Records a byte as it is. */
    method Literal(b: Common.Byte)
      requires Valid() && codes.pos + 2 <= LzBuffer.CODE_BUF_SIZE
      modifies this`block, this`total, codes, codes.buf, codes.litCount
      ensures Valid() && Data() == old(Data()) + [b] && block == old(block) + [b] && codes.pos <= old(codes.pos) + 2
    {
      hide LzBuffer.CodeBuffer.Packed, LowBits, BitWriter.BitsOf, Pow2, Leads, StandFor, LzCounts.Counted,
           LzBuffer.Stored, LzBuffer.Grouped,
           LzBuffer.Concat, LzBuffer.Payload, LzBuffer.Flags, Val, Shr;
      LiteralStands(codes.Tokens(), done, block, b);
      codes.RecordLiteral(b);
      block, total := block + [b], total + 1;
    }

    /** Records bytes that repeat those `dist` places before them. */
    method Match(len: nat, dist: nat, ghost text: seq<Common.Byte>)
      requires Valid() && codes.pos + 4 <= LzBuffer.CODE_BUF_SIZE
      requires 3 <= len == |text| <= 258 && 1 <= dist <= 32768 && dist <= |Data()|
               && Continues(Data(), Data() + text, dist)
      modifies this`block, this`total, codes, codes.buf, codes.litCount, codes.distCount
      ensures Valid() && Data() == old(Data()) + text && block == old(block) + text && codes.pos <= old(codes.pos) + 4
    {
      hide LzBuffer.CodeBuffer.Packed, LowBits, BitWriter.BitsOf, Pow2, Leads, StandFor, LzCounts.Counted,
           LzBuffer.Stored, LzBuffer.Grouped,
           LzBuffer.Concat, LzBuffer.Payload, LzBuffer.Flags, Val, Shr, Continues;
      MatchStands(codes.Tokens(), done, block, text, dist);
      codes.RecordMatch(len, dist);
      block, total := block + text, total + len;
    }

    /** Hands the bytes of the block over and starts the next one. */
    method HandOver()
      requires Shape() && w.Valid()
      modifies this`sent, this`block, this`total, this`done, codes, codes.litCount, codes.distCount, w
      ensures done == old(done + block) && block == [] && total == 0 && w.Valid() && w.pos == 0
              && w.bitsIn == old(w.bitsIn)
      ensures codes.Valid() && codes.Tokens() == [] && codes.pos == 1
      ensures sent == old(sent + w.out[..w.pos])
      ensures BitWriter.BitsOf(sent) + w.Stream() == BitWriter.BitsOf(old(sent)) + old(w.Stream())
      ensures w.bitsIn == 0 ==> BitWriter.BitsOf(sent) == BitWriter.BitsOf(old(sent)) + old(w.Stream())
    {
      hide LzBuffer.CodeBuffer.Valid, LowBits, BitWriter.BitsOf, Pow2;
      ghost var a, b, c := BitWriter.BitsOf(sent), BitWriter.BitsOf(w.out[..w.pos]), LowBits(w.bitBuf, w.bitsIn);
      BitWriter.BitsOfConcat(sent, w.out[..w.pos]);
      assert a + b + c == a + (b + c);
      codes.Reset();
      sent := sent + w.out[..w.pos];
      w.pos := 0;
      NoBytes(c);
      assert w.out[..0] == [];
      AllHanded(BitWriter.BitsOf(sent), w.bitBuf);
      done, block, total := done + block, [], 0;
    }

    /**
     Ends the block at hand. `raw` holds its bytes if they are still at hand. `ok` says that nothing was dropped, which
     only the marker of a synchronizing flush could cause.
     */
    method Flush(mode: Mode, rawAllowed: bool, raw: seq<Common.Byte>) returns (ok: bool)
      requires Valid() && (rawAllowed ==> raw == block && total <= LzMatch.DICT_SIZE)
      modifies this, codes, codes.buf, codes.litCount, codes.distCount, w, w.out
      ensures done == old(done + block) && block == []
      ensures mode != SyncFlush ==> ok
      ensures ok && mode != Finish ==> Valid() && codes.pos == 1
      ensures mode == Finish ==> finished && Complete(BitWriter.BitsOf(sent), Data())
    {
      hide LzBuffer.CodeBuffer.Packed, LowBits, BitWriter.BitsOf, Pow2, AddsBody, Adds, Leads, Complete, StandFor,
           LzCounts.Counted, LzBuffer.Stored,
           LzBuffer.Grouped, LzBuffer.Concat, LzBuffer.Payload, PadSize, Surplus;
      ghost var before, sentBits, data := w.Stream(), BitWriter.BitsOf(sent), Data();
      codes.TokensFit();
      ghost var groups := codes.FixUp();
      var bytes := codes.buf[..codes.pos];
      PutFinal(w, mode == Finish);
      ghost var kind, tried := WriteBlock(w, codes, bytes, total, rawAllowed, raw, fast, forceStatic, forceRaw, groups, done,
                                          block);
      WithHead(before, w.Stream(), mode == Finish, done, block);
      WholeBytes(sent);
      ghost var after := w.Stream();
      if mode == Finish {
        Align(w);
        PaddedEnd(sentBits, before, after, done, block, PadSize(|after|));
      } else {
        LeadsOn(sentBits, before, after, done, block);
        if mode == SyncFlush {
          PutSync(w, data);
          if w.pos < w.end {
            LeadsOn(sentBits, after, w.Stream(), data, []);
            assert data + [] == data;
          }
        }
      }
      ok := mode != SyncFlush || w.pos < w.end;
      finished := mode == Finish;
      HandOver();
      NoTokensYet();
      assert Data() == data;
    }
  }

  lemma NoTokensYet()
    ensures forall done: seq<nat> :: StandFor([], done, [])
  {
    forall done: seq<nat>
      ensures StandFor([], done, [])
    {
      assert ItemsOf([]) == [] && done + [] == done;
    }
  }

  lemma TokenStands(toks: seq<LzTokens.Token>, t: LzTokens.Token, done: seq<nat>, data: seq<nat>, more: seq<nat>)
    requires StandFor(toks, done, data) && Expand(done + data, [ItemOf(t)]) == Bytes(done + data + more)
    ensures StandFor(toks + [t], done, data + more)
  {
    hide Expand;
    assert ItemsOf(toks + [t]) == ItemsOf(toks) + [ItemOf(t)];
    ExpandConcat(done, ItemsOf(toks), [ItemOf(t)]);
    assert done + data + more == done + (data + more);
  }

  lemma LiteralStands(toks: seq<LzTokens.Token>, done: seq<nat>, data: seq<nat>, b: nat)
    requires StandFor(toks, done, data)
    ensures StandFor(toks + [LzTokens.Literal(b)], done, data + [b])
    ensures done + (data + [b]) == done + data + [b]
  {
    hide Expand, StandFor;
    OneLiteral(done + data, b);
    TokenStands(toks, LzTokens.Literal(b), done, data, [b]);
  }

  lemma MatchStands(toks: seq<LzTokens.Token>, done: seq<nat>, data: seq<nat>, text: seq<nat>, dist: nat)
    requires StandFor(toks, done, data) && |text| >= 3 && 1 <= dist <= |done + data|
    requires Continues(done + data, done + data + text, dist)
    ensures StandFor(toks + [LzTokens.Match(|text| - 3, dist - 1)], done, data + text)
    ensures done + (data + text) == done + data + text
  {
    hide Expand, StandFor, Copied;
    OneCopy(done + data, |text|, dist);
    CopiedIff(done + data, |text|, dist, done + data + text);
    TokenStands(toks, LzTokens.Match(|text| - 3, dist - 1), done, data, text);
  }

  lemma WholeBytes(sent: seq<nat>)
    ensures Surplus(|BitWriter.BitsOf(sent)|) == 0
  {
    BitWriter.BitsOfSize(sent);
  }

  lemma PaddedEnd(sent: seq<bool>, before: seq<bool>, after: seq<bool>, done: seq<nat>, data: seq<nat>, k: nat)
    requires Leads(sent + before, done) && Surplus(|sent|) == 0 && Adds(before, after, true, done, data) && k < 8
    ensures Complete(sent + (after + LowBits(0, k)), done + data)
  {
    hide Adds, Leads, Complete;
    LeadsToEnd(sent, before, after, done, data, LowBits(0, k));
  }

  lemma AllHanded(bits: seq<bool>, v: nat)
    ensures bits + (BitWriter.BitsOf([]) + LowBits(v, 0)) == bits
  {
  }
}
