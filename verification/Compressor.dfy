/**
 The compressor's main loop (qqwry/miniz.c, tdefl_compress_normal): the input moves through the dictionary, matches are
 looked for at every position, and a match is kept back for one position in case a longer one starts there. Whatever the
 settings and the chains, the tokens stand for the input, so that inflating the output gives the input back.
 */
module Compressor {
  import opened Common
  import opened LzMatch
  import opened DeflateStream
  import BitWriter
  import LzBuffer
  import LzExpand

  const HASH_SIZE: nat := 32768

  /** The next value of the rolling hash. */
  function Mix(h: bv32, c: Byte): (r: bv32)
    ensures r as nat < HASH_SIZE
  {
    ((h << 5) ^ (c as bv32)) & 0x7FFF
  }

  /** The dictionary and the bytes still to be coded. */
  ghost predicate Window(dict: seq<Byte>, input: seq<Byte>, lookPos: nat, lookSize: nat, dictSize: nat)
  {
    && |input| == lookPos + lookSize && lookSize <= MAX_MATCH && dictSize <= lookPos && dictSize + lookSize <= DICT_SIZE
    && Holds(dict, input, lookPos - dictSize, |input|)
  }

  /** A match kept back, at the position before the one looked at. */
  ghost predicate Kept(input: seq<Byte>, lookPos: nat, lit: Byte, len: nat, dist: nat)
  {
    len > 0 ==>
      && 1 <= lookPos <= |input| && lit == input[lookPos - 1] && MIN_MATCH <= len < 128 && dist <= DICT_SIZE
      && Repeats(input, lookPos - 1, dist, len)
  }

  /** How many bytes before the position looked at are coded. */
  function Coded(lookPos: nat, savedLen: nat): (n: int)
  {
    if savedLen > 0 then lookPos - 1 else lookPos
  }

  /** The data coded so far are the first n bytes of the input. */
  ghost predicate CodedUpTo(data: seq<nat>, input: seq<Byte>, n: int)
  {
    0 <= n <= |input| && data == input[..n]
  }

  lemma RepeatsContinues(input: seq<Byte>, p: nat, dist: nat, len: nat)
    requires Repeats(input, p, dist, len)
    ensures 1 <= dist && p + len <= |input|
    ensures dist <= |input[..p]| && LzExpand.Continues(input[..p], input[..p] + input[p..p + len], dist)
    ensures input[..p] + input[p..p + len] == input[..p + len]
  {
    var to := input[..p + len];
    assert to == input[..p] + input[p..p + len];
    assert input[..p] <= to;
  }

  lemma KeptGrows(input: seq<Byte>, more: seq<Byte>, lookPos: nat, lit: Byte, len: nat, dist: nat)
    requires Kept(input, lookPos, lit, len, dist)
    ensures Kept(input + more, lookPos, lit, len, dist)
  {
  }

  class Compressor {
    const d: Deflater
    const dict: array<Byte>
    const next: array<nat>
    const hash: array<nat>
    const maxProbes: (nat, nat)
    const greedy: bool
    const rle: bool
    const filter: bool
    var lookPos: nat
    var lookSize: nat
    var dictSize: nat
    /** Where the block at hand begins. */
    var blockPos: nat
    var savedLit: Byte
    var savedLen: nat
    var savedDist: nat
    /** Everything taken from the source so far. */
    ghost var input: seq<Byte>

    ghost predicate Shape()
      reads d.codes
    {
      && dict != d.codes.buf && dict != d.w.out && dict.Length == RING
      && {next, hash} !! {d.codes.litCount, d.codes.distCount} && next != hash
      && next.Length == DICT_SIZE && hash.Length == HASH_SIZE && maxProbes.0 >= 1 && maxProbes.1 >= 1
    }

    /** The tokens stand for the input up to the position looked at, save for a match kept back. */
    ghost predicate Parsed()
      reads this, dict, d, d.codes, d.codes.buf, d.codes.litCount, d.codes.distCount, d.w, d.w.out
    {
      && Shape() && d.Valid()
      && Window(dict[..], input, lookPos, lookSize, dictSize)
      && Kept(input, lookPos, savedLit, savedLen, savedDist)
      && CodedUpTo(d.Data(), input, Coded(lookPos, savedLen)) && blockPos == |d.done|
    }

    ghost predicate Valid()
      reads this, dict, d, d.codes, d.codes.buf, d.codes.litCount, d.codes.distCount, d.w, d.w.out
    {
      Parsed() && d.codes.pos + 8 <= LzBuffer.CODE_BUF_SIZE
    }

    constructor (maxProbes: (nat, nat), greedy: bool, rle: bool, filter: bool, fast: bool, forceStatic: bool,
                 forceRaw: bool)
      requires maxProbes.0 >= 1 && maxProbes.1 >= 1
      ensures Valid() && input == [] && lookSize == 0
      ensures fresh(d) && fresh(dict) && fresh(next) && fresh(hash) && fresh(d.codes) && fresh(d.codes.buf)
      ensures fresh(d.codes.litCount) && fresh(d.codes.distCount) && fresh(d.w) && fresh(d.w.out)
    {
      hide Deflater.Valid;
      var deflater := new Deflater(fast, forceStatic, forceRaw);
      d := deflater;
      dict := new Byte[RING];
      next := new nat[DICT_SIZE];
      hash := new nat[HASH_SIZE];
      this.maxProbes, this.greedy, this.rle, this.filter := maxProbes, greedy, rle, filter;
      lookPos, lookSize, dictSize, blockPos, savedLit, savedLen, savedDist, input := 0, 0, 0, 0, 0, 0, 0, [];
    }

    /** The lookahead is growing; the ring holds as much as it can. */
    ghost predicate Filling()
      reads this, dict
    {
      && dictSize <= lookPos && lookSize <= MAX_MATCH && |input| == lookPos + lookSize
      && Holds(dict[..], input, Oldest(lookPos, lookSize, dictSize), |input|)
    }

    /** Takes one byte from the source into the dictionary. */
    method TakeByte(c: Byte)
      requires Shape() && Filling() && lookSize < MAX_MATCH
      modifies this`lookSize, this`input, dict
      ensures Filling() && lookSize == old(lookSize) + 1 && input == old(input) + [c]
    {
      hide Holds, Slot;
      Store(dict, c, input, Oldest(lookPos, lookSize, dictSize), Oldest(lookPos, lookSize + 1, dictSize),
            Slot(lookPos + lookSize));
      input := input + [c];
      lookSize := lookSize + 1;
    }

    /** Enters a position into the chain of its hash. */
    method Link(h: bv32, at: nat)
      requires Shape() && h as nat < HASH_SIZE
      modifies next, hash
    {
      next[Slot(at)] := hash[h as nat];
      hash[h as nat] := at % 65536;
    }

    /** Takes bytes from the source until the lookahead is as long as the longest match. */
    method Fill(src: seq<Byte>, from: nat) returns (from': nat)
      requires Shape() && from <= |src| && Window(dict[..], input, lookPos, lookSize, dictSize)
      modifies this`lookSize, this`dictSize, this`input, dict, next, hash
      ensures from <= from' <= |src| && input == old(input) + src[from..from']
              && lookSize == old(lookSize) + (from' - from)
      ensures Window(dict[..], input, lookPos, lookSize, dictSize)
      ensures from' < |src| ==> lookSize == MAX_MATCH
    {
      hide Holds, Slot;
      if lookSize + dictSize >= MIN_MATCH - 1 {
        from' := FillHashed(src, from);
      } else {
        from' := FillFirst(src, from);
      }
      dictSize := if DICT_SIZE - lookSize < dictSize then DICT_SIZE - lookSize else dictSize;
    }

    /** With a rolling hash, once there are two bytes before. */
    method FillHashed(src: seq<Byte>, from: nat) returns (from': nat)
      requires Shape() && from <= |src| && Filling() && lookSize + dictSize >= MIN_MATCH - 1
      modifies this`lookSize, this`input, dict, next, hash
      ensures Filling() && from <= from' <= |src| && input == old(input) + src[from..from']
      ensures lookSize == old(lookSize) + (from' - from) && (from' < |src| ==> lookSize == MAX_MATCH)
    {
      hide Holds, Slot;
      from' := from;
      var at := lookPos + lookSize - 2;
      var h := ((dict[Slot(at)] as bv32) << 5) ^ (dict[Slot(at + 1)] as bv32);
      while from' < |src| && lookSize < MAX_MATCH
        invariant from <= from' <= |src| && lookSize == old(lookSize) + (from' - from)
        invariant Filling() && input == old(input) + src[from..from'] && at == lookPos + lookSize - 2
      {
        var c := src[from'];
        assert src[from..from' + 1] == src[from..from'] + [c];
        TakeByte(c);
        h := Mix(h, c);
        Link(h, at);
        at, from' := at + 1, from' + 1;
      }
    }

    /** With a hash of three bytes, at the beginning. */
    method FillFirst(src: seq<Byte>, from: nat) returns (from': nat)
      requires Shape() && from <= |src| && Filling()
      modifies this`lookSize, this`input, dict, next, hash
      ensures Filling() && from <= from' <= |src| && input == old(input) + src[from..from']
      ensures lookSize == old(lookSize) + (from' - from) && (from' < |src| ==> lookSize == MAX_MATCH)
    {
      hide Holds, Slot;
      from' := from;
      while from' < |src| && lookSize < MAX_MATCH
        invariant from <= from' <= |src| && lookSize == old(lookSize) + (from' - from)
        invariant Filling() && input == old(input) + src[from..from']
      {
        var c := src[from'];
        assert src[from..from' + 1] == src[from..from'] + [c];
        TakeByte(c);
        from' := from' + 1;
        if lookSize + dictSize >= MIN_MATCH {
          var at := lookPos + (lookSize - 1) - 2;
          Link(Mix(Mix(dict[Slot(at)] as bv32, dict[Slot(at + 1)]), c), at);
        }
      }
    }

    /** A run of the byte before the position. */
    method RunLength() returns (dist: nat, len: nat)
      requires Shape() && Window(dict[..], input, lookPos, lookSize, dictSize) && dictSize > 0
      ensures dist == 0 ==> len == 0
      ensures dist > 0 ==> dist <= dictSize && MIN_MATCH <= len <= lookSize && Repeats(input, lookPos, dist, len)
    {
      hide Holds, Slot;
      var pos, c := Slot(lookPos), dict[Slot(lookPos - 1)];
      RingSize(dict[..], input, lookPos - dictSize);
      ByteAt(dict[..], input, lookPos - dictSize, |input|, lookPos - 1, 0);
      len := 0;
      while len < lookSize
        invariant len <= lookSize && forall i :: lookPos <= i < lookPos + len ==> input[i] == c
      {
        ByteAt(dict[..], input, lookPos - dictSize, |input|, lookPos, len);
        if dict[pos + len] != c {
          break;
        }
        len := len + 1;
      }
      if len < MIN_MATCH {
        dist, len := 0, 0;
      } else {
        dist := 1;
      }
    }

    /** The match to consider at this position: none (distance zero), or a repetition. */
    method ChooseMatch() returns (dist: nat, len: nat)
      requires Shape() && Window(dict[..], input, lookPos, lookSize, dictSize)
      requires Kept(input, lookPos, savedLit, savedLen, savedDist)
      ensures dist == 0 ==> len <= savedLen || len < MIN_MATCH
      ensures dist > 0 ==> dist <= dictSize && MIN_MATCH <= len <= lookSize && Repeats(input, lookPos, dist, len)
    {
      hide Holds, Slot;
      dist := 0;
      len := if savedLen > 0 then savedLen else MIN_MATCH - 1;
      if rle || d.forceRaw {
        if dictSize > 0 && !d.forceRaw {
          dist, len := RunLength();
        }
      } else {
        ghost var looked;
        dist, len, looked := FindMatch(dict, next, maxProbes, lookPos, dictSize, lookSize, len, input);
      }
      if (len == MIN_MATCH && dist >= 8192) || Slot(lookPos) == dist || (filter && len <= 5) {
        dist, len := 0, 0;
      }
    }

    /** Records the bytes from `p` on as a match. */
    method RecordMatch(p: nat, dist: nat, len: nat)
      requires Repeats(input, p, dist, len) && MIN_MATCH <= len <= MAX_MATCH && dist <= DICT_SIZE
      requires d.Valid() && d.codes.pos + 4 <= LzBuffer.CODE_BUF_SIZE && d.Data() == input[..p]
      modifies d`block, d`total, d.codes, d.codes.buf, d.codes.litCount, d.codes.distCount
      ensures d.Valid() && d.Data() == input[..p + len] && d.codes.pos <= old(d.codes.pos) + 4
    {
      hide Repeats, Deflater.Valid;
      RepeatsContinues(input, p, dist, len);
      d.Match(len, dist, input[p..p + len]);
    }

    /** The byte at the position looked at. */
    method Current() returns (c: Byte)
      requires Shape() && Window(dict[..], input, lookPos, lookSize, dictSize) && lookSize > 0
      ensures c == input[lookPos]
    {
      hide Holds, Slot;
      RingSize(dict[..], input, lookPos - dictSize);
      ByteAt(dict[..], input, lookPos - dictSize, |input|, lookPos, 0);
      c := dict[Slot(lookPos)];
    }

    /** Keeps a match back until the next position has been looked at. */
    method KeepBack(dist: nat, len: nat)
      requires Shape() && Window(dict[..], input, lookPos, lookSize, dictSize) && lookSize > 0
      requires dist <= DICT_SIZE && MIN_MATCH <= len < 128 && Repeats(input, lookPos, dist, len)
      modifies this`savedLit, this`savedLen, this`savedDist
      ensures Kept(input, lookPos + 1, savedLit, savedLen, savedDist) && savedLen == len
    {
      hide Holds, Slot;
      savedLit := Current();
      savedDist, savedLen := dist, len;
    }

    /**
     Records what the match found and the match kept back lead to, and returns how far to move. A longer match turns the
     one kept back into a literal; otherwise that one is recorded.
     */
    method Record(dist: nat, len: nat) returns (move: nat)
      requires Valid() && lookSize > 0
      requires dist == 0 ==> len <= savedLen || len < MIN_MATCH
      requires dist > 0 ==> dist <= dictSize && MIN_MATCH <= len <= lookSize && Repeats(input, lookPos, dist, len)
      modifies this`savedLit, this`savedLen, this`savedDist, d`block, d`total, d.codes, d.codes.buf, d.codes.litCount,
               d.codes.distCount
      ensures 1 <= move <= lookSize && Shape() && d.Valid() && d.codes.pos <= old(d.codes.pos) + 6
      ensures Kept(input, lookPos + move, savedLit, savedLen, savedDist)
      ensures CodedUpTo(d.Data(), input, Coded(lookPos + move, savedLen)) && d.done == old(d.done)
    {
      hide Holds, Slot, Deflater.Valid, Repeats;
      move := 1;
      if savedLen > 0 {
        if len > savedLen {
          d.Literal(savedLit);
          assert input[..lookPos - 1] + [savedLit] == input[..lookPos];
          if len >= 128 {
            RecordMatch(lookPos, dist, len);
            savedLen, move := 0, len;
          } else {
            KeepBack(dist, len);
          }
        } else {
          KeptFits(input, lookPos, lookSize, savedLit, savedLen, savedDist);
          RecordMatch(lookPos - 1, savedDist, savedLen);
          move, savedLen := savedLen - 1, 0;
        }
      } else if dist == 0 {
        var c := Current();
        d.Literal(c);
        assert input[..lookPos] + [input[lookPos]] == input[..lookPos + 1];
      } else if greedy || rle || len >= 128 {
        RecordMatch(lookPos, dist, len);
        move := len;
      } else {
        KeepBack(dist, len);
      }
    }

    /** Reads the bytes of the block at hand back from the dictionary. */
    method ReadBlock() returns (raw: seq<Byte>)
      requires Parsed() && lookPos - blockPos <= dictSize
      ensures raw == d.block
    {
      hide Holds, Slot, Deflater.Valid;
      BlockIs(d.done, d.block, input, Coded(lookPos, savedLen));
      TotalIs();
      RingSize(dict[..], input, lookPos - dictSize);
      raw := [];
      for i := 0 to d.total
        invariant raw == d.block[..i]
      {
        ByteAt(dict[..], input, lookPos - dictSize, |input|, blockPos + i, 0);
        raw := raw + [dict[Slot(blockPos + i)]];
      }
    }

    lemma TotalIs()
      requires d.Valid()
      ensures d.total == |d.block|
    {
    }

    /** Ends the block at hand; its bytes can be stored as they are if the dictionary still holds them. */
    method FlushBlock(mode: Mode) returns (ok: bool)
      requires Parsed()
      modifies this`blockPos, d, d.codes, d.codes.buf, d.codes.litCount, d.codes.distCount, d.w, d.w.out
      ensures mode != SyncFlush ==> ok
      ensures ok && mode != Finish ==> Valid()
      ensures mode == Finish ==> Complete(BitWriter.BitsOf(d.sent), d.Data()) && CodedUpTo(d.Data(), input, Coded(lookPos, savedLen))
    {
      hide Holds, Slot, Deflater.Valid, Complete, BitWriter.BitsOf;
      var rawAllowed := lookPos - blockPos <= dictSize;
      var raw := [];
      BlockIs(d.done, d.block, input, Coded(lookPos, savedLen));
      TotalIs();
      if rawAllowed {
        raw := ReadBlock();
      }
      var total := d.total;
      ok := d.Flush(mode, rawAllowed, raw);
      blockPos := blockPos + total;
      assert d.done + d.block == d.done;
    }

    /** Moves on in the input. */
    method Advance(move: nat)
      requires Window(dict[..], input, lookPos, lookSize, dictSize) && move <= lookSize
      modifies this`lookPos, this`lookSize, this`dictSize
      ensures Window(dict[..], input, lookPos, lookSize, dictSize)
      ensures lookPos == old(lookPos) + move && lookSize == old(lookSize) - move
    {
      lookPos, lookSize := lookPos + move, lookSize - move;
      dictSize := if dictSize + move < DICT_SIZE then dictSize + move else DICT_SIZE;
    }

    /** One round of the main loop. */
    method Round()
      requires Valid() && lookSize > 0
      modifies this, d, d.codes, d.codes.buf, d.codes.litCount, d.codes.distCount, d.w, d.w.out
      ensures Valid() && input == old(input) && lookSize < old(lookSize)
    {
      hide Holds, Slot, Deflater.Valid, Repeats;
      var dist, len := ChooseMatch();
      var move := Record(dist, len);
      Advance(move);
      if d.codes.pos > LzBuffer.CODE_BUF_SIZE - 8
         || (d.total > 31 * 1024 && (d.codes.pos * 115 / 128 >= d.total || d.forceRaw)) {
        var ok := FlushBlock(NoFlush);
      }
    }

    /** Takes all of the source, and with `flush` leaves nothing uncoded. */
    method CompressNormal(src: seq<Byte>, flush: bool)
      requires Valid()
      modifies this, d, dict, next, hash, d.codes, d.codes.buf, d.codes.litCount, d.codes.distCount, d.w, d.w.out
      ensures Valid() && input == old(input) + src
      ensures flush ==> lookSize == 0
    {
      hide Holds, Slot, Deflater.Valid, Repeats;
      var from := 0;
      assert src[0..0] == [];
      while from < |src| || (flush && lookSize > 0)
        invariant Valid() && from <= |src| && input == old(input) + src[..from]
        decreases |src| - from + lookSize
      {
        from := TakeSource(src, from);
        if !flush && lookSize < MAX_MATCH {
          break;
        }
        Round();
      }
      assert src[..|src|] == src;
    }

    method TakeSource(src: seq<Byte>, from: nat) returns (from': nat)
      requires Valid() && from <= |src|
      modifies this`lookSize, this`dictSize, this`input, dict, next, hash
      ensures Valid() && from <= from' <= |src| && input == old(input) + src[from..from']
              && lookSize == old(lookSize) + (from' - from)
      ensures from' < |src| ==> lookSize == MAX_MATCH
    {
      hide Holds, Slot, Deflater.Valid, Repeats;
      ghost var before := input;
      from' := Fill(src, from);
      KeptGrows(before, src[from..from'], lookPos, savedLit, savedLen, savedDist);
      assert input[..Coded(lookPos, savedLen)] == before[..Coded(lookPos, savedLen)];
    }

    /** Compresses the source and ends the stream. */
    method CompressAll(src: seq<Byte>)
      requires Valid()
      modifies this, d, dict, next, hash, d.codes, d.codes.buf, d.codes.litCount, d.codes.distCount, d.w, d.w.out
      ensures input == old(input) + src && Complete(BitWriter.BitsOf(d.sent), input)
    {
      hide Holds, Slot, Deflater.Valid, Repeats, Complete, BitWriter.BitsOf;
      CompressNormal(src, true);
      NoneKept(input, lookPos, savedLit, savedLen, savedDist);
      var ok := FlushBlock(Finish);
      assert input[..|input|] == input;
    }
  }

  lemma NoneKept(input: seq<Byte>, lookPos: nat, lit: Byte, len: nat, dist: nat)
    requires Kept(input, lookPos, lit, len, dist) && |input| == lookPos
    ensures len == 0
  {
  }

  lemma BlockIs(done: seq<nat>, block: seq<Byte>, input: seq<Byte>, n: int)
    requires CodedUpTo(done + block, input, n)
    ensures |done| + |block| == n && forall i :: 0 <= i < |block| ==> block[i] == input[|done| + i]
  {
    var data := done + block;
    forall i | 0 <= i < |block|
      ensures block[i] == input[|done| + i]
    {
      assert data[|done| + i] == block[i];
    }
  }

  lemma KeptFits(input: seq<Byte>, lookPos: nat, lookSize: nat, lit: Byte, len: nat, dist: nat)
    requires Kept(input, lookPos, lit, len, dist) && len > 0 && |input| == lookPos + lookSize
    ensures 1 <= len - 1 <= lookSize && lookPos - 1 + len == lookPos + (len - 1)
  {
  }

  /** The oldest position that the ring still holds. */
  ghost function Oldest(lookPos: nat, lookSize: nat, dictSize: nat): (lo: nat)
    requires dictSize <= lookPos
  {
    if lookSize + dictSize <= DICT_SIZE then lookPos - dictSize else lookPos + lookSize - DICT_SIZE
  }
}
