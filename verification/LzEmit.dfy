/**
 Writing the recorded tokens as a deflate block (qqwry/miniz.c, tdefl_compress_lz_codes). The source has two
 versions: a plain one that writes token by token, and an unrolled one that takes up to three literals at a time,
 collects bits in a 64-bit buffer and stores eight bytes at once. Both write the same bits.
 */
module LzEmit {
  import opened Bits
  import opened BitWriter
  import opened Common
  import opened LzTokens
  import opened LzCounts
  import opened LzBuffer

  /** Code lengths and stored codes of both alphabets. */
  datatype Tables = Tables(litSizes: seq<nat>, litCodes: seq<nat>, distSizes: seq<nat>, distCodes: seq<nat>)

  ghost predicate CodesFit(sizes: seq<nat>, codes: seq<nat>, n: nat)
  {
    |sizes| == |codes| == n && forall s :: 0 <= s < n ==> sizes[s] <= 15 && codes[s] < Pow2(sizes[s])
  }

  ghost predicate Usable(t: Tables)
  {
    CodesFit(t.litSizes, t.litCodes, LIT_SYMBOLS) && CodesFit(t.distSizes, t.distCodes, DIST_SYMBOLS)
  }

  function LitBits(t: Tables, s: nat): (bits: seq<bool>)
    requires s < |t.litSizes| && s < |t.litCodes|
  {
    LowBits(t.litCodes[s], t.litSizes[s])
  }

  function DistBits(t: Tables, s: nat): (bits: seq<bool>)
    requires s < |t.distSizes| && s < |t.distCodes|
  {
    LowBits(t.distCodes[s], t.distSizes[s])
  }

  /** What one token contributes to the block. */
  ghost function TokenBits(t: Tables, tok: Token): (bits: seq<bool>)
    requires Usable(t) && WellFormed(tok)
  {
    LitSymRange(tok);
    match tok
    case Literal(b) => LitBits(t, b)
    case Match(m, d) =>
      LitBits(t, LenSym(m)) + LowBits(Low(m, LenExtra(m)), LenExtra(m))
      + (DistBits(t, DistSym(d)) + LowBits(Low(d, DistExtra(d)), DistExtra(d)))
  }

  ghost predicate AllWellFormed(toks: seq<Token>)
  {
    forall i :: 0 <= i < |toks| ==> WellFormed(toks[i])
  }

  ghost function TokensBits(t: Tables, toks: seq<Token>): (bits: seq<bool>)
    requires Usable(t) && AllWellFormed(toks)
  {
    if toks == [] then [] else TokenBits(t, toks[0]) + TokensBits(t, toks[1..])
  }

  // ---------- reading the packed tokens ----------

  /**
   The reader at place p: `rest` is what is left of the group at hand, whose flags are in the low bits of `flags` with
   a sentinel above the c places that were not yet used.
   */
  ghost predicate Reading(bytes: seq<nat>, p: nat, flags: nat, c: nat, rest: seq<Token>, groups: seq<seq<Token>>)
  {
    && p <= |bytes| && bytes[p..] == Payload(rest) + Stored(groups)
    && flags == Val(Flags(rest)) + Pow2(c)
    && |rest| <= c <= 8 && (groups != [] ==> |rest| == c)
    && Grouped(groups) && AllWellFormed(rest)
  }

  ghost function ToRead(rest: seq<Token>, groups: seq<seq<Token>>): (toks: seq<Token>)
  {
    rest + Concat(groups)
  }

  lemma StartReading(bytes: seq<nat>, groups: seq<seq<Token>>)
    requires bytes == Stored(groups) && Grouped(groups)
    ensures Reading(bytes, 0, 1, 0, [], groups) && ToRead([], groups) == Concat(groups)
  {
    assert bytes[0..] == [] + Stored(groups);
    assert Pow2(0) == 1 && Val(Flags([])) == 0;
  }

  lemma SentinelAlone(v: nat, c: nat)
    ensures v + Pow2(c) == 1 <==> c == 0 && v == 0
  {
  }

  lemma GroupedTail(groups: seq<seq<Token>>)
    requires Grouped(groups) && groups != []
    ensures Grouped(groups[1..]) && AllWellFormed(groups[0]) && 1 <= |groups[0]| <= 8
    ensures groups[1..] != [] ==> |groups[0]| == 8
  {
  }

  /** Without the sentinel alone there is a token left in the group. */
  lemma TokenLeft(bytes: seq<nat>, p: nat, flags: nat, c: nat, rest: seq<Token>, groups: seq<seq<Token>>)
    requires Reading(bytes, p, flags, c, rest, groups) && p < |bytes| && flags != 1
    ensures rest != []
  {
    hide Grouped, AllWellFormed;
    SentinelAlone(Val(Flags(rest)), c);
    NoTokens();
    assert |bytes[p..]| > 0;
    assert rest == [] ==> Flags(rest) == [] && Payload(rest) + Stored(groups) == Stored(groups);
  }

  lemma GroupBytes(bytes: seq<nat>, p: nat, groups: seq<seq<Token>>)
    requires p < |bytes| && groups != [] && bytes[p..] == Stored(groups)
    ensures bytes[p] == Val(Flags(groups[0])) && bytes[p + 1..] == Payload(groups[0]) + Stored(groups[1..])
  {
    hide Val, Flags, Payload;
    var tail := bytes[p..];
    assert bytes[p] == tail[0] && bytes[p + 1..] == tail[1..];
    assert tail == [Val(Flags(groups[0]))] + (Payload(groups[0]) + Stored(groups[1..]));
  }

  /** The sentinel alone means that the next byte is a flag byte. */
  lemma NextGroup(bytes: seq<nat>, p: nat, c: nat, rest: seq<Token>, groups: seq<seq<Token>>)
    requires Reading(bytes, p, 1, c, rest, groups) && p < |bytes|
    ensures groups != [] && rest == [] && |groups[0]| >= 1
    ensures Reading(bytes, p + 1, bytes[p] + 256, 8, groups[0], groups[1..])
    ensures ToRead(groups[0], groups[1..]) == ToRead(rest, groups)
  {
    hide Grouped, AllWellFormed, Val, Flags, Stored;
    SentinelAlone(Val(Flags(rest)), c);
    assert rest == [] && Payload(rest) == [];
    NothingStored(bytes, p, groups);
    GroupBytes(bytes, p, groups);
    GroupedTail(groups);
    assert Pow2(8) == 256;
  }

  lemma NothingStored(bytes: seq<nat>, p: nat, groups: seq<seq<Token>>)
    requires p < |bytes| && bytes[p..] == [] + Stored(groups)
    ensures groups != [] && bytes[p..] == Stored(groups)
  {
    assert |bytes[p..]| > 0;
    assert [] + Stored(groups) == Stored(groups);
  }

  lemma PayloadBytes(bytes: seq<nat>, p: nat, t: Token, tail: seq<nat>)
    requires p <= |bytes| && bytes[p..] == PayloadOf(t) + tail
    ensures t.Literal? ==> p + 1 <= |bytes| && bytes[p] == t.byte && bytes[p + 1..] == tail
    ensures t.Match? ==> p + 3 <= |bytes| && bytes[p] == t.len && bytes[p + 3..] == tail
    ensures t.Match? ==> bytes[p + 1] == t.dist % 256 && bytes[p + 2] == t.dist / 256
  {
    var all, k := bytes[p..], |PayloadOf(t)|;
    assert bytes[p + k..] == all[k..] == tail;
    assert bytes[p] == all[0];
    if t.Match? {
      assert bytes[p + 1] == all[1] && bytes[p + 2] == all[2];
    }
  }

  lemma FlagBit(rest: seq<Token>, c: nat)
    requires 1 <= |rest| <= c
    ensures (Val(Flags(rest)) + Pow2(c)) % 2 == (if rest[0].Match? then 1 else 0)
    ensures (Val(Flags(rest)) + Pow2(c)) / 2 == Val(Flags(rest[1..])) + Pow2(c - 1)
  {
    hide Val;
    assert Flags(rest) == [rest[0].Match?] + Flags(rest[1..]);
    ValCons(rest[0].Match?, Flags(rest[1..]));
  }

  lemma PayloadSplit(rest: seq<Token>, tail: seq<nat>)
    requires rest != []
    ensures Payload(rest) + tail == PayloadOf(rest[0]) + (Payload(rest[1..]) + tail)
  {
    hide PayloadOf;
  }

  /** How far a token reaches in the buffer. */
  function Width(t: Token): (k: nat)
  {
    if t.Match? then 3 else 1
  }

  /** The next token: its flag is the lowest bit, its payload comes next. */
  lemma NextToken(bytes: seq<nat>, p: nat, flags: nat, c: nat, rest: seq<Token>, groups: seq<seq<Token>>)
    requires Reading(bytes, p, flags, c, rest, groups) && rest != []
    ensures c >= 1 && WellFormed(rest[0]) && (flags % 2 == 1 <==> rest[0].Match?)
    ensures p + Width(rest[0]) <= |bytes|
    ensures rest[0].Literal? ==> bytes[p] == rest[0].byte
    ensures rest[0].Match? ==> bytes[p] == rest[0].len && bytes[p + 1] + 256 * bytes[p + 2] == rest[0].dist
    ensures Reading(bytes, p + Width(rest[0]), flags / 2, c - 1, rest[1..], groups)
    ensures ToRead(rest, groups) == [rest[0]] + ToRead(rest[1..], groups)
  {
    hide Grouped, Val, Flags, Stored, Concat, Pow2, Payload, PayloadOf;
    FlagBit(rest, c);
    PayloadSplit(rest, Stored(groups));
    PayloadBytes(bytes, p, rest[0], Payload(rest[1..]) + Stored(groups));
  }

  // ---------- the plain version ----------

  /** What has been written, followed by what the tokens still to be written stand for, is the whole block. */
  ghost predicate Emitting(t: Tables, start: seq<bool>, all: seq<Token>, stream: seq<bool>, todo: seq<Token>)
  {
    && Usable(t) && AllWellFormed(all) && AllWellFormed(todo)
    && stream + TokensBits(t, todo) == start + TokensBits(t, all)
  }

  lemma EmitStart(t: Tables, start: seq<bool>, all: seq<Token>)
    requires Usable(t) && AllWellFormed(all)
    ensures Emitting(t, start, all, start, all)
  {
  }

  lemma EmitStep(t: Tables, start: seq<bool>, all: seq<Token>, stream: seq<bool>, x: Token, rest: seq<Token>)
    requires Emitting(t, start, all, stream, [x] + rest)
    ensures WellFormed(x) && Usable(t) && Emitting(t, start, all, stream + TokenBits(t, x), rest)
  {
    hide TokenBits, WellFormed, Usable;
    var todo := [x] + rest;
    assert todo[0] == x && todo[1..] == rest;
    assert forall i :: 0 <= i < |rest| ==> rest[i] == todo[i + 1];
    assert stream + (TokenBits(t, x) + TokensBits(t, rest)) == stream + TokenBits(t, x) + TokensBits(t, rest);
  }

  lemma EmitDone(t: Tables, start: seq<bool>, all: seq<Token>, stream: seq<bool>)
    requires Emitting(t, start, all, stream, [])
    ensures stream == start + TokensBits(t, all)
  {
    assert stream + [] == stream;
  }

  lemma EmitLength(t: Tables, start: seq<bool>, all: seq<Token>, stream: seq<bool>, todo: seq<Token>)
    requires Emitting(t, start, all, stream, todo)
    ensures Usable(t) && AllWellFormed(all) && |stream| <= |start| + |TokensBits(t, all)|
  {
    assert |stream + TokensBits(t, todo)| == |start + TokensBits(t, all)|;
  }

  method PutLit(w: Writer, t: Tables, s: nat)
    requires w.Valid() && Usable(t) && s < LIT_SYMBOLS
    modifies w, w.out
    ensures w.Valid() && Grown(old(w.out[..]), old(w.pos), w.out[..], w.pos)
    ensures w.Size() <= old(w.Size()) + |LitBits(t, s)|
    ensures w.pos < w.end ==> w.Stream() == old(w.Stream()) + LitBits(t, s)
  {
    w.PutBits(t.litCodes[s], t.litSizes[s]);
  }

  method PutDist(w: Writer, t: Tables, s: nat)
    requires w.Valid() && Usable(t) && s < DIST_SYMBOLS
    modifies w, w.out
    ensures w.Valid() && Grown(old(w.out[..]), old(w.pos), w.out[..], w.pos)
    ensures w.Size() <= old(w.Size()) + |DistBits(t, s)|
    ensures w.pos < w.end ==> w.Stream() == old(w.Stream()) + DistBits(t, s)
  {
    w.PutBits(t.distCodes[s], t.distSizes[s]);
  }

  method PutMatch(w: Writer, t: Tables, m: nat, d: nat)
    requires w.Valid() && Usable(t) && WellFormed(Match(m, d))
    modifies w, w.out
    ensures w.Valid() && Grown(old(w.out[..]), old(w.pos), w.out[..], w.pos)
    ensures w.Size() <= old(w.Size()) + |TokenBits(t, Match(m, d))|
    ensures w.pos < w.end ==> w.Stream() == old(w.Stream()) + TokenBits(t, Match(m, d))
  {
    hide LenSym, LenExtra, DistSym, DistExtra, Low, LitBits, DistBits, LowBits, BitsOf, Pow2;
    LengthRecovered(m);
    DistanceRecovered(d);
    ghost var l, le := LitBits(t, LenSym(m)), LowBits(Low(m, LenExtra(m)), LenExtra(m));
    ghost var e, ee := DistBits(t, DistSym(d)), LowBits(Low(d, DistExtra(d)), DistExtra(d));
    Regroup(w.Stream(), l, le, e, ee);
    PutLit(w, t, LenSym(m));
    w.PutBits(Low(m, LenExtra(m)), LenExtra(m));
    PutDist(w, t, DistSym(d));
    w.PutBits(Low(d, DistExtra(d)), DistExtra(d));
  }

  lemma Regroup(s: seq<bool>, a: seq<bool>, b: seq<bool>, c: seq<bool>, d: seq<bool>)
    ensures s + a + b + c + d == s + (a + b + (c + d))
  {
  }

  /** Writes the packed tokens and the end-of-block code. */
  method Compress(w: Writer, t: Tables, bytes: seq<nat>, ghost groups: seq<seq<Token>>) returns (ok: bool)
    requires w.Valid() && Usable(t) && bytes == Stored(groups) && Grouped(groups)
    modifies w, w.out
    ensures w.Valid() && Grown(old(w.out[..]), old(w.pos), w.out[..], w.pos) && AllWellFormed(Concat(groups))
    ensures ok ==> w.Stream() == old(w.Stream()) + TokensBits(t, Concat(groups)) + LitBits(t, END_OF_BLOCK)
    ensures ok <==> w.pos < w.end
    ensures old(w.Size()) + |TokensBits(t, Concat(groups))| + |LitBits(t, END_OF_BLOCK)| < 8 * w.end ==> ok
  {
    hide Reading, Emitting, TokenBits, TokensBits, ToRead, Stored, Grouped, Concat, LitBits, Usable, AllWellFormed;
    var flags: nat, p: nat := 1, 0;
    ghost var c: nat, rest, gs, start, all := 0, [], groups, w.Stream(), Concat(groups);
    StartReading(bytes, groups);
    GroupsWellFormed(groups);
    EmitStart(t, start, all);
    w.StreamSize();
    UsableShape(t);
    ghost var fits := |start| + |TokensBits(t, all)| + |LitBits(t, END_OF_BLOCK)| < 8 * w.end;
    while p < |bytes|
      invariant p <= |bytes| && w.Valid() && Grown(old(w.out[..]), old(w.pos), w.out[..], w.pos)
      invariant fits ==> w.pos < w.end
      invariant Reading(bytes, p, flags, c, rest, gs)
      invariant w.pos < w.end ==> Emitting(t, start, all, w.Stream(), ToRead(rest, gs))
      decreases |bytes| - p
    {
      if flags == 1 {
        NextGroup(bytes, p, c, rest, gs);
        flags := bytes[p] + 256;
        p := p + 1;
        c, rest, gs := 8, gs[0], gs[1..];
        GroupHasToken(bytes, p, flags, rest, gs);
      } else {
        TokenLeft(bytes, p, flags, c, rest, gs);
      }
      NextToken(bytes, p, flags, c, rest, gs);
      if w.pos < w.end {
        EmitStep(t, start, all, w.Stream(), rest[0], ToRead(rest[1..], gs));
        EmitLength(t, start, all, w.Stream() + TokenBits(t, rest[0]), ToRead(rest[1..], gs));
        w.StreamSize();
      }
      if flags % 2 == 1 {
        PutMatch(w, t, bytes[p], bytes[p + 1] + 256 * bytes[p + 2]);
        p := p + 3;
      } else {
        PutLit(w, t, bytes[p]);
        LiteralBits(t, rest[0]);
        p := p + 1;
      }
      flags := flags / 2;
      c, rest := c - 1, rest[1..];
    }
    AllRead(bytes, p, flags, c, rest, gs);
    if w.pos < w.end {
      EmitDone(t, start, all, w.Stream());
      w.StreamSize();
    }
    PutLit(w, t, END_OF_BLOCK);
    ok := w.pos < w.end;
  }

  lemma UsableShape(t: Tables)
    requires Usable(t)
    ensures |t.litSizes| == |t.litCodes| == LIT_SYMBOLS && |t.distSizes| == |t.distCodes| == DIST_SYMBOLS
  {
  }

  lemma LiteralBits(t: Tables, tok: Token)
    requires Usable(t) && WellFormed(tok)
    ensures tok.Literal? ==> TokenBits(t, tok) == LitBits(t, tok.byte)
  {
  }

  lemma GroupsWellFormed(groups: seq<seq<Token>>)
    requires Grouped(groups)
    ensures AllWellFormed(Concat(groups))
  {
    ConcatWellFormed(groups);
  }

  lemma GroupHasToken(bytes: seq<nat>, p: nat, flags: nat, rest: seq<Token>, groups: seq<seq<Token>>)
    requires Reading(bytes, p, flags, 8, rest, groups) && 1 <= |rest|
    ensures rest != [] && p < |bytes|
  {
    PayloadLength(rest);
    assert |bytes[p..]| >= 1;
  }

  /** At the end of the buffer nothing is left to be read. */
  lemma AllRead(bytes: seq<nat>, p: nat, flags: nat, c: nat, rest: seq<Token>, groups: seq<seq<Token>>)
    requires Reading(bytes, p, flags, c, rest, groups) && p == |bytes|
    ensures ToRead(rest, groups) == []
  {
    PayloadLength(rest);
    assert groups == [] || |Stored(groups)| >= 1;
    assert |bytes[p..]| == 0;
  }

  // ---------- the unrolled version ----------

  /** The bits in the output followed by those in the bit buffer. */
  ghost function Pending(bytes: seq<nat>, v: nat, n: nat): (bits: seq<bool>)
  {
    BitsOf(bytes) + LowBits(v, n)
  }

  /** Adds bits to the 64-bit buffer, which has room for them. */
  method PutFast(v: nat, n: nat, b: nat, l: nat, ghost bytes: seq<nat>) returns (v': nat, n': nat)
    requires v < Pow2(n) && b < Pow2(l) && n + l <= 64
    ensures n' == n + l && v' < Pow2(n') && Pending(bytes, v', n') == Pending(bytes, v, n) + LowBits(b, l)
  {
    hide BitsOf, LowBits, Shl, Pow2;
    ShlAppend(v, n, b, l);
    v', n' := v + Shl(b, n), n + l;
  }

  /** The k lowest bytes of v. */
  function LowBytes(v: nat, k: nat): (bytes: seq<nat>)
    ensures |bytes| == k
  {
    if k == 0 then [] else [v % 256] + LowBytes(v / 256, k - 1)
  }

  lemma {:induction false} BytesOut(v: nat, n: nat, k: nat)
    requires v < Pow2(n) && 8 * k <= n
    ensures Shr(v, 8 * k) < Pow2(n - 8 * k)
    ensures LowBits(v, n) == BitsOf(LowBytes(v, k)) + LowBits(Shr(v, 8 * k), n - 8 * k)
  {
    hide LowBits, BitsOf, Shr, Pow2;
    if k == 0 {
      NoBytesOut(v, n);
    } else {
      ByteOut(v, n);
      BytesOut(v / 256, n - 8, k - 1);
      var low, high := BitsOf(LowBytes(v / 256, k - 1)), LowBits(Shr(v / 256, 8 * k - 8), n - 8 * k);
      BitsOfFront(v % 256, LowBytes(v / 256, k - 1));
      ShiftByByte(v, 8 * k - 8);
      assert LowBits(v % 256, 8) + (low + high) == LowBits(v % 256, 8) + low + high;
    }
  }

  lemma NoBytesOut(v: nat, n: nat)
    ensures Shr(v, 0) == v && LowBits(v, n) == BitsOf([]) + LowBits(v, n)
  {
  }

  lemma ShiftByByte(v: nat, n: nat)
    ensures Shr(v, n + 8) == Shr(v / 256, n)
  {
    ShrAdd(v, 8, n);
    ShrIsDivision(v, 8);
    assert Pow2(8) == 256;
  }

  lemma {:induction false} LowBytesPrefix(v: nat, k: nat, n: nat)
    requires k <= n
    ensures LowBytes(v, n)[..k] == LowBytes(v, k)
  {
    if k > 0 {
      LowBytesPrefix(v / 256, k - 1, n - 1);
      assert LowBytes(v, n)[..k] == [v % 256] + LowBytes(v / 256, n - 1)[..k - 1];
    }
  }

  /** Stores all eight bytes of the buffer, little-endian. */
  method StoreWord(out: array<Byte>, pos: nat, v: nat)
    requires pos + 8 <= out.Length
    modifies out
    ensures out[..pos] == old(out[..pos]) && out[pos..pos + 8] == LowBytes(v, 8)
  {
    var x := v;
    for k := 0 to 8
      invariant out[..pos] == old(out[..pos])
      invariant out[pos..pos + k] + LowBytes(x, 8 - k) == LowBytes(v, 8)
    {
      ghost var done := out[pos..pos + k];
      out[pos + k] := x % 256;
      assert out[pos..pos + k + 1] == done + [x % 256];
      assert LowBytes(x, 8 - k) == [x % 256] + LowBytes(x / 256, 8 - k - 1);
      x := x / 256;
    }
    assert LowBytes(x, 0) == [];
  }

  /** Stores the buffer and moves on by the whole bytes in it. */
  method StoreBits(out: array<Byte>, pos: nat, v: nat, n: nat) returns (pos': nat, v': nat, n': nat)
    requires pos + 8 <= out.Length && v < Pow2(n) && n < 64
    modifies out
    ensures pos' == pos + n / 8 && n' == n % 8 && v' < Pow2(n') && Grown(old(out[..]), pos, out[..], pos')
    ensures Pending(out[..pos'], v', n') == old(Pending(out[..pos], v, n))
  {
    hide BitsOf, LowBits, Shr, Pow2, LowBytes;
    ghost var done, k := out[..pos], n / 8;
    StoreWord(out, pos, v);
    SamePrefix(old(out[..]), out[..], pos);
    BytesOut(v, n, k);
    LowBytesPrefix(v, k, 8);
    assert out[..pos + k] == done + out[pos..pos + 8][..k];
    BitsOfConcat(done, LowBytes(v, k));
    pos', v', n' := pos + n / 8, Shr(v, n - n % 8), n % 8;
  }

  lemma SamePrefix(before: seq<nat>, after: seq<nat>, pos: nat)
    requires pos + 8 <= |before| == |after| && before[..pos] == after[..pos]
    ensures forall q: nat :: pos <= q <= |after| ==> Grown(before, pos, after, q)
  {
    forall i | 0 <= i < pos
      ensures after[i] == before[i]
    {
      assert after[i] == after[..pos][i] == before[..pos][i];
    }
  }

  /** The bits of a match in the unrolled version; with less than a byte pending they fit in 64 bits. */
  method MatchFast(t: Tables, m: nat, d: nat, v: nat, n: nat, ghost bytes: seq<nat>) returns (v': nat, n': nat)
    requires Usable(t) && WellFormed(Match(m, d)) && v < Pow2(n) && n < 8
    ensures n' <= 55 && v' < Pow2(n')
    ensures Pending(bytes, v', n') == Pending(bytes, v, n) + TokenBits(t, Match(m, d))
  {
    hide LenSym, LenExtra, DistSym, DistExtra, Low, LowBits, Pow2, Pending;
    LengthRecovered(m);
    DistanceRecovered(d);
    Regroup(Pending(bytes, v, n), LitBits(t, LenSym(m)), LowBits(Low(m, LenExtra(m)), LenExtra(m)),
            DistBits(t, DistSym(d)), LowBits(Low(d, DistExtra(d)), DistExtra(d)));
    v', n' := PutFast(v, n, t.litCodes[LenSym(m)], t.litSizes[LenSym(m)], bytes);
    v', n' := PutFast(v', n', Low(m, LenExtra(m)), LenExtra(m), bytes);
    v', n' := PutFast(v', n', t.distCodes[DistSym(d)], t.distSizes[DistSym(d)], bytes);
    v', n' := PutFast(v', n', Low(d, DistExtra(d)), DistExtra(d), bytes);
  }

  method LiteralFast(t: Tables, b: nat, v: nat, n: nat, ghost bytes: seq<nat>) returns (v': nat, n': nat)
    requires Usable(t) && b < 256 && v < Pow2(n) && n <= 37
    ensures n <= n' <= n + 15 && v' < Pow2(n')
    ensures Pending(bytes, v', n') == Pending(bytes, v, n) + TokenBits(t, Literal(b))
  {
    hide LowBits, Pow2, Pending;
    v', n' := PutFast(v, n, t.litCodes[b], t.litSizes[b], bytes);
  }

  /** Takes one literal out of the packed tokens; the caller shifts the flags. */
  method TakeLiteral(t: Tables, bytes: seq<nat>, p: nat, flags: nat, v: nat, n: nat, ghost c: nat,
                     ghost rest: seq<Token>,
                     ghost gs: seq<seq<Token>>, ghost out: seq<nat>, ghost start: seq<bool>, ghost all: seq<Token>)
    returns (p': nat, v': nat, n': nat)
    requires Reading(bytes, p, flags, c, rest, gs) && rest != [] && flags % 2 == 0 && v < Pow2(n) && n <= 37
    requires Emitting(t, start, all, Pending(out, v, n), ToRead(rest, gs))
    ensures p' == p + 1 <= |bytes| && n <= n' <= n + 15 && v' < Pow2(n')
    ensures c >= 1 && Reading(bytes, p', flags / 2, c - 1, rest[1..], gs)
    ensures Emitting(t, start, all, Pending(out, v', n'), ToRead(rest[1..], gs))
  {
    hide Reading, Emitting, TokenBits, Pending, ToRead, Usable, Pow2;
    NextToken(bytes, p, flags, c, rest, gs);
    EmitStep(t, start, all, Pending(out, v, n), rest[0], ToRead(rest[1..], gs));
    v', n' := LiteralFast(t, bytes[p], v, n, out);
    p' := p + 1;
  }

  /** One round of the unrolled loop: a match, or up to three literals of one group. */
  method FastRound(t: Tables, bytes: seq<nat>, p: nat, flags: nat, v: nat, n: nat, ghost c: nat, ghost rest: seq<Token>,
                   ghost gs: seq<seq<Token>>, ghost out: seq<nat>, ghost start: seq<bool>, ghost all: seq<Token>)
    returns (p': nat, flags': nat, v': nat, n': nat, ghost c': nat, ghost rest': seq<Token>, ghost gs': seq<seq<Token>>)
    requires Reading(bytes, p, flags, c, rest, gs) && p < |bytes| && v < Pow2(n) && n < 8
    requires Emitting(t, start, all, Pending(out, v, n), ToRead(rest, gs))
    ensures p < p' <= |bytes| && n' <= 55 && v' < Pow2(n')
    ensures Reading(bytes, p', flags', c', rest', gs')
    ensures Emitting(t, start, all, Pending(out, v', n'), ToRead(rest', gs'))
  {
    hide Reading, Emitting, TokenBits, Pending, ToRead, Usable, Pow2;
    p', flags' := p, flags;
    c', rest', gs' := c, rest, gs;
    if flags' == 1 {
      NextGroup(bytes, p', c', rest', gs');
      flags' := bytes[p'] + 256;
      p' := p' + 1;
      c', rest', gs' := 8, gs'[0], gs'[1..];
    } else {
      TokenLeft(bytes, p', flags', c', rest', gs');
    }
    NextToken(bytes, p', flags', c', rest', gs');
    if flags' % 2 == 1 {
      EmitStep(t, start, all, Pending(out, v, n), rest'[0], ToRead(rest'[1..], gs'));
      v', n' := MatchFast(t, bytes[p'], bytes[p' + 1] + 256 * bytes[p' + 2], v, n, out);
      p' := p' + 3;
      c', rest' := c' - 1, rest'[1..];
    } else {
      p', v', n' := TakeLiteral(t, bytes, p', flags', v, n, c', rest', gs', out, start, all);
      c', rest' := c' - 1, rest'[1..];
      if flags' / 2 % 2 == 0 && p' < |bytes| {
        flags' := flags' / 2;
        TokenLeft(bytes, p', flags', c', rest', gs');
        p', v', n' := TakeLiteral(t, bytes, p', flags', v', n', c', rest', gs', out, start, all);
        c', rest' := c' - 1, rest'[1..];
        if flags' / 2 % 2 == 0 && p' < |bytes| {
          flags' := flags' / 2;
          TokenLeft(bytes, p', flags', c', rest', gs');
          p', v', n' := TakeLiteral(t, bytes, p', flags', v', n', c', rest', gs', out, start, all);
          c', rest' := c' - 1, rest'[1..];
        }
      }
    }
    flags' := flags' / 2;
  }

  /** The unrolled version: whenever it succeeds, it has written the same bits as the plain one. */
  method CompressFast(w: Writer, t: Tables, bytes: seq<nat>, ghost groups: seq<seq<Token>>) returns (ok: bool)
    requires w.Valid() && Usable(t) && bytes == Stored(groups) && Grouped(groups)
    modifies w, w.out
    ensures w.Valid() && Grown(old(w.out[..]), old(w.pos), w.out[..], w.pos) && AllWellFormed(Concat(groups))
    ensures ok ==> w.pos < w.end
    ensures ok ==> w.Stream() == old(w.Stream()) + TokensBits(t, Concat(groups)) + LitBits(t, END_OF_BLOCK)
    ensures old(w.Size()) + |TokensBits(t, Concat(groups))| + |LitBits(t, END_OF_BLOCK)| < 8 * w.end ==> ok
  {
    hide Reading, Emitting, TokensBits, ToRead, Stored, Grouped, Concat, LitBits, Usable, AllWellFormed, BitsOf,
         LowBits, Pow2;
    var flags: nat, p: nat, pos: nat, v: nat, n: nat := 1, 0, w.pos, w.bitBuf, w.bitsIn;
    ghost var c: nat, rest, gs, start, all := 0, [], groups, w.Stream(), Concat(groups);
    StartReading(bytes, groups);
    GroupsWellFormed(groups);
    EmitStart(t, start, all);
    w.StreamSize();
    while p < |bytes|
      invariant p <= |bytes| && w.Valid() && pos <= w.end + 7 && n < 8 && v < Pow2(n)
      invariant Grown(old(w.out[..]), old(w.pos), w.out[..], pos) && w.pos == old(w.pos)
      invariant Reading(bytes, p, flags, c, rest, gs)
      invariant Emitting(t, start, all, Pending(w.out[..pos], v, n), ToRead(rest, gs))
      decreases |bytes| - p
    {
      p, flags, v, n, c, rest, gs := FastRound(t, bytes, p, flags, v, n, c, rest, gs, w.out[..pos], start, all);
      if pos >= w.end {
        EmitLength(t, start, all, Pending(w.out[..pos], v, n), ToRead(rest, gs));
        PendingSize(w.out[..pos], v, n);
        return false;
      }
      pos, v, n := StoreBits(w.out, pos, v, n);
    }
    AllRead(bytes, p, flags, c, rest, gs);
    EmitDone(t, start, all, Pending(w.out[..pos], v, n));
    PendingSize(w.out[..pos], v, n);
    w.pos, w.bitsIn, w.bitBuf := pos, 0, 0;
    NothingPending();
    FlushBits(w, v, n);
    PutLit(w, t, END_OF_BLOCK);
    ok := w.pos < w.end;
  }

  lemma PendingSize(bytes: seq<nat>, v: nat, n: nat)
    ensures |Pending(bytes, v, n)| == 8 * |bytes| + n
  {
    BitsOfSize(bytes);
  }

  lemma NothingPending()
    ensures 0 < Pow2(0) && LowBits(0, 0) == []
  {
  }

  /** Hands the bits left over to the ordinary bit buffer. */
  method FlushBits(w: Writer, v: nat, n: nat)
    requires w.Valid() && v < Pow2(n)
    modifies w, w.out
    ensures w.Valid() && Grown(old(w.out[..]), old(w.pos), w.out[..], w.pos)
    ensures w.Size() <= old(w.Size()) + n
    ensures w.pos < w.end ==> w.Stream() == old(w.Stream()) + LowBits(v, n)
  {
    hide BitsOf, LowBits, Low, Shr, Pow2;
    var rest, left := v, n;
    ghost var goal := w.Stream() + LowBits(v, n);
    while left > 0
      invariant w.Valid() && Grown(old(w.out[..]), old(w.pos), w.out[..], w.pos)
      invariant w.Size() + left <= old(w.Size()) + n
      invariant w.pos < w.end ==> w.Stream() + LowBits(rest, left) == goal
    {
      var k := if left < 16 then left else 16;
      SplitBits(rest, k, left);
      w.PutBits(Low(rest, k), k);
      rest, left := Shr(rest, k), left - k;
    }
    NoBits(rest, w.Stream());
  }

  lemma SplitBits(v: nat, k: nat, n: nat)
    requires k <= n
    ensures LowBits(v, n) == LowBits(Low(v, k), k) + LowBits(Shr(v, k), n - k)
  {
    LowBitsAppend(v, k, n - k);
    LowBitsOfLow(v, k);
  }

  lemma NoBits(v: nat, stream: seq<bool>)
    ensures stream + LowBits(v, 0) == stream
  {
  }
}
