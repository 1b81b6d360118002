/**
 The compressor's token buffer (qqwry/miniz.c, tdefl_record_literal, tdefl_record_match, the fix-up in
 tdefl_flush_block). Tokens are packed in groups of up to eight behind a flag byte that is filled from the top, so
 an unfinished flag byte carries garbage in its low bits until the buffer is flushed.
 */
module LzBuffer {
  import opened Bits
  import opened Common
  import opened LzTokens
  import opened LzCounts

  // ---------- the packed form ----------

  function PayloadOf(t: Token): (p: seq<nat>)
  {
    match t
    case Literal(b) => [b]
    case Match(m, d) => [m, d % 256, d / 256]
  }

  function Payload(toks: seq<Token>): (p: seq<nat>)
  {
    if toks == [] then [] else PayloadOf(toks[0]) + Payload(toks[1..])
  }

  function Flags(toks: seq<Token>): (f: seq<bool>)
    ensures |f| == |toks|
  {
    seq(|toks|, i requires 0 <= i < |toks| => toks[i].Match?)
  }

  function StoredGroup(g: seq<Token>): (p: seq<nat>)
  {
    [Val(Flags(g))] + Payload(g)
  }

  /** Groups one after the other, each behind its flag byte. */
  function Stored(groups: seq<seq<Token>>): (p: seq<nat>)
  {
    if groups == [] then [] else StoredGroup(groups[0]) + Stored(groups[1..])
  }

  function Concat(groups: seq<seq<Token>>): (toks: seq<Token>)
  {
    if groups == [] then [] else groups[0] + Concat(groups[1..])
  }

  /** Groups of eight, the last possibly shorter, none empty. */
  ghost predicate Grouped(groups: seq<seq<Token>>)
  {
    && (forall i :: 0 <= i < |groups| ==> 1 <= |groups[i]| <= 8)
    && (forall i :: 0 <= i < |groups| - 1 ==> |groups[i]| == 8)
    && (forall i, j :: 0 <= i < |groups| && 0 <= j < |groups[i]| ==> WellFormed(groups[i][j]))
  }

  lemma {:induction false} PayloadSnoc(toks: seq<Token>, t: Token)
    ensures Payload(toks + [t]) == Payload(toks) + PayloadOf(t)
  {
    if toks == [] {
      assert toks + [t] == [t] && [t][1..] == [];
    } else {
      PayloadSnoc(toks[1..], t);
      assert (toks + [t])[1..] == toks[1..] + [t];
    }
  }

  lemma {:induction false} StoredSnoc(groups: seq<seq<Token>>, g: seq<Token>)
    ensures Stored(groups + [g]) == Stored(groups) + StoredGroup(g)
  {
    hide StoredGroup;
    if groups == [] {
      assert groups + [g] == [g] && [g][1..] == [];
    } else {
      StoredSnoc(groups[1..], g);
      assert (groups + [g])[1..] == groups[1..] + [g];
    }
  }

  lemma {:induction false} ConcatSnoc(groups: seq<seq<Token>>, g: seq<Token>)
    ensures Concat(groups + [g]) == Concat(groups) + g
  {
    if groups == [] {
      assert groups + [g] == [g] && [g][1..] == [];
    } else {
      ConcatSnoc(groups[1..], g);
      assert (groups + [g])[1..] == groups[1..] + [g];
    }
  }

  // ---------- flag bytes ----------

  lemma {:induction false} ShrPlus(x: nat, m: nat, k: nat)
    ensures Shr(x + Shl(m, k), k) == Shr(x, k) + m
  {
    if k > 0 {
      ShrPlus(x / 2, m, k - 1);
      assert (x + Shl(m, k)) / 2 == x / 2 + Shl(m, k - 1);
    }
  }

  lemma {:induction false} ShlPow(k: nat, n: nat)
    ensures Shl(Pow2(k), n) == Pow2(k + n)
  {
    if n > 0 {
      ShlPow(k, n - 1);
    }
  }

  /** A new flag enters at the top; the flags so far move down by one place. */
  lemma FlagIn(f: nat, left: nat, toks: seq<Token>, t: Token)
    requires 1 <= left <= 8 && |toks| == 8 - left && Shr(f, left) == Val(Flags(toks))
    ensures Shr(f / 2 + (if t.Match? then 128 else 0), left - 1) == Val(Flags(toks + [t]))
  {
    hide Val, Pow2, Shl;
    var k := 8 - left;
    assert Flags(toks + [t]) == Flags(toks) + [t.Match?];
    ValSnoc(Flags(toks), t.Match?);
    ShlPow(k, left - 1);
    Pow2Values();
    ShrPlus(f / 2, Pow2(k), left - 1);
  }

  // ---------- the buffer ----------

  const CODE_BUF_SIZE: nat := 65536

  class CodeBuffer {
    const buf: array<Byte>
    const litCount: array<nat>
    const distCount: array<nat>
    var pos: nat
    var flags: nat
    var left: nat
    /** The full groups recorded so far, and the group at hand. */
    ghost var groups: seq<seq<Token>>
    ghost var current: seq<Token>

    /** The bytes are the packed form of the tokens, except that the last flag byte is still unfinished. */
    ghost predicate Packed()
      reads this, buf
    {
      && Grouped(groups) && (forall i :: 0 <= i < |groups| ==> |groups[i]| == 8)
      && 1 <= left <= 8 && |current| == 8 - left && (forall j :: 0 <= j < |current| ==> WellFormed(current[j]))
      && flags < pos <= buf.Length
      && buf[..flags] == Stored(groups)
      && buf[flags + 1..pos] == Payload(current)
      && Shr(buf[flags], left) == Val(Flags(current))
    }

    ghost predicate Valid()
      reads this, buf, litCount, distCount
    {
      && litCount != distCount && buf.Length == CODE_BUF_SIZE
      && Packed() && Counted(Tokens(), litCount[..], distCount[..])
    }

    ghost function Tokens(): (toks: seq<Token>)
      reads this
    {
      Concat(groups) + current
    }

    /** An empty buffer; the flag byte at its start has whatever value it had. */
    constructor (buf: array<Byte>, litCount: array<nat>, distCount: array<nat>)
      requires buf.Length == CODE_BUF_SIZE && litCount != distCount
      requires Counted([], litCount[..], distCount[..])
      ensures Valid() && Tokens() == [] && pos == 1
      ensures this.buf == buf && this.litCount == litCount && this.distCount == distCount
    {
      this.buf, this.litCount, this.distCount := buf, litCount, distCount;
      pos, flags, left := 1, 0, 8;
      groups, current := [], [];
      new;
      ShrByte(buf[0]);
    }

    /** Starts over after a block. */
    method Reset()
      requires buf.Length == CODE_BUF_SIZE && litCount != distCount
      requires litCount.Length == LIT_SYMBOLS && distCount.Length == DIST_SYMBOLS
      modifies this, litCount, distCount
      ensures Valid() && Tokens() == [] && pos == 1
    {
      forall s | 0 <= s < LIT_SYMBOLS { litCount[s] := 0; }
      forall s | 0 <= s < DIST_SYMBOLS { distCount[s] := 0; }
      CountNone(litCount[..], distCount[..]);
      pos, flags, left := 1, 0, 8;
      groups, current := [], [];
      ShrByte(buf[0]);
    }

    /** Stores the flag of a token; a full flag byte opens a new group at the next free place. */
    method PutFlag(t: Token)
      requires 1 <= left <= 8 && flags < pos < buf.Length
      modifies this`left, this`flags, this`pos, buf
      ensures buf[..] == old(buf[..])[old(flags) := old(buf[flags]) / 2 + (if t.Match? then 128 else 0)]
      ensures if old(left) == 1 then left == 8 && flags == old(pos) && pos == old(pos) + 1
              else left == old(left) - 1 && flags == old(flags) && pos == old(pos)
    {
      buf[flags] := buf[flags] / 2 + (if t.Match? then 128 else 0);
      left := left - 1;
      if left == 0 {
        left := 8;
        flags := pos;
        pos := pos + 1;
      }
    }

    /** Records a token after its payload has been stored. */
    method Finish(t: Token)
      requires WellFormed(t) && 1 <= left <= 8 && |current| == 8 - left
      requires Grouped(groups) && (forall i :: 0 <= i < |groups| ==> |groups[i]| == 8)
      requires forall j :: 0 <= j < |current| ==> WellFormed(current[j])
      requires flags < pos < buf.Length && buf[..flags] == Stored(groups)
      requires buf[flags + 1..pos] == Payload(current) + PayloadOf(t)
      requires Shr(buf[flags], left) == Val(Flags(current))
      modifies this, buf
      ensures Packed() && Tokens() == old(Tokens()) + [t] && pos <= old(pos) + 1
    {
      hide Payload, Stored, Concat, Shr, Val, PayloadOf;
      FlagIn(buf[flags], left, current, t);
      PayloadSnoc(current, t);
      ghost var bytes, f, p, group := buf[..], flags, pos, current + [t];
      PutFlag(t);
      assert buf[..f] == bytes[..f] && buf[f + 1..p] == bytes[f + 1..p];
      current := group;
      assert Concat(groups) + current == old(Tokens()) + [t];
      if |group| == 8 {
        NoShift(buf[f]);
        NoTokens();
        CloseGroup(buf[..p], f, groups, group);
        ShrByte(buf[flags]);
        groups, current := groups + [group], [];
        assert buf[flags + 1..pos] == [];
      }
    }

    method RecordLiteral(lit: Byte)
      requires Valid() && pos + 2 <= buf.Length
      modifies this, buf, litCount
      ensures Valid() && Tokens() == old(Tokens()) + [Literal(lit)] && pos <= old(pos) + 2
    {
      hide Payload, Stored, Concat, Shr, Val, Grouped, Counted;
      ghost var bytes, p, lits, dists := buf[..], pos, litCount[..], distCount[..];
      CountToken(Tokens(), lits, dists, Literal(lit));
      buf[pos] := lit;
      pos := pos + 1;
      assert buf[..flags] == bytes[..flags] && buf[flags + 1..pos] == bytes[flags + 1..p] + [lit];
      Finish(Literal(lit));
      assert litCount[..] == lits && distCount[..] == dists;
      litCount[lit] := litCount[lit] + 1;
      assert litCount[..] == lits[lit := lits[lit] + 1] && distCount[..] == dists;
    }

    /** A match of `len` bytes at distance `dist`. */
    method RecordMatch(len: nat, dist: nat)
      requires Valid() && pos + 4 <= buf.Length && 3 <= len <= 258 && 1 <= dist <= 32768
      modifies this, buf, litCount, distCount
      ensures Valid() && Tokens() == old(Tokens()) + [Match(len - 3, dist - 1)] && pos <= old(pos) + 4
    {
      hide Payload, Stored, Concat, Shr, Val, Grouped, Counted, LenSym, DistSym, Flags;
      ghost var bytes, p, lits, dists := buf[..], pos, litCount[..], distCount[..];
      CountToken(Tokens(), lits, dists, Match(len - 3, dist - 1));
      buf[pos] := len - 3;
      buf[pos + 1] := (dist - 1) % 256;
      buf[pos + 2] := (dist - 1) / 256;
      pos := pos + 3;
      assert buf[..flags] == bytes[..flags];
      assert buf[flags + 1..pos] == bytes[flags + 1..p] + [len - 3, (dist - 1) % 256, (dist - 1) / 256];
      Finish(Match(len - 3, dist - 1));
      assert litCount[..] == lits && distCount[..] == dists;
      var d, l := DistSym(dist - 1), LenSym(len - 3);
      distCount[d] := distCount[d] + 1;
      litCount[l] := litCount[l] + 1;
      assert litCount[..] == lits[l := lits[l] + 1] && distCount[..] == dists[d := dists[d] + 1];
    }

    /** Eight tokens take at least nine bytes, so a 64 KB buffer holds fewer than 2^16 tokens. */
    lemma TokensFit()
      requires Valid()
      ensures 9 * |Tokens()| <= 8 * pos && |Tokens()| <= MAX_TOKENS
      ensures forall i :: 0 <= i < |Tokens()| ==> WellFormed(Tokens()[i])
    {
      StoredLength(groups);
      PayloadLength(current);
      assert |buf[..flags]| == flags && |buf[flags + 1..pos]| == pos - flags - 1;
      ConcatWellFormed(groups);
    }

    /**
     The fix-up before the tokens are read: the last flag byte is shifted into place, or given back when its group
     is empty. Whatever garbage the flag byte held, the buffer is now the packed form of the tokens.
     */
    method FixUp() returns (ghost all: seq<seq<Token>>)
      requires Valid()
      modifies this`pos, buf
      ensures Grouped(all) && Concat(all) == Tokens() && pos <= buf.Length && buf[..pos] == Stored(all)
    {
      ghost var bytes := buf[..];
      buf[flags] := ShiftByte(buf[flags], left);
      if left == 8 {
        pos := pos - 1;
        all := groups;
        EmptyPayload(current, buf.Length, flags, old(pos), bytes);
        assert buf[..pos] == bytes[..flags];
      } else {
        all := groups + [current];
        assert buf[..flags] == bytes[..flags] && buf[flags + 1..pos] == bytes[flags + 1..pos];
        CloseGroup(buf[..pos], flags, groups, current);
      }
    }
  }

  lemma {:induction false} PayloadLength(toks: seq<Token>)
    ensures |Payload(toks)| >= |toks|
  {
    if toks != [] {
      PayloadLength(toks[1..]);
    }
  }

  lemma {:induction false} StoredLength(groups: seq<seq<Token>>)
    requires forall i :: 0 <= i < |groups| ==> |groups[i]| == 8
    ensures |Stored(groups)| >= 9 * |groups| && |Concat(groups)| == 8 * |groups|
  {
    if groups != [] {
      PayloadLength(groups[0]);
      StoredLength(groups[1..]);
    }
  }

  lemma {:induction false} ConcatWellFormed(groups: seq<seq<Token>>)
    requires forall i, j :: 0 <= i < |groups| && 0 <= j < |groups[i]| ==> WellFormed(groups[i][j])
    ensures forall k :: 0 <= k < |Concat(groups)| ==> WellFormed(Concat(groups)[k])
  {
    if groups != [] {
      ConcatWellFormed(groups[1..]);
    }
  }

  function ShiftByte(f: Byte, n: nat): (r: Byte)
    ensures r == Shr(f, n)
  {
    ShrBelowByte(f, n);
    Shr(f, n)
  }

  lemma {:induction false} ShrBelowByte(f: nat, n: nat)
    ensures Shr(f, n) <= f
  {
    if n > 0 {
      ShrBelowByte(f / 2, n - 1);
    }
  }

  lemma EmptyPayload(current: seq<Token>, length: nat, flags: nat, pos: nat, bytes: seq<Byte>)
    requires |current| == 0 && flags < pos <= length == |bytes| && bytes[flags + 1..pos] == Payload(current)
    ensures pos == flags + 1
  {
    assert |bytes[flags + 1..pos]| == 0;
  }

  /** A group with its flag byte in place joins the groups before it. */
  lemma CloseGroup(bytes: seq<nat>, f: nat, groups: seq<seq<Token>>, g: seq<Token>)
    requires f < |bytes| && bytes[..f] == Stored(groups) && bytes[f + 1..] == Payload(g) && bytes[f] == Val(Flags(g))
    requires Grouped(groups) && (forall i :: 0 <= i < |groups| ==> |groups[i]| == 8) && 1 <= |g| <= 8
    requires forall j :: 0 <= j < |g| ==> WellFormed(g[j])
    ensures bytes == Stored(groups + [g]) && Grouped(groups + [g]) && Concat(groups + [g]) == Concat(groups) + g
  {
    hide Stored, Concat, Payload, Flags, Val, Grouped;
    StoredSnoc(groups, g);
    ConcatSnoc(groups, g);
    assert bytes == bytes[..f] + ([bytes[f]] + bytes[f + 1..]);
    GroupedSnoc(groups, g);
  }

  lemma GroupedSnoc(groups: seq<seq<Token>>, g: seq<Token>)
    requires Grouped(groups) && (forall i :: 0 <= i < |groups| ==> |groups[i]| == 8) && 1 <= |g| <= 8
    requires forall j :: 0 <= j < |g| ==> WellFormed(g[j])
    ensures Grouped(groups + [g])
  {
  }

  lemma NoShift(f: nat)
    ensures Shr(f, 0) == f
  {
  }

  lemma NoTokens()
    ensures Payload([]) == [] && Val(Flags([])) == 0
  {
  }

  lemma ShrByte(f: nat)
    requires f < 256
    ensures Shr(f, 8) == 0
  {
    ShrIsDivision(f, 8);
    assert Pow2(8) == 256;
  }
}
