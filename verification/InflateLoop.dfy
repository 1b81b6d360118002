/**
 The inflater's loops over a block with dynamic codes (qqwry/miniz.c, tinfl_decompress, with an output buffer that
 does not wrap): the header, the code lengths, the tables, and the literals and copies.
 */
module InflateLoop {
  import opened Canonical
  import opened InflateBlock
  import opened Inflater
  import opened LzExpand
  import opened StreamSpec
  import InflateTable
  import LzTokens
  import Rle = CodeLengthRle

  const MAX_LENGTHS: nat := 320

  datatype Status = Done | NeedsInput | OutputFull | Failed

  /** A code without gaps, so that every sequence of bits starts with a symbol. */
  ghost predicate Gapless(sizes: seq<nat>)
  {
    Complete(sizes, InflateTable.MAX_BITS)
  }

  ghost predicate Tables(sizes: seq<nat>, look: seq<int>, tree: seq<int>)
  {
    InflateTable.TableFor(sizes, look, tree) && |look| == InflateTable.LOOKUP_SIZE
  }

  // ---------- code lengths ----------

  method Fill(lens: array<nat>, from: nat, run: nat, value: nat)
    requires from + run <= lens.Length
    modifies lens
    ensures lens[..from + run] == old(lens[..from]) + Rle.Copies(value, run)
  {
    ghost var before := lens[..from];
    forall i | from <= i < from + run { lens[i] := value; }
    assert lens[..from] == before;
  }

  /**
   How far the lengths have come: what is left to read completes them, unless a code with gaps had no symbol or the input
   has run dry.
   */
  ghost predicate LengthsGoOn(dry: bool, cl: seq<nat>, total: nat, out: seq<nat>, bits: seq<bool>,
                              whole: Parse<seq<nat>>)
  {
    || (!dry && whole == ReadLengths(cl, total, out, bits))
    || (whole.Bad? && (dry || !Gapless(cl)))
  }

  lemma NextLength(was: bool, dry: bool, cl: seq<nat>, total: nat, out: seq<nat>, bits: seq<bool>,
                   whole: Parse<seq<nat>>, code: nat, rest: seq<bool>)
    requires LengthsGoOn(was, cl, total, out, bits, whole) && |out| < total && (was ==> dry)
    requires DecodeSym(cl, bits).Got? && !was ==> !dry && DecodeSym(cl, bits) == Got(code, rest)
    requires Gapless(cl) && !dry ==> DecodeSym(cl, bits).Got?
    ensures code < 16 ==> LengthsGoOn(dry, cl, total, out + [code], rest, whole)
    ensures code == 16 && out == [] ==> whole.Bad?
    ensures dry ==> whole.Bad?
    ensures code >= 16 && (code == 16 ==> out != []) ==> RunGoesOn(dry, cl, total, out, code, rest, whole)
  {
    hide DecodeSym, Complete, GetBits, Rle.Step;
  }

  lemma LastLength(dry: bool, cl: seq<nat>, total: nat, out: seq<nat>, bits: seq<bool>, whole: Parse<seq<nat>>)
    requires LengthsGoOn(dry, cl, total, out, bits, whole) && |out| >= total
    ensures whole.Got? ==> !dry && |out| == total && whole == Got(out, bits)
    ensures |out| == total && Gapless(cl) && !dry ==> whole == Got(out, bits)
  {
    hide DecodeSym, Complete;
  }

  lemma ExtraRange(code: nat, x: nat)
    requires code >= 16 && x < Bits.Pow2(ExtraBits(code))
    ensures x < 128 && (code < 18 ==> x < 8)
  {
    assert Bits.Pow2(2) == 4 && Bits.Pow2(3) == 8 && Bits.Pow2(7) == 128;
  }

  /** What is known before the extra bits of a repeating symbol are read. */
  ghost predicate RunGoesOn(dry: bool, cl: seq<nat>, total: nat, out: seq<nat>, code: nat, bits: seq<bool>,
                            whole: Parse<seq<nat>>)
    requires code == 16 ==> out != []
  {
    && (dry ==> whole.Bad?)
    && match GetBits(bits, ExtraBits(code))
       case Bad => whole.Bad?
       case Got(x, rest) => LengthsGoOn(dry, cl, total, Rle.Step(out, Rle.Sym(code, x)), rest, whole)
  }

  /** A symbol that repeats a length or zero. */
  method InflateRun(r: Reader, code: nat, total: nat, lens: array<nat>, at: nat, ghost cl: seq<nat>,
                    ghost whole: Parse<seq<nat>>, ghost p0: nat)
    returns (ok: bool, end: nat)
    requires r.Valid() && p0 <= r.pads && 16 <= code < Rle.SYMBOLS && (code == 16 ==> at > 0)
    requires at < total <= MAX_LENGTHS && lens.Length == MAX_LENGTHS + 137
    requires forall i :: 0 <= i < at ==> lens[i] <= InflateTable.MAX_BITS
    requires RunGoesOn(r.pads > p0, cl, total, lens[..at], code, r.Stream(), whole)
    modifies r, lens
    ensures r.Later(old(r.Balance()), old(r.pads)) && at <= end <= lens.Length
    ensures ok ==> at < end && LengthsGoOn(r.pads > p0, cl, total, lens[..end], r.Stream(), whole)
    ensures ok ==> forall i :: 0 <= i < end ==> lens[i] <= InflateTable.MAX_BITS
    ensures !ok ==> whole.Bad?
  {
    hide GetBits, LengthsGoOn, Rle.Copies, Bits.Pow2, Pending, Positive;
    ghost var out := lens[..at];
    end := at;
    var x;
    ok, x := r.Get(ExtraBits(code));
    if !ok {
      return;
    }
    ExtraRange(code, x);
    var value := if code == 16 then lens[at - 1] else 0;
    var run := x + if code < 18 then 3 else 11;
    Fill(lens, at, run, value);
    CopiesSmall(out, value, run);
    end := at + run;
    if r.pads > p0 {
      DryLengths(cl, total, lens[..end], r.Stream(), whole);
    }
  }

  /**
   Reads the code lengths. One symbol can overshoot the total by what the array is larger, so that no write leaves
   it. What is read are the lengths that the bits stand for.
   */
  method InflateLengths(r: Reader, look: seq<int>, tree: seq<int>, total: nat, lens: array<nat>, ghost cl: seq<nat>)
    returns (status: Status)
    requires r.Valid() && Tables(cl, look, tree) && |cl| == Rle.SYMBOLS
    requires total <= MAX_LENGTHS && lens.Length == MAX_LENGTHS + 137
    modifies r, lens
    ensures r.Later(old(r.Balance()), old(r.pads))
    ensures ReadLengths(cl, total, [], old(r.Stream())).Got? ==>
              && r.pads == old(r.pads) && status == Done
              && ReadLengths(cl, total, [], old(r.Stream())) == Got(lens[..total], r.Stream())
    ensures status == Done && Gapless(cl) && r.pads == old(r.pads) ==> ReadLengths(cl, total, [], old(r.Stream())).Got?
    ensures status == Done ==> forall i :: 0 <= i < total ==> lens[i] <= InflateTable.MAX_BITS
  {
    hide Complete, DecodeSym, GetBits, ReadLengths, InflateTable.TableFor, LengthsGoOn, Rle.Step, Bits.Pow2,
         Pending, Positive;
    ghost var whole, p0 := ReadLengths(cl, total, [], r.Stream()), r.pads;
    var counter: nat := 0;
    LengthsStart(cl, total, lens[..0], r.Stream());
    while counter < total
      invariant r.Later(old(r.Balance()), p0) && counter <= lens.Length
      invariant LengthsGoOn(r.pads > p0, cl, total, lens[..counter], r.Stream(), whole)
      invariant forall i :: 0 <= i < counter ==> lens[i] <= InflateTable.MAX_BITS
      decreases total - counter
    {
      ghost var out, bits, was := lens[..counter], r.Stream(), r.pads > p0;
      var ok, code := r.Decode(look, tree, cl);
      if !ok {
        LengthsStuck(was, cl, total, out, bits, whole);
        return NeedsInput;
      }
      NextLength(was, r.pads > p0, cl, total, out, bits, whole, code, r.Stream());
      if code < 16 {
        lens[counter] := code;
        assert lens[..counter + 1] == out + [code];
        counter := counter + 1;
      } else {
        if code == 16 && counter == 0 {
          return Failed;
        }
        ok, counter := InflateRun(r, code, total, lens, counter, cl, whole, p0);
        if !ok {
          return NeedsInput;
        }
      }
    }
    LastLength(r.pads > p0, cl, total, lens[..counter], r.Stream(), whole);
    status := if counter == total then Done else Failed;
  }

  lemma LengthsStart(cl: seq<nat>, total: nat, none: seq<nat>, bits: seq<bool>)
    requires none == []
    ensures LengthsGoOn(false, cl, total, none, bits, ReadLengths(cl, total, [], bits))
  {
  }

  lemma DryLengths(cl: seq<nat>, total: nat, out: seq<nat>, bits: seq<bool>, whole: Parse<seq<nat>>)
    requires whole.Bad?
    ensures LengthsGoOn(true, cl, total, out, bits, whole)
  {
  }

  lemma LengthsStuck(dry: bool, cl: seq<nat>, total: nat, out: seq<nat>, bits: seq<bool>, whole: Parse<seq<nat>>)
    requires LengthsGoOn(dry, cl, total, out, bits, whole) && |out| < total && DecodeSym(cl, bits).Bad?
    ensures whole.Bad?
  {
    hide DecodeSym, Complete;
  }

  lemma CopiesSmall(out: seq<nat>, value: nat, run: nat)
    requires value <= InflateTable.MAX_BITS && forall i :: 0 <= i < |out| ==> out[i] <= InflateTable.MAX_BITS
    ensures forall i :: 0 <= i < |out + Rle.Copies(value, run)| ==>
            (out + Rle.Copies(value, run))[i] <= InflateTable.MAX_BITS
  {
  }

  // ---------- literals and copies ----------

  /** The same, when a symbol has been decoded. */
  ghost function AfterSymbol(lit: seq<nat>, dist: seq<nat>, done: seq<nat>, s: nat,
                             bits: seq<bool>): (r: Parse<seq<nat>>)
  {
    if s == 256 then Got(done, bits)
    else if s < 256 then Whole(lit, dist, done + [s], bits)
    else AfterCopy(lit, dist, done, ReadCopy(dist, s, bits))
  }

  ghost function AfterCopy(lit: seq<nat>, dist: seq<nat>, done: seq<nat>, copy: Parse<Item>): (r: Parse<seq<nat>>)
  {
    match copy
    case Bad => Bad
    case Got(item, rest) =>
      match Expand(done, [item])
      case Unreachable => Bad
      case Bytes(bytes) => Whole(lit, dist, bytes, rest)
  }

  lemma PrependExpands(done: seq<nat>, item: Item, items: Parse<seq<Item>>)
    ensures Expanded(done, Prepend(item, items))
         == match Expand(done, [item]) case Unreachable => Bad case Bytes(bytes) => Expanded(bytes, items)
  {
    hide Expand;
    if items.Got? {
      ExpandConcat(done, [item], items.value);
    }
  }

  lemma SymbolFirst(lit: seq<nat>, dist: seq<nat>, done: seq<nat>, bits: seq<bool>)
    ensures Whole(lit, dist, done, bits)
         == match DecodeSym(lit, bits) case Bad => Bad case Got(s, rest) => AfterSymbol(lit, dist, done, s, rest)
  {
    hide DecodeSym, ReadCopy, Expand;
    var next := DecodeSym(lit, bits);
    if next.Got? {
      var s, rest := next.value, next.rest;
      if s < 256 {
        PrependExpands(done, Lit(s), ReadItems(lit, dist, rest));
        OneLiteral(done, s);
      } else if s == 256 {
        NothingMore(done);
      } else {
        var copy := ReadCopy(dist, s, rest);
        if copy.Got? {
          PrependExpands(done, copy.value, ReadItems(lit, dist, copy.rest));
        }
      }
    }
  }

  lemma NothingMore(done: seq<nat>)
    ensures Expand(done, []) == Bytes(done)
  {
  }

  lemma WholeGrows(lit: seq<nat>, dist: seq<nat>, done: seq<nat>, bits: seq<bool>)
    ensures Whole(lit, dist, done, bits).Got? ==> done <= Whole(lit, dist, done, bits).value
  {
    hide ReadItems, Expand;
    var items := ReadItems(lit, dist, bits);
    if items.Got? {
      ExpandGrows(done, items.value);
    }
  }

  ghost predicate BothGapless(lit: seq<nat>, dist: seq<nat>)
  {
    Gapless(lit) && Gapless(dist)
  }

  /** How far the block has come, between two symbols; the input may have run dry. */
  ghost predicate GoesOn(dry: bool, lit: seq<nat>, dist: seq<nat>, done: seq<nat>, bits: seq<bool>,
                         whole: Parse<seq<nat>>)
  {
    || (!dry && whole == Whole(lit, dist, done, bits))
    || (whole.Bad? && (dry || !BothGapless(lit, dist)))
  }

  /** How far the block has come, with a symbol at hand. */
  ghost predicate GoesOnWith(dry: bool, lit: seq<nat>, dist: seq<nat>, done: seq<nat>, s: nat, bits: seq<bool>,
                             whole: Parse<seq<nat>>)
  {
    || (!dry && whole == AfterSymbol(lit, dist, done, s, bits))
    || (whole.Bad? && (dry || !BothGapless(lit, dist)))
  }

  /** The whole block is not read in this room: it is malformed, or makes more than this many bytes. */
  ghost predicate TooMuch(whole: Parse<seq<nat>>, room: nat)
  {
    whole.Got? ==> |whole.value| > room
  }

  lemma TakeSymbol(was: bool, dry: bool, lit: seq<nat>, dist: seq<nat>, done: seq<nat>, bits: seq<bool>,
                   whole: Parse<seq<nat>>, s: nat, rest: seq<bool>)
    requires GoesOn(was, lit, dist, done, bits, whole) && (was ==> dry)
    requires DecodeSym(lit, bits).Got? && !was ==> !dry && DecodeSym(lit, bits) == Got(s, rest)
    requires Gapless(lit) && !dry ==> DecodeSym(lit, bits).Got?
    ensures GoesOnWith(dry, lit, dist, done, s, rest, whole)
  {
    hide DecodeSym, Whole, AfterSymbol, Complete;
    SymbolFirst(lit, dist, done, bits);
  }

  lemma NoSymbol(dry: bool, lit: seq<nat>, dist: seq<nat>, done: seq<nat>, bits: seq<bool>, whole: Parse<seq<nat>>)
    requires GoesOn(dry, lit, dist, done, bits, whole) && DecodeSym(lit, bits).Bad?
    ensures whole.Bad?
  {
    hide DecodeSym, Whole, AfterSymbol, Complete;
    SymbolFirst(lit, dist, done, bits);
  }

  lemma TakeLiteral(dry: bool, lit: seq<nat>, dist: seq<nat>, done: seq<nat>, s: nat, bits: seq<bool>,
                    whole: Parse<seq<nat>>)
    requires GoesOnWith(dry, lit, dist, done, s, bits, whole) && s < 256
    ensures GoesOn(dry, lit, dist, done + [s], bits, whole)
    ensures TooMuch(whole, |done|)
  {
    hide DecodeSym, Whole, Complete;
    WholeGrows(lit, dist, done + [s], bits);
  }

  lemma TakeEnd(dry: bool, lit: seq<nat>, dist: seq<nat>, done: seq<nat>, bits: seq<bool>, whole: Parse<seq<nat>>)
    requires GoesOnWith(dry, lit, dist, done, 256, bits, whole)
    ensures whole.Got? || (!dry && BothGapless(lit, dist)) ==> !dry && whole == Got(done, bits)
  {
    hide Whole, Complete;
  }

  lemma TakeCopy(was: bool, dry: bool, lit: seq<nat>, dist: seq<nat>, done: seq<nat>, s: nat, bits: seq<bool>,
                 whole: Parse<seq<nat>>, len: nat, d: nat, rest: seq<bool>)
    requires GoesOnWith(was, lit, dist, done, s, bits, whole) && s > 256 && (was ==> dry)
    requires ReadCopy(dist, s, bits).Got? && !was ==> !dry && ReadCopy(dist, s, bits) == Got(Copy(len, d), rest)
    requires Gapless(dist) && !dry ==> ReadCopy(dist, s, bits).Got?
    ensures 1 <= d <= |done| ==> GoesOn(dry, lit, dist, Copied(done, len, d), rest, whole)
    ensures 1 <= d <= |done| ==> whole.Got? ==> |whole.value| >= |done| + len
    ensures d > |done| ==> whole.Bad?
  {
    hide ReadCopy, Whole, Complete;
    OneCopy(done, len, d);
    if 1 <= d <= |done| {
      WholeGrows(lit, dist, Copied(done, len, d), rest);
    }
  }

  lemma NoCopy(dry: bool, lit: seq<nat>, dist: seq<nat>, done: seq<nat>, s: nat, bits: seq<bool>,
               whole: Parse<seq<nat>>)
    requires GoesOnWith(dry, lit, dist, done, s, bits, whole) && s > 256 && ReadCopy(dist, s, bits).Bad?
    ensures whole.Bad?
  {
    hide ReadCopy, Whole;
  }

  lemma LengthTables(k: nat)
    requires k < LzTokens.LENGTHS_USED
    ensures k < |LzTokens.LENGTH_BASE| && k < |LzTokens.LENGTH_EXTRA|
    ensures LzTokens.LENGTH_BASE[k] >= 3 && LzTokens.LENGTH_EXTRA[k] <= 5
  {
  }

  lemma DistTables(k: nat)
    requires k < LzTokens.DISTS_USED
    ensures k < |LzTokens.DIST_BASE| && k < |LzTokens.DIST_EXTRA|
    ensures LzTokens.DIST_BASE[k] >= 1 && LzTokens.DIST_EXTRA[k] <= 13
  {
  }

  method InflateDistance(r: Reader, look: seq<int>, tree: seq<int>, ghost len: nat, ghost dist: seq<nat>)
    returns (status: Status, d: nat)
    requires r.Valid() && Tables(dist, look, tree)
    modifies r
    ensures r.Later(old(r.Balance()), old(r.pads))
    ensures ReadDistance(dist, len, old(r.Stream())).Got? ==>
              && r.pads == old(r.pads) && status == Done
              && ReadDistance(dist, len, old(r.Stream())) == Got(Copy(len, d), r.Stream())
    ensures status == Done && Gapless(dist) && r.pads == old(r.pads) ==> ReadDistance(dist, len, old(r.Stream())).Got?
    ensures status == Done ==> d >= 1
  {
    hide Complete, DecodeSym, GetBits, InflateTable.TableFor, LzTokens.DIST_BASE, LzTokens.DIST_EXTRA, Pending;
    d := 0;
    var ok, t := r.Decode(look, tree, dist);
    if !ok {
      return NeedsInput, d;
    }
    if t >= LzTokens.DISTS_USED {
      return Failed, d;
    }
    DistTables(t);
    d := LzTokens.DIST_BASE[t];
    var x;
    ok, x := r.Get(LzTokens.DIST_EXTRA[t]);
    if !ok {
      return NeedsInput, d;
    }
    return Done, d + x;
  }

  /** The length and distance of a copy, from its length symbol on. */
  method InflateCopy(r: Reader, look: seq<int>, tree: seq<int>, s: nat, ghost dist: seq<nat>)
    returns (status: Status, len: nat, d: nat)
    requires r.Valid() && Tables(dist, look, tree) && s > 256
    modifies r
    ensures r.Later(old(r.Balance()), old(r.pads))
    ensures ReadCopy(dist, s, old(r.Stream())).Got? ==>
              && r.pads == old(r.pads) && status == Done
              && ReadCopy(dist, s, old(r.Stream())) == Got(Copy(len, d), r.Stream())
    ensures status == Done && Gapless(dist) && r.pads == old(r.pads) ==> ReadCopy(dist, s, old(r.Stream())).Got?
    ensures status == Done ==> len >= 3 && d >= 1
  {
    hide Complete, DecodeSym, GetBits, ReadDistance, InflateTable.TableFor, LzTokens.LENGTH_BASE,
         LzTokens.LENGTH_EXTRA, Pending;
    len, d := 0, 0;
    if s - 257 >= LzTokens.LENGTHS_USED {
      return Failed, len, d;
    }
    LengthTables(s - 257);
    len := LzTokens.LENGTH_BASE[s - 257];
    var ok, x := r.Get(LzTokens.LENGTH_EXTRA[s - 257]);
    if !ok {
      return NeedsInput, len, d;
    }
    len := len + x;
    status, d := InflateDistance(r, look, tree, len, dist);
  }

  /** The way of decoding while there is plenty of input: the bits for two symbols are taken at once. */
  method InflateTwo(r: Reader, look: seq<int>, tree: seq<int>, out: array<nat>, at: nat, ghost lit: seq<nat>,
                    ghost dist: seq<nat>,
                    ghost whole: Parse<seq<nat>>)
    returns (s: nat, end: nat)
    requires r.Valid() && Tables(lit, look, tree) && |r.input| - r.pos >= 4 && at + 2 <= out.Length
    requires GoesOn(false, lit, dist, out[..at], r.Stream(), whole)
    modifies r, out
    ensures r.Later(old(r.Balance()), old(r.pads)) && r.pads == old(r.pads) && at <= end <= at + 2
    ensures s < 256 ==> end == at + 2 && GoesOn(false, lit, dist, out[..end], r.Stream(), whole)
    ensures s >= 256 ==> GoesOnWith(false, lit, dist, out[..end], s, r.Stream(), whole)
  {
    hide Complete, DecodeSym, InflateTable.TableFor, GoesOn, GoesOnWith, Pending, InflateTable.Decided;
    if r.numBits < 30 {
      r.FillWord();
    }
    end := at;
    ghost var done, bits := out[..at], r.Stream();
    s := r.Take(look, tree, lit);
    TakeSymbol(false, false, lit, dist, done, bits, whole, s, r.Stream());
    if s >= 256 {
      return;
    }
    TakeLiteral(false, lit, dist, done, s, r.Stream(), whole);
    bits := r.Stream();
    var s2 := r.Take(look, tree, lit);
    TakeSymbol(false, false, lit, dist, done + [s], bits, whole, s2, r.Stream());
    out[at] := s;
    assert out[..at + 1] == done + [s];
    end := at + 1;
    if s2 >= 256 {
      s := s2;
      return;
    }
    TakeLiteral(false, lit, dist, done + [s], s2, r.Stream(), whole);
    out[at + 1] := s2;
    assert out[..at + 2] == done + [s] + [s2];
    end := at + 2;
    s := s2;
  }

  /** The way of decoding near the end of the input or of the room: one symbol at a time. */
  method InflateOne(r: Reader, look: seq<int>, tree: seq<int>, out: array<nat>, at: nat, ghost lit: seq<nat>,
                    ghost dist: seq<nat>,
                    ghost whole: Parse<seq<nat>>, ghost p0: nat)
    returns (status: Status, s: nat, end: nat)
    requires r.Valid() && Tables(lit, look, tree) && at <= out.Length
    requires p0 <= r.pads && GoesOn(r.pads > p0, lit, dist, out[..at], r.Stream(), whole)
    modifies r, out
    ensures r.Later(old(r.Balance()), old(r.pads)) && at <= end <= out.Length
    ensures status == Done && s < 256 ==> end == at + 1 && GoesOn(r.pads > p0, lit, dist, out[..end], r.Stream(), whole)
    ensures status == Done && s >= 256 ==>
            end == at && GoesOnWith(r.pads > p0, lit, dist, out[..end], s, r.Stream(), whole)
    ensures status != Done ==> TooMuch(whole, out.Length)
    ensures out[..at] == old(out[..at])
  {
    hide Complete, DecodeSym, InflateTable.TableFor, GoesOn, GoesOnWith;
    end := at;
    ghost var done, bits, was := out[..at], r.Stream(), r.pads > p0;
    var ok;
    ok, s := r.Decode(look, tree, lit);
    if !ok {
      NoSymbol(was, lit, dist, done, bits, whole);
      return NeedsInput, s, end;
    }
    TakeSymbol(was, r.pads > p0, lit, dist, done, bits, whole, s, r.Stream());
    status := Done;
    if s < 256 {
      TakeLiteral(r.pads > p0, lit, dist, done, s, r.Stream(), whole);
      if at == out.Length {
        return OutputFull, s, end;
      }
      out[at] := s;
      assert out[..at + 1] == done + [s];
      end := at + 1;
    }
  }

  /**
   Decodes literals and copies into the output. The bytes written are those that the bits stand for, if there is
   room for them; and when the codes have no gaps and no zeros had to be supplied, nothing else is ever taken for a
   block.
   */
  method InflateItems(r: Reader, litLook: seq<int>, litTree: seq<int>, distLook: seq<int>, distTree: seq<int>,
                      out: array<nat>, at: nat, ghost lit: seq<nat>, ghost dist: seq<nat>)
    returns (status: Status, end: nat)
    requires r.Valid() && Tables(lit, litLook, litTree) && Tables(dist, distLook, distTree) && at <= out.Length
    modifies r, out
    ensures r.Later(old(r.Balance()), old(r.pads)) && end <= out.Length
    ensures var whole := Whole(lit, dist, old(out[..at]), old(r.Stream()));
            && (whole.Got? && |whole.value| <= out.Length ==> status == Done)
            && (whole.Got? && status == Done ==> r.pads == old(r.pads))
            && (status == Done && (whole.Got? || (r.pads == old(r.pads) && BothGapless(lit, dist))) ==>
                  whole == Got(out[..end], r.Stream()))
  {
    hide Complete, DecodeSym, ReadCopy, InflateTable.TableFor, GoesOn, GoesOnWith, Whole, Pending, Bits.Pow2, Positive,
         Copied, Gapless;
    ghost var whole, p0 := Whole(lit, dist, out[..at], r.Stream()), r.pads;
    end := at;
    WholeStarts(lit, dist, out[..at], r.Stream());
    while true
      invariant r.Later(old(r.Balance()), p0) && end <= out.Length
      invariant GoesOn(r.pads > p0, lit, dist, out[..end], r.Stream(), whole)
      decreases out.Length - end
    {
      var s;
      if |r.input| - r.pos < 4 || out.Length - end < 2 {
        status, s, end := InflateOne(r, litLook, litTree, out, end, lit, dist, whole, p0);
        if status != Done {
          return;
        }
      } else {
        s, end := InflateTwo(r, litLook, litTree, out, end, lit, dist, whole);
      }
      if s == 256 {
        TakeEnd(r.pads > p0, lit, dist, out[..end], r.Stream(), whole);
        return Done, end;
      }
      if s > 256 {
        ghost var done, bits, was := out[..end], r.Stream(), r.pads > p0;
        var len, d;
        status, len, d := InflateCopy(r, distLook, distTree, s, dist);
        if status != Done {
          NoCopy(was, lit, dist, done, s, bits, whole);
          return;
        }
        TakeCopy(was, r.pads > p0, lit, dist, done, s, bits, whole, len, d, r.Stream());
        if d > end {
          return Failed, end;
        }
        var from := end;
        end := CopyBytes(out, from, len, d);
        if end < from + len {
          return OutputFull, end;
        }
      }
    }
  }

  lemma WholeStarts(lit: seq<nat>, dist: seq<nat>, done: seq<nat>, bits: seq<bool>)
    ensures GoesOn(false, lit, dist, done, bits, Whole(lit, dist, done, bits))
  {
  }

  // ---------- the block ----------

  /** The lengths of the code-length code, in the order in which they are sent. */
  method InflateCodeSizes(r: Reader, n: nat) returns (ok: bool, cl: seq<nat>)
    requires r.Valid() && n <= |DEZIGZAG|
    modifies r
    ensures r.Later(old(r.Balance()), old(r.pads)) && |cl| == Rle.SYMBOLS
    ensures forall i :: 0 <= i < |cl| ==> cl[i] <= InflateTable.MAX_BITS
    ensures var whole := ReadCodeSizes(Zeros(19), 0, n, old(r.Stream()));
            if r.pads == old(r.pads) then whole == if ok then Got(cl, r.Stream()) else Bad else whole.Bad?
  {
    hide GetBits, Pending, Zeros, Bits.Pow2;
    ZerosAt(19);
    cl := Zeros(19);
    ghost var whole, p0 := ReadCodeSizes(cl, 0, n, r.Stream()), r.pads;
    ThreeBits();
    for i := 0 to n
      invariant r.Later(old(r.Balance()), p0) && |cl| == 19
      invariant forall k :: 0 <= k < |cl| ==> cl[k] <= InflateTable.MAX_BITS
      invariant if r.pads == p0 then whole == ReadCodeSizes(cl, i, n, r.Stream()) else whole.Bad?
    {
      var x;
      ok, x := r.Get(3);
      if !ok {
        return;
      }
      cl := cl[DEZIGZAG[i] := x];
    }
    ok := true;
  }

  lemma ZerosAt(n: nat)
    ensures |Zeros(n)| == n && forall i :: 0 <= i < n ==> Zeros(n)[i] == 0
  {
  }

  lemma ThreeBits()
    ensures Bits.Pow2(3) == 8
  {
  }

  lemma HeaderBits()
    ensures Bits.Pow2(5) == 32 && Bits.Pow2(4) == 16
  {
    Bits.Pow2Values();
  }

  method InflateHeader(r: Reader) returns (ok: bool, h: Header)
    requires r.Valid()
    modifies r
    ensures r.Later(old(r.Balance()), old(r.pads))
    ensures if r.pads == old(r.pads) then ReadHeader(old(r.Stream())) == if ok then Got(h, r.Stream()) else Bad
            else ReadHeader(old(r.Stream())).Bad?
    ensures ok ==> 257 <= h.lits <= InflateTable.MAX_SYMBOLS && 1 <= h.dists <= 32 && |h.cl| == Rle.SYMBOLS
    ensures ok ==> forall i :: 0 <= i < |h.cl| ==> h.cl[i] <= InflateTable.MAX_BITS
  {
    hide GetBits, Pending, ReadCodeSizes, Zeros, Bits.Pow2;
    h := Header(0, 0, []);
    var hlit, hdist, hclen, cl;
    HeaderBits();
    ok, hlit := r.Get(5);
    if ok {
      ok, hdist := r.Get(5);
      if ok {
        ok, hclen := r.Get(4);
        if ok {
          ok, cl := InflateCodeSizes(r, hclen + 4);
          h := Header(hlit + 257, hdist + 1, cl);
        }
      }
    }
  }

  /** Builds a table, as long as the lengths make a code. */
  method MakeTable(sizes: seq<nat>) returns (ok: bool, look: seq<int>, tree: seq<int>)
    requires |sizes| <= InflateTable.MAX_SYMBOLS && forall i :: 0 <= i < |sizes| ==> sizes[i] <= InflateTable.MAX_BITS
    ensures ok <==> InflateTable.Acceptable(sizes)
    ensures ok ==> Tables(sizes, look, tree)
  {
    hide InflateTable.TableFor;
    var lookup, nodes := new int[InflateTable.LOOKUP_SIZE], new int[InflateTable.TREE_SIZE];
    ok := InflateTable.BuildTable(sizes, lookup, nodes);
    look, tree := lookup[..], nodes[..];
  }

  /** The codes of a block, as far as they can be read, have no gaps. */
  ghost predicate GaplessBlock(bits: seq<bool>)
  {
    match ReadHeader(bits)
    case Bad => true
    case Got(h, bits1) =>
      && Gapless(h.cl)
      && match ReadLengths(h.cl, h.lits + h.dists, [], bits1)
         case Bad => true
         case Got(lens, _) => |lens| == h.lits + h.dists ==> BothGapless(lens[..h.lits], lens[h.lits..])
  }

  /** The header and the code lengths of both alphabets. */
  method InflateTables(r: Reader) returns (status: Status, lit: seq<nat>, dist: seq<nat>)
    requires r.Valid()
    modifies r
    ensures r.Later(old(r.Balance()), old(r.pads))
    ensures status == Done ==> |lit| <= InflateTable.MAX_SYMBOLS && |dist| <= InflateTable.MAX_SYMBOLS
    ensures status == Done ==> forall i :: 0 <= i < |lit| ==> lit[i] <= InflateTable.MAX_BITS
    ensures status == Done ==> forall i :: 0 <= i < |dist| ==> dist[i] <= InflateTable.MAX_BITS
    ensures ReadBlock(old(r.Stream())).Got? ==>
              && r.pads == old(r.pads) && status == Done
              && InflateTable.Acceptable(lit) && InflateTable.Acceptable(dist)
              && ReadBlock(old(r.Stream())) == ReadItems(lit, dist, r.Stream())
    ensures status == Done && GaplessBlock(old(r.Stream())) && r.pads == old(r.pads) ==>
              BothGapless(lit, dist) && ReadBlock(old(r.Stream())) == ReadItems(lit, dist, r.Stream())
  {
    hide ReadHeader, ReadLengths, ReadItems, InflateTable.Acceptable, InflateTable.TableFor, Pending, Complete;
    lit, dist := [], [];
    var ok, h := InflateHeader(r);
    if !ok {
      return NeedsInput, lit, dist;
    }
    var look, tree;
    ok, look, tree := MakeTable(h.cl);
    if !ok {
      return Failed, lit, dist;
    }
    var lens := new nat[MAX_LENGTHS + 137];
    status := InflateLengths(r, look, tree, h.lits + h.dists, lens, h.cl);
    if status == Done {
      ghost var sizes := lens[..h.lits + h.dists];
      lit, dist := lens[..h.lits], lens[h.lits..h.lits + h.dists];
      assert lit == sizes[..h.lits] && dist == sizes[h.lits..];
      GaplessAccepted(lit);
      GaplessAccepted(dist);
    }
  }

  lemma GaplessAccepted(sizes: seq<nat>)
    requires |sizes| <= InflateTable.MAX_SYMBOLS
    ensures Gapless(sizes) ==> InflateTable.Acceptable(sizes)
  {
    hide End;
  }

  /**
   Inflates a block with dynamic codes, after the bits that announce it. Whatever the bytes are that the block stands
   for, they are written if there is room for them, and the reader stops where the block ends. If the codes have no gaps,
   nothing else is taken for a block.
   */
  method InflateDynamic(r: Reader, out: array<nat>, at: nat) returns (status: Status, end: nat)
    requires r.Valid() && at <= out.Length
    modifies r, out
    ensures r.Later(old(r.Balance()), old(r.pads)) && end <= out.Length
    ensures var whole := BlockBytes(old(out[..at]), old(r.Stream()));
            && (whole.Got? && |whole.value| <= out.Length ==> status == Done && whole == Got(out[..end], r.Stream()))
            && (whole.Got? && status == Done ==> r.pads == old(r.pads) && whole == Got(out[..end], r.Stream()))
            && (status == Done && GaplessBlock(old(r.Stream())) && r.pads == old(r.pads) ==>
                  whole == Got(out[..end], r.Stream()))
  {
    hide ReadBlock, GaplessBlock, ReadItems, Expand, InflateTable.Acceptable, InflateTable.TableFor, Pending, Complete;
    end := at;
    var lit, dist;
    status, lit, dist := InflateTables(r);
    if status != Done {
      return;
    }
    var ok, litLook, litTree, distLook, distTree;
    ok, distLook, distTree := MakeTable(dist);
    if !ok {
      return Failed, end;
    }
    ok, litLook, litTree := MakeTable(lit);
    if !ok {
      return Failed, end;
    }
    status, end := InflateItems(r, litLook, litTree, distLook, distTree, out, at, lit, dist);
  }
}
