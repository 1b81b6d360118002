/**
 Run-length packing of code lengths (section 3.2.7 of RFC 1951). The compressor packs the lengths of both
 alphabets into symbols 0 to 18, three of which carry extra bits; the inflater unpacks them (qqwry/miniz.c,
 tdefl_start_dynamic_block and tinfl_decompress).
 */
module CodeLengthRle {

  const SYMBOLS: nat := 19

  /** A code-length symbol; `extra` is the value of its extra bits, zero for the plain lengths. */
  datatype Sym = Sym(code: nat, extra: nat)

  /** How many values the extra bits of a code can take. */
  function ExtraRange(code: nat): (n: nat)
  {
    if code < 16 then 1 else if code == 16 then 4 else if code == 17 then 8 else 128
  }

  predicate WellFormed(t: Sym)
  {
    t.code < SYMBOLS && t.extra < ExtraRange(t.code)
  }

  function Copies(x: nat, k: nat): (s: seq<nat>)
  {
    seq(k, _ => x)
  }

  /** How many lengths a symbol stands for. */
  function Span(t: Sym): (k: nat)
    ensures k >= 1
  {
    if t.code < 16 then 1 else if t.code < 18 then t.extra + 3 else t.extra + 11
  }

  /** The lengths a symbol adds to those before it. */
  function Step(out: seq<nat>, t: Sym): (r: seq<nat>)
    requires t.code == 16 ==> out != []
    ensures |r| == |out| + Span(t)
  {
    if t.code < 16 then out + [t.code]
    else out + Copies(if t.code == 16 then out[|out| - 1] else 0, Span(t))
  }

  /** Nothing can be repeated before there is a length. */
  predicate Valid(toks: seq<Sym>)
  {
    && (forall i :: 0 <= i < |toks| ==> WellFormed(toks[i]))
    && (toks != [] ==> toks[0].code != 16)
  }

  lemma ValidPrefix(toks: seq<Sym>, k: nat)
    requires Valid(toks) && k <= |toks|
    ensures Valid(toks[..k])
  {
  }

  /** The lengths that a packed sequence stands for. */
  function Meaning(toks: seq<Sym>): (out: seq<nat>)
    requires Valid(toks)
    ensures |out| >= |toks|
  {
    if toks == [] then []
    else
      var k := |toks| - 1;
      Step(Meaning(toks[..k]), toks[k])
  }

  lemma MeaningSnoc(toks: seq<Sym>, t: Sym)
    requires Valid(toks) && WellFormed(t) && (toks == [] ==> t.code != 16)
    ensures Valid(toks + [t]) && Meaning(toks + [t]) == Step(Meaning(toks), t)
  {
    assert (toks + [t])[..|toks|] == toks;
  }

  lemma {:induction false} MeaningGrows(toks: seq<Sym>, j: nat, k: nat)
    requires j <= k <= |toks| && Valid(toks)
    ensures Valid(toks[..j]) && Valid(toks[..k]) && |Meaning(toks[..j])| + (k - j) <= |Meaning(toks[..k])|
    ensures j < k ==> |Meaning(toks[..j])| + Span(toks[j]) <= |Meaning(toks[..k])|
    decreases k - j
  {
    if j < k {
      MeaningGrows(toks, j + 1, k);
      assert toks[..j + 1][..j] == toks[..j];
    }
  }

  /** The bytes that hold a packed sequence: a code, and its extra value if it has one. */
  function Flat(toks: seq<Sym>): (p: seq<nat>)
  {
    if toks == [] then []
    else
      var k := |toks| - 1;
      Flat(toks[..k]) + FlatOne(toks[k])
  }

  function FlatOne(t: Sym): (p: seq<nat>)
  {
    if t.code < 16 then [t.code] else [t.code, t.extra]
  }

  /** How often a code is emitted. */
  function Tally(toks: seq<Sym>, c: nat): (n: nat)
  {
    if toks == [] then 0
    else
      var k := |toks| - 1;
      Tally(toks[..k], c) + (if toks[k].code == c then 1 else 0)
  }

  // ---------- reading the bytes back ----------

  /** One step of the loop that reads the bytes back: a code from 16 on is followed by its extra value. */
  lemma ReadStep(p: seq<nat>, i: nat, toks: seq<Sym>, k: nat)
    requires i < |p| && k <= |toks| && p[i..] == Flat(toks[k..])
    requires forall j :: 0 <= j < |toks| ==> WellFormed(toks[j])
    ensures k < |toks| && p[i] == toks[k].code
    ensures p[i] < 16 ==> toks[k] == Sym(p[i], 0) && p[i + 1..] == Flat(toks[k + 1..])
    ensures p[i] >= 16 ==> i + 1 < |p| && toks[k] == Sym(p[i], p[i + 1]) && p[i + 2..] == Flat(toks[k + 1..])
  {
    var rest := toks[k..];
    FlatFront(rest);
    assert p[i] == p[i..][0] && rest[0] == toks[k] && rest[1..] == toks[k + 1..];
    FlatTail(toks[k], Flat(rest[1..]), p[i..]);
    if p[i] < 16 {
      assert p[i + 1..] == p[i..][1..];
    } else {
      assert p[i + 1] == p[i..][1] && p[i + 2..] == p[i..][2..];
    }
  }

  lemma FlatTail(t: Sym, rest: seq<nat>, p: seq<nat>)
    requires p == FlatOne(t) + rest
    ensures p[0] == t.code
    ensures t.code < 16 ==> p[1..] == rest
    ensures t.code >= 16 ==> |p| >= 2 && p[1] == t.extra && p[2..] == rest
  {
  }

  lemma {:induction false} FlatFront(toks: seq<Sym>)
    ensures toks == [] <==> Flat(toks) == []
    ensures toks != [] ==> Flat(toks) == FlatOne(toks[0]) + Flat(toks[1..])
  {
    if |toks| == 1 {
      assert toks[..0] == [] && toks[1..] == [];
    } else if |toks| > 1 {
      var k := |toks| - 1;
      FlatFront(toks[..k]);
      assert toks[..k][1..] == toks[1..][..k - 1];
    }
  }

  // ---------- packing ----------

  /** The bytes and counts written so far are those of `toks`. */
  ghost predicate Emitted(p: seq<nat>, counts: seq<nat>, toks: seq<Sym>)
  {
    && Valid(toks) && p == Flat(toks)
    && |counts| == SYMBOLS && forall c :: 0 <= c < SYMBOLS ==> counts[c] == Tally(toks, c)
  }

  lemma EmitOne(p: seq<nat>, counts: seq<nat>, toks: seq<Sym>, t: Sym)
    requires Emitted(p, counts, toks) && WellFormed(t) && (toks == [] ==> t.code != 16)
    ensures Emitted(p + FlatOne(t), counts[t.code := counts[t.code] + 1], toks + [t])
    ensures Meaning(toks + [t]) == Step(Meaning(toks), t)
  {
    MeaningSnoc(toks, t);
    assert (toks + [t])[..|toks|] == toks;
  }

  /** Writes one code and, from 16 on, its extra value. */
  method Put(packed: array<nat>, n: nat, counts: array<nat>, t: Sym, ghost toks: seq<Sym>)
    returns (n': nat, ghost toks': seq<Sym>)
    requires packed != counts && n + |FlatOne(t)| <= packed.Length && counts.Length == SYMBOLS
    requires Emitted(packed[..n], counts[..], toks) && WellFormed(t) && (toks == [] ==> t.code != 16)
    modifies packed, counts
    ensures n' == n + |FlatOne(t)| && toks' == toks + [t]
    ensures Emitted(packed[..n'], counts[..], toks') && Meaning(toks') == Step(Meaning(toks), t)
  {
    ghost var p, c := packed[..n], counts[..];
    EmitOne(p, c, toks, t);
    counts[t.code] := counts[t.code] + 1;
    packed[n] := t.code;
    n' := n + 1;
    if t.code >= 16 {
      packed[n + 1] := t.extra;
      n' := n + 2;
    }
    toks' := toks + [t];
    assert packed[..n'] == p + FlatOne(t);
    assert counts[..] == c[t.code := c[t.code] + 1];
  }

  /** Writes a length k times. */
  method PutCopies(packed: array<nat>, n: nat, counts: array<nat>, x: nat, k: nat, ghost toks: seq<Sym>)
    returns (n': nat, ghost toks': seq<Sym>)
    requires packed != counts && n + k <= packed.Length && counts.Length == SYMBOLS && x < 16
    requires Emitted(packed[..n], counts[..], toks)
    modifies packed, counts
    ensures n' == n + k && Emitted(packed[..n'], counts[..], toks')
    ensures Meaning(toks') == Meaning(toks) + Copies(x, k) && |toks'| == |toks| + k
  {
    hide Emitted;
    n', toks' := n, toks;
    var left := k;
    assert Valid(toks) by { EmittedValid(packed[..n], counts[..], toks); }
    assert Meaning(toks) + Copies(x, 0) == Meaning(toks);
    while left > 0
      invariant 0 <= left <= k && n' == n + (k - left) && |toks'| == |toks| + (k - left)
      invariant Emitted(packed[..n'], counts[..], toks') && Valid(toks')
      invariant Meaning(toks') == Meaning(toks) + Copies(x, k - left)
    {
      n', toks' := Put(packed, n', counts, Sym(x, 0), toks');
      left := left - 1;
      EmittedValid(packed[..n'], counts[..], toks');
      assert Copies(x, k - left) == Copies(x, k - left - 1) + [x];
    }
  }

  lemma EmittedValid(p: seq<nat>, counts: seq<nat>, toks: seq<Sym>)
    requires Emitted(p, counts, toks)
    ensures Valid(toks)
  {
  }

  /** Ends a run of repetitions of the previous length. */
  method FlushRepeats(packed: array<nat>, n: nat, counts: array<nat>, prev: nat, repeats: nat, ghost toks: seq<Sym>)
    returns (n': nat, ghost toks': seq<Sym>)
    requires packed != counts && n + repeats <= packed.Length && counts.Length == SYMBOLS
    requires Emitted(packed[..n], counts[..], toks)
    requires repeats > 0 ==> repeats <= 6 && prev < 16 && toks != [] && Meaning(toks)[|Meaning(toks)| - 1] == prev
    modifies packed, counts
    ensures n <= n' <= n + repeats && Emitted(packed[..n'], counts[..], toks')
    ensures Meaning(toks') == Meaning(toks) + Copies(prev, repeats)
  {
    n', toks' := n, toks;
    if repeats > 0 {
      if repeats < 3 {
        n', toks' := PutCopies(packed, n, counts, prev, repeats, toks);
      } else {
        n', toks' := Put(packed, n, counts, Sym(16, repeats - 3), toks);
      }
    } else {
      assert Meaning(toks) + Copies(prev, 0) == Meaning(toks);
    }
  }

  /** Ends a run of zeros. */
  method FlushZeros(packed: array<nat>, n: nat, counts: array<nat>, zeros: nat, ghost toks: seq<Sym>)
    returns (n': nat, ghost toks': seq<Sym>)
    requires packed != counts && n + zeros <= packed.Length && counts.Length == SYMBOLS && zeros <= 138
    requires Emitted(packed[..n], counts[..], toks)
    modifies packed, counts
    ensures n <= n' <= n + zeros && Emitted(packed[..n'], counts[..], toks')
    ensures Meaning(toks') == Meaning(toks) + Copies(0, zeros)
  {
    n', toks' := n, toks;
    if zeros > 0 {
      if zeros < 3 {
        n', toks' := PutCopies(packed, n, counts, 0, zeros, toks);
      } else if zeros <= 10 {
        n', toks' := Put(packed, n, counts, Sym(17, zeros - 3), toks);
      } else {
        n', toks' := Put(packed, n, counts, Sym(18, zeros - 11), toks);
      }
    } else {
      assert Meaning(toks) + Copies(0, 0) == Meaning(toks);
    }
  }

  const NO_SIZE: nat := 255

  /** Between two lengths: what is written, together with the run that is still open, is what has been read. */
  ghost predicate Packing(sizes: seq<nat>, i: nat, toks: seq<Sym>, prev: nat, zeros: nat, repeats: nat)
  {
    && i <= |sizes| && Valid(toks)
    && prev == (if i == 0 then NO_SIZE else sizes[i - 1])
    && zeros < 138 && repeats < 6 && (zeros == 0 || repeats == 0)
    && Meaning(toks) + Copies(0, zeros) + Copies(prev, repeats) == sizes[..i]
    && (repeats > 0 ==> prev != 0 && prev != NO_SIZE)
    && (prev != 0 && prev != NO_SIZE ==> zeros == 0 && toks != [] && Meaning(toks)[|Meaning(toks)| - 1] == prev)
    && (i == 0 ==> zeros == 0 && repeats == 0)
  }

  lemma PackingOpen(sizes: seq<nat>, i: nat, toks: seq<Sym>, prev: nat, zeros: nat, repeats: nat)
    requires Packing(sizes, i, toks, prev, zeros, repeats) && forall k :: 0 <= k < |sizes| ==> sizes[k] < 16
    ensures Valid(toks) && zeros < 138 && repeats < 6
    ensures repeats > 0 ==> zeros == 0 && prev < 16 && toks != [] && Meaning(toks)[|Meaning(toks)| - 1] == prev
    ensures i == |sizes| && repeats > 0 ==> Meaning(toks) + Copies(prev, repeats) == sizes
    ensures i == |sizes| && repeats == 0 ==> Meaning(toks) + Copies(0, zeros) == sizes
    ensures i < |sizes| && sizes[i] == prev != 0 ==>
            zeros == 0 && toks != [] && Meaning(toks)[|Meaning(toks)| - 1] == prev
  {
    assert sizes[..|sizes|] == sizes;
    RunsGone(Meaning(toks), prev);
  }

  lemma RunsGone(out: seq<nat>, x: nat)
    ensures out + Copies(x, 0) == out && forall s: seq<nat> :: s + Copies(x, 0) == s
    ensures forall k: nat :: Copies(x, k + 1) == Copies(x, k) + [x]
  {
  }

  /** A zero ends a run of repetitions and starts or lengthens a run of zeros. */
  lemma ZeroPacked(sizes: seq<nat>, i: nat, toks: seq<Sym>, toks': seq<Sym>, prev: nat, zeros: nat, repeats: nat)
    requires Packing(sizes, i, toks, prev, zeros, repeats) && i < |sizes| && sizes[i] == 0
    requires Valid(toks') && Meaning(toks') == Meaning(toks) + Copies(prev, repeats)
    ensures Meaning(toks') + Copies(0, zeros + 1) == sizes[..i + 1]
    ensures zeros + 1 < 138 ==> Packing(sizes, i + 1, toks', 0, zeros + 1, 0)
  {
    assert sizes[..i + 1] == sizes[..i] + [0];
    var out := Meaning(toks);
    RunsGone(out, 0);
    RunsGone(out, prev);
    assert out + Copies(0, zeros) + Copies(prev, repeats) == out + Copies(prev, repeats) + Copies(0, zeros);
    assert Meaning(toks') + Copies(0, zeros + 1) == Meaning(toks') + Copies(0, zeros) + [0];
    assert Meaning(toks') + Copies(0, zeros + 1) + Copies(0, 0) == Meaning(toks') + Copies(0, zeros + 1);
  }

  lemma RunPacked(sizes: seq<nat>, i: nat, toks: seq<Sym>, prev: nat)
    requires 1 <= i <= |sizes| && Valid(toks) && Meaning(toks) == sizes[..i] && prev == sizes[i - 1]
    ensures Packing(sizes, i, toks, prev, 0, 0)
  {
    RunsGone(Meaning(toks), 0);
    RunsGone(Meaning(toks), prev);
  }

  /** A new length ends both kinds of run. */
  lemma NewPacked(sizes: seq<nat>, i: nat, toks: seq<Sym>, toks': seq<Sym>, prev: nat, zeros: nat, repeats: nat)
    requires Packing(sizes, i, toks, prev, zeros, repeats) && i < |sizes| && sizes[i] != 0
    requires Valid(toks') && Meaning(toks') == Meaning(toks) + Copies(0, zeros) + Copies(prev, repeats) + [sizes[i]]
    ensures Packing(sizes, i + 1, toks', sizes[i], 0, 0)
  {
    assert sizes[..i + 1] == sizes[..i] + [sizes[i]];
    RunPacked(sizes, i + 1, toks', sizes[i]);
  }

  /** The previous length again lengthens a run of repetitions. */
  lemma SamePacked(sizes: seq<nat>, i: nat, toks: seq<Sym>, prev: nat, zeros: nat, repeats: nat)
    requires Packing(sizes, i, toks, prev, zeros, repeats) && i < |sizes| && sizes[i] == prev != 0 && prev != NO_SIZE
    ensures Meaning(toks) + Copies(prev, repeats + 1) == sizes[..i + 1]
    ensures repeats + 1 < 6 ==> Packing(sizes, i + 1, toks, prev, 0, repeats + 1)
  {
    assert sizes[..i + 1] == sizes[..i] + [prev];
    var out := Meaning(toks);
    RunsGone(out, 0);
    RunsGone(out, prev);
    assert out + Copies(0, zeros) == out;
    assert out + Copies(prev, repeats + 1) == out + Copies(prev, repeats) + [prev];
  }

  /**
   Packs the lengths. The packed bytes and the counts of their codes belong to one sequence of symbols, which
   stands for the lengths; it takes no more room than they do.
   */
  method Pack(sizes: seq<nat>, packed: array<nat>, counts: array<nat>) returns (n: nat, ghost toks: seq<Sym>)
    requires |sizes| <= packed.Length && counts.Length == SYMBOLS && packed != counts
    requires forall i :: 0 <= i < |sizes| ==> sizes[i] < 16
    modifies packed, counts
    ensures n <= |sizes| && Emitted(packed[..n], counts[..], toks) && Meaning(toks) == sizes
  {
    hide Packing, Emitted;
    forall c | 0 <= c < SYMBOLS { counts[c] := 0; }
    n, toks := 0, [];
    PackNone(sizes, packed[..0], counts[..]);
    var zeros: nat, repeats: nat, prev := 0, 0, NO_SIZE;
    for i := 0 to |sizes|
      invariant Packing(sizes, i, toks, prev, zeros, repeats) && n + zeros + repeats <= i
      invariant Emitted(packed[..n], counts[..], toks)
    {
      if sizes[i] == 0 {
        n, zeros, toks := PackZero(sizes, i, packed, n, counts, prev, zeros, repeats, toks);
        repeats := 0;
      } else if sizes[i] != prev {
        n, toks := PackNew(sizes, i, packed, n, counts, prev, zeros, repeats, toks);
        zeros, repeats := 0, 0;
      } else {
        n, repeats, toks := PackSame(sizes, i, packed, n, counts, prev, zeros, repeats, toks);
        zeros := 0;
      }
      prev := sizes[i];
    }
    PackingOpen(sizes, |sizes|, toks, prev, zeros, repeats);
    if repeats > 0 {
      n, toks := FlushRepeats(packed, n, counts, prev, repeats, toks);
    } else {
      n, toks := FlushZeros(packed, n, counts, zeros, toks);
    }
  }

  lemma PackNone(sizes: seq<nat>, p: seq<nat>, counts: seq<nat>)
    requires p == [] && |counts| == SYMBOLS && forall c :: 0 <= c < SYMBOLS ==> counts[c] == 0
    ensures Packing(sizes, 0, [], NO_SIZE, 0, 0) && Emitted(p, counts, [])
  {
  }

  method PackZero(sizes: seq<nat>, i: nat, packed: array<nat>, n: nat, counts: array<nat>, prev: nat, zeros: nat,
                  repeats: nat,
                  ghost toks: seq<Sym>)
    returns (n': nat, zeros': nat, ghost toks': seq<Sym>)
    requires i < |sizes| <= packed.Length && counts.Length == SYMBOLS && packed != counts
    requires (forall k :: 0 <= k < |sizes| ==> sizes[k] < 16) && sizes[i] == 0
    requires Packing(sizes, i, toks, prev, zeros, repeats) && n + zeros + repeats <= i
    requires Emitted(packed[..n], counts[..], toks)
    modifies packed, counts
    ensures Packing(sizes, i + 1, toks', 0, zeros', 0) && n' + zeros' <= i + 1
    ensures Emitted(packed[..n'], counts[..], toks')
  {
    hide Packing, Emitted;
    PackingOpen(sizes, i, toks, prev, zeros, repeats);
    n', toks' := FlushRepeats(packed, n, counts, prev, repeats, toks);
    EmittedValid(packed[..n'], counts[..], toks');
    ZeroPacked(sizes, i, toks, toks', prev, zeros, repeats);
    zeros' := zeros + 1;
    if zeros' == 138 {
      n', toks' := FlushZeros(packed, n', counts, zeros', toks');
      EmittedValid(packed[..n'], counts[..], toks');
      RunPacked(sizes, i + 1, toks', 0);
      zeros' := 0;
    }
  }

  method PackNew(sizes: seq<nat>, i: nat, packed: array<nat>, n: nat, counts: array<nat>, prev: nat, zeros: nat,
                 repeats: nat,
                 ghost toks: seq<Sym>)
    returns (n': nat, ghost toks': seq<Sym>)
    requires i < |sizes| <= packed.Length && counts.Length == SYMBOLS && packed != counts
    requires (forall k :: 0 <= k < |sizes| ==> sizes[k] < 16) && sizes[i] != 0 && sizes[i] != prev
    requires Packing(sizes, i, toks, prev, zeros, repeats) && n + zeros + repeats <= i
    requires Emitted(packed[..n], counts[..], toks)
    modifies packed, counts
    ensures Packing(sizes, i + 1, toks', sizes[i], 0, 0) && n' <= i + 1
    ensures Emitted(packed[..n'], counts[..], toks')
  {
    hide Packing, Emitted;
    PackingOpen(sizes, i, toks, prev, zeros, repeats);
    ghost var toks1;
    n', toks1 := FlushZeros(packed, n, counts, zeros, toks);
    EmittedValid(packed[..n'], counts[..], toks1);
    NoZeros(toks, toks1, zeros, repeats, prev);
    ghost var toks2;
    n', toks2 := FlushRepeats(packed, n', counts, prev, repeats, toks1);
    EmittedValid(packed[..n'], counts[..], toks2);
    n', toks' := Put(packed, n', counts, Sym(sizes[i], 0), toks2);
    EmittedValid(packed[..n'], counts[..], toks');
    NewPacked(sizes, i, toks, toks', prev, zeros, repeats);
  }

  lemma NoZeros(toks: seq<Sym>, toks1: seq<Sym>, zeros: nat, repeats: nat, prev: nat)
    requires Valid(toks) && Valid(toks1) && Meaning(toks1) == Meaning(toks) + Copies(0, zeros)
    requires repeats > 0 ==> zeros == 0 && toks != [] && Meaning(toks)[|Meaning(toks)| - 1] == prev
    ensures repeats > 0 ==> toks1 != [] && Meaning(toks1)[|Meaning(toks1)| - 1] == prev
  {
    RunsGone(Meaning(toks), 0);
  }

  method PackSame(sizes: seq<nat>, i: nat, packed: array<nat>, n: nat, counts: array<nat>, prev: nat, zeros: nat,
                  repeats: nat,
                  ghost toks: seq<Sym>)
    returns (n': nat, repeats': nat, ghost toks': seq<Sym>)
    requires i < |sizes| <= packed.Length && counts.Length == SYMBOLS && packed != counts
    requires (forall k :: 0 <= k < |sizes| ==> sizes[k] < 16) && sizes[i] == prev != 0
    requires Packing(sizes, i, toks, prev, zeros, repeats) && n + zeros + repeats <= i
    requires Emitted(packed[..n], counts[..], toks)
    modifies packed, counts
    ensures Packing(sizes, i + 1, toks', prev, 0, repeats') && n' + repeats' <= i + 1
    ensures Emitted(packed[..n'], counts[..], toks')
  {
    hide Packing, Emitted, Meaning, Valid, Copies;
    PackingOpen(sizes, i, toks, prev, zeros, repeats);
    n', toks' := FlushZeros(packed, n, counts, zeros, toks);
    EmittedValid(packed[..n'], counts[..], toks');
    SamePacked(sizes, i, toks, prev, zeros, repeats);
    SameMeaning(sizes, i, toks, toks', prev, repeats);
    repeats' := repeats + 1;
    if repeats' == 6 {
      n', toks' := FlushRepeats(packed, n', counts, prev, repeats', toks');
      EmittedValid(packed[..n'], counts[..], toks');
      RunPacked(sizes, i + 1, toks', prev);
      repeats' := 0;
    }
  }

  lemma SameMeaning(sizes: seq<nat>, i: nat, toks: seq<Sym>, toks': seq<Sym>, prev: nat, repeats: nat)
    requires i < |sizes| && sizes[i] == prev != 0 && Valid(toks) && Valid(toks') && toks != []
    requires Meaning(toks') == Meaning(toks) + Copies(0, 0) && Meaning(toks)[|Meaning(toks)| - 1] == prev
    requires Packing(sizes, i + 1, toks, prev, 0, repeats + 1) || repeats + 1 == 6
    ensures toks' != [] && Meaning(toks') == Meaning(toks)
    ensures repeats + 1 < 6 ==> Packing(sizes, i + 1, toks', prev, 0, repeats + 1)
  {
    RunsGone(Meaning(toks), 0);
  }
}
