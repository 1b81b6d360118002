/**
 Building one Huffman table of the compressor (qqwry/miniz.c, tdefl_optimize_huffman_table): the used symbols
 are sorted by frequency, given minimum-redundancy code lengths, the lengths are cut to the limit of the
 format, and the codes are numbered canonically and stored bit-reversed.
 */
module HuffmanTable {
  import opened Bits
  import opened RadixSort
  import Canonical
  import HuffmanLimit
  import HuffmanLengths
  import MinRedundancy

  const MAX_SYMBOLS: nat := 288

  // ---------- the used symbols ----------

  /** The symbols that occur, in order, each with its count. */
  function UsedSyms(counts: seq<nat>): (s: seq<SymFreq>)
    ensures |s| <= |counts|
  {
    if counts == [] then []
    else
      var k := |counts| - 1;
      UsedSyms(counts[..k]) + (if counts[k] > 0 then [SymFreq(counts[k], k)] else [])
  }

  function Total(counts: seq<nat>): (t: nat)
  {
    if counts == [] then 0 else Total(counts[..|counts| - 1]) + counts[|counts| - 1]
  }

  /** Exactly the used symbols are listed, each once. */
  ghost predicate Lists(s: seq<SymFreq>, counts: seq<nat>)
  {
    && (forall i :: 0 <= i < |s| ==> s[i].sym < |counts| && s[i].key == counts[s[i].sym] >= 1)
    && (forall i, j :: 0 <= i < j < |s| ==> s[i].sym != s[j].sym)
    && (forall c :: 0 <= c < |counts| && counts[c] > 0 ==> SymFreq(counts[c], c) in s)
  }

  lemma {:induction false} UsedSymsList(counts: seq<nat>)
    ensures Lists(UsedSyms(counts), counts)
  {
    if counts != [] {
      var k := |counts| - 1;
      UsedSymsList(counts[..k]);
      var s, s' := UsedSyms(counts[..k]), UsedSyms(counts);
      forall c | 0 <= c < |counts| && counts[c] > 0
        ensures SymFreq(counts[c], c) in s'
      {
        if c == k {
          assert s'[|s|] == SymFreq(counts[k], k);
        } else {
          assert SymFreq(counts[..k][c], c) in s;
        }
      }
    }
  }

  lemma {:induction false} UsedTotal(counts: seq<nat>)
    ensures MinRedundancy.Sum(MinRedundancy.KeysOf(UsedSyms(counts))) == Total(counts)
  {
    if counts != [] {
      var k := |counts| - 1;
      UsedTotal(counts[..k]);
      var s := UsedSyms(counts[..k]);
      if counts[k] > 0 {
        assert MinRedundancy.KeysOf(UsedSyms(counts)) == MinRedundancy.KeysOf(s) + [counts[k]];
        MinRedundancy.SumSnoc(MinRedundancy.KeysOf(s), counts[k]);
      } else {
        assert UsedSyms(counts) == s;
      }
    }
  }

  lemma {:induction false} CountMember(counts: seq<nat>, c: nat)
    requires c < |counts|
    ensures counts[c] <= Total(counts)
  {
    var k := |counts| - 1;
    if c < k {
      CountMember(counts[..k], c);
    }
  }

  /** Collects the used symbols. */
  method CollectUsed(counts: seq<nat>, syms: array<SymFreq>) returns (n: nat)
    requires |counts| <= syms.Length
    modifies syms
    ensures n <= syms.Length && syms[..n] == UsedSyms(counts)
  {
    n := 0;
    for i := 0 to |counts|
      invariant n <= i && syms[..n] == UsedSyms(counts[..i])
    {
      assert counts[..i + 1][..i] == counts[..i];
      if counts[i] != 0 {
        syms[n] := SymFreq(counts[i], i);
        n := n + 1;
      }
    }
    assert counts[..|counts|] == counts;
  }

  // ---------- sorting keeps the list ----------

  lemma {:induction false} Multiplicity(s: seq<SymFreq>, counts: seq<nat>, x: SymFreq)
    requires forall i, j :: 0 <= i < j < |s| ==> s[i].sym != s[j].sym
    ensures multiset(s)[x] <= 1
  {
    if s != [] {
      var k := |s| - 1;
      Multiplicity(s[..k], counts, x);
      assert s == s[..k] + [s[k]];
      assert x in multiset(s[..k]) <==> x in s[..k];
    }
  }

  lemma TwoPlaces(s: seq<SymFreq>, i: nat, j: nat)
    requires i < j < |s| && s[i] == s[j]
    ensures multiset(s)[s[i]] >= 2
  {
    assert s == s[..j] + [s[j]] + s[j + 1..];
    assert s[i] in s[..j];
  }

  lemma SameElements(s: seq<SymFreq>, r: seq<SymFreq>, x: SymFreq)
    requires multiset(s) == multiset(r)
    ensures x in s <==> x in r
  {
    assert x in s <==> x in multiset(s);
    assert x in r <==> x in multiset(r);
  }

  lemma SortedLists(s: seq<SymFreq>, r: seq<SymFreq>, counts: seq<nat>)
    requires Lists(s, counts) && multiset(s) == multiset(r)
    ensures Lists(r, counts) && |r| == |s|
  {
    forall i | 0 <= i < |r|
      ensures r[i].sym < |counts| && r[i].key == counts[r[i].sym] >= 1
    {
      SameElements(s, r, r[i]);
    }
    forall i, j | 0 <= i < j < |r|
      ensures r[i].sym != r[j].sym
    {
      Multiplicity(s, counts, r[i]);
      if r[i] == r[j] {
        TwoPlaces(r, i, j);
      }
    }
    forall c | 0 <= c < |counts| && counts[c] > 0
      ensures SymFreq(counts[c], c) in r
    {
      SameElements(s, r, SymFreq(counts[c], c));
    }
    assert |multiset(s)| == |s| && |multiset(r)| == |r|;
  }

  lemma {:induction false} SumOfPermutation(s: seq<SymFreq>, r: seq<SymFreq>)
    requires multiset(s) == multiset(r)
    ensures MinRedundancy.Sum(MinRedundancy.KeysOf(s)) == MinRedundancy.Sum(MinRedundancy.KeysOf(r))
  {
    assert |multiset(s)| == |s| && |multiset(r)| == |r|;
    if s != [] {
      SameElements(s, r, s[0]);
      var j :| 0 <= j < |r| && r[j] == s[0];
      TakeOut(s, 0);
      TakeOut(r, j);
      SumTakesOut(s, 0);
      SumTakesOut(r, j);
      SumOfPermutation(Without(s, 0), Without(r, j));
    }
  }

  function Without(s: seq<SymFreq>, j: nat): (r: seq<SymFreq>)
    requires j < |s|
    ensures |r| == |s| - 1
  {
    s[..j] + s[j + 1..]
  }

  lemma TakeOut(s: seq<SymFreq>, j: nat)
    requires j < |s|
    ensures multiset(Without(s, j)) == multiset(s) - multiset{s[j]}
  {
    assert s == s[..j] + [s[j]] + s[j + 1..];
  }

  lemma {:induction false} SumTakesOut(r: seq<SymFreq>, j: nat)
    requires j < |r|
    ensures MinRedundancy.Sum(MinRedundancy.KeysOf(r))
         == MinRedundancy.Sum(MinRedundancy.KeysOf(Without(r, j))) + r[j].key
  {
    var keys, rest := MinRedundancy.KeysOf(r), MinRedundancy.KeysOf(Without(r, j));
    if j == 0 {
      assert keys[1..] == rest;
    } else {
      SumTakesOut(r[1..], j - 1);
      assert Without(r[1..], j - 1) == Without(r, j)[1..];
      assert keys[1..] == MinRedundancy.KeysOf(r[1..]);
      assert rest[1..] == MinRedundancy.KeysOf(Without(r, j)[1..]);
    }
  }

  // ---------- histograms of lengths ----------

  ghost function Hist(lens: seq<nat>, max: nat): (num: seq<int>)
    ensures |num| == max + 1
  {
    seq(max + 1, l requires 0 <= l <= max => Canonical.Count(lens, l))
  }

  lemma {:induction false} SpaceIsEnd(num: seq<int>, lens: seq<nat>, m: nat)
    requires m < |num| && forall l :: 1 <= l <= m ==> num[l] == Canonical.Count(lens, l)
    ensures HuffmanLimit.Space(num, m) == Canonical.End(lens, m)
  {
    if m > 0 {
      SpaceIsEnd(num, lens, m - 1);
    }
  }

  lemma {:induction false} CodesOfHist(lens: seq<nat>, max: nat)
    requires forall i :: 0 <= i < |lens| ==> 1 <= lens[i] <= max
    ensures HuffmanLimit.Codes(Hist(lens, max), 0, max) == |lens|
  {
    if lens == [] {
      NoCodes(Hist(lens, max), max);
    } else {
      var k := |lens| - 1;
      var num, x := Hist(lens[..k], max), lens[k];
      CodesOfHist(lens[..k], max);
      assert Hist(lens, max) == num[x := num[x] + 1];
      HuffmanLimit.CodesUpdate(num, x, 1, 0, max);
    }
  }

  lemma {:induction false} NoCodes(num: seq<int>, hi: nat)
    requires hi < |num| && forall l :: 0 <= l <= hi ==> num[l] == 0
    ensures HuffmanLimit.Codes(num, 0, hi) == 0
  {
    if hi > 0 {
      NoCodes(num, hi - 1);
    }
  }

  /** No length above m means no code above m. */
  lemma {:induction false} NoneLonger(lens: seq<nat>, m: nat, hi: nat, max: nat)
    requires m <= hi <= max && forall i :: 0 <= i < |lens| ==> lens[i] <= m
    ensures HuffmanLimit.Codes(Hist(lens, max), m, hi) == 0
    decreases hi
  {
    if m < hi {
      NoneLonger(lens, m, hi - 1, max);
      NoneOfLength(lens, hi);
    }
  }

  lemma {:induction false} NoneOfLength(lens: seq<nat>, l: nat)
    requires forall i :: 0 <= i < |lens| ==> lens[i] != l
    ensures Canonical.Count(lens, l) == 0
  {
    if lens != [] {
      NoneOfLength(lens[..|lens| - 1], l);
    }
  }

  // ---------- handing out lengths ----------

  function Repeat(l: nat, k: nat): (s: seq<nat>)
  {
    seq(k, _ => l)
  }

  /** The lengths of a histogram up to m, the longest first. */
  function Runs(num: seq<int>, m: nat): (s: seq<nat>)
    requires m < |num| && forall l :: 1 <= l <= m ==> num[l] >= 0
  {
    if m == 0 then [] else Repeat(m, num[m]) + Runs(num, m - 1)
  }

  lemma {:induction false} RunsShape(num: seq<int>, m: nat)
    requires m < |num| && forall l :: 1 <= l <= m ==> num[l] >= 0
    ensures |Runs(num, m)| == HuffmanLimit.Codes(num, 0, m)
    ensures forall i :: 0 <= i < |Runs(num, m)| ==> 1 <= Runs(num, m)[i] <= m
    ensures forall i, j :: 0 <= i < j < |Runs(num, m)| ==> Runs(num, m)[i] >= Runs(num, m)[j]
  {
    if m > 0 {
      RunsShape(num, m - 1);
    }
  }

  ghost predicate Descending(lens: seq<nat>)
  {
    forall i, j :: 0 <= i < j < |lens| ==> lens[i] >= lens[j]
  }

  lemma {:induction false} CountRepeat(lens: seq<nat>, l: nat)
    requires forall i :: 0 <= i < |lens| ==> lens[i] == l
    ensures Canonical.Count(lens, l) == |lens|
  {
    if lens != [] {
      CountRepeat(lens[..|lens| - 1], l);
    }
  }

  lemma {:induction false} CountConcat(a: seq<nat>, b: seq<nat>, l: nat)
    ensures Canonical.Count(a + b, l) == Canonical.Count(a, l) + Canonical.Count(b, l)
  {
    if b == [] {
      assert a + b == a;
    } else {
      var k := |b| - 1;
      CountConcat(a, b[..k], l);
      assert (a + b)[..|a + b| - 1] == a + b[..k];
    }
  }

  ghost predicate Counts(num: seq<int>, lens: seq<nat>, m: nat)
  {
    m < |num| && forall l :: 1 <= l <= m ==> num[l] == Canonical.Count(lens, l)
  }

  ghost predicate Between(lens: seq<nat>, lo: nat, hi: nat)
  {
    forall i :: 0 <= i < |lens| ==> lo <= lens[i] <= hi
  }

  lemma FirstBetween(lens: seq<nat>, m: nat)
    requires lens != [] && Between(lens, 1, m)
    ensures 1 <= lens[0] <= m
  {
  }

  /** Descending lengths are recovered from their histogram. */
  lemma {:induction false} RunsOfHist(lens: seq<nat>, num: seq<int>, m: nat)
    requires m < |num| && Descending(lens) && Between(lens, 1, m) && Counts(num, lens, m)
    requires forall l :: 1 <= l <= m ==> num[l] >= 0
    ensures Runs(num, m) == lens
  {
    hide Descending, Between;
    if lens == [] {
      RunsOfNothing(num, m);
    } else {
      FirstBetween(lens, m);
      var k := TopRun(lens, num, m);
      RunsOfHist(lens[k..], num, m - 1);
      assert lens == lens[..k] + lens[k..];
    }
  }

  /** The longest lengths come first. */
  lemma TopRun(lens: seq<nat>, num: seq<int>, m: nat) returns (k: nat)
    requires 1 <= m < |num| && Descending(lens) && Between(lens, 1, m) && Counts(num, lens, m)
    ensures k <= |lens| && num[m] == k && lens[..k] == Repeat(m, k)
    ensures Descending(lens[k..]) && Between(lens[k..], 1, m - 1) && Counts(num, lens[k..], m - 1)
  {
    k := LongestRun(lens, m);
    var a, b := lens[..k], lens[k..];
    assert lens == a + b;
    assert Between(b, 1, m - 1) && Descending(b);
    CountTop(a, b, m, m);
    forall l | 1 <= l <= m - 1
      ensures Canonical.Count(lens, l) == Canonical.Count(b, l)
    {
      CountTop(a, b, m, l);
    }
  }

  lemma {:induction false} RunsOfNothing(num: seq<int>, m: nat)
    requires m < |num| && forall l :: 1 <= l <= m ==> num[l] == 0
    ensures Runs(num, m) == []
  {
    if m > 0 {
      RunsOfNothing(num, m - 1);
    }
  }

  lemma CountTop(a: seq<nat>, b: seq<nat>, m: nat, l: nat)
    requires (forall i :: 0 <= i < |a| ==> a[i] == m) && (forall i :: 0 <= i < |b| ==> b[i] < m)
    ensures Canonical.Count(a + b, l) == (if l == m then |a| else Canonical.Count(b, l))
  {
    CountConcat(a, b, l);
    if l == m {
      CountRepeat(a, m);
      NoneOfLength(b, m);
    } else {
      NoneOfLength(a, l);
    }
  }

  lemma {:induction false} LongestRun(lens: seq<nat>, m: nat) returns (k: nat)
    requires Descending(lens) && forall i :: 0 <= i < |lens| ==> lens[i] <= m
    ensures k <= |lens| && (forall i :: 0 <= i < k ==> lens[i] == m) && (forall i :: k <= i < |lens| ==> lens[i] < m)
  {
    if lens == [] || lens[0] < m {
      k := 0;
    } else {
      k := LongestRun(lens[1..], m);
      k := k + 1;
    }
  }

  lemma {:induction false} CountRuns(num: seq<int>, m: nat, l: nat)
    requires m < |num| && forall k :: 1 <= k <= m ==> num[k] >= 0
    ensures Canonical.Count(Runs(num, m), l) == if 1 <= l <= m then num[l] else 0
  {
    if m > 0 {
      CountRuns(num, m - 1, l);
      CountConcat(Repeat(m, num[m]), Runs(num, m - 1), l);
      if l == m {
        CountRepeat(Repeat(m, num[m]), m);
      } else {
        NoneOfLength(Repeat(m, num[m]), l);
      }
    }
  }

  lemma {:induction false} CountUpdate(s: seq<nat>, c: nat, x: nat, l: nat)
    requires c < |s| && s[c] == 0 && l >= 1
    ensures Canonical.Count(s[c := x], l) == Canonical.Count(s, l) + (if x == l then 1 else 0)
  {
    var k := |s| - 1;
    if c < k {
      CountUpdate(s[..k], c, x, l);
      assert s[c := x][..k] == s[..k][c := x];
    } else {
      assert s[c := x][..k] == s[..k];
    }
  }

  lemma {:induction false} CountFront(x: nat, s: seq<nat>, l: nat)
    ensures Canonical.Count([x] + s, l) == Canonical.Count(s, l) + (if x == l then 1 else 0)
  {
    CountConcat([x], s, l);
    assert [x][..0] == [];
  }

  /** The symbols from place j on have the lengths `run`, all others none. */
  ghost predicate Assigned(syms: seq<SymFreq>, sizes: seq<nat>, j: nat, run: seq<nat>)
  {
    && j <= |syms| && |run| == |syms| - j
    && (forall p :: 0 <= p < |syms| ==> syms[p].sym < |sizes|)
    && (forall p :: j <= p < |syms| ==> sizes[syms[p].sym] == run[p - j])
    && (forall p :: 0 <= p < j ==> sizes[syms[p].sym] == 0)
    && (forall c :: 0 <= c < |sizes| && (forall p :: 0 <= p < |syms| ==> syms[p].sym != c) ==> sizes[c] == 0)
    && (forall l: nat :: l >= 1 ==> Canonical.Count(sizes, l) == Canonical.Count(run, l))
  }

  lemma AssignNone(syms: seq<SymFreq>, sizes: seq<nat>)
    requires (forall p :: 0 <= p < |syms| ==> syms[p].sym < |sizes|) && forall c :: 0 <= c < |sizes| ==> sizes[c] == 0
    ensures Assigned(syms, sizes, |syms|, [])
  {
    forall l: nat | l >= 1
      ensures Canonical.Count(sizes, l) == 0
    {
      NoneOfLength(sizes, l);
    }
  }

  lemma AssignedSame(syms: seq<SymFreq>, order: seq<SymFreq>, sizes: seq<nat>, j: nat, run: seq<nat>)
    requires Assigned(syms, sizes, j, run) && MinRedundancy.SameSyms(syms, order)
    ensures Assigned(order, sizes, j, run)
  {
    forall c | 0 <= c < |sizes| && (forall p :: 0 <= p < |order| ==> order[p].sym != c)
      ensures sizes[c] == 0
    {
      assert forall p :: 0 <= p < |syms| ==> syms[p].sym == order[p].sym;
    }
  }

  lemma AssignOne(syms: seq<SymFreq>, sizes: seq<nat>, j: nat, run: seq<nat>, x: nat)
    requires Assigned(syms, sizes, j, run) && j >= 1
    requires forall p, q :: 0 <= p < q < |syms| ==> syms[p].sym != syms[q].sym
    ensures Assigned(syms, sizes[syms[j - 1].sym := x], j - 1, [x] + run)
  {
    var c := syms[j - 1].sym;
    forall l: nat | l >= 1
      ensures Canonical.Count(sizes[c := x], l) == Canonical.Count([x] + run, l)
    {
      CountUpdate(sizes, c, x, l);
      CountFront(x, run, l);
    }
  }

  /** Gives length x to the next `count` symbols. */
  method GiveLength(syms: array<SymFreq>, n: nat, j: nat, x: nat, count: nat, sizes: array<nat>, tableLen: nat,
                    ghost run: seq<nat>)
    returns (j': nat)
    requires count <= j <= n <= syms.Length && tableLen <= sizes.Length
    requires forall p, q :: 0 <= p < q < n ==> syms[p].sym != syms[q].sym
    requires Assigned(syms[..n], sizes[..tableLen], j, run)
    modifies sizes
    ensures j' == j - count && Assigned(syms[..n], sizes[..tableLen], j', Repeat(x, count) + run)
  {
    hide Assigned;
    ghost var order := syms[..n];
    var l := count;
    j' := j;
    assert Repeat(x, 0) + run == run;
    while l > 0
      invariant 0 <= l <= count && j' == j - (count - l)
      invariant Assigned(order, sizes[..tableLen], j', Repeat(x, count - l) + run)
    {
      ghost var table, given := sizes[..tableLen], Repeat(x, count - l) + run;
      AssignPlace(order, table, j', given);
      AssignOne(order, table, j', given, x);
      j' := j' - 1;
      l := l - 1;
      sizes[syms[j'].sym] := x;
      assert sizes[..tableLen] == table[syms[j'].sym := x];
      assert [x] + given == Repeat(x, count - l) + run;
    }
  }

  /** Hands out the lengths, the shortest to the most frequent symbols. */
  method AssignSizes(syms: array<SymFreq>, n: nat, num: array<int>, limit: nat, sizes: array<nat>, tableLen: nat)
    requires n <= syms.Length && limit < num.Length && tableLen <= sizes.Length
    requires HuffmanLimit.NonNegative(num[..], limit) && HuffmanLimit.Codes(num[..], 0, limit) == n
    requires forall p, q :: 0 <= p < q < n ==> syms[p].sym != syms[q].sym
    requires Assigned(syms[..n], sizes[..tableLen], n, [])
    modifies sizes
    ensures Assigned(syms[..n], sizes[..tableLen], 0, Runs(num[..], limit))
  {
    hide Assigned;
    ghost var hist := num[..];
    var j := n;
    for i: nat := 1 to limit + 1
      invariant 0 <= j == n - HuffmanLimit.Codes(hist, 0, i - 1) <= n
      invariant Assigned(syms[..n], sizes[..tableLen], j, Runs(hist, i - 1))
    {
      RoomForLength(hist, i, limit);
      j := GiveLength(syms, n, j, i, num[i], sizes, tableLen, Runs(hist, i - 1));
      assert Runs(hist, i) == Repeat(i, hist[i]) + Runs(hist, i - 1);
    }
  }

  lemma AssignPlace(syms: seq<SymFreq>, sizes: seq<nat>, j: nat, run: seq<nat>)
    requires Assigned(syms, sizes, j, run) && j >= 1
    ensures j <= |syms| && syms[j - 1].sym < |sizes|
  {
  }

  lemma RoomForLength(num: seq<int>, i: nat, limit: nat)
    requires 1 <= i <= limit < |num| && HuffmanLimit.NonNegative(num, limit)
    ensures HuffmanLimit.Codes(num, 0, i) == HuffmanLimit.Codes(num, 0, i - 1) + num[i] <= HuffmanLimit.Codes(num, 0, limit)
  {
    HuffmanLimit.CodesSplit(num, 0, i, limit);
    HuffmanLimit.CodesNonNegative(num, i, limit);
  }

  // ---------- codes ----------

  /** Every used symbol has its canonical code, turned around. */
  ghost predicate CodesFor(sizes: seq<nat>, codes: seq<nat>)
  {
    |sizes| <= |codes| && forall c :: 0 <= c < |sizes| && sizes[c] > 0 ==> codes[c] == Val(Canonical.CodeBits(sizes, c))
  }

  /** The first code of each length. */
  method FirstCodes(num: array<int>, limit: nat, ghost sizes: seq<nat>) returns (next: array<nat>)
    requires 1 <= limit <= HuffmanLimit.SUPPORTED && num.Length == HuffmanLimit.SUPPORTED + 1
    requires forall l :: 1 <= l <= limit ==> num[l] == Canonical.Count(sizes, l)
    ensures fresh(next) && next.Length == HuffmanLimit.SUPPORTED + 1
    ensures forall l :: 1 <= l <= limit ==> next[l] == 2 * Canonical.End(sizes, l - 1)
  {
    next := new nat[HuffmanLimit.SUPPORTED + 1];
    next[1] := 0;
    var j := 0;
    for i := 2 to limit + 1
      invariant j == 2 * Canonical.End(sizes, i - 2)
      invariant forall l :: 1 <= l < i ==> next[l] == 2 * Canonical.End(sizes, l - 1)
    {
      assert Canonical.End(sizes, i - 1) == 2 * Canonical.End(sizes, i - 2) + Canonical.Count(sizes, i - 1);
      j := 2 * (j + num[i - 1]);
      next[i] := j;
    }
  }

  /** The next code of each length when the first i symbols have theirs. */
  ghost predicate NextFor(next: seq<nat>, sizes: seq<nat>, i: nat, limit: nat)
    requires i <= |sizes|
  {
    && limit < |next|
    && forall l :: 1 <= l <= limit ==> next[l] == 2 * Canonical.End(sizes, l - 1) + Canonical.Count(sizes[..i], l)
  }

  lemma NextStep(next: seq<nat>, sizes: seq<nat>, i: nat, limit: nat)
    requires i < |sizes| && sizes[i] <= limit && NextFor(next, sizes, i, limit)
    ensures sizes[i] == 0 ==> NextFor(next, sizes, i + 1, limit)
    ensures sizes[i] > 0 ==> next[sizes[i]] == Canonical.Code(sizes, i)
    ensures sizes[i] > 0 ==> NextFor(next[sizes[i] := next[sizes[i]] + 1], sizes, i + 1, limit)
  {
    assert sizes[..i + 1][..i] == sizes[..i];
  }

  lemma NextStart(next: seq<nat>, sizes: seq<nat>, limit: nat)
    requires limit < |next| && forall l :: 1 <= l <= limit ==> next[l] == 2 * Canonical.End(sizes, l - 1)
    ensures NextFor(next, sizes, 0, limit)
  {
    assert sizes[..0] == [];
  }

  ghost predicate CodesUpTo(sizes: seq<nat>, codes: seq<nat>, i: nat)
  {
    && i <= |sizes| <= |codes|
    && forall c :: 0 <= c < i && sizes[c] > 0 ==> codes[c] == Val(Canonical.CodeBits(sizes, c))
  }

  lemma CodesStep(sizes: seq<nat>, codes: seq<nat>, i: nat, code: nat)
    requires CodesUpTo(sizes, codes, i) && i < |sizes|
    ensures sizes[i] == 0 ==> CodesUpTo(sizes, codes, i + 1)
    ensures sizes[i] > 0 && code == Canonical.Code(sizes, i) ==>
              CodesUpTo(sizes, codes[i := Val(HighFirst(code, sizes[i]))], i + 1)
  {
  }

  /** Numbers the codes of each length in the order of the symbols. */
  method AssignCodes(num: array<int>, limit: nat, sizes: array<nat>, codes: array<nat>, tableLen: nat)
    requires 1 <= limit <= HuffmanLimit.SUPPORTED && num.Length == HuffmanLimit.SUPPORTED + 1
    requires tableLen <= sizes.Length && tableLen <= codes.Length && sizes != codes
    requires forall c :: 0 <= c < tableLen ==> sizes[c] <= limit
    requires forall l :: 1 <= l <= limit ==> num[l] == Canonical.Count(sizes[..tableLen], l)
    modifies codes
    ensures CodesFor(sizes[..tableLen], codes[..])
    ensures forall c :: 0 <= c < tableLen && sizes[c] == 0 ==> codes[c] == old(codes[c])
  {
    hide NextFor, CodesUpTo, Canonical.Code, Canonical.CodeBits, Canonical.Count, Canonical.End, Val, HighFirst;
    ghost var table := sizes[..tableLen];
    var next := FirstCodes(num, limit, table);
    NextStart(next[..], table, limit);
    NoCodesYet(table, codes[..]);
    for i := 0 to tableLen
      invariant NextFor(next[..], table, i, limit)
      invariant CodesUpTo(table, codes[..], i)
      invariant forall c :: 0 <= c < tableLen && table[c] == 0 ==> codes[c] == old(codes[c])
    {
      var size := sizes[i];
      assert size == table[i];
      ghost var next0, codes0 := next[..], codes[..];
      NextStep(next0, table, i, limit);
      CodesStep(table, codes0, i, next0[size]);
      if size != 0 {
        var code := next[size];
        var rev := Canonical.ReverseCode(code, size);
        next[size] := code + 1;
        assert next[..] == next0[size := next0[size] + 1];
        codes[i] := rev;
        assert codes[..] == codes0[i := rev];
      } else {
        assert next[..] == next0 && codes[..] == codes0;
      }
    }
    AllCodes(table, codes[..]);
  }

  lemma NoCodesYet(sizes: seq<nat>, codes: seq<nat>)
    requires |sizes| <= |codes|
    ensures CodesUpTo(sizes, codes, 0)
  {
  }

  lemma AllCodes(sizes: seq<nat>, codes: seq<nat>)
    requires CodesUpTo(sizes, codes, |sizes|)
    ensures CodesFor(sizes, codes)
  {
  }

  // ---------- the whole table ----------

  /**
   What the lengths promise: exactly the used symbols have one, the code is complete, and frequent symbols come first.
   */
  ghost predicate LengthsFor(counts: seq<nat>, sizes: seq<nat>, limit: nat)
  {
    && |sizes| == |counts|
    && (forall c :: 0 <= c < |counts| ==> sizes[c] <= limit && (sizes[c] > 0 <==> counts[c] > 0))
    && (forall c, e :: 0 <= c < |counts| && 0 <= e < |counts| && counts[c] > counts[e] > 0 ==> sizes[c] <= sizes[e])
    && (if |UsedSyms(counts)| >= 2 then Canonical.Complete(sizes, limit)
        else forall c :: 0 <= c < |sizes| ==> sizes[c] <= 1)
  }

  /** The minimum-redundancy lengths for the used symbols are kept whenever none of them exceeds the limit. */
  ghost predicate KeepsMinimum(counts: seq<nat>, sizes: seq<nat>, limit: nat)
  {
    exists order: seq<SymFreq>, lens: seq<nat> :: Minimum(counts, order, lens) && Respects(order, lens, sizes, limit)
  }

  ghost predicate Minimum(counts: seq<nat>, order: seq<SymFreq>, lens: seq<nat>)
  {
    Lists(order, counts) && SortedBy(order, WholeKey) && HuffmanLengths.MinimumLengths(MinRedundancy.KeysOf(order), lens)
  }

  ghost predicate Respects(order: seq<SymFreq>, lens: seq<nat>, sizes: seq<nat>, limit: nat)
  {
    && |lens| == |order| && (forall p :: 0 <= p < |order| ==> order[p].sym < |sizes|)
    && ((forall p :: 0 <= p < |lens| ==> lens[p] <= limit) ==>
          forall p :: 0 <= p < |order| ==> sizes[order[p].sym] == lens[p])
  }

  method CountLengths(syms: array<SymFreq>, n: nat) returns (num: array<int>)
    requires n <= syms.Length && forall p :: 0 <= p < n ==> syms[p].key <= HuffmanLimit.SUPPORTED
    ensures fresh(num) && num[..] == Hist(MinRedundancy.KeysOf(syms[..n]), HuffmanLimit.SUPPORTED)
  {
    num := new int[HuffmanLimit.SUPPORTED + 1](_ => 0);
    ghost var lens := MinRedundancy.KeysOf(syms[..n]);
    for i := 0 to n
      invariant forall l :: 0 <= l <= HuffmanLimit.SUPPORTED ==> num[l] == Canonical.Count(lens[..i], l)
    {
      assert lens[..i + 1][..i] == lens[..i];
      num[syms[i].key] := num[syms[i].key] + 1;
    }
    assert lens[..n] == lens;
  }

  /** The minimum-redundancy lengths fit the histogram and fill its code space. */
  lemma LengthsCounted(w: seq<nat>, lens: seq<nat>)
    requires HuffmanLengths.MinimumLengths(w, lens)
    ensures forall p :: 0 <= p < |lens| ==> 1 <= lens[p] <= HuffmanLimit.SUPPORTED
    ensures Descending(lens)
    ensures HuffmanLimit.Codes(Hist(lens, HuffmanLimit.SUPPORTED), 0, HuffmanLimit.SUPPORTED) == |lens|
    ensures |lens| >= 2 ==> HuffmanLimit.CompleteHistogram(Hist(lens, HuffmanLimit.SUPPORTED), HuffmanLimit.SUPPORTED)
  {
    if |lens| >= 2 {
      assert MinRedundancy.Filled(lens, 0, 23, MinRedundancy.HuffmanLimit.SUPPORTED);
      SpaceIsEnd(Hist(lens, HuffmanLimit.SUPPORTED), lens, HuffmanLimit.SUPPORTED);
      Canonical.EndIsKraftSum(lens, HuffmanLimit.SUPPORTED);
    }
    CodesOfHist(lens, HuffmanLimit.SUPPORTED);
  }

  /** A histogram within the limit: complete, with as many codes as symbols, and unchanged if that is possible. */
  ghost predicate Limited(lens: seq<nat>, num: seq<int>, limit: nat)
  {
    && limit < |num| && HuffmanLimit.NonNegative(num, limit) && HuffmanLimit.Codes(num, 0, limit) == |lens|
    && (|lens| >= 2 ==> HuffmanLimit.CompleteHistogram(num, limit))
    && ((forall p :: 0 <= p < |lens| ==> lens[p] <= limit) ==> Runs(num, limit) == lens)
  }

  lemma LimitedCodes(w: seq<nat>, lens: seq<nat>, num: seq<int>, limit: nat)
    requires HuffmanLengths.MinimumLengths(w, lens) && 1 <= limit < |num| == HuffmanLimit.SUPPORTED + 1
    requires |lens| >= 2 ==> HuffmanLimit.CompleteHistogram(num, limit) && HuffmanLimit.Codes(num, 0, limit) == |lens|
    requires |lens| <= 1 || HuffmanLimit.Codes(Hist(lens, HuffmanLimit.SUPPORTED), limit, HuffmanLimit.SUPPORTED) == 0 ==>
             num == Hist(lens, HuffmanLimit.SUPPORTED)
    ensures Limited(lens, num, limit)
  {
    LengthsCounted(w, lens);
    if forall p :: 0 <= p < |lens| ==> lens[p] <= limit {
      NoneLonger(lens, limit, HuffmanLimit.SUPPORTED, HuffmanLimit.SUPPORTED);
      RunsOfHist(lens, num, limit);
      HuffmanLimit.CodesSplit(num, 0, limit, HuffmanLimit.SUPPORTED);
    }
  }

  lemma TableReady(counts: seq<nat>, order: seq<SymFreq>, lens: seq<nat>, num: seq<int>, sizes: seq<nat>, limit: nat)
    requires Minimum(counts, order, lens) && 1 <= limit && |sizes| == |counts| && Limited(lens, num, limit)
    requires |UsedSyms(counts)| == |order| && Assigned(order, sizes, 0, Runs(num, limit))
    ensures LengthsFor(counts, sizes, limit) && KeepsMinimum(counts, sizes, limit)
  {
    hide Lists, SortedBy, Assigned, HuffmanLengths.MinimumLengths, Canonical.Count, Canonical.End, UsedSyms;
    var run := Runs(num, limit);
    RunsShape(num, limit);
    MinimumShape(counts, order, lens);
    SizesInOrder(counts, order, run, sizes, limit);
    if |lens| >= 2 {
      SizesComplete(order, lens, num, sizes, limit);
    } else {
      SmallTable(counts, order, lens, sizes);
    }
    SizesRespect(order, lens, run, sizes, limit);
  }

  lemma MinimumShape(counts: seq<nat>, order: seq<SymFreq>, lens: seq<nat>)
    requires Minimum(counts, order, lens)
    ensures |lens| == |order| && (|lens| == 1 ==> lens[0] == 1) && Lists(order, counts) && SortedBy(order, WholeKey)
  {
  }

  lemma SizesRespect(order: seq<SymFreq>, lens: seq<nat>, run: seq<nat>, sizes: seq<nat>, limit: nat)
    requires Assigned(order, sizes, 0, run) && |lens| == |order|
    requires (forall p :: 0 <= p < |lens| ==> lens[p] <= limit) ==> run == lens
    ensures Respects(order, lens, sizes, limit)
  {
  }

  lemma SizesComplete(order: seq<SymFreq>, lens: seq<nat>, num: seq<int>, sizes: seq<nat>, limit: nat)
    requires Limited(lens, num, limit) && |lens| >= 2 && Assigned(order, sizes, 0, Runs(num, limit))
    ensures Canonical.End(sizes, limit) == Pow2(limit)
  {
    SizesCounted(order, lens, num, sizes, limit);
    SpaceIsEnd(num, sizes, limit);
  }

  lemma SmallTable(counts: seq<nat>, order: seq<SymFreq>, lens: seq<nat>, sizes: seq<nat>)
    requires Minimum(counts, order, lens) && |lens| <= 1 && Assigned(order, sizes, 0, lens)
    ensures forall c :: 0 <= c < |sizes| ==> sizes[c] <= 1
  {
    forall c | 0 <= c < |sizes|
      ensures sizes[c] <= 1
    {
      if p :| 0 <= p < |order| && order[p].sym == c {
        assert sizes[order[p].sym] == lens[p];
      }
    }
  }

  lemma SizesInOrder(counts: seq<nat>, order: seq<SymFreq>, run: seq<nat>, sizes: seq<nat>, limit: nat)
    requires Lists(order, counts) && SortedBy(order, WholeKey) && |sizes| == |counts|
    requires Assigned(order, sizes, 0, run) && Descending(run) && forall p :: 0 <= p < |run| ==> 1 <= run[p] <= limit
    ensures forall c :: 0 <= c < |counts| ==> sizes[c] <= limit && (sizes[c] > 0 <==> counts[c] > 0)
    ensures forall c, e :: 0 <= c < |counts| && 0 <= e < |counts| && counts[c] > counts[e] > 0 ==> sizes[c] <= sizes[e]
  {
    forall c | 0 <= c < |counts|
      ensures sizes[c] <= limit && (sizes[c] > 0 <==> counts[c] > 0)
    {
      var p := SizeOf(counts, order, run, sizes, c);
    }
    forall c, e | 0 <= c < |counts| && 0 <= e < |counts| && counts[c] > counts[e] > 0
      ensures sizes[c] <= sizes[e]
    {
      var p := SizeOf(counts, order, run, sizes, c);
      var q := SizeOf(counts, order, run, sizes, e);
      assert order[p].key > order[q].key;
      assert q < p;
    }
  }

  /** Where a symbol stands in the order, and what that says about its length. */
  lemma SizeOf(counts: seq<nat>, order: seq<SymFreq>, run: seq<nat>, sizes: seq<nat>, c: nat) returns (p: nat)
    requires Lists(order, counts) && |sizes| == |counts| && Assigned(order, sizes, 0, run) && c < |counts|
    ensures counts[c] > 0 ==> p < |order| && order[p] == SymFreq(counts[c], c) && sizes[c] == run[p]
    ensures counts[c] == 0 ==> sizes[c] == 0
  {
    p := 0;
    if counts[c] > 0 {
      assert SymFreq(counts[c], c) in order;
      p :| 0 <= p < |order| && order[p] == SymFreq(counts[c], c);
    }
  }

  /** Sorting the used symbols gives ascending 16-bit weights whose total is unchanged. */
  lemma SortedWeights(counts: seq<nat>, order: seq<SymFreq>)
    requires Total(counts) < 65536 && SortedBy(order, WholeKey) && multiset(UsedSyms(counts)) == multiset(order)
    ensures Lists(order, counts) && |order| == |UsedSyms(counts)|
    ensures HuffmanLengths.HuffmanCost.Ascending(MinRedundancy.KeysOf(order))
    ensures MinRedundancy.Sum(MinRedundancy.KeysOf(order)) < 65536
    ensures forall p :: 0 <= p < |order| ==> order[p].key >= 1
  {
    UsedSymsList(counts);
    UsedTotal(counts);
    SortedLists(UsedSyms(counts), order, counts);
    SumOfPermutation(UsedSyms(counts), order);
    forall p, q | 0 <= p < q < |order|
      ensures order[p].key <= order[q].key
    {
      assert Class(WholeKey, order[p]) <= Class(WholeKey, order[q]);
    }
  }

  lemma UsedKeys16(counts: seq<nat>)
    requires Total(counts) < 65536
    ensures Keys16(UsedSyms(counts))
  {
    UsedSymsList(counts);
    forall i | 0 <= i < |UsedSyms(counts)|
      ensures UsedSyms(counts)[i].key < 65536
    {
      CountMember(counts, UsedSyms(counts)[i].sym);
    }
  }

  /** Sorts the used symbols by frequency and replaces their counts by code lengths. */
  method MinimumTable(counts: seq<nat>) returns (syms: array<SymFreq>, n: nat, ghost order: seq<SymFreq>)
    requires |counts| <= MAX_SYMBOLS && Total(counts) < 65536
    ensures fresh(syms) && n <= syms.Length && n == |UsedSyms(counts)|
    ensures Minimum(counts, order, MinRedundancy.KeysOf(syms[..n])) && |order| == n
    ensures forall p :: 0 <= p < n ==> syms[p].sym == order[p].sym
  {
    hide Lists, SortedBy, HuffmanLengths.MinimumLengths, MinRedundancy.Sum, Total, UsedSyms, Sel;
    var syms0 := new SymFreq[MAX_SYMBOLS];
    var syms1 := new SymFreq[MAX_SYMBOLS];
    n := CollectUsed(counts, syms0);
    UsedKeys16(counts);
    syms := RadixSortSyms(n, syms0, syms1);
    order := syms[..n];
    StableIsPermutation(UsedSyms(counts), order);
    SortedWeights(counts, order);
    HuffmanLengths.MinimumRedundancy(syms, n);
  }

  /**
   Builds the table for one alphabet from its symbol counts. The counts together fit in 16 bits, and the
   limit leaves room for all used symbols.
   */
  method OptimizeTable(counts: seq<nat>, sizes: array<nat>, codes: array<nat>, limit: nat)
    requires |counts| <= MAX_SYMBOLS == sizes.Length == codes.Length && sizes != codes
    requires Total(counts) < 65536 && 1 <= limit <= 30 && |UsedSyms(counts)| <= Pow2(limit)
    modifies sizes, codes
    ensures LengthsFor(counts, sizes[..|counts|], limit)
    ensures KeepsMinimum(counts, sizes[..|counts|], limit)
    ensures CodesFor(sizes[..|counts|], codes[..])
    ensures forall c :: 0 <= c < |counts| && sizes[c] == 0 ==> codes[c] == 0
  {
    hide LengthsFor, KeepsMinimum, CodesFor, Total, Canonical.Count;
    var num := OptimizeSizes(counts, sizes, limit);
    ghost var table, hist := sizes[..|counts|], num[..];
    forall c | 0 <= c < MAX_SYMBOLS { codes[c] := 0; }
    assert sizes[..|counts|] == table && num[..] == hist;
    AssignCodes(num, limit, sizes, codes, |counts|);
    assert sizes[..|counts|] == table;
  }

  /** The code lengths, with the number of codes of each length. */
  method OptimizeSizes(counts: seq<nat>, sizes: array<nat>, limit: nat) returns (num: array<int>)
    requires |counts| <= MAX_SYMBOLS == sizes.Length
    requires Total(counts) < 65536 && 1 <= limit <= 30 && |UsedSyms(counts)| <= Pow2(limit)
    modifies sizes
    ensures fresh(num) && num.Length == HuffmanLimit.SUPPORTED + 1
    ensures LengthsFor(counts, sizes[..|counts|], limit) && KeepsMinimum(counts, sizes[..|counts|], limit)
    ensures forall c :: 0 <= c < |counts| ==> sizes[c] <= limit
    ensures forall l :: 1 <= l <= limit ==> num[l] == Canonical.Count(sizes[..|counts|], l)
  {
    hide Limited, Minimum, Assigned, LengthsFor, KeepsMinimum, Total, Canonical.Count;
    var syms, n;
    ghost var order;
    syms, n, order := MinimumTable(counts);
    ghost var lens := MinRedundancy.KeysOf(syms[..n]);
    num := LimitLengths(syms, n, limit, counts, order);
    ghost var listed, hist := syms[..n], num[..];
    forall c | 0 <= c < MAX_SYMBOLS { sizes[c] := 0; }
    assert syms[..n] == listed && num[..] == hist;
    GiveSizes(syms, n, num, limit, sizes, counts, order);
    assert num[..] == hist;
    ghost var table := sizes[..|counts|];
    TableReady(counts, order, lens, hist, table, limit);
    SizesCounted(order, lens, hist, table, limit);
    SizesLimited(counts, table, limit);
    assert forall c :: 0 <= c < |counts| ==> sizes[c] == table[c];
  }

  method LimitLengths(syms: array<SymFreq>, n: nat, limit: nat, ghost counts: seq<nat>, ghost order: seq<SymFreq>)
    returns (num: array<int>)
    requires n <= syms.Length && 1 <= limit <= 30 && n <= Pow2(limit)
    requires Minimum(counts, order, MinRedundancy.KeysOf(syms[..n]))
    ensures fresh(num) && num.Length == HuffmanLimit.SUPPORTED + 1
            && Limited(MinRedundancy.KeysOf(syms[..n]), num[..], limit)
  {
    hide Limited, HuffmanLimit.CompleteHistogram, HuffmanLimit.Codes, Total, Lists, SortedBy, Pow2;
    ghost var lens := MinRedundancy.KeysOf(syms[..n]);
    LengthsCounted(MinRedundancy.KeysOf(order), lens);
    forall p | 0 <= p < n
      ensures syms[p].key <= HuffmanLimit.SUPPORTED
    {
      assert lens[p] <= HuffmanLimit.SUPPORTED;
    }
    num := CountLengths(syms, n);
    HuffmanLimit.EnforceMaxCodeSize(num, n, limit);
    LimitedCodes(MinRedundancy.KeysOf(order), lens, num[..], limit);
  }

  method GiveSizes(syms: array<SymFreq>, n: nat, num: array<int>, limit: nat, sizes: array<nat>,
                   counts: seq<nat>, ghost order: seq<SymFreq>)
    requires n <= syms.Length && |counts| <= sizes.Length && |order| == n
    requires Minimum(counts, order, MinRedundancy.KeysOf(syms[..n]))
    requires Limited(MinRedundancy.KeysOf(syms[..n]), num[..], limit)
    requires forall p :: 0 <= p < n ==> syms[p].sym == order[p].sym
    requires forall c :: 0 <= c < |counts| ==> sizes[c] == 0
    modifies sizes
    ensures Assigned(order, sizes[..|counts|], 0, Runs(num[..], limit))
  {
    assert Lists(order, counts);
    AssignNone(syms[..n], sizes[..|counts|]);
    AssignSizes(syms, n, num, limit, sizes, |counts|);
    AssignedSame(syms[..n], order, sizes[..|counts|], 0, Runs(num[..], limit));
  }

  lemma SizesCounted(order: seq<SymFreq>, lens: seq<nat>, num: seq<int>, sizes: seq<nat>, limit: nat)
    requires Limited(lens, num, limit) && Assigned(order, sizes, 0, Runs(num, limit))
    ensures forall l :: 1 <= l <= limit ==> num[l] == Canonical.Count(sizes, l)
  {
    forall l | 1 <= l <= limit
      ensures num[l] == Canonical.Count(sizes, l)
    {
      CountRuns(num, limit, l);
    }
  }

  lemma SizesLimited(counts: seq<nat>, sizes: seq<nat>, limit: nat)
    requires LengthsFor(counts, sizes, limit)
    ensures forall c :: 0 <= c < |sizes| ==> sizes[c] <= limit
  {
  }

  /** The codes of a table whose lengths are given, as for the blocks with fixed codes. */
  method StaticTable(sizes: array<nat>, codes: array<nat>, tableLen: nat, limit: nat)
    requires tableLen <= sizes.Length && tableLen <= codes.Length && sizes != codes
             && 1 <= limit <= HuffmanLimit.SUPPORTED
    requires forall c :: 0 <= c < tableLen ==> sizes[c] <= limit
    modifies codes
    ensures CodesFor(sizes[..tableLen], codes[..])
  {
    var num := new int[HuffmanLimit.SUPPORTED + 1](_ => 0);
    ghost var table := sizes[..tableLen];
    for i := 0 to tableLen
      invariant forall l :: 0 <= l <= HuffmanLimit.SUPPORTED ==> num[l] == Canonical.Count(table[..i], l)
    {
      assert table[..i + 1][..i] == table[..i];
      num[sizes[i]] := num[sizes[i]] + 1;
    }
    assert table[..tableLen] == table;
    AssignCodes(num, limit, sizes, codes, tableLen);
  }
}
