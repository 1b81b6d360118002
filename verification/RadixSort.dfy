/**
 Sorting symbols by frequency (qqwry/miniz.c, tdefl_radix_sort_syms): a least-significant-digit radix sort
 of 16-bit keys between two buffers, which skips the second pass when every key fits in one byte.
 */
module RadixSort {

  datatype SymFreq = SymFreq(key: nat, sym: nat)

  /** The low byte of a key and what is above it, by counting down. */
  function Lo(k: nat): (b: nat)
    ensures b < 256
  {
    if k < 256 then k else Lo(k - 256)
  }

  function Hi(k: nat): (b: nat)
  {
    if k < 256 then 0 else 1 + Hi(k - 256)
  }

  lemma {:induction false} LoHi(k: nat)
    ensures k == 256 * Hi(k) + Lo(k)
    ensures Lo(k) == k % 256 && Hi(k) == k / 256
  {
    if k >= 256 {
      LoHi(k - 256);
    }
  }

  /** What an element is grouped by: its low byte, its high byte or its whole key. */
  datatype Mode = LowByte | HighByte | WholeKey

  function Class(mode: Mode, x: SymFreq): (c: nat)
  {
    match mode
    case LowByte => Lo(x.key)
    case HighByte => Hi(x.key)
    case WholeKey => x.key
  }

  /** The elements of class c, in order. */
  function Sel(s: seq<SymFreq>, mode: Mode, c: nat): (r: seq<SymFreq>)
    ensures |r| <= |s|
  {
    if s == [] then []
    else
      var k := |s| - 1;
      Sel(s[..k], mode, c) + (if Class(mode, s[k]) == c then [s[k]] else [])
  }

  /** The classes 0 up to d - 1, one after the other: what one pass of the sort produces. */
  function Buckets(s: seq<SymFreq>, mode: Mode, d: nat): (r: seq<SymFreq>)
  {
    if d == 0 then [] else Buckets(s, mode, d - 1) + Sel(s, mode, d - 1)
  }

  ghost predicate SortedBy(s: seq<SymFreq>, mode: Mode)
  {
    forall i, j :: 0 <= i < j < |s| ==> Class(mode, s[i]) <= Class(mode, s[j])
  }

  /** Same elements, and elements with equal keys in the same order. */
  ghost predicate StableRearrangement(s: seq<SymFreq>, r: seq<SymFreq>)
  {
    forall k: nat :: Sel(r, WholeKey, k) == Sel(s, WholeKey, k)
  }

  ghost predicate Keys16(s: seq<SymFreq>)
  {
    forall i :: 0 <= i < |s| ==> s[i].key < 65536
  }

  // ---------- selections ----------

  lemma {:induction false} SelConcat(a: seq<SymFreq>, b: seq<SymFreq>, mode: Mode, c: nat)
    ensures Sel(a + b, mode, c) == Sel(a, mode, c) + Sel(b, mode, c)
  {
    if b == [] {
      assert a + b == a;
    } else {
      var k := |b| - 1;
      SelConcat(a, b[..k], mode, c);
      assert (a + b)[..|a + b| - 1] == a + b[..k];
    }
  }

  lemma {:induction false} SelElements(s: seq<SymFreq>, mode: Mode, c: nat, i: nat)
    requires i < |Sel(s, mode, c)|
    ensures Sel(s, mode, c)[i] in s && Class(mode, Sel(s, mode, c)[i]) == c
  {
    var k := |s| - 1;
    if i < |Sel(s[..k], mode, c)| {
      SelElements(s[..k], mode, c, i);
    }
  }

  lemma {:induction false} SelWithin(s: seq<SymFreq>, mode: Mode, c: nat, k: nat)
    requires mode != WholeKey
    ensures Sel(Sel(s, mode, c), WholeKey, k) == if Class(mode, SymFreq(k, 0)) == c then Sel(s, WholeKey, k) else []
  {
    if s != [] {
      var n := |s| - 1;
      var rest, last := Sel(s[..n], mode, c), s[n];
      SelWithin(s[..n], mode, c, k);
      assert Class(mode, last) == Class(mode, SymFreq(last.key, 0));
      if Class(mode, last) == c {
        SelSnoc(rest, last, WholeKey, k);
      } else {
        assert Sel(s, mode, c) == rest;
      }
    }
  }

  lemma SelSnoc(s: seq<SymFreq>, x: SymFreq, mode: Mode, c: nat)
    ensures Sel(s + [x], mode, c) == Sel(s, mode, c) + (if Class(mode, x) == c then [x] else [])
  {
    assert (s + [x])[..|s|] == s;
  }

  /** A pass gathers all elements with one key in one bucket, so it keeps their order. */
  lemma {:induction false} BucketsStable(s: seq<SymFreq>, mode: Mode, d: nat, k: nat)
    requires mode != WholeKey
    ensures Sel(Buckets(s, mode, d), WholeKey, k) == if Class(mode, SymFreq(k, 0)) < d then Sel(s, WholeKey, k) else []
  {
    hide Sel;
    if d > 0 {
      var before, last := Buckets(s, mode, d - 1), Sel(s, mode, d - 1);
      BucketsStable(s, mode, d - 1, k);
      SelWithin(s, mode, d - 1, k);
      SelConcat(before, last, WholeKey, k);
      if Class(mode, SymFreq(k, 0)) == d - 1 {
        assert Sel(before, WholeKey, k) == [];
      } else {
        assert Sel(last, WholeKey, k) == [];
      }
    }
  }

  lemma PassIsStable(s: seq<SymFreq>, mode: Mode)
    requires mode != WholeKey && Keys16(s)
    ensures StableRearrangement(s, Buckets(s, mode, 256))
  {
    forall k: nat
      ensures Sel(Buckets(s, mode, 256), WholeKey, k) == Sel(s, WholeKey, k)
    {
      BucketsStable(s, mode, 256, k);
      LoHi(k);
      if k >= 65536 {
        NoSuchKey(s, k);
      }
    }
  }

  lemma {:induction false} NoSuchKey(s: seq<SymFreq>, k: nat)
    requires Keys16(s) && k >= 65536
    ensures Sel(s, WholeKey, k) == []
  {
    if s != [] {
      NoSuchKey(s[..|s| - 1], k);
    }
  }

  // ---------- a stable rearrangement is a permutation ----------

  lemma {:induction false} SelCounts(s: seq<SymFreq>, x: SymFreq)
    ensures multiset(s)[x] == multiset(Sel(s, WholeKey, x.key))[x]
  {
    if s != [] {
      var k := |s| - 1;
      SelCounts(s[..k], x);
      assert s == s[..k] + [s[k]];
    }
  }

  lemma StableIsPermutation(s: seq<SymFreq>, r: seq<SymFreq>)
    requires StableRearrangement(s, r)
    ensures multiset(s) == multiset(r)
  {
    forall x: SymFreq
      ensures multiset(s)[x] == multiset(r)[x]
    {
      SelCounts(s, x);
      SelCounts(r, x);
    }
  }

  lemma SelRemove(s: seq<SymFreq>, j: nat, mode: Mode, c: nat)
    requires j < |s|
    ensures |Sel(s, mode, c)| == |Sel(s[..j] + s[j + 1..], mode, c)| + (if Class(mode, s[j]) == c then 1 else 0)
  {
    var x := s[j];
    assert s == s[..j] + ([x] + s[j + 1..]);
    SelConcat(s[..j], [x] + s[j + 1..], mode, c);
    SelConcat([x], s[j + 1..], mode, c);
    SelConcat(s[..j], s[j + 1..], mode, c);
    assert [x][..0] == [];
    assert Sel([x], mode, c) == Sel([x][..0], mode, c) + (if Class(mode, x) == c then [x] else []);
  }

  lemma {:induction false} SelCountPermuted(a: seq<SymFreq>, b: seq<SymFreq>, mode: Mode, c: nat)
    requires multiset(a) == multiset(b)
    ensures |Sel(a, mode, c)| == |Sel(b, mode, c)|
    decreases |a|
  {
    if a == [] {
      assert |b| == |multiset(b)| == 0;
    } else {
      var k := |a| - 1;
      var x := a[k];
      assert a == a[..k] + [x];
      assert x in multiset(a);
      var j :| 0 <= j < |b| && b[j] == x;
      assert b == b[..j] + [x] + b[j + 1..];
      assert multiset(a) == multiset(a[..k]) + multiset{x};
      assert multiset(b) == multiset(b[..j] + b[j + 1..]) + multiset{x};
      assert multiset(a[..k]) == multiset(a) - multiset{x};
      SelRemove(b, j, mode, c);
      SelCountPermuted(a[..k], b[..j] + b[j + 1..], mode, c);
    }
  }

  lemma PermutedLength(a: seq<SymFreq>, b: seq<SymFreq>)
    requires multiset(a) == multiset(b)
    ensures |a| == |b|
  {
    assert |multiset(a)| == |a| && |multiset(b)| == |b|;
  }

  // ---------- two passes sort ----------

  lemma {:induction false} SelSorted(s: seq<SymFreq>, mode: Mode, c: nat, order: Mode)
    requires SortedBy(s, order)
    ensures SortedBy(Sel(s, mode, c), order)
  {
    if s != [] {
      var k := |s| - 1;
      SelSorted(s[..k], mode, c, order);
      var rest := Sel(s[..k], mode, c);
      forall i | 0 <= i < |rest|
        ensures Class(order, rest[i]) <= Class(order, s[k])
      {
        SelElements(s[..k], mode, c, i);
      }
    }
  }

  lemma {:induction false} BucketsElements(s: seq<SymFreq>, mode: Mode, d: nat, i: nat)
    requires i < |Buckets(s, mode, d)|
    ensures Buckets(s, mode, d)[i] in s && Class(mode, Buckets(s, mode, d)[i]) < d
  {
    var before := Buckets(s, mode, d - 1);
    if i < |before| {
      BucketsElements(s, mode, d - 1, i);
    } else {
      SelElements(s, mode, d - 1, i - |before|);
    }
  }

  lemma {:induction false} BucketsSorted(s: seq<SymFreq>, mode: Mode, d: nat)
    ensures SortedBy(Buckets(s, mode, d), mode)
  {
    if d > 0 {
      BucketsSorted(s, mode, d - 1);
      var before, last := Buckets(s, mode, d - 1), Sel(s, mode, d - 1);
      forall i | 0 <= i < |before|
        ensures Class(mode, before[i]) < d - 1
      {
        BucketsElements(s, mode, d - 1, i);
      }
      forall i | 0 <= i < |last|
        ensures Class(mode, last[i]) == d - 1
      {
        SelElements(s, mode, d - 1, i);
      }
    }
  }

  /** Distributing by the high byte what is already sorted by the low byte sorts by the key. */
  lemma {:induction false} BucketsSortKeys(s: seq<SymFreq>, d: nat)
    requires Keys16(s) && SortedBy(s, LowByte)
    ensures SortedBy(Buckets(s, HighByte, d), WholeKey)
  {
    if d > 0 {
      BucketsSortKeys(s, d - 1);
      var before, last := Buckets(s, HighByte, d - 1), Sel(s, HighByte, d - 1);
      SelSorted(s, HighByte, d - 1, LowByte);
      forall i | 0 <= i < |before|
        ensures before[i].key < 256 * (d - 1)
      {
        BucketsElements(s, HighByte, d - 1, i);
        LoHi(before[i].key);
      }
      forall i | 0 <= i < |last|
        ensures last[i].key == 256 * (d - 1) + Class(LowByte, last[i])
      {
        SelElements(s, HighByte, d - 1, i);
        LoHi(last[i].key);
      }
    }
  }

  /** When every high byte is zero, the low byte is the key. */
  lemma {:induction false} AllInClass(s: seq<SymFreq>, mode: Mode, c: nat, i: nat)
    requires |Sel(s, mode, c)| == |s| && i < |s|
    ensures Class(mode, s[i]) == c
  {
    var k := |s| - 1;
    if i < k {
      AllInClass(s[..k], mode, c, i);
    }
  }

  lemma SmallKeysSorted(s: seq<SymFreq>)
    requires Keys16(s) && SortedBy(s, LowByte)
    requires Count(s, HighByte, 0) == |s|
    ensures SortedBy(s, WholeKey)
  {
    CountIsLength(s, HighByte, 0);
    forall i | 0 <= i < |s|
      ensures s[i].key == Class(LowByte, s[i])
    {
      AllInClass(s, HighByte, 0, i);
      LoHi(s[i].key);
    }
  }

  // ---------- one distribution pass ----------

  /** The number of elements of class c. */
  function Count(s: seq<SymFreq>, mode: Mode, c: nat): (n: nat)
  {
    if s == [] then 0
    else
      var k := |s| - 1;
      Count(s[..k], mode, c) + (if Class(mode, s[k]) == c then 1 else 0)
  }

  /** Where bucket d starts. */
  function Start(s: seq<SymFreq>, mode: Mode, d: nat): (n: nat)
  {
    if d == 0 then 0 else Start(s, mode, d - 1) + Count(s, mode, d - 1)
  }

  lemma {:induction false} CountIsLength(s: seq<SymFreq>, mode: Mode, c: nat)
    ensures Count(s, mode, c) == |Sel(s, mode, c)|
  {
    if s != [] {
      CountIsLength(s[..|s| - 1], mode, c);
    }
  }

  lemma {:induction false} StartIsLength(s: seq<SymFreq>, mode: Mode, d: nat)
    ensures Start(s, mode, d) == |Buckets(s, mode, d)|
  {
    hide Sel, Count;
    if d > 0 {
      StartIsLength(s, mode, d - 1);
      CountIsLength(s, mode, d - 1);
    }
  }

  lemma {:induction false} StartMonotone(s: seq<SymFreq>, mode: Mode, d: nat, e: nat)
    requires d <= e
    ensures Start(s, mode, d) <= Start(s, mode, e)
    decreases e
  {
    if d < e {
      StartMonotone(s, mode, d, e - 1);
    }
  }

  lemma {:induction false} CountPrefix(s: seq<SymFreq>, mode: Mode, c: nat, i: nat)
    requires i <= |s|
    ensures Count(s[..i], mode, c) <= Count(s, mode, c)
    ensures i < |s| && Class(mode, s[i]) == c ==> Count(s[..i], mode, c) < Count(s, mode, c)
    decreases |s|
  {
    if i < |s| {
      var k := |s| - 1;
      assert s[..k][..i] == s[..i];
      CountPrefix(s[..k], mode, c, i);
    } else {
      assert s[..i] == s;
    }
  }

  lemma StartOfAll(s: seq<SymFreq>, mode: Mode)
    requires mode != WholeKey && Keys16(s)
    ensures Start(s, mode, 256) == |s|
  {
    PassIsStable(s, mode);
    StableIsPermutation(s, Buckets(s, mode, 256));
    PermutedLength(s, Buckets(s, mode, 256));
    StartIsLength(s, mode, 256);
  }

  /** Bucket d of the output holds the elements of class d among the first i. */
  ghost predicate Filled(cur: seq<SymFreq>, out: seq<SymFreq>, mode: Mode, i: nat, d: nat, end: nat)
    requires i <= |cur|
  {
    var start := Start(cur, mode, d);
    end == start + Count(cur[..i], mode, d) && end <= |out| && out[start..end] == Sel(cur[..i], mode, d)
  }

  lemma NothingFilled(cur: seq<SymFreq>, out: seq<SymFreq>, mode: Mode, d: nat)
    requires Start(cur, mode, d) <= |out|
    ensures Filled(cur, out, mode, 0, d, Start(cur, mode, d))
  {
    assert cur[..0] == [];
  }

  /** Placing element i at the end of its bucket. */
  lemma PlaceInBucket(cur: seq<SymFreq>, out: seq<SymFreq>, mode: Mode, i: nat, p: nat)
    requires i < |cur| && p < |out| && Filled(cur, out, mode, i, Class(mode, cur[i]), p)
    ensures Filled(cur, out[p := cur[i]], mode, i + 1, Class(mode, cur[i]), p + 1)
  {
    assert cur[..i + 1][..i] == cur[..i];
    var start := Start(cur, mode, Class(mode, cur[i]));
    assert out[p := cur[i]][start..p + 1] == out[start..p] + [cur[i]];
  }

  lemma PlaceElsewhere(cur: seq<SymFreq>, out: seq<SymFreq>, mode: Mode, i: nat, d: nat, end: nat, p: nat)
    requires i < |cur| && Filled(cur, out, mode, i, d, end) && d != Class(mode, cur[i])
    requires p < |out| && p == Start(cur, mode, Class(mode, cur[i])) + Count(cur[..i], mode, Class(mode, cur[i]))
    ensures Filled(cur, out[p := cur[i]], mode, i + 1, d, end)
  {
    var c := Class(mode, cur[i]);
    assert cur[..i + 1][..i] == cur[..i];
    CountPrefix(cur, mode, d, i);
    CountPrefix(cur, mode, c, i);
    var start := Start(cur, mode, d);
    if d < c {
      StartMonotone(cur, mode, d + 1, c);
    } else {
      StartMonotone(cur, mode, c + 1, d);
    }
    assert out[p := cur[i]][start..end] == out[start..end];
  }

  lemma {:induction false} AllFilled(cur: seq<SymFreq>, out: seq<SymFreq>, mode: Mode, offsets: seq<nat>, d: nat)
    requires d <= |offsets|
    requires forall e :: 0 <= e < |offsets| ==> Filled(cur, out, mode, |cur|, e, offsets[e])
    requires Start(cur, mode, d) <= |out|
    ensures out[..Start(cur, mode, d)] == Buckets(cur, mode, d)
  {
    if d > 0 {
      var start, end := Start(cur, mode, d - 1), Start(cur, mode, d);
      AllFilled(cur, out, mode, offsets, d - 1);
      assert cur[..|cur|] == cur;
      assert Filled(cur, out, mode, |cur|, d - 1, offsets[d - 1]);
      assert out[..end] == out[..start] + out[start..end];
    }
  }

  /** The byte of the key that a pass looks at. */
  function Digit(mode: Mode, x: SymFreq): (c: nat)
    requires mode != WholeKey && x.key < 65536
    ensures c == Class(mode, x) < 256
  {
    LoHi(x.key);
    if mode == LowByte then x.key % 256 else x.key / 256 % 256
  }

  /** Where each bucket starts, from how many elements each class has. */
  method BucketOffsets(hist: array<nat>, ghost cur: seq<SymFreq>, ghost mode: Mode) returns (offsets: array<nat>)
    requires hist.Length == 256
    requires forall d :: 0 <= d < 256 ==> hist[d] == Count(cur, mode, d)
    ensures fresh(offsets) && offsets.Length == 256
    ensures forall d :: 0 <= d < 256 ==> offsets[d] == Start(cur, mode, d)
  {
    hide Count;
    offsets := new nat[256];
    var curOfs := 0;
    for d := 0 to 256
      invariant curOfs == Start(cur, mode, d)
      invariant forall e :: 0 <= e < d ==> offsets[e] == Start(cur, mode, e)
    {
      offsets[d] := curOfs;
      curOfs := curOfs + hist[d];
    }
  }

  /** Distributes the first n elements of src over the buckets of dst. */
  method Distribute(n: nat, src: array<SymFreq>, dst: array<SymFreq>, hist: array<nat>, mode: Mode)
    requires n <= src.Length && n <= dst.Length && src != dst && mode != WholeKey && Keys16(src[..n])
    requires hist.Length == 256
    requires forall d :: 0 <= d < 256 ==> hist[d] == Count(src[..n], mode, d)
    modifies dst
    ensures dst[..n] == Buckets(src[..n], mode, 256)
  {
    ghost var cur := src[..n];
    StartOfAll(cur, mode);
    var offsets := BucketOffsets(hist, cur, mode);
    forall d | 0 <= d < 256
      ensures Filled(cur, dst[..], mode, 0, d, offsets[d])
    {
      StartMonotone(cur, mode, d, 256);
      NothingFilled(cur, dst[..], mode, d);
    }
    for i := 0 to n
      invariant src[..n] == cur
      invariant forall d :: 0 <= d < 256 ==> Filled(cur, dst[..], mode, i, d, offsets[d])
    {
      Place(src, dst, offsets, mode, i, n);
    }
    AllFilled(cur, dst[..], mode, offsets[..], 256);
  }

  /** Moves element i to the next free place of its bucket. */
  method Place(src: array<SymFreq>, dst: array<SymFreq>, offsets: array<nat>, mode: Mode, i: nat, ghost n: nat)
    requires i < n <= src.Length && n <= dst.Length && src != dst && mode != WholeKey && Keys16(src[..n])
    requires offsets.Length == 256
    requires forall d :: 0 <= d < 256 ==> Filled(src[..n], dst[..], mode, i, d, offsets[d])
    modifies dst, offsets
    ensures forall d :: 0 <= d < 256 ==> Filled(src[..n], dst[..], mode, i + 1, d, offsets[d])
  {
    ghost var cur, out, ofs := src[..n], dst[..], offsets[..];
    assert src[i] == cur[i];
    var c := Digit(mode, src[i]);
    var p := offsets[c];
    assert Filled(cur, out, mode, i, c, p);
    CountPrefix(cur, mode, c, i);
    StartMonotone(cur, mode, c + 1, 256);
    StartOfAll(cur, mode);
    dst[p] := src[i];
    offsets[c] := p + 1;
    assert dst[..] == out[p := cur[i]];
    forall d | 0 <= d < 256
      ensures Filled(cur, out[p := cur[i]], mode, i + 1, d, offsets[d])
    {
      assert Filled(cur, out, mode, i, d, ofs[d]);
      if d == c {
        PlaceInBucket(cur, out, mode, i, p);
      } else {
        PlaceElsewhere(cur, out, mode, i, d, ofs[d], p);
      }
    }
  }

  method Histograms(n: nat, syms: array<SymFreq>) returns (low: array<nat>, high: array<nat>)
    requires n <= syms.Length && Keys16(syms[..n])
    ensures fresh(low) && fresh(high) && low != high && low.Length == 256 && high.Length == 256
    ensures forall d :: 0 <= d < 256 ==>
            low[d] == Count(syms[..n], LowByte, d) && high[d] == Count(syms[..n], HighByte, d)
  {
    low := new nat[256](_ => 0);
    high := new nat[256](_ => 0);
    for i := 0 to n
      invariant forall d :: 0 <= d < 256 ==>
                  low[d] == Count(syms[..i], LowByte, d) && high[d] == Count(syms[..i], HighByte, d)
    {
      assert syms[..i + 1][..i] == syms[..i] && syms[i] == syms[..n][i];
      var l, h := Digit(LowByte, syms[i]), Digit(HighByte, syms[i]);
      low[l] := low[l] + 1;
      high[h] := high[h] + 1;
    }
  }

  /**
   Sorts n symbols by key, in one pass or two, and returns the buffer that holds the result. Symbols with
   equal keys keep their order.
   */
  method RadixSortSyms(n: nat, syms0: array<SymFreq>, syms1: array<SymFreq>) returns (sorted: array<SymFreq>)
    requires n <= syms0.Length && n <= syms1.Length && syms0 != syms1
    requires Keys16(syms0[..n])
    modifies syms0, syms1
    ensures sorted == syms0 || sorted == syms1
    ensures SortedBy(sorted[..n], WholeKey)
    ensures StableRearrangement(old(syms0[..n]), sorted[..n])
  {
    ghost var input := syms0[..n];
    var low, high := Histograms(n, syms0);
    var totalPasses := 2;
    if n == high[0] {
      totalPasses := 1;
    }
    Distribute(n, syms0, syms1, low, LowByte);
    ghost var once := syms1[..n];
    PassIsStable(input, LowByte);
    BucketsSorted(input, LowByte, 256);
    StableKeys(input, once);
    if totalPasses == 1 {
      SmallKeysSorted(once);
      return syms1;
    }
    Distribute(n, syms1, syms0, high, HighByte);
    PassIsStable(once, HighByte);
    BucketsSortKeys(once, 256);
    return syms0;
  }

  lemma StableKeys(s: seq<SymFreq>, r: seq<SymFreq>)
    requires StableRearrangement(s, r) && Keys16(s)
    ensures Keys16(r) && |s| == |r|
    ensures forall d: nat :: Count(r, HighByte, d) == Count(s, HighByte, d)
  {
    StableIsPermutation(s, r);
    PermutedLength(s, r);
    forall d: nat
      ensures Count(r, HighByte, d) == Count(s, HighByte, d)
    {
      SelCountPermuted(s, r, HighByte, d);
      CountIsLength(s, HighByte, d);
      CountIsLength(r, HighByte, d);
    }
    forall i | 0 <= i < |r|
      ensures r[i].key < 65536
    {
      assert r[i] in multiset(r);
      assert r[i] in s;
    }
  }
}
