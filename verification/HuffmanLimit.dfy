/**
 Limiting the code lengths of a Huffman code (qqwry/miniz.c, tdefl_huffman_enforce_max_code_size).

 A length histogram says how many codes of each length there are. The limiter moves every code that is too
 long to the maximum length, which oversubscribes the code space, and then repairs the code space one unit
 at a time by pushing a shorter code one level down.
 */
module HuffmanLimit {
  import opened Bits

  const SUPPORTED: nat := 32

  /** The code space used by the lengths up to l, in units of 2^-l. */
  function Space(num: seq<int>, l: nat): (e: int)
    requires l < |num|
  {
    if l == 0 then 0 else 2 * Space(num, l - 1) + num[l]
  }

  /** The number of codes with lengths lo + 1 up to hi. */
  function Codes(num: seq<int>, lo: nat, hi: nat): (n: int)
    requires lo <= hi < |num|
    decreases hi
  {
    if lo == hi then 0 else Codes(num, lo, hi - 1) + num[hi]
  }

  ghost predicate NonNegative(num: seq<int>, hi: nat)
    requires hi < |num|
  {
    forall i :: 1 <= i <= hi ==> num[i] >= 0
  }

  /** A histogram whose codes of up to n bits fill the code space exactly. */
  ghost predicate CompleteHistogram(num: seq<int>, n: nat)
    requires n < |num|
  {
    NonNegative(num, n) && Space(num, n) == Pow2(n)
  }

  // ---------- arithmetic of histograms ----------

  lemma {:induction false} SpaceFrame(a: seq<int>, b: seq<int>, l: nat)
    requires l < |a| && l < |b| && forall i :: 1 <= i <= l ==> a[i] == b[i]
    ensures Space(a, l) == Space(b, l)
  {
    if l > 0 {
      SpaceFrame(a, b, l - 1);
    }
  }

  lemma {:induction false} CodesFrame(a: seq<int>, b: seq<int>, lo: nat, hi: nat)
    requires lo <= hi < |a| && hi < |b| && forall i :: lo < i <= hi ==> a[i] == b[i]
    ensures Codes(a, lo, hi) == Codes(b, lo, hi)
    decreases hi
  {
    if lo < hi {
      CodesFrame(a, b, lo, hi - 1);
    }
  }

  lemma SpaceTop(num: seq<int>, m: nat, d: int)
    requires 1 <= m < |num|
    ensures Space(num[m := num[m] + d], m) == Space(num, m) + d
  {
    SpaceFrame(num[m := num[m] + d], num, m - 1);
  }

  /** Trading one code for two codes one bit longer keeps the code space. */
  lemma {:induction false} SpacePush(num: seq<int>, i: nat, m: nat)
    requires 1 <= i < m < |num|
    ensures Space(Pushed(num, i), m) == Space(num, m)
    decreases m
  {
    var num' := Pushed(num, i);
    if i + 1 == m {
      SpaceFrame(num', num, i - 1);
      assert Space(num', m) == 2 * (2 * Space(num', i - 1) + num'[i]) + num'[m];
      assert Space(num, m) == 2 * (2 * Space(num, i - 1) + num[i]) + num[m];
    } else {
      SpacePush(num, i, m - 1);
    }
  }

  function Pushed(num: seq<int>, i: nat): (num': seq<int>)
    requires 1 <= i < |num| - 1
  {
    num[i := num[i] + -1][i + 1 := num[i + 1] + 2]
  }

  lemma {:induction false} CodesUpdate(num: seq<int>, i: nat, d: int, lo: nat, hi: nat)
    requires lo < i <= hi < |num|
    ensures Codes(num[i := num[i] + d], lo, hi) == Codes(num, lo, hi) + d
    decreases hi
  {
    if i == hi {
      CodesFrame(num[i := num[i] + d], num, lo, hi - 1);
    } else {
      CodesUpdate(num, i, d, lo, hi - 1);
    }
  }

  lemma {:induction false} CodesSplit(num: seq<int>, lo: nat, mid: nat, hi: nat)
    requires lo <= mid <= hi < |num|
    ensures Codes(num, lo, hi) == Codes(num, lo, mid) + Codes(num, mid, hi)
    decreases hi
  {
    if mid < hi {
      CodesSplit(num, lo, mid, hi - 1);
    }
  }

  lemma {:induction false} CodesNonNegative(num: seq<int>, lo: nat, hi: nat)
    requires lo <= hi < |num| && NonNegative(num, hi)
    ensures Codes(num, lo, hi) >= 0
    decreases hi
  {
    if lo < hi {
      CodesNonNegative(num, lo, hi - 1);
    }
  }

  /** In a complete histogram the shorter codes never overfill the space of their level. */
  lemma {:induction false} SpaceBelow(num: seq<int>, l: nat, n: nat)
    requires l <= n < |num| && CompleteHistogram(num, n)
    ensures Space(num, l) <= Pow2(l)
    decreases n - l
  {
    if l < n {
      SpaceBelow(num, l + 1, n);
    }
  }

  /** The codes longer than l are at least as many as the free places at level l. */
  lemma {:induction false} EnoughLongCodes(num: seq<int>, l: nat, n: nat)
    requires l <= n < |num| && CompleteHistogram(num, n)
    ensures Codes(num, l, n) >= Pow2(l) - Space(num, l)
    decreases n - l
  {
    if l < n {
      EnoughLongCodes(num, l + 1, n);
      CodesSplit(num, l, l + 1, n);
      assert Codes(num, l, l + 1) == Codes(num, l, l) + num[l + 1];
      SpaceBelow(num, l, n);
    }
  }

  /** If the codes up to l fill their level, there are no longer codes. */
  lemma {:induction false} NoLongCodes(num: seq<int>, l: nat, n: nat)
    requires l <= n < |num| && CompleteHistogram(num, n) && Space(num, l) == Pow2(l)
    ensures Codes(num, l, n) == 0
    decreases n - l
  {
    if l < n {
      SpaceBelow(num, l + 1, n);
      assert num[l + 1] == 0;
      NoLongCodes(num, l + 1, n);
      CodesSplit(num, l, l + 1, n);
      assert Codes(num, l, l + 1) == Codes(num, l, l) + num[l + 1];
    }
  }

  lemma {:induction false} NonNegativeZero(num: seq<int>, lo: nat, hi: nat, i: nat)
    requires lo < i <= hi < |num| && NonNegative(num, hi) && Codes(num, lo, hi) == 0
    ensures num[i] == 0
    decreases hi
  {
    CodesNonNegative(num, lo, hi - 1);
    if i < hi {
      NonNegativeZero(num, lo, hi - 1, i);
    }
  }

  /** The state in which the repair loop works: only the maximum length can be oversubscribed. */
  ghost predicate Repairing(num: seq<int>, max: nat, total: int, codes: int)
    requires 1 <= max < |num|
  {
    && NonNegative(num, max)
    && Space(num, max) == total >= Pow2(max)
    && Codes(num, 0, max) == codes <= Pow2(max)
    && (total > Pow2(max) ==> 2 * Space(num, max - 1) < Pow2(max))
  }

  /** Moving the long codes to the maximum length starts a repair. */
  lemma FoldStartsRepair(num: seq<int>, num': seq<int>, max: nat, n: nat)
    requires 1 <= max <= n < |num| == |num'| && CompleteHistogram(num, n)
    requires num' == num[max := num[max] + Codes(num, max, n)]
    requires Codes(num, 0, n) <= Pow2(max)
    ensures Repairing(num', max, Space(num', max), Codes(num, 0, n))
    ensures Codes(num, max, n) == 0 ==> Space(num', max) == Pow2(max)
    ensures Space(num', max) <= 2 * Pow2(max)
  {
    var moved := Codes(num, max, n);
    CodesNonNegative(num, max, n);
    CodesUpdate(num, max, moved, 0, max);
    CodesSplit(num, 0, max, n);
    FoldSpace(num, num', max, n);
    FoldSlack(num, num', max, n);
  }

  lemma FoldSpace(num: seq<int>, num': seq<int>, max: nat, n: nat)
    requires 1 <= max <= n < |num| == |num'| && CompleteHistogram(num, n)
    requires num' == num[max := num[max] + Codes(num, max, n)]
    requires Codes(num, 0, n) <= Pow2(max)
    ensures Pow2(max) <= Space(num', max) <= 2 * Pow2(max)
    ensures Codes(num, max, n) == 0 ==> Space(num', max) == Pow2(max)
  {
    SpaceTop(num, max, Codes(num, max, n));
    EnoughLongCodes(num, max, n);
    SpaceBelow(num, max, n);
    CodesSplit(num, 0, max, n);
    CodesNonNegative(num, 0, max);
  }

  lemma FoldSlack(num: seq<int>, num': seq<int>, max: nat, n: nat)
    requires 1 <= max <= n < |num| == |num'| && CompleteHistogram(num, n)
    requires num' == num[max := num[max] + Codes(num, max, n)]
    ensures Space(num', max) > Pow2(max) ==> 2 * Space(num', max - 1) < Pow2(max)
  {
    SpaceFrame(num, num', max - 1);
    SpaceBelow(num, max - 1, n);
    if Space(num, max - 1) == Pow2(max - 1) {
      NoLongCodes(num, max - 1, n);
      NonNegativeZero(num, max - 1, n, max);
      CodesSplit(num, max - 1, max, n);
      assert Codes(num, max - 1, max) == Codes(num, max - 1, max - 1) + num[max];
    }
  }

  /** An oversubscribed level always has a code to give up and a shorter code to push down. */
  lemma RepairPossible(num: seq<int>, max: nat, total: int, codes: int)
    requires 1 <= max < |num| && Repairing(num, max, total, codes) && total > Pow2(max)
    ensures num[max] >= 2
    ensures exists i :: 1 <= i < max && num[i] > 0
  {
    assert Pow2(max) == 2 * Pow2(max - 1);
    assert Codes(num, 0, max) == Codes(num, 0, max - 1) + num[max];
    if forall i :: 1 <= i < max ==> num[i] == 0 {
      AllAtMax(num, max);
    }
  }

  lemma {:induction false} AllAtMax(num: seq<int>, max: nat)
    requires 1 <= max < |num| && forall i :: 1 <= i < max ==> num[i] == 0
    ensures Space(num, max - 1) == 0 && Codes(num, 0, max - 1) == 0
  {
    if max > 1 {
      AllAtMax(num, max - 1);
    }
  }

  /** One round of the repair loop. */
  function Repaired(num: seq<int>, i: nat, max: nat): (num': seq<int>)
    requires 1 <= i < max < |num|
  {
    Pushed(num[max := num[max] + -1], i)
  }

  lemma RepairStep(num: seq<int>, max: nat, total: int, codes: int, i: nat)
    requires 1 <= i < max < |num| && Repairing(num, max, total, codes) && total > Pow2(max)
    requires num[i] > 0 && num[max] >= 2
    ensures Repairing(Repaired(num, i, max), max, total - 1, codes)
  {
    var a := num[max := num[max] + -1];
    SpaceTop(num, max, -1);
    SpacePush(a, i, max);
    CodesUpdate(num, max, -1, 0, max);
    PushCodes(a, i, max);
    SpaceFrame(num, a, max - 1);
    if i + 1 < max {
      SpacePush(a, i, max - 1);
    } else {
      var b := Pushed(a, i);
      SpaceFrame(a, b, i - 1);
      assert Space(b, i) == 2 * Space(b, i - 1) + b[i];
    }
  }

  lemma PushCodes(num: seq<int>, i: nat, m: nat)
    requires 1 <= i < m < |num|
    ensures Codes(Pushed(num, i), 0, m) == Codes(num, 0, m) + 1
  {
    var b := num[i := num[i] + -1];
    CodesUpdate(num, i, -1, 0, m);
    CodesUpdate(b, i + 1, 2, 0, m);
  }

  /** The shifted sum with which the source computes the code space. */
  lemma ShiftedSumStep(num: seq<int>, i: nat, max: nat)
    requires 1 <= i <= max < |num|
    ensures Space(num, i) * Pow2(max - i) == Space(num, i - 1) * Pow2(max - (i - 1)) + num[i] * Pow2(max - i)
  {
    var p := Pow2(max - i);
    assert Pow2(max - (i - 1)) == 2 * p;
    assert (2 * Space(num, i - 1) + num[i]) * p == Space(num, i - 1) * (2 * p) + num[i] * p;
  }

  /**
   Limits the code lengths to max. From any complete histogram with at most 2^max codes the loop ends with
   the same number of codes, none of them longer than max, filling the code space exactly.
   */
  method EnforceMaxCodeSize(num: array<int>, listLen: int, max: nat)
    requires num.Length == SUPPORTED + 1 && 1 <= max <= 30
    requires listLen >= 2 ==> CompleteHistogram(num[..], SUPPORTED)
    requires listLen >= 2 ==> listLen == Codes(num[..], 0, SUPPORTED) <= Pow2(max)
    modifies num
    ensures listLen >= 2 ==> CompleteHistogram(num[..], max) && Codes(num[..], 0, max) == listLen
    ensures listLen <= 1 || old(Codes(num[..], max, SUPPORTED)) == 0 ==> num[..] == old(num[..])
  {
    if listLen <= 1 {
      return;
    }
    ghost var num0 := num[..];
    var i := max + 1;
    while i <= SUPPORTED
      invariant max + 1 <= i <= SUPPORTED + 1
      invariant num[..] == num0[max := num0[max] + Codes(num0, max, i - 1)]
    {
      num[max] := num[max] + num[i];
      i := i + 1;
    }
    FoldStartsRepair(num0, num[..], max, SUPPORTED);
    var total := SumShifted(num, max);
    Pow2Mono(max, 30);
    Pow2Values();
    Pow2Add(15, 15);
    assert 0 <= total < 0x1_0000_0000;
    while total != Pow2(max)
      invariant Repairing(num[..], max, total, listLen)
      invariant Codes(num0, max, SUPPORTED) == 0 ==> total == Pow2(max) && num[..] == num0
      decreases total
    {
      RepairPossible(num[..], max, total, listLen);
      RepairRound(num, max, total, listLen);
      total := total - 1;
    }
  }

  method SumShifted(num: array<int>, max: nat) returns (total: int)
    requires max < num.Length
    ensures total == Space(num[..], max)
  {
    total := 0;
    var i: nat := max;
    assert Pow2(0) == 1;
    while i > 0
      invariant 0 <= i <= max
      invariant total + Space(num[..], i) * Pow2(max - i) == Space(num[..], max)
    {
      ShiftedSumStep(num[..], i, max);
      total := total + num[i] * Pow2(max - i);
      i := i - 1;
    }
  }

  method RepairRound(num: array<int>, max: nat, ghost total: int, ghost codes: int)
    requires 1 <= max < num.Length && Repairing(num[..], max, total, codes) && total > Pow2(max)
    requires num[max] >= 2 && exists i :: 1 <= i < max && num[..][i] > 0
    modifies num
    ensures Repairing(num[..], max, total - 1, codes)
  {
    ghost var num0 := num[..];
    num[max] := num[max] - 1;
    var i := max - 1;
    while i > 0 && num[i] == 0
      invariant 0 <= i < max
      invariant forall j :: i < j < max ==> num0[j] == 0
    {
      i := i - 1;
    }
    assert i > 0 by {
      var w :| 1 <= w < max && num0[w] > 0;
      assert w <= i;
    }
    num[i] := num[i] - 1;
    num[i + 1] := num[i + 1] + 2;
    RepairStep(num0, max, total, codes, i);
    assert num[..] == Repaired(num0, i, max);
  }
}
