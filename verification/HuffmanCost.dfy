/**
 The cost of a code and Huffman's lower bound.

 Merging the two lightest weights again and again has a total cost, the sum of all merged weights. No
 assignment of code lengths that satisfies Kraft's inequality has a smaller weighted length.
 */
module HuffmanCost {
  import opened Bits

  ghost predicate Ascending(s: seq<nat>)
  {
    forall i, j :: 0 <= i < j < |s| ==> s[i] <= s[j]
  }

  /** Where x goes in an ascending sequence: before the first larger element. */
  function Place(x: nat, s: seq<nat>): (p: nat)
    ensures p <= |s|
    ensures forall i :: 0 <= i < p ==> s[i] <= x
    ensures p < |s| ==> x < s[p]
  {
    if s == [] || x < s[0] then 0 else 1 + Place(x, s[1..])
  }

  function Insert(x: nat, s: seq<nat>): (r: seq<nat>)
    ensures |r| == |s| + 1
  {
    s[..Place(x, s)] + [x] + s[Place(x, s)..]
  }

  /** The weights after the two lightest have been merged. */
  function MergeFirst(s: seq<nat>): (r: seq<nat>)
    requires |s| >= 2
    ensures |r| == |s| - 1
  {
    Insert(s[0] + s[1], s[2..])
  }

  /** The total weight of all merges. */
  function MergeCost(s: seq<nat>): (c: nat)
    decreases |s|
  {
    if |s| <= 1 then 0 else s[0] + s[1] + MergeCost(MergeFirst(s))
  }

  /** The weighted length of a code. */
  function Cost(w: seq<nat>, l: seq<nat>): (c: nat)
    requires |w| == |l|
  {
    if w == [] then 0 else w[0] * l[0] + Cost(w[1..], l[1..])
  }

  /** The Kraft sum of lengths up to m, scaled by 2^m. */
  function Kraft(l: seq<nat>, m: nat): (k: nat)
    requires forall i :: 0 <= i < |l| ==> l[i] <= m
  {
    if l == [] then 0 else Pow2(m - l[0]) + Kraft(l[1..], m)
  }

  /** Lengths of a code with codes of at most m bits. */
  ghost predicate CodeLengths(l: seq<nat>, m: nat)
  {
    (forall i :: 0 <= i < |l| ==> l[i] <= m) && Kraft(l, m) <= Pow2(m)
  }

  // ---------- sums ----------

  lemma {:induction false} CostConcat(a: seq<nat>, b: seq<nat>, k: seq<nat>, l: seq<nat>)
    requires |a| == |k| && |b| == |l|
    ensures Cost(a + b, k + l) == Cost(a, k) + Cost(b, l)
  {
    if a == [] {
      assert a + b == b && k + l == l;
    } else {
      CostConcat(a[1..], b, k[1..], l);
      assert (a + b)[1..] == a[1..] + b && (k + l)[1..] == k[1..] + l;
    }
  }

  lemma {:induction false} KraftConcat(k: seq<nat>, l: seq<nat>, m: nat)
    requires forall i :: 0 <= i < |k| ==> k[i] <= m
    requires forall i :: 0 <= i < |l| ==> l[i] <= m
    ensures Kraft(k + l, m) == Kraft(k, m) + Kraft(l, m)
  {
    if k == [] {
      assert k + l == l;
    } else {
      KraftConcat(k[1..], l, m);
      assert (k + l)[1..] == k[1..] + l;
    }
  }

  function InsertAt(s: seq<nat>, p: nat, x: nat): (r: seq<nat>)
    requires p <= |s|
    ensures |r| == |s| + 1
  {
    s[..p] + [x] + s[p..]
  }

  lemma InsertCost(a: seq<nat>, l: seq<nat>, p: nat, x: nat, y: nat)
    requires |a| == |l| && p <= |a|
    ensures Cost(InsertAt(a, p, x), InsertAt(l, p, y)) == Cost(a, l) + x * y
  {
    var a0, a1, l0, l1 := a[..p], a[p..], l[..p], l[p..];
    assert a == a0 + a1 && l == l0 + l1;
    CostConcat(a0, a1, l0, l1);
    assert InsertAt(a, p, x) == a0 + ([x] + a1) && InsertAt(l, p, y) == l0 + ([y] + l1);
    CostConcat(a0, [x] + a1, l0, [y] + l1);
    assert ([x] + a1)[1..] == a1 && ([y] + l1)[1..] == l1;
  }

  lemma InsertKraft(l: seq<nat>, p: nat, y: nat, m: nat)
    requires p <= |l| && y <= m && forall i :: 0 <= i < |l| ==> l[i] <= m
    ensures forall i :: 0 <= i <= |l| ==> InsertAt(l, p, y)[i] <= m
    ensures Kraft(InsertAt(l, p, y), m) == Kraft(l, m) + Pow2(m - y)
  {
    var l0, l1 := l[..p], l[p..];
    assert l == l0 + l1;
    KraftConcat(l0, l1, m);
    assert InsertAt(l, p, y) == l0 + ([y] + l1);
    KraftConcat(l0, [y] + l1, m);
    assert ([y] + l1)[1..] == l1;
  }

  // ---------- exchanging two lengths ----------

  lemma {:induction false} CostUpdate(w: seq<nat>, l: seq<nat>, i: nat, v: nat)
    requires |w| == |l| && i < |l|
    ensures Cost(w, l[i := v]) + w[i] * l[i] == Cost(w, l) + w[i] * v
  {
    if i > 0 {
      CostUpdate(w[1..], l[1..], i - 1, v);
      assert l[i := v][1..] == l[1..][i - 1 := v];
    } else {
      assert l[i := v][1..] == l[1..];
    }
  }

  lemma {:induction false} KraftUpdate(l: seq<nat>, i: nat, v: nat, m: nat)
    requires i < |l| && v <= m && forall k :: 0 <= k < |l| ==> l[k] <= m
    ensures Kraft(l[i := v], m) + Pow2(m - l[i]) == Kraft(l, m) + Pow2(m - v)
  {
    if i > 0 {
      KraftUpdate(l[1..], i - 1, v, m);
      assert l[i := v][1..] == l[1..][i - 1 := v];
    } else {
      assert l[i := v][1..] == l[1..];
    }
  }

  function Swap(l: seq<nat>, i: nat, j: nat): (r: seq<nat>)
    requires i < |l| && j < |l|
    ensures |r| == |l|
  {
    l[i := l[j]][j := l[i]]
  }

  /** Giving the longer code to the lighter symbol does not cost more. */
  lemma SwapCheaper(w: seq<nat>, l: seq<nat>, i: nat, j: nat, m: nat)
    requires |w| == |l| && Ascending(w) && CodeLengths(l, m)
    requires i <= j < |l| && l[i] <= l[j]
    ensures Cost(w, Swap(l, i, j)) <= Cost(w, l)
    ensures CodeLengths(Swap(l, i, j), m)
  {
    if i < j {
      var l1 := l[i := l[j]];
      CostUpdate(w, l, i, l[j]);
      CostUpdate(w, l1, j, l[i]);
      KraftUpdate(l, i, l[j], m);
      KraftUpdate(l1, j, l[i], m);
      Exchange(w[i], w[j], l[i], l[j]);
    } else {
      assert Swap(l, i, j) == l;
    }
  }

  lemma Exchange(a: nat, b: nat, x: nat, y: nat)
    requires a <= b && x <= y
    ensures a * y + b * x <= a * x + b * y
  {
    assert (b - a) * (y - x) >= 0;
    assert (b - a) * (y - x) == b * y - b * x - a * y + a * x;
  }

  lemma {:induction false} Longest(l: seq<nat>, from: nat) returns (j: nat)
    requires from < |l|
    ensures from <= j < |l| && forall i :: from <= i < |l| ==> l[i] <= l[j]
    decreases |l| - from
  {
    j := from;
    if from + 1 < |l| {
      var k := Longest(l, from + 1);
      if l[k] > l[from] {
        j := k;
      }
    }
  }

  /** The two lightest symbols may be given the two longest codes. */
  lemma LongestFirst(w: seq<nat>, l: seq<nat>, m: nat) returns (l': seq<nat>)
    requires |w| == |l| >= 2 && Ascending(w) && CodeLengths(l, m)
    ensures |l'| == |l| && CodeLengths(l', m) && Cost(w, l') <= Cost(w, l)
    ensures l'[0] >= l'[1] && forall i :: 2 <= i < |l'| ==> l'[i] <= l'[1]
    ensures forall i :: 0 <= i < |l| ==> l[i] <= l'[0]
  {
    var j := Longest(l, 0);
    SwapCheaper(w, l, 0, j, m);
    var l1 := Swap(l, 0, j);
    var k := Longest(l1, 1);
    SwapCheaper(w, l1, 1, k, m);
    l' := Swap(l1, 1, k);
  }

  // ---------- the lower bound ----------

  lemma {:induction false} KraftScale(l: seq<nat>, m: nat)
    requires forall i :: 0 <= i < |l| ==> l[i] <= m
    ensures Kraft(l, m + 1) == 2 * Kraft(l, m)
  {
    if l != [] {
      KraftScale(l[1..], m);
      assert Pow2(m + 1 - l[0]) == 2 * Pow2(m - l[0]);
    }
  }

  /** A single longest code can be shortened: the sum of the others is even. */
  lemma ShortenLongest(w: seq<nat>, l: seq<nat>, m: nat)
    requires |w| == |l| >= 1 && m >= 1 && CodeLengths(l, m) && l[0] == m
    requires forall i :: 1 <= i < |l| ==> l[i] <= m - 1
    ensures CodeLengths(l[0 := m - 1], m - 1) && Cost(w, l[0 := m - 1]) <= Cost(w, l)
  {
    var rest := l[1..];
    KraftScale(rest, m - 1);
    assert Pow2(0) == 1;
    assert l[0 := m - 1][1..] == rest;
    CostUpdate(w, l, 0, m - 1);
    assert w[0] * m == w[0] * (m - 1) + w[0];
  }

  lemma MergedAscending(w: seq<nat>)
    requires |w| >= 2 && Ascending(w)
    ensures Ascending(MergeFirst(w))
  {
    InsertAscending(w[0] + w[1], w[2..]);
  }

  lemma InsertAscending(x: nat, s: seq<nat>)
    requires Ascending(s)
    ensures Ascending(Insert(x, s))
  {
  }

  /** Two sibling codes of length m merge into one of length m - 1. */
  lemma MergeSiblings(w: seq<nat>, l: seq<nat>, m: nat) returns (l': seq<nat>)
    requires |w| == |l| >= 2 && m >= 1 && CodeLengths(l, m) && l[0] == l[1] == m
    ensures |l'| == |w| - 1 && CodeLengths(l', m)
    ensures Cost(w, l) == w[0] + w[1] + Cost(MergeFirst(w), l')
  {
    var x, rest, lens := w[0] + w[1], w[2..], l[2..];
    var p := Place(x, rest);
    l' := InsertAt(lens, p, m - 1);
    InsertKraft(lens, p, m - 1, m);
    KraftOfTwo(l, m);
    CostOfTwo(w, l, m);
    InsertCost(rest, lens, p, x, m - 1);
    assert MergeFirst(w) == InsertAt(rest, p, x);
  }

  lemma KraftOfTwo(l: seq<nat>, m: nat)
    requires |l| >= 2 && m >= 1 && (forall i :: 0 <= i < |l| ==> l[i] <= m) && l[0] == l[1] == m
    ensures Kraft(l, m) == Pow2(m - (m - 1)) + Kraft(l[2..], m)
  {
    assert l[1..][1..] == l[2..];
    assert Kraft(l[1..], m) == Pow2(0) + Kraft(l[2..], m);
    assert Pow2(1) == 2 * Pow2(0);
  }

  lemma CostOfTwo(w: seq<nat>, l: seq<nat>, m: nat)
    requires |w| == |l| >= 2 && m >= 1 && l[0] == l[1] == m
    ensures Cost(w, l) == w[0] + w[1] + (w[0] + w[1]) * (m - 1) + Cost(w[2..], l[2..])
  {
    assert w[1..][1..] == w[2..] && l[1..][1..] == l[2..];
    assert Cost(w[1..], l[1..]) == w[1] * m + Cost(w[2..], l[2..]);
    SpreadProduct(w[0], w[1], m);
  }

  lemma SpreadProduct(a: nat, b: nat, m: nat)
    requires m >= 1
    ensures a * m + b * m == a + b + (a + b) * (m - 1)
  {
    assert a * m + b * m == (a + b) * m;
    assert (a + b) * m == (a + b) * (m - 1) + (a + b);
  }

  lemma {:induction false} NoLengthZero(l: seq<nat>)
    requires |l| >= 2 && forall i :: 0 <= i < |l| ==> l[i] <= 0
    ensures Kraft(l, 0) >= 2
  {
    assert Kraft(l, 0) == Pow2(0) + (Pow2(0) + Kraft(l[1..][1..], 0));
  }

  /** Huffman's lower bound. */
  lemma {:induction false} LowerBound(w: seq<nat>, l: seq<nat>, m: nat)
    requires |w| == |l| && Ascending(w) && CodeLengths(l, m)
    ensures MergeCost(w) <= Cost(w, l)
    decreases |w|, m
  {
    if |w| >= 2 {
      var l1 := LongestFirst(w, l, m);
      if m == 0 {
        NoLengthZero(l1);
      } else if l1[0] < m {
        KraftScale(l1, m - 1);
        LowerBound(w, l1, m - 1);
      } else if l1[1] < m {
        ShortenLongest(w, l1, m);
        LowerBound(w, l1[0 := m - 1], m - 1);
      } else {
        var l2 := MergeSiblings(w, l1, m);
        MergedAscending(w);
        LowerBound(MergeFirst(w), l2, m);
      }
    }
  }

  // ---------- merging from two queues ----------

  /** All weights of two ascending queues in ascending order; the second queue goes first among equals. */
  function MergeQueues(a: seq<nat>, b: seq<nat>): (r: seq<nat>)
    ensures |r| == |a| + |b|
    decreases |a| + |b|
  {
    if a == [] then b
    else if b == [] then a
    else if a[0] < b[0] then [a[0]] + MergeQueues(a[1..], b)
    else [b[0]] + MergeQueues(a, b[1..])
  }

  lemma InsertStep(x: nat, s: seq<nat>)
    requires s != [] && s[0] <= x
    ensures Insert(x, s) == [s[0]] + Insert(x, s[1..])
  {
  }

  lemma {:induction false} InsertLast(x: nat, s: seq<nat>)
    requires forall i :: 0 <= i < |s| ==> s[i] <= x
    ensures Insert(x, s) == s + [x]
  {
    if s != [] {
      InsertLast(x, s[1..]);
      InsertStep(x, s);
    }
  }

  /** A merged weight is at least as heavy as every waiting node, so it may be put at the end of their queue. */
  lemma {:induction false} QueueInsert(a: seq<nat>, b: seq<nat>, x: nat)
    requires forall i :: 0 <= i < |a| ==> a[i] <= x
    ensures MergeQueues(a + [x], b) == Insert(x, MergeQueues(a, b))
    decreases |a| + |b|
  {
    var ax := a + [x];
    if b == [] {
      InsertLast(x, a);
    } else if a == [] {
      if x < b[0] {
        assert ax[1..] == [];
      } else {
        QueueInsert(a, b[1..], x);
        InsertStep(x, b);
      }
    } else if a[0] < b[0] {
      QueueInsert(a[1..], b, x);
      assert ax[1..] == a[1..] + [x];
      QueueHead(a, b, x);
    } else {
      QueueInsert(a, b[1..], x);
      QueueHead(a, b, x);
    }
  }

  lemma QueueHead(a: seq<nat>, b: seq<nat>, x: nat)
    requires a != [] && b != [] && a[0] <= x
    ensures var m := MergeQueues(a, b); Insert(x, m) == [m[0]] + Insert(x, m[1..])
  {
    InsertStep(x, MergeQueues(a, b));
  }

  lemma MergeTwo(x1: nat, x2: nat, rest: seq<nat>)
    ensures MergeCost([x1] + ([x2] + rest)) == x1 + x2 + MergeCost(Insert(x1 + x2, rest))
  {
    var s := [x1] + ([x2] + rest);
    assert s[0] == x1 && s[1] == x2 && s[2..] == rest;
    assert MergeFirst(s) == Insert(x1 + x2, rest);
  }
}
