/**
 Minimum-redundancy code lengths, computed in place (qqwry/miniz.c, tdefl_calculate_minimum_redundancy, the
 algorithm of Moffat and Katajainen).

 The array starts with weights in ascending order. The first phase merges the two lightest items again and
 again; the cells of spent leaves are reused for the weights of the merged nodes, and those of spent nodes
 for the index of their parent. The second phase turns parents into depths, the third depths of inner nodes
 into depths of leaves.
 */
module MinRedundancy {
  import opened Bits
  import opened Common
  import opened RadixSort
  import opened HuffmanCost
  import Canonical
  import HuffmanLimit

  // ---------- the tree of merged nodes ----------

  /** Nodes are numbered in the order in which they are made; par[i] is the parent of node i. */
  ghost predicate Tree(par: seq<nat>)
  {
    && (forall i :: 0 <= i < |par| ==> i < par[i] <= |par|)
    && (forall i, j :: 0 <= i < j < |par| ==> par[i] <= par[j])
    && (forall i, j :: 0 <= i && i + 2 <= j < |par| ==> par[i] < par[j])
  }

  /** A node outweighs each of its children, and its parent outweighs it and its child together. */
  ghost predicate Weighed(par: seq<nat>, W: seq<nat>)
  {
    && (forall i :: 0 <= i < |W| ==> W[i] >= 2)
    && (forall i :: 0 <= i < |par| ==> Outweighed(par, W, i))
  }

  ghost predicate Outweighed(par: seq<nat>, W: seq<nat>, i: nat)
    requires i < |par|
  {
    var j := par[i];
    i < j < |W| ==>
      && W[i] < W[j]
      && (j < |par| && j < par[j] < |W| ==> W[j] + W[i] <= W[par[j]])
  }

  /** The depth of node i below the root, which is the last node. */
  ghost function Depth(par: seq<nat>, i: nat): (d: nat)
    requires Tree(par) && i <= |par|
    decreases |par| - i
  {
    if i == |par| then 0 else 1 + Depth(par, par[i])
  }

  lemma {:induction false} DepthMonotone(par: seq<nat>, i: nat, j: nat)
    requires Tree(par) && i <= j <= |par|
    ensures Depth(par, i) >= Depth(par, j)
    decreases |par| - i
  {
    if i < j < |par| {
      DepthMonotone(par, par[i], par[j]);
    }
  }

  // ---------- a deep tree is heavy ----------

  function Fib(n: nat): (f: nat)
  {
    if n < 2 then n else Fib(n - 1) + Fib(n - 2)
  }

  /** The least weight d levels above a node of weight x with a child of weight y. */
  function Heavy(d: nat, x: nat, y: nat): (h: nat)
  {
    Fib(d + 1) * x + Fib(d) * y
  }

  lemma HeavyStep(d: nat, x: nat, y: nat, z: nat)
    requires d >= 1 && z >= x + y
    ensures Heavy(d - 1, z, x) >= Heavy(d, x, y)
  {
    hide Fib;
    FibStep(d);
    HeavierProducts(Fib(d), Fib(d - 1), x, y, z);
  }

  lemma FibStep(d: nat)
    requires d >= 1
    ensures Fib(d + 1) == Fib(d) + Fib(d - 1)
  {
  }

  lemma HeavierProducts(a: nat, b: nat, x: nat, y: nat, z: nat)
    requires z >= x + y
    ensures a * z + b * x >= (a + b) * x + a * y
  {
    var more := z - (x + y);
    assert a * (x + y + more) == a * x + a * y + a * more;
    assert (a + b) * x == a * x + b * x;
  }

  /** The weight of the root grows with the depth of any node as the Fibonacci numbers do. */
  lemma {:induction false} RootWeight(par: seq<nat>, W: seq<nat>, i: nat, j: nat)
    requires Tree(par) && |W| == |par| + 1 && Weighed(par, W)
    requires i < |par| && j == par[i]
    ensures W[|par|] >= Heavy(Depth(par, j), W[j], W[i])
    decreases |par| - i
  {
    if j < |par| {
      var q, d := par[j], Depth(par, j);
      RootWeight(par, W, j, q);
      assert Outweighed(par, W, i);
      HeavyStep(d, W[j], W[i], W[q]);
    }
  }

  lemma {:induction false} FibMonotone(a: nat, b: nat)
    requires a <= b
    ensures Fib(a) <= Fib(b)
    decreases b
  {
    if a < b {
      FibMonotone(a, b - 1);
    }
  }

  lemma FibValues()
    ensures Fib(21) == 10946 && Fib(22) == 17711
  {
    assert Fib(10) == 55 && Fib(11) == 89;
    assert Fib(12) == 144 && Fib(13) == 233 && Fib(14) == 377 && Fib(15) == 610;
    assert Fib(16) == 987 && Fib(17) == 1597 && Fib(18) == 2584 && Fib(19) == 4181;
    assert Fib(20) == 6765 && Fib(21) == 10946;
  }

  /** With 16-bit weights no node lies deeper than 21, so no leaf deeper than 22. */
  lemma DepthBound(par: seq<nat>, W: seq<nat>, i: nat)
    requires Tree(par) && |W| == |par| + 1 && Weighed(par, W) && W[|par|] < 65536
    requires i <= |par|
    ensures Depth(par, i) <= 21
  {
    if Depth(par, i) > 21 {
      var j := par[i];
      var d := Depth(par, j);
      assert Outweighed(par, W, i);
      RootWeight(par, W, i, j);
      FibMonotone(21, d);
      FibMonotone(22, d + 1);
      FibValues();
      ProductAtLeast(Fib(d + 1), W[j], 17711, 3);
      ProductAtLeast(Fib(d), W[i], 10946, 2);
    }
  }

  lemma ProductAtLeast(a: nat, b: nat, c: nat, d: nat)
    requires a >= c && b >= d
    ensures a * b >= c * d
  {
    assert a * b == c * d + (a - c) * b + c * (b - d);
  }

  // ---------- merging ----------

  function Sum(s: seq<nat>): (t: nat)
  {
    if s == [] then 0 else s[0] + Sum(s[1..])
  }

  lemma {:induction false} SumSnoc(s: seq<nat>, x: nat)
    ensures Sum(s + [x]) == Sum(s) + x
  {
    if s != [] {
      SumSnoc(s[1..], x);
      assert (s + [x])[1..] == s[1..] + [x];
    }
  }

  /**
   The two queues after some items have been spent: nodes below `root` and leaves below `leaf`. Spent nodes
   have a parent, nothing spent is heavier than `last` and nothing left is lighter.
   */
  ghost predicate Queues(w: seq<nat>, W: seq<nat>, par: seq<nat>, leaf: nat, last: nat)
  {
    var root, next := |par|, |W|;
    && root <= next && leaf <= |w| && 1 <= last
    && Ascending(w) && Ascending(W)
    && (forall i :: 0 <= i < root ==> W[i] <= last)
    && (forall i :: root <= i < next ==> last <= W[i])
    && (forall i :: leaf <= i < |w| ==> last <= w[i])
    && (next > 0 ==> W[next - 1] <= 2 * last)
  }

  /** Cells hold parents, then node weights; the leaves not yet spent are untouched. */
  ghost predicate Cells(keys: seq<nat>, w: seq<nat>, W: seq<nat>, par: seq<nat>, leaf: nat)
  {
    var root, next := |par|, |W|;
    && |keys| == |w| && root <= next <= leaf <= |w|
    && (forall i :: 0 <= i < root ==> keys[i] == par[i])
    && (forall i :: root <= i < next ==> keys[i] == W[i])
    && (forall i :: leaf <= i < |w| ==> keys[i] == w[i])
  }

  /** The parents given out so far: every spent node before step |W| has a parent among the finished nodes. */
  ghost predicate Parents(par: seq<nat>, done: nat, limit: nat)
  {
    && done <= |par| <= done + 2
    && (forall i :: 0 <= i < |par| ==> i < par[i] <= limit)
    && (forall i, j :: 0 <= i < j < |par| ==> par[i] <= par[j])
    && (forall i, j :: 0 <= i && i + 2 <= j < |par| ==> par[i] < par[j])
    && (forall i :: 0 <= i < done ==> par[i] < limit)
    && (forall i :: done <= i < |par| ==> par[i] == limit)
  }

  ghost function KeysOf(a: seq<SymFreq>): (k: seq<nat>)
    ensures |k| == |a|
  {
    seq(|a|, i requires 0 <= i < |a| => a[i].key)
  }

  ghost predicate SameSyms(a: seq<SymFreq>, b: seq<SymFreq>)
  {
    |a| == |b| && forall i :: 0 <= i < |a| ==> a[i].sym == b[i].sym
  }

  /** What one pick amounts to: the lighter of the first node and the first leaf that are left. */
  ghost predicate PickedOne(w: seq<nat>, W: seq<nat>, par: seq<nat>, par': seq<nat>, leaf: nat, leaf': nat, last: nat,
                            v: nat)
  {
    && last <= v && Queues(w, W, par', leaf', v)
    && |par| <= |W| && leaf <= |w| && |par'| <= |W| && leaf' <= |w|
    && ((par' == par && leaf' == leaf + 1 && v == w[leaf])
        || (par' == par + [|W|] && leaf' == leaf && v == W[|par|]))
    && (par' == par && |par| < |W| ==> v <= W[|par|])
    && (par' != par && leaf < |w| ==> v < w[leaf])
  }

  /** Takes the lighter of the first node and the first leaf that are left. */
  method Pick(a: array<SymFreq>, n: nat, root: nat, leaf: nat, next: nat,
              ghost w: seq<nat>, ghost W: seq<nat>, ghost par: seq<nat>, ghost last: nat)
    returns (v: nat, root': nat, leaf': nat, ghost par': seq<nat>)
    requires n <= a.Length && |w| == n && |W| == next && |par| == root && (root < next || leaf < n)
    requires Queues(w, W, par, leaf, last) && Cells(KeysOf(a[..n]), w, W, par, leaf)
    modifies a
    ensures PickedOne(w, W, par, par', leaf, leaf', last, v) && Cells(KeysOf(a[..n]), w, W, par', leaf')
    ensures |par'| == root'
    ensures SameSyms(a[..], old(a[..])) && a[n..] == old(a[n..])
  {
    ghost var keys := KeysOf(a[..n]);
    assert leaf < n ==> keys[leaf] == a[leaf].key && w[leaf] == keys[leaf];
    if leaf >= n || (root < next && a[root].key < a[leaf].key) {
      assert keys[root] == a[root].key;
      v := a[root].key;
      a[root] := a[root].(key := next);
      root', leaf', par' := root + 1, leaf, par + [next];
      assert KeysOf(a[..n]) == keys[root := next];
    } else {
      assert keys[leaf] == a[leaf].key;
      v, root', leaf', par' := a[leaf].key, root, leaf + 1, par;
      assert root < next ==> keys[root] == a[root].key;
    }
  }

  /**
   The record of all merges. Before step t, R[t] nodes and 2t - R[t] leaves have been spent; step t spends
   two items and makes a node of their combined weight.
   */
  ghost predicate History(w: seq<nat>, W: seq<nat>, par: seq<nat>, R: seq<nat>)
  {
    && |R| == |W| + 1 && R[0] == 0 && R[|W|] <= |par|
    && (forall t :: 0 <= t < |W| ==> Merged(w, W, par, R, t))
  }

  ghost predicate Merged(w: seq<nat>, W: seq<nat>, par: seq<nat>, R: seq<nat>, t: nat)
    requires t < |W| && |R| == |W| + 1
  {
    && R[t] <= R[t + 1] <= R[t] + 2 && R[t + 1] <= t && R[t + 1] <= |par|
    && R[t] <= 2 * t && 2 * (t + 1) - R[t + 1] <= |w|
    && (forall j :: R[t] <= j < R[t + 1] ==> par[j] == t)
    && W[t] == Sum(W[R[t]..R[t + 1]]) + Sum(w[2 * t - R[t]..2 * (t + 1) - R[t + 1]])
  }

  /** The weights that are left, in ascending order. */
  ghost function Rest(W: seq<nat>, root: nat, w: seq<nat>, leaf: nat): (s: seq<nat>)
    requires root <= |W| && leaf <= |w|
  {
    MergeQueues(W[root..], w[leaf..])
  }

  /** The state of the merge loop before it makes node |W|. */
  ghost predicate Merging(w: seq<nat>, W: seq<nat>, par: seq<nat>, R: seq<nat>, leaf: nat, last: nat)
  {
    var root, next := |par|, |W|;
    && 1 <= next && root < next && root + leaf == 2 * next
    && Queues(w, W, par, leaf, last)
    && Parents(par, root, next)
    && Weighed(par, W)
    && History(w, W, par, R) && R[next] == root
    && Sum(W[root..]) + Sum(w[leaf..]) == Sum(w)
    && MergeCost(w) == Sum(W) + MergeCost(Rest(W, root, w, leaf))
  }

  lemma MergingQueues(w: seq<nat>, W: seq<nat>, par: seq<nat>, R: seq<nat>, leaf: nat, last: nat)
    requires Merging(w, W, par, R, leaf, last)
    ensures 1 <= |W| && |par| < |W| && |par| + leaf == 2 * |W| && Queues(w, W, par, leaf, last)
  {
  }

  /** What two picks of one step amount to. */
  ghost predicate Picked(w: seq<nat>, W: seq<nat>, par: seq<nat>, par2: seq<nat>, leaf: nat, leaf2: nat,
                         last: nat, x1: nat, x2: nat)
  {
    var next := |W|;
    && last <= x1 <= x2
    && |par2| + leaf2 == |par| + leaf + 2 && |par| <= |par2| <= |par| + 2 && |par2| <= next && leaf2 <= |w|
    && Queues(w, W, par2, leaf2, x2)
    && |par| <= next && leaf <= |w|
    && (|par2| == |par| ==> par2 == par && x1 == w[leaf] && x2 == w[leaf + 1])
    && (|par2| == |par| + 1 ==> par2 == par + [next])
    && (|par2| == |par| + 1 ==> ((x1 == W[|par|] && x2 == w[leaf]) || (x1 == w[leaf] && x2 == W[|par|])))
    && (|par2| == |par| + 2 ==> par2 == par + [next] + [next] && x1 == W[|par|] && x2 == W[|par| + 1])
  }

  lemma TwoPicks(w: seq<nat>, W: seq<nat>, par: seq<nat>, par1: seq<nat>, par2: seq<nat>, leaf: nat, leaf1: nat,
                 leaf2: nat,
                 last: nat, x1: nat, x2: nat)
    requires PickedOne(w, W, par, par1, leaf, leaf1, last, x1) && PickedOne(w, W, par1, par2, leaf1, leaf2, x1, x2)
    ensures Picked(w, W, par, par2, leaf, leaf2, last, x1, x2)
  {
  }

  lemma SumOne(s: seq<nat>, i: nat)
    requires i < |s|
    ensures Sum(s[i..i + 1]) == s[i]
  {
    assert s[i..i + 1][1..] == [];
  }

  lemma SumTwo(s: seq<nat>, i: nat)
    requires i + 1 < |s|
    ensures Sum(s[i..i + 2]) == s[i] + s[i + 1]
  {
    assert s[i..i + 2][1..] == s[i + 1..i + 2];
    SumOne(s, i + 1);
  }

  lemma SumDrop(s: seq<nat>, i: nat)
    requires i < |s|
    ensures Sum(s[i..]) == s[i] + Sum(s[i + 1..])
  {
    assert s[i..][1..] == s[i + 1..];
  }

  /** The children of the new node add up to its weight, and what is left adds up to the rest. */
  lemma PickedSums(w: seq<nat>, W: seq<nat>, par: seq<nat>, par2: seq<nat>, leaf: nat, leaf2: nat,
                   last: nat, x1: nat, x2: nat)
    requires |par| <= |W| && leaf <= |w|
    requires Picked(w, W, par, par2, leaf, leaf2, last, x1, x2)
    ensures x1 + x2 == Sum(W[|par|..|par2|]) + Sum(w[leaf..leaf2])
    ensures Sum(W[|par|..]) + Sum(w[leaf..]) == x1 + x2 + Sum(W[|par2|..]) + Sum(w[leaf2..])
  {
    var root := |par|;
    if |par2| == root {
      assert W[root..root] == [];
      SumTwo(w, leaf);
      SumDrop(w, leaf);
      SumDrop(w, leaf + 1);
    } else if |par2| == root + 1 {
      SumOne(w, leaf);
      SumOne(W, root);
      SumDrop(w, leaf);
      SumDrop(W, root);
    } else {
      assert w[leaf..leaf] == [];
      SumTwo(W, root);
      SumDrop(W, root);
      SumDrop(W, root + 1);
    }
  }

  lemma PickedWeighed(w: seq<nat>, W: seq<nat>, par: seq<nat>, par2: seq<nat>, leaf: nat, leaf2: nat,
                      last: nat, x1: nat, x2: nat)
    requires Queues(w, W, par, leaf, last) && Parents(par, |par|, |W|) && Weighed(par, W)
    requires Picked(w, W, par, par2, leaf, leaf2, last, x1, x2)
    ensures Weighed(par2, W + [x1 + x2])
  {
    var W' := W + [x1 + x2];
    forall i | 0 <= i < |par2|
      ensures Outweighed(par2, W', i)
    {
      if i < |par| {
        assert par2[i] == par[i] && Outweighed(par, W, i);
        var j := par[i];
        if |par| <= j < |par2| {
          NewParent(w, W, par, par2, leaf, leaf2, last, x1, x2, j);
        }
      } else {
        NewParent(w, W, par, par2, leaf, leaf2, last, x1, x2, i);
      }
    }
  }

  lemma NewParent(w: seq<nat>, W: seq<nat>, par: seq<nat>, par2: seq<nat>, leaf: nat, leaf2: nat,
                  last: nat, x1: nat, x2: nat, j: nat)
    requires Queues(w, W, par, leaf, last) && Picked(w, W, par, par2, leaf, leaf2, last, x1, x2)
    requires |par| <= j < |par2|
    ensures par2[j] == |W| && W[j] + last <= x1 + x2
    ensures forall i :: 0 <= i < |par| ==> W[i] <= last
  {
  }

  lemma MergedKeeps(w: seq<nat>, W: seq<nat>, par: seq<nat>, R: seq<nat>, t: nat, x: nat, par2: seq<nat>, r: nat)
    requires t < |W| && |R| == |W| + 1 && Merged(w, W, par, R, t) && par <= par2
    ensures Merged(w, W + [x], par2, R + [r], t)
  {
    var W', R' := W + [x], R + [r];
    assert R'[t] == R[t] && R'[t + 1] == R[t + 1];
    assert W'[R[t]..R[t + 1]] == W[R[t]..R[t + 1]];
    assert forall j :: R[t] <= j < R[t + 1] ==> par2[j] == par[j];
  }

  lemma MergedNew(w: seq<nat>, W: seq<nat>, par: seq<nat>, par2: seq<nat>, R: seq<nat>, leaf: nat, leaf2: nat,
                  last: nat, x1: nat, x2: nat)
    requires |R| == |W| + 1 && R[|W|] == |par| <= |W| && |par| + leaf == 2 * |W| && leaf <= |w|
    requires Picked(w, W, par, par2, leaf, leaf2, last, x1, x2)
    ensures Merged(w, W + [x1 + x2], par2, R + [|par2|], |W|)
  {
    var W', R' := W + [x1 + x2], R + [|par2|];
    assert R'[|W|] == |par| && R'[|W| + 1] == |par2|;
    assert W'[|par|..|par2|] == W[|par|..|par2|];
    PickedSums(w, W, par, par2, leaf, leaf2, last, x1, x2);
  }

  lemma PickedHistory(w: seq<nat>, W: seq<nat>, par: seq<nat>, par2: seq<nat>, R: seq<nat>, leaf: nat, leaf2: nat,
                      last: nat, x1: nat, x2: nat)
    requires History(w, W, par, R) && R[|W|] == |par| <= |W| && |par| + leaf == 2 * |W| && leaf <= |w|
    requires Picked(w, W, par, par2, leaf, leaf2, last, x1, x2)
    ensures History(w, W + [x1 + x2], par2, R + [|par2|])
  {
    var W', R' := W + [x1 + x2], R + [|par2|];
    forall t | 0 <= t < |W'|
      ensures Merged(w, W', par2, R', t)
    {
      if t < |W| {
        MergedKeeps(w, W, par, R, t, x1 + x2, par2, |par2|);
      } else {
        MergedNew(w, W, par, par2, R, leaf, leaf2, last, x1, x2);
      }
    }
  }

  lemma PickedQueues(w: seq<nat>, W: seq<nat>, par: seq<nat>, par2: seq<nat>, leaf: nat, leaf2: nat,
                     last: nat, x1: nat, x2: nat)
    requires Queues(w, W, par, leaf, last) && Picked(w, W, par, par2, leaf, leaf2, last, x1, x2)
    ensures Queues(w, W + [x1 + x2], par2, leaf2, x2)
  {
    var W' := W + [x1 + x2];
    forall i | 0 <= i < |W|
      ensures W'[i] <= x1 + x2
    {
      assert W[i] <= W[|W| - 1];
    }
  }

  lemma PickedParents(w: seq<nat>, W: seq<nat>, par: seq<nat>, par2: seq<nat>, leaf: nat, leaf2: nat,
                      last: nat, x1: nat, x2: nat)
    requires Parents(par, |par|, |W|) && Picked(w, W, par, par2, leaf, leaf2, last, x1, x2)
    ensures Parents(par2, |par2|, |W| + 1)
  {
  }

  lemma HistoryLength(w: seq<nat>, W: seq<nat>, par: seq<nat>, R: seq<nat>, leaf: nat, last: nat)
    requires Merging(w, W, par, R, leaf, last)
    ensures |R| == |W| + 1
  {
  }

  lemma PickedShape(w: seq<nat>, W: seq<nat>, par: seq<nat>, par2: seq<nat>, leaf: nat, leaf2: nat,
                    last: nat, x1: nat, x2: nat)
    requires Picked(w, W, par, par2, leaf, leaf2, last, x1, x2)
    ensures |par| <= |W| && leaf <= |w| && |par2| <= |W| && leaf2 <= |w| && |par2| + leaf2 == |par| + leaf + 2
  {
  }

  lemma FinishStep(w: seq<nat>, W: seq<nat>, par: seq<nat>, par2: seq<nat>, R: seq<nat>, leaf: nat, leaf2: nat,
                   last: nat, x1: nat, x2: nat)
    requires Merging(w, W, par, R, leaf, last)
    requires Picked(w, W, par, par2, leaf, leaf2, last, x1, x2)
    requires MergeCost(Rest(W, |par|, w, leaf)) == x1 + x2 + MergeCost(Rest(W + [x1 + x2], |par2|, w, leaf2))
    ensures Merging(w, W + [x1 + x2], par2, R + [|par2|], leaf2, x2)
    ensures x1 + x2 <= Sum(w)
  {
    hide Queues, Parents, Weighed, History, Sum, Rest, MergeCost, Picked;
    PickedShape(w, W, par, par2, leaf, leaf2, last, x1, x2);
    HistoryLength(w, W, par, R, leaf, last);
    PickedQueues(w, W, par, par2, leaf, leaf2, last, x1, x2);
    PickedParents(w, W, par, par2, leaf, leaf2, last, x1, x2);
    PickedWeighed(w, W, par, par2, leaf, leaf2, last, x1, x2);
    PickedHistory(w, W, par, par2, R, leaf, leaf2, last, x1, x2);
    PickedRest(w, W, par, par2, leaf, leaf2, last, x1, x2);
    SumSnoc(W, x1 + x2);
  }

  lemma PickFromQueues(w: seq<nat>, W: seq<nat>, par: seq<nat>, par': seq<nat>, leaf: nat, leaf': nat, last: nat,
                       v: nat)
    requires PickedOne(w, W, par, par', leaf, leaf', last, v)
    ensures Rest(W, |par|, w, leaf) == [v] + Rest(W, |par'|, w, leaf')
  {
    if par' == par {
      assert w[leaf..][1..] == w[leaf'..];
      assert W[|par|..] == [] ==> w[leaf..] == [v] + w[leaf'..];
    } else {
      assert W[|par|..][1..] == W[|par'|..];
      assert w[leaf..] == [] ==> W[|par|..] == [v] + W[|par'|..];
    }
  }

  lemma RestPush(W: seq<nat>, root: nat, w: seq<nat>, leaf: nat, x: nat)
    requires root <= |W| && leaf <= |w| && forall i :: root <= i < |W| ==> W[i] <= x
    ensures Rest(W + [x], root, w, leaf) == Insert(x, Rest(W, root, w, leaf))
  {
    assert (W + [x])[root..] == W[root..] + [x];
    QueueInsert(W[root..], w[leaf..], x);
  }

  lemma CostOfTwoFirst(x1: nat, x2: nat, rest: seq<nat>)
    ensures MergeCost([x1] + ([x2] + rest)) == x1 + x2 + MergeCost(Insert(x1 + x2, rest))
  {
    MergeTwo(x1, x2, rest);
  }

  /** One step of the loop is one merge of the two lightest weights. */
  lemma PickedCost(w: seq<nat>, W: seq<nat>, par: seq<nat>, par1: seq<nat>, par2: seq<nat>, leaf: nat, leaf1: nat,
                   leaf2: nat,
                   last: nat, x1: nat, x2: nat)
    requires Queues(w, W, par, leaf, last) && Picked(w, W, par, par2, leaf, leaf2, last, x1, x2)
    requires PickedOne(w, W, par, par1, leaf, leaf1, last, x1) && PickedOne(w, W, par1, par2, leaf1, leaf2, x1, x2)
    ensures MergeCost(Rest(W, |par|, w, leaf)) == x1 + x2 + MergeCost(Rest(W + [x1 + x2], |par2|, w, leaf2))
  {
    hide Rest, MergeCost, Insert, MergeQueues;
    PickFromQueues(w, W, par, par1, leaf, leaf1, last, x1);
    PickFromQueues(w, W, par1, par2, leaf1, leaf2, x1, x2);
    WaitingAreLighter(w, W, par, par2, leaf, leaf2, last, x1, x2);
    RestPush(W, |par2|, w, leaf2, x1 + x2);
    CostOfTwoFirst(x1, x2, Rest(W, |par2|, w, leaf2));
  }

  lemma WaitingAreLighter(w: seq<nat>, W: seq<nat>, par: seq<nat>, par2: seq<nat>, leaf: nat, leaf2: nat,
                          last: nat, x1: nat, x2: nat)
    requires Queues(w, W, par, leaf, last) && Picked(w, W, par, par2, leaf, leaf2, last, x1, x2)
    ensures forall i :: |par2| <= i < |W| ==> W[i] <= x1 + x2
  {
    forall i | |par2| <= i < |W|
      ensures W[i] <= x1 + x2
    {
      assert W[i] <= W[|W| - 1];
    }
  }

  lemma PickedRest(w: seq<nat>, W: seq<nat>, par: seq<nat>, par2: seq<nat>, leaf: nat, leaf2: nat,
                   last: nat, x1: nat, x2: nat)
    requires |par| <= |W| && leaf <= |w|
    requires Picked(w, W, par, par2, leaf, leaf2, last, x1, x2)
    ensures Sum((W + [x1 + x2])[|par2|..]) + Sum(w[leaf2..]) == Sum(W[|par|..]) + Sum(w[leaf..])
    ensures x1 + x2 <= Sum(W[|par|..]) + Sum(w[leaf..])
  {
    PickedSums(w, W, par, par2, leaf, leaf2, last, x1, x2);
    assert (W + [x1 + x2])[|par2|..] == W[|par2|..] + [x1 + x2];
    SumSnoc(W[|par2|..], x1 + x2);
  }

  /** The first phase: replaces weights by parents. Node n - 2, the root, is left with the total weight. */
  method MergePhase(a: array<SymFreq>, n: nat, ghost w: seq<nat>)
    returns (ghost W: seq<nat>, ghost par: seq<nat>, ghost R: seq<nat>)
    requires 2 <= n <= a.Length && w == KeysOf(a[..n])
    requires Ascending(w) && (forall i :: 0 <= i < n ==> w[i] >= 1) && Sum(w) < 65536
    modifies a
    ensures SameSyms(a[..], old(a[..])) && a[n..] == old(a[n..])
    ensures |par| == n - 2 && |W| == n - 1
    ensures Tree(par) && Weighed(par, W) && W[n - 2] == Sum(w) && MergeCost(w) == Sum(W)
    ensures History(w, W, par, R) && R[n - 1] == n - 2
    ensures forall i :: 0 <= i < n - 2 ==> a[i].key == par[i]
  {
    hide Merging, Cells, Tree, Weighed, History, MergeCost, Sum;
    a[0] := a[0].(key := a[0].key + a[1].key);
    W, par, R := [w[0] + w[1]], [], [0, 0];
    var root, leaf, next := 0, 2, 1;
    ghost var last := w[1];
    FirstMerge(w);
    assert KeysOf(a[..n]) == w[0 := w[0] + w[1]];
    while next < n - 1
      invariant 1 <= next <= n - 1 && |W| == next && |par| == root
      invariant Merging(w, W, par, R, leaf, last) && Cells(KeysOf(a[..n]), w, W, par, leaf)
      invariant SameSyms(a[..], old(a[..])) && a[n..] == old(a[n..])
    {
      root, leaf, W, par, R, last := MergeStep(a, n, root, leaf, next, w, W, par, R, last);
      next := next + 1;
    }
    ghost var keys := KeysOf(a[..n]);
    MergesDone(keys, w, W, par, R, leaf, last);
    forall i | 0 <= i < n - 2
      ensures a[i].key == par[i]
    {
      assert keys[i] == a[i].key;
    }
  }

  lemma FirstMerge(w: seq<nat>)
    requires |w| >= 2 && Ascending(w) && forall i :: 0 <= i < |w| ==> w[i] >= 1
    ensures Merging(w, [w[0] + w[1]], [], [0, 0], 2, w[1])
    ensures Cells(w[0 := w[0] + w[1]], w, [w[0] + w[1]], [], 2)
  {
    hide Rest, MergeCost, Sum, Queues, Parents, Weighed, History, Ascending;
    FirstQueues(w);
    FirstSum(w);
    FirstHistory(w);
    FirstCost(w);
  }

  lemma FirstQueues(w: seq<nat>)
    requires |w| >= 2 && Ascending(w) && forall i :: 0 <= i < |w| ==> w[i] >= 1
    ensures Queues(w, [w[0] + w[1]], [], 2, w[1]) && Parents([], 0, 1) && Weighed([], [w[0] + w[1]])
  {
  }

  lemma FirstSum(w: seq<nat>)
    requires |w| >= 2
    ensures Sum([w[0] + w[1]][0..]) + Sum(w[2..]) == Sum(w)
  {
    hide Sum;
    SumDrop(w, 0);
    SumDrop(w, 1);
    SumOfOne(w[0] + w[1]);
    assert [w[0] + w[1]][0..] == [w[0] + w[1]] && w[0..] == w;
  }

  lemma FirstHistory(w: seq<nat>)
    requires |w| >= 2
    ensures History(w, [w[0] + w[1]], [], [0, 0])
  {
    hide Sum;
    SumTwo(w, 0);
    SumNone([w[0] + w[1]]);
    assert Merged(w, [w[0] + w[1]], [], [0, 0], 0);
  }

  lemma SumNone(W: seq<nat>)
    ensures Sum(W[0..0]) == 0
  {
  }

  lemma FirstCost(w: seq<nat>)
    requires |w| >= 2
    ensures MergeCost(w) == Sum([w[0] + w[1]]) + MergeCost(Rest([w[0] + w[1]], 0, w, 2))
  {
    hide MergeCost;
    var x, rest := w[0] + w[1], w[2..];
    var none: seq<nat> := [];
    assert w == [w[0]] + ([w[1]] + rest);
    CostOfTwoFirst(w[0], w[1], rest);
    RestPush(none, 0, w, 2, x);
    assert none + [x] == [x] && none[0..] == [];
    SumOfOne(x);
  }

  lemma SumOfOne(x: nat)
    ensures Sum([x]) == x
  {
    assert [x][1..] == [];
  }

  method MergeStep(a: array<SymFreq>, n: nat, root: nat, leaf: nat, next: nat,
                   ghost w: seq<nat>, ghost W: seq<nat>, ghost par: seq<nat>, ghost R: seq<nat>, ghost last: nat)
    returns (root2: nat, leaf2: nat, ghost W': seq<nat>, ghost par2: seq<nat>, ghost R': seq<nat>, ghost last': nat)
    requires n <= a.Length && |w| == n && |W| == next < n - 1 && |par| == root && Sum(w) < 65536
    requires Merging(w, W, par, R, leaf, last) && Cells(KeysOf(a[..n]), w, W, par, leaf)
    modifies a
    ensures |W'| == next + 1 && |par2| == root2
    ensures Merging(w, W', par2, R', leaf2, last') && Cells(KeysOf(a[..n]), w, W', par2, leaf2)
    ensures SameSyms(a[..], old(a[..])) && a[n..] == old(a[n..])
  {
    hide Merging, Queues, PickedOne, Cells;
    var x1, root1, leaf1, x2;
    ghost var par1;
    MergingQueues(w, W, par, R, leaf, last);
    x1, root1, leaf1, par1 := Pick(a, n, root, leaf, next, w, W, par, last);
    PickLeaves(w, W, par, par1, leaf, leaf1, last, x1);
    x2, root2, leaf2, par2 := Pick(a, n, root1, leaf1, next, w, W, par1, x1);
    StepMerges(w, W, par, par1, par2, R, leaf, leaf1, leaf2, last, x1, x2);
    W', R', last' := W + [x1 + x2], R + [|par2|], x2;
    ghost var keys := KeysOf(a[..n]);
    a[next] := a[next].(key := x1 + x2);
    assert KeysOf(a[..n]) == keys[next := x1 + x2];
    MadeNode(keys, w, W, par2, leaf2, x1 + x2);
  }

  /** There is something left for the second pick. */
  lemma PickLeaves(w: seq<nat>, W: seq<nat>, par: seq<nat>, par': seq<nat>, leaf: nat, leaf': nat, last: nat, v: nat)
    requires |par| + leaf == 2 * |W| && |W| < |w| - 1 && PickedOne(w, W, par, par', leaf, leaf', last, v)
    ensures |par'| < |W| || leaf' < |w|
    ensures Queues(w, W, par', leaf', v)
  {
  }

  lemma StepMerges(w: seq<nat>, W: seq<nat>, par: seq<nat>, par1: seq<nat>, par2: seq<nat>, R: seq<nat>,
                   leaf: nat, leaf1: nat, leaf2: nat, last: nat, x1: nat, x2: nat)
    requires Merging(w, W, par, R, leaf, last) && |W| < |w| - 1
    requires PickedOne(w, W, par, par1, leaf, leaf1, last, x1) && PickedOne(w, W, par1, par2, leaf1, leaf2, x1, x2)
    ensures Merging(w, W + [x1 + x2], par2, R + [|par2|], leaf2, x2)
    ensures x1 + x2 <= Sum(w) && |W| < leaf2
  {
    MergingQueues(w, W, par, R, leaf, last);
    TwoPicks(w, W, par, par1, par2, leaf, leaf1, leaf2, last, x1, x2);
    PickedCost(w, W, par, par1, par2, leaf, leaf1, leaf2, last, x1, x2);
    FinishStep(w, W, par, par2, R, leaf, leaf2, last, x1, x2);
  }

  lemma MadeNode(keys: seq<nat>, w: seq<nat>, W: seq<nat>, par: seq<nat>, leaf: nat, x: nat)
    requires Cells(keys, w, W, par, leaf) && |W| < leaf
    ensures Cells(keys[|W| := x], w, W + [x], par, leaf)
  {
  }

  /** When all but one item are spent, the merges form a tree. */
  lemma MergesDone(keys: seq<nat>, w: seq<nat>, W: seq<nat>, par: seq<nat>, R: seq<nat>, leaf: nat, last: nat)
    requires |w| >= 2 && |W| == |w| - 1
    requires Merging(w, W, par, R, leaf, last) && Cells(keys, w, W, par, leaf)
    ensures |par| == |w| - 2 && Tree(par) && Weighed(par, W) && W[|par|] == Sum(w)
    ensures MergeCost(w) == Sum(W)
    ensures History(w, W, par, R) && R[|W|] == |par|
    ensures forall i :: 0 <= i < |par| ==> keys[i] == par[i]
  {
    hide Weighed, History, Ascending;
    var n := |w|;
    assert leaf <= n && leaf == 2 * (n - 1) - |par|;
    assert W[n - 2..] == [W[n - 2]] && w[n..] == [];
    assert [W[n - 2]][1..] == [];
  }

  // ---------- depths ----------

  /** The second phase: replaces the parents of nodes by their depths. */
  method DepthPhase(a: array<SymFreq>, n: nat, ghost par: seq<nat>)
    requires 2 <= n <= a.Length && |par| == n - 2 && Tree(par)
    requires forall i :: 0 <= i < n - 2 ==> a[i].key == par[i]
    modifies a
    ensures SameSyms(a[..], old(a[..])) && a[n..] == old(a[n..])
    ensures forall i :: 0 <= i <= n - 2 ==> a[i].key == Depth(par, i)
  {
    a[n - 2] := a[n - 2].(key := 0);
    var next := n - 3;
    while next >= 0
      invariant -1 <= next <= n - 3
      invariant SameSyms(a[..], old(a[..])) && a[n..] == old(a[n..])
      invariant forall i :: 0 <= i <= next ==> a[i].key == par[i]
      invariant forall i :: next < i <= n - 2 ==> a[i].key == Depth(par, i)
    {
      a[next] := a[next].(key := a[a[next].key].key + 1);
      next := next - 1;
    }
  }

  // ---------- from the depths of nodes to the depths of leaves ----------

  /** Nodes above r0 are shallower than d - 1, nodes between root and r0 lie at d - 1, the others at d or below. */
  ghost predicate Level(par: seq<nat>, root: int, r0: int, d: int)
    requires Tree(par)
  {
    && -1 <= root <= r0 <= |par|
    && (forall i :: r0 < i <= |par| ==> Depth(par, i) < d - 1)
    && (forall i :: root < i <= r0 ==> Depth(par, i) == d - 1)
    && (forall i :: 0 <= i <= root ==> Depth(par, i) >= d)
  }

  lemma {:induction false} ParentsAdvance(par: seq<nat>, i: nat, k: nat, p: nat)
    requires Tree(par) && i + 2 * k < |par| && par[i] >= p
    ensures par[i + 2 * k] >= p + k
  {
    if k > 0 {
      ParentsAdvance(par, i, k - 1, p);
    }
  }

  /** A level has at most twice as many nodes as the level above it. */
  lemma FewChildren(par: seq<nat>, r2: int, r1: int, r0: int, d: nat)
    requires Tree(par) && d >= 1 && Level(par, r1, r0, d) && -1 <= r2 <= r1
    requires forall i :: r2 < i <= r1 ==> Depth(par, i) == d
    ensures r1 - r2 <= 2 * (r0 - r1)
  {
    if r1 - r2 > 2 * (r0 - r1) {
      var i, m := r2 + 1, r0 - r1;
      var j := i + 2 * m;
      ParentInLevel(par, i, r1, r0, d);
      ParentInLevel(par, j, r1, r0, d);
      ParentsAdvance(par, i, m, r1 + 1);
    }
  }

  lemma ParentInLevel(par: seq<nat>, i: nat, r1: int, r0: int, d: nat)
    requires Tree(par) && d >= 1 && Level(par, r1, r0, d) && i <= r1 && Depth(par, i) == d
    ensures i < |par| && r1 < par[i] <= r0
  {
    assert Depth(par, par[i]) == d - 1;
  }

  /** The next node to be read, if any, lies at depth d. */
  lemma NoGap(par: seq<nat>, root: int, r0: int, d: nat)
    requires Tree(par) && Level(par, root, r0, d) && root >= 0 && (d == 0 ==> root == |par|)
    ensures Depth(par, root) == d
    ensures d >= 1 ==> root < r0
  {
    if d >= 1 {
      var q := par[root];
      assert Depth(par, q) == Depth(par, root) - 1;
    }
  }

  lemma NextLevel(par: seq<nat>, r2: int, r1: int, r0: int, d: nat)
    requires Tree(par) && Level(par, r1, r0, d) && -1 <= r2 <= r1
    requires forall i :: r2 < i <= r1 ==> Depth(par, i) == d
    requires r2 >= 0 ==> Depth(par, r2) != d
    ensures Level(par, r2, r1, d + 1)
  {
    forall i | 0 <= i <= r2
      ensures Depth(par, i) >= d + 1
    {
      DepthMonotone(par, i, r2);
    }
  }

  lemma {:induction false} KraftCons(x: nat, s: seq<nat>, m: nat)
    requires 1 <= x <= m
    ensures Canonical.KraftSum([x] + s, m) == Pow2(m - x) + Canonical.KraftSum(s, m)
  {
    if s == [] {
      assert [x] + s == [x] && [x][..0] == [];
      assert Canonical.KraftSum([x][..0], m) == 0;
    } else {
      var k := |s| - 1;
      KraftCons(x, s[..k], m);
      assert ([x] + s)[..k + 1] == [x] + s[..k];
    }
  }

  lemma {:induction false} TimesDouble(k: nat, p: nat)
    ensures Times(2 * k, p) == Times(k, 2 * p)
  {
    if k > 0 {
      TimesDouble(k - 1, p);
      assert Times(2 * k, p) == Times(2 * k - 2, p) + p + p;
    }
  }

  /** The lengths given out so far, with the places left at depth d, fill the code space. */
  ghost predicate Filled(lens: seq<nat>, places: nat, d: nat, max: nat)
    requires d <= max
  {
    && Canonical.KraftSum(lens, max) + Times(places, Pow2(max - d)) == Pow2(max)
    && (forall i :: 0 <= i < |lens| ==> 1 <= lens[i] <= d)
    && (forall i, j :: 0 <= i < j < |lens| ==> lens[i] >= lens[j])
  }

  lemma GiveLeaf(lens: seq<nat>, places: nat, d: nat, max: nat)
    requires 1 <= d <= max && places >= 1 && Filled(lens, places, d, max)
    ensures Filled([d] + lens, places - 1, d, max)
  {
    KraftCons(d, lens, max);
  }

  lemma GoDeeper(lens: seq<nat>, places: nat, d: nat, max: nat)
    requires d < max && Filled(lens, places, d, max)
    ensures Filled(lens, 2 * places, d + 1, max)
  {
    TimesDouble(places, Pow2(max - (d + 1)));
    assert Pow2(max - d) == 2 * Pow2(max - (d + 1));
  }

  /** How many leaves are spent before step t. */
  ghost function LeavesBefore(R: seq<nat>, t: nat): (k: int)
    requires t < |R|
  {
    2 * t - R[t]
  }

  /** The merges make every leaf a child of one node; that leaf lies one below it. */
  ghost predicate LeafDepths(par: seq<nat>, R: seq<nat>, lens: seq<nat>, from: nat)
    requires Tree(par) && |R| == |par| + 2
  {
    forall t, i :: 0 <= t <= |par| && from <= i < |lens| && LeavesBefore(R, t) <= i < LeavesBefore(R, t + 1) ==>
      lens[i] == Depth(par, t) + 1
  }

  lemma {:induction false} LeavesMonotone(w: seq<nat>, W: seq<nat>, par: seq<nat>, R: seq<nat>, t: nat, u: nat)
    requires History(w, W, par, R) && t <= u <= |W|
    ensures LeavesBefore(R, t) <= LeavesBefore(R, u)
    ensures R[t] <= R[u]
    decreases u
  {
    if t < u {
      LeavesMonotone(w, W, par, R, t, u - 1);
      assert Merged(w, W, par, R, u - 1);
    }
  }

  /** The nodes spent before step t are those with a parent below t. */
  lemma SpentNodes(w: seq<nat>, W: seq<nat>, par: seq<nat>, R: seq<nat>, t: nat, j: nat)
    requires History(w, W, par, R) && R[|W|] == |par| && Tree(par) && t <= |W| && j < |par|
    ensures j < R[t] <==> par[j] < t
  {
    var u := StepOf(w, W, par, R, j, |W|);
    assert Merged(w, W, par, R, u);
    if u < t {
      LeavesMonotone(w, W, par, R, u + 1, t);
    } else {
      LeavesMonotone(w, W, par, R, t, u);
    }
  }

  lemma {:induction false} StepOf(w: seq<nat>, W: seq<nat>, par: seq<nat>, R: seq<nat>, j: nat, hi: nat)
    returns (u: nat)
    requires History(w, W, par, R) && hi <= |W| && j < R[hi]
    ensures u < hi && R[u] <= j < R[u + 1]
  {
    if j >= R[hi - 1] {
      u := hi - 1;
    } else {
      u := StepOf(w, W, par, R, j, hi - 1);
    }
  }

  /** At the start of a level, the nodes and leaves still to be read are those spent before step r0 + 1. */
  lemma LevelBoundary(w: seq<nat>, W: seq<nat>, par: seq<nat>, R: seq<nat>, root: int, r0: int, d: nat)
    requires History(w, W, par, R) && R[|W|] == |par| && |W| == |par| + 1 && Tree(par)
    requires d >= 1 && Level(par, root, r0, d) && (root >= 0 ==> root < |par|)
    ensures R[r0 + 1] == root + 1
  {
    var r := R[r0 + 1];
    LeavesMonotone(w, W, par, R, r0 + 1, |W|);
    if r < |par| {
      SpentNodes(w, W, par, R, r0 + 1, r);
      ParentDepth(par, r);
    }
    if r > 0 {
      SpentNodes(w, W, par, R, r0 + 1, r - 1);
      ParentDepth(par, r - 1);
    }
  }

  lemma ParentDepth(par: seq<nat>, i: nat)
    requires Tree(par) && i < |par|
    ensures Depth(par, par[i]) == Depth(par, i) - 1
  {
  }

  lemma LevelLeaves(w: seq<nat>, W: seq<nat>, par: seq<nat>, R: seq<nat>, lens: seq<nat>, r2: int, r1: int, r0: int,
                    d: nat)
    requires History(w, W, par, R) && R[|W|] == |par| && |W| == |par| + 1 && Tree(par) && |lens| == |w| == |par| + 2
    requires d >= 1 && Level(par, r1, r0, d) && Level(par, r2, r1, d + 1) && r1 < |par| && r2 <= r1
    requires LeafDepths(par, R, lens, 2 * r0 - r1 + 1)
    requires 0 <= 2 * r1 - r2 + 1 <= 2 * r0 - r1 + 1 <= |lens|
    requires forall i :: 2 * r1 - r2 < i <= 2 * r0 - r1 ==> lens[i] == d
    ensures LeafDepths(par, R, lens, 2 * r1 - r2 + 1)
  {
    LevelBoundary(w, W, par, R, r1, r0, d);
    LevelBoundary(w, W, par, R, r2, r1, d + 1);
    forall t, i | 0 <= t <= |par| && 2 * r1 - r2 + 1 <= i < |lens| && LeavesBefore(R, t) <= i < LeavesBefore(R, t + 1)
      ensures lens[i] == Depth(par, t) + 1
    {
      if i <= 2 * r0 - r1 {
        if t <= r1 {
          LeavesMonotone(w, W, par, R, t + 1, r1 + 1);
        }
        if t > r0 {
          LeavesMonotone(w, W, par, R, r0 + 1, t);
        }
        assert r1 < t <= r0;
      }
    }
  }

  /** The finished merges, as the third phase sees them. */
  ghost predicate Merges(w: seq<nat>, W: seq<nat>, par: seq<nat>, R: seq<nat>)
  {
    && |w| == |par| + 2 && |W| == |par| + 1 && |R| == |par| + 2 && R[|W|] == |par|
    && Tree(par) && History(w, W, par, R)
    && (forall i :: 0 <= i <= |par| ==> Depth(par, i) <= 21)
  }

  /** What holds before the third phase looks at depth d. */
  ghost predicate AtLevel(par: seq<nat>, R: seq<nat>, keys: seq<nat>, root: int, next: int, r0: int, places: nat,
                          d: nat)
  {
    && Tree(par) && |R| == |par| + 2 && |keys| == |par| + 2
    && Level(par, root, r0, d) && d <= 23
    && (d == 0 ==> root == |par| && places == 1)
    && (d >= 1 ==> root < |par| && places == 2 * (r0 - root))
    && next == root + places && next < |keys|
    && Filled(keys[next + 1..], places, d, HuffmanLimit.SUPPORTED)
    && (forall i :: 0 <= i <= root ==> keys[i] == Depth(par, i))
    && LeafDepths(par, R, keys, next + 1)
  }

  lemma LevelShape(par: seq<nat>, R: seq<nat>, keys: seq<nat>, root: int, next: int, r0: int, places: nat, d: nat)
    requires AtLevel(par, R, keys, root, next, r0, places, d)
    ensures -1 <= root <= |par| && next == root + places && next < |keys| == |par| + 2 && d <= 23
  {
  }

  /** Skips the nodes at depth d. */
  method ReadNodes(a: array<SymFreq>, root: int, d: nat) returns (root': int)
    requires -1 <= root < a.Length
    ensures -1 <= root' <= root
    ensures forall i :: root' < i <= root ==> a[i].key == d
    ensures root' >= 0 ==> a[root'].key != d
  {
    root' := root;
    while root' >= 0 && a[root'].key == d
      invariant -1 <= root' <= root
      invariant forall i :: root' < i <= root ==> a[i].key == d
    {
      root' := root' - 1;
    }
  }

  /** The cells after lo up to hi set to d. */
  ghost function SetCells(keys: seq<nat>, lo: int, hi: int, d: nat): (keys': seq<nat>)
    requires -1 <= lo <= hi < |keys|
    ensures |keys'| == |keys|
  {
    seq(|keys|, i requires 0 <= i < |keys| => if lo < i <= hi then d else keys[i])
  }

  /** Gives depth d to leaves until only `used` places are left. */
  method GiveLeaves(a: array<SymFreq>, n: nat, next: int, places: nat, used: nat, d: nat) returns (next': int)
    requires n <= a.Length && next < n && used <= places && places - used <= next + 1
    modifies a
    ensures next' == next - (places - used)
    ensures SameSyms(a[..], old(a[..])) && a[n..] == old(a[n..])
    ensures KeysOf(a[..n]) == SetCells(old(KeysOf(a[..n])), next', next, d)
  {
    next' := next;
    var avbl := places;
    while avbl > used
      invariant used <= avbl <= places && next' == next - (places - avbl)
      invariant SameSyms(a[..], old(a[..])) && a[n..] == old(a[n..])
      invariant forall i :: 0 <= i < n ==> a[i].key == if next' < i <= next then d else old(a[i].key)
    {
      a[next'] := a[next'].(key := d);
      next', avbl := next' - 1, avbl - 1;
    }
  }

  lemma {:induction false} LeavesGiven(keys: seq<nat>, lo: int, next: int, places: nat, used: nat, d: nat, max: nat)
    requires -1 <= lo <= next < |keys| && used <= places && next - lo == places - used
    requires d <= max && (lo < next ==> d >= 1)
    requires Filled(keys[next + 1..], places, d, max)
    ensures Filled(SetCells(keys, lo, next, d)[lo + 1..], used, d, max)
    decreases next - lo
  {
    var lens := SetCells(keys, lo, next, d)[lo + 1..];
    if lo == next {
      assert lens == keys[next + 1..];
    } else {
      LeavesGiven(keys, lo + 1, next, places, used + 1, d, max);
      var rest := SetCells(keys, lo + 1, next, d)[lo + 1 + 1..];
      assert lens == [d] + rest;
      GiveLeaf(rest, used + 1, d, max);
    }
  }

  lemma StartLevels(par: seq<nat>, R: seq<nat>, keys: seq<nat>)
    requires Tree(par) && |R| == |par| + 2 && |keys| == |par| + 2
    requires forall i :: 0 <= i <= |par| ==> keys[i] == Depth(par, i)
    ensures AtLevel(par, R, keys, |par|, |par| + 1, |par|, 1, 0)
  {
    assert keys[|par| + 2..] == [];
    assert Times(1, Pow2(HuffmanLimit.SUPPORTED))
           == Times(0, Pow2(HuffmanLimit.SUPPORTED)) + Pow2(HuffmanLimit.SUPPORTED);
  }

  lemma PlacesSuffice(w: seq<nat>, W: seq<nat>, par: seq<nat>, R: seq<nat>, keys: seq<nat>,
                      r2: int, root: int, next: int, r0: int, places: nat, d: nat)
    requires Merges(w, W, par, R) && |keys| == |par| + 2
    requires AtLevel(par, R, keys, root, next, r0, places, d) && places > 0
    requires -1 <= r2 <= root <= |par| && forall i :: r2 < i <= root ==> keys[i] == d
    requires r2 >= 0 ==> keys[r2] != d
    ensures root - r2 <= places && (d == 0 ==> root - r2 == 1) && (root - r2 < places ==> d >= 1)
    ensures root >= 0 ==> r2 < root
    ensures Tree(par) && Level(par, r2, root, d + 1)
  {
    if d == 0 {
      if r2 < |par| - 1 {
        assert Depth(par, |par| - 1) >= 1;
        assert false;
      }
      assert Depth(par, |par|) == 0;
    } else {
      FewChildren(par, r2, root, r0, d);
    }
    if root >= 0 {
      NoGap(par, root, r0, d);
    }
    NextLevel(par, r2, root, r0, d);
  }

  lemma PlacesBound(w: seq<nat>, W: seq<nat>, par: seq<nat>, R: seq<nat>, keys: seq<nat>,
                    r2: int, root: int, next: int, r0: int, places: nat, d: nat)
    requires Merges(w, W, par, R) && |keys| == |par| + 2
    requires AtLevel(par, R, keys, root, next, r0, places, d) && places > 0
    requires -1 <= r2 <= root <= |par| && forall i :: r2 < i <= root ==> keys[i] == d
    requires r2 >= 0 ==> keys[r2] != d
    ensures root - r2 <= places && (root >= 0 ==> r2 < root)
  {
    PlacesSuffice(w, W, par, R, keys, r2, root, next, r0, places, d);
  }

  lemma LevelDone(w: seq<nat>, W: seq<nat>, par: seq<nat>, R: seq<nat>, keys: seq<nat>, keys': seq<nat>,
                  r2: int, root: int, next: int, next': int, r0: int, places: nat, used: nat, d: nat)
    requires Merges(w, W, par, R) && |keys| == |par| + 2 && used == root - r2
    requires AtLevel(par, R, keys, root, next, r0, places, d) && places > 0
    requires -1 <= r2 <= root <= |par| && forall i :: r2 < i <= root ==> keys[i] == d
    requires r2 >= 0 ==> keys[r2] != d
    requires -1 <= next' == next - (places - (root - r2)) <= next < |keys| && keys' == SetCells(keys, next', next, d)
    ensures AtLevel(par, R, keys', r2, next', root, 2 * used, d + 1)
  {
    PlacesSuffice(w, W, par, R, keys, r2, root, next, r0, places, d);
    ShallowLevel(w, W, par, R, keys, root, next, r0, places, d);
    LevelSpace(keys, next, next', places, used, d, HuffmanLimit.SUPPORTED);
    DoneLeaves(w, W, par, R, keys, keys', r2, root, next, next', r0, places, d);
    NextBody(par, R, keys, keys', r2, root, next, next', r0, places, used, d);
  }

  lemma ShallowLevel(w: seq<nat>, W: seq<nat>, par: seq<nat>, R: seq<nat>, keys: seq<nat>,
                     root: int, next: int, r0: int, places: nat, d: nat)
    requires Merges(w, W, par, R) && AtLevel(par, R, keys, root, next, r0, places, d) && places > 0
    ensures d <= 22
  {
    if d >= 1 {
      assert Depth(par, r0) == d - 1;
    }
  }

  lemma DoneLeaves(w: seq<nat>, W: seq<nat>, par: seq<nat>, R: seq<nat>, keys: seq<nat>, keys': seq<nat>,
                   r2: int, root: int, next: int, next': int, r0: int, places: nat, d: nat)
    requires Merges(w, W, par, R) && AtLevel(par, R, keys, root, next, r0, places, d)
    requires Level(par, r2, root, d + 1) && r2 <= root && root - r2 <= places && (d == 0 ==> root - r2 == 1)
    requires -1 <= next' == next - (places - (root - r2)) <= next < |keys| && keys' == SetCells(keys, next', next, d)
    ensures LeafDepths(par, R, keys', next' + 1)
  {
    LevelDoneLeaves(w, W, par, R, keys, keys', r2, root, next, next', r0, places, d);
  }

  lemma NextBody(par: seq<nat>, R: seq<nat>, keys: seq<nat>, keys': seq<nat>,
                 r2: int, root: int, next: int, next': int, r0: int, places: nat, used: nat, d: nat)
    requires AtLevel(par, R, keys, root, next, r0, places, d) && used == root - r2 && d <= 22
    requires root >= 0 ==> r2 < root
    requires Level(par, r2, root, d + 1) && used <= places && (d == 0 ==> used == 1)
    requires -1 <= next' == next - (places - used) <= next < |keys| && keys' == SetCells(keys, next', next, d)
    requires Filled(keys'[next' + 1..], 2 * used, d + 1, HuffmanLimit.SUPPORTED) && LeafDepths(par, R, keys', next' + 1)
    ensures AtLevel(par, R, keys', r2, next', root, 2 * used, d + 1)
  {
  }

  lemma LevelSpace(keys: seq<nat>, next: int, next': int, places: nat, used: nat, d: nat, max: nat)
    requires used <= places && -1 <= next' == next - (places - used) <= next < |keys|
    requires d < max && (used < places ==> d >= 1)
    requires Filled(keys[next + 1..], places, d, max)
    ensures Filled(SetCells(keys, next', next, d)[next' + 1..], 2 * used, d + 1, max)
  {
    LeavesGiven(keys, next', next, places, used, d, max);
    GoDeeper(SetCells(keys, next', next, d)[next' + 1..], used, d, max);
  }

  lemma LevelDoneLeaves(w: seq<nat>, W: seq<nat>, par: seq<nat>, R: seq<nat>, keys: seq<nat>, keys': seq<nat>,
                        r2: int, root: int, next: int, next': int, r0: int, places: nat, d: nat)
    requires Tree(par) && |R| == |par| + 2 && |keys| == |keys'| == |par| + 2 == |w|
    requires History(w, W, par, R) && R[|W|] == |par| && |W| == |par| + 1
    requires Level(par, root, r0, d) && Level(par, r2, root, d + 1) && r2 <= root && root - r2 <= places
    requires if d == 0 then root - r2 == places else root < |par| && places == 2 * (r0 - root)
    requires next == root + places
    requires -1 <= next' == next - (places - (root - r2)) <= next < |keys| && keys' == SetCells(keys, next', next, d)
    requires LeafDepths(par, R, keys, next + 1)
    ensures LeafDepths(par, R, keys', next' + 1)
  {
    LeafDepthsKeep(par, R, keys, keys', next + 1);
    if d >= 1 {
      LevelLeaves(w, W, par, R, keys', r2, root, r0, d);
    }
  }

  lemma LeafDepthsKeep(par: seq<nat>, R: seq<nat>, keys: seq<nat>, keys': seq<nat>, from: nat)
    requires Tree(par) && |R| == |par| + 2 && |keys| == |keys'| && LeafDepths(par, R, keys, from)
    requires forall i :: from <= i < |keys| ==> keys'[i] == keys[i]
    ensures LeafDepths(par, R, keys', from)
  {
  }

  /** The third phase: overwrites the depths of nodes with the depths of leaves, the deepest first. */
  method LevelPhase(a: array<SymFreq>, n: nat, ghost w: seq<nat>, ghost W: seq<nat>, ghost par: seq<nat>,
                    ghost R: seq<nat>)
    requires 2 <= n <= a.Length && |par| == n - 2 && Merges(w, W, par, R)
    requires AtLevel(par, R, KeysOf(a[..n]), n - 2, n - 1, n - 2, 1, 0)
    modifies a
    ensures SameSyms(a[..], old(a[..])) && a[n..] == old(a[n..])
    ensures Tree(par) && |R| == |par| + 2
    ensures Filled(KeysOf(a[..n]), 0, 23, HuffmanLimit.SUPPORTED)
    ensures LeafDepths(par, R, KeysOf(a[..n]), 0)
  {
    hide AtLevel, Merges, Tree, Filled, LeafDepths, SameSyms, KeysOf, SetCells;
    SymsStay(a[..], a[..], a[..]);
    var avbl: nat, dpth: nat := 1, 0;
    var root, next := n - 2, n - 1;
    ghost var r0 := n - 2;
    while avbl > 0
      invariant AtLevel(par, R, KeysOf(a[..n]), root, next, r0, avbl, dpth)
      invariant SameSyms(a[..], old(a[..])) && a[n..] == old(a[n..])
      decreases root + 1, avbl
    {
      ghost var keys, was := KeysOf(a[..n]), a[..];
      LevelShape(par, R, keys, root, next, r0, avbl, dpth);
      var root' := ReadNodes(a, root, dpth);
      NodesRead(keys, a[..n], root', root, dpth);
      PlacesBound(w, W, par, R, keys, root', root, next, r0, avbl, dpth);
      var used := root - root';
      var next' := GiveLeaves(a, n, next, avbl, used, dpth);
      SymsStay(old(a[..]), was, a[..]);
      LevelDone(w, W, par, R, keys, KeysOf(a[..n]), root', root, next, next', r0, avbl, used, dpth);
      r0, root, next := root, root', next';
      avbl, dpth := 2 * used, dpth + 1;
    }
    LevelsDone(par, R, KeysOf(a[..n]), root, next, r0, dpth);
  }

  lemma SymsStay(a: seq<SymFreq>, b: seq<SymFreq>, c: seq<SymFreq>)
    ensures SameSyms(a, a) && (SameSyms(b, a) && SameSyms(c, b) ==> SameSyms(c, a))
  {
  }

  lemma NodesRead(keys: seq<nat>, a: seq<SymFreq>, r2: int, root: int, d: nat)
    requires keys == KeysOf(a) && -1 <= r2 <= root < |a|
    requires forall i :: r2 < i <= root ==> a[i].key == d
    requires r2 >= 0 ==> a[r2].key != d
    ensures forall i :: r2 < i <= root ==> keys[i] == d
    ensures r2 >= 0 ==> keys[r2] != d
  {
  }

  lemma LevelsDone(par: seq<nat>, R: seq<nat>, keys: seq<nat>, root: int, next: int, r0: int, d: nat)
    requires AtLevel(par, R, keys, root, next, r0, 0, d)
    ensures Tree(par) && |R| == |par| + 2
    ensures Filled(keys, 0, 23, HuffmanLimit.SUPPORTED) && LeafDepths(par, R, keys, 0)
  {
    if root >= 0 {
      NoGap(par, root, r0, d);
    }
    assert keys[0..] == keys;
  }
}
