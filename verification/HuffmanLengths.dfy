/**
 The code lengths of qqwry/miniz.c, tdefl_calculate_minimum_redundancy, and their optimality: the three
 phases of MinRedundancy together give lengths that fill the code space, and no prefix code for the same
 weights is shorter.
 */
module HuffmanLengths {
  import opened Common
  import opened RadixSort
  import opened HuffmanCost
  import opened MinRedundancy
  import HuffmanLimit

  lemma TimesSplit(d: nat, x: nat, y: nat)
    ensures Times(d, x + y) == Times(d, x) + Times(d, y)
    ensures Times(d + 1, x) == Times(d, x) + x
  {
    TimesIs(d, x + y);
    TimesIs(d, x);
    TimesIs(d, y);
    TimesIs(d + 1, x);
  }

  /** The weights of the first r nodes, each times its depth. */
  ghost function NodeCost(par: seq<nat>, W: seq<nat>, r: nat): (c: nat)
    requires Tree(par) && r <= |W| == |par| + 1
  {
    if r == 0 then 0 else NodeCost(par, W, r - 1) + Times(Depth(par, r - 1), W[r - 1])
  }

  /** The weights of the first r nodes, each times the depth of its children. */
  ghost function ChildCost(par: seq<nat>, W: seq<nat>, r: nat): (c: nat)
    requires Tree(par) && r <= |W| == |par| + 1
  {
    if r == 0 then 0 else ChildCost(par, W, r - 1) + Times(Depth(par, r - 1) + 1, W[r - 1])
  }

  lemma {:induction false} ChildCostIs(par: seq<nat>, W: seq<nat>, r: nat)
    requires Tree(par) && r <= |W| == |par| + 1
    ensures ChildCost(par, W, r) == NodeCost(par, W, r) + Sum(W[..r])
  {
    hide Times;
    if r == 0 {
      assert W[..0] == [];
    } else {
      ChildCostIs(par, W, r - 1);
      assert W[..r] == W[..r - 1] + [W[r - 1]];
      SumSnoc(W[..r - 1], W[r - 1]);
      TimesSplit(Depth(par, r - 1), W[r - 1], 0);
    }
  }

  lemma CostOfSingle(x: nat, d: nat)
    ensures Cost([x], [d]) == Times(d, x)
  {
    hide Times;
    assert [x][1..] == [];
    TimesIs(d, x);
    Swapped(d, x);
  }

  lemma Swapped(d: nat, x: nat)
    ensures d * x == x * d
  {
  }

  lemma TimesNothing(d: nat)
    ensures Times(d, Sum([])) == 0
  {
    TimesIs(d, 0);
  }

  /** Leaves of one length. */
  lemma {:induction false} CostRange(w: seq<nat>, l: seq<nat>, lo: nat, hi: nat, d: nat)
    requires lo <= hi <= |w| == |l| && forall i :: lo <= i < hi ==> l[i] == d
    ensures Cost(w[..hi], l[..hi]) == Cost(w[..lo], l[..lo]) + Times(d, Sum(w[lo..hi]))
    decreases hi
  {
    hide Times, Sum, Cost;
    if lo == hi {
      assert w[lo..hi] == [];
      TimesNothing(d);
    } else {
      var k := hi - 1;
      CostRange(w, l, lo, k, d);
      assert w[..hi] == w[..k] + [w[k]] && l[..hi] == l[..k] + [l[k]];
      CostConcat(w[..k], [w[k]], l[..k], [l[k]]);
      assert w[lo..hi] == w[lo..k] + [w[k]];
      SumSnoc(w[lo..k], w[k]);
      CostOfSingle(w[k], d);
      TimesSplit(d, Sum(w[lo..k]), w[k]);
    }
  }

  /** Nodes at one depth. */
  lemma {:induction false} NodeRange(par: seq<nat>, W: seq<nat>, lo: nat, hi: nat, d: nat)
    requires Tree(par) && lo <= hi <= |W| == |par| + 1
    requires forall j :: lo <= j < hi ==> Depth(par, j) == d
    ensures NodeCost(par, W, hi) == NodeCost(par, W, lo) + Times(d, Sum(W[lo..hi]))
    decreases hi
  {
    hide Times, Sum;
    if lo == hi {
      assert W[lo..hi] == [];
      TimesNothing(d);
    } else {
      var k := hi - 1;
      NodeRange(par, W, lo, k, d);
      assert W[lo..hi] == W[lo..k] + [W[k]];
      SumSnoc(W[lo..k], W[k]);
      TimesSplit(d, Sum(W[lo..k]), W[k]);
    }
  }

  /** What the leaves and nodes spent before step t cost. */
  ghost function Spent(w: seq<nat>, W: seq<nat>, par: seq<nat>, lens: seq<nat>, leaves: int, nodes: nat): (c: nat)
    requires Tree(par) && |W| == |par| + 1 && |lens| == |w| && 0 <= leaves <= |w| && nodes <= |W|
  {
    Cost(w[..leaves], lens[..leaves]) + NodeCost(par, W, nodes)
  }

  /** Step s spends items that lie one below node s and together weigh as much. */
  lemma SpentStep(w: seq<nat>, W: seq<nat>, par: seq<nat>, lens: seq<nat>, leaves: nat, leaves': nat, nodes: nat,
                  nodes': nat,
                  s: nat, d: nat)
    requires Tree(par) && |W| == |par| + 1 && |lens| == |w| && leaves <= leaves' <= |w| && nodes <= nodes' <= |W|
    requires s < |W| && W[s] == Sum(W[nodes..nodes']) + Sum(w[leaves..leaves'])
    requires forall i :: leaves <= i < leaves' ==> lens[i] == d
    requires forall j :: nodes <= j < nodes' ==> Depth(par, j) == d
    ensures Spent(w, W, par, lens, leaves', nodes') == Spent(w, W, par, lens, leaves, nodes) + Times(d, W[s])
  {
    hide Times, Depth, Sum, Cost, Tree;
    CostRange(w, lens, leaves, leaves', d);
    NodeRange(par, W, nodes, nodes', d);
    TimesSplit(d, Sum(W[nodes..nodes']), Sum(w[leaves..leaves']));
  }

  /** What has been spent before step t is what the nodes made before step t carry. */
  lemma {:induction false} SpentCost(w: seq<nat>, W: seq<nat>, par: seq<nat>, R: seq<nat>, lens: seq<nat>, t: nat)
    requires Tree(par) && |W| == |par| + 1 && |lens| == |w| && History(w, W, par, R) && t <= |W|
    requires |R| == |par| + 2 && LeafDepths(par, R, lens, 0)
    ensures 0 <= LeavesBefore(R, t) <= |w| && R[t] <= |W|
    ensures Spent(w, W, par, lens, LeavesBefore(R, t), R[t]) == ChildCost(par, W, t)
  {
    if t > 0 {
      var s := t - 1;
      assert Merged(w, W, par, R, s);
      SpentCost(w, W, par, R, lens, s);
      var d := Depth(par, s) + 1;
      StepDepths(w, W, par, R, lens, s);
      SpentStep(w, W, par, lens, LeavesBefore(R, s), LeavesBefore(R, t), R[s], R[t], s, d);
    }
  }

  lemma StepDepths(w: seq<nat>, W: seq<nat>, par: seq<nat>, R: seq<nat>, lens: seq<nat>, s: nat)
    requires Tree(par) && |W| == |par| + 1 && |lens| == |w| && History(w, W, par, R) && s < |W|
    requires |R| == |par| + 2 && LeafDepths(par, R, lens, 0)
    requires Merged(w, W, par, R, s) && 0 <= LeavesBefore(R, s)
    ensures forall i :: LeavesBefore(R, s) <= i < LeavesBefore(R, s + 1) ==> lens[i] == Depth(par, s) + 1
    ensures forall j :: R[s] <= j < R[s + 1] ==> Depth(par, j) == Depth(par, s) + 1
  {
  }

  /** The weighted length of the code is the total weight of the merges. */
  lemma CostIsMerges(w: seq<nat>, W: seq<nat>, par: seq<nat>, R: seq<nat>, lens: seq<nat>)
    requires Tree(par) && |W| == |par| + 1 && |lens| == |w| == |par| + 2 && History(w, W, par, R)
    requires |R| == |par| + 2 && R[|W|] == |par| && LeafDepths(par, R, lens, 0)
    ensures Cost(w, lens) == Sum(W)
  {
    SpentCost(w, W, par, R, lens, |W|);
    ChildCostIs(par, W, |W|);
    assert w[..|w|] == w && lens[..|w|] == lens && W[..|W|] == W;
    assert NodeCost(par, W, |W|) == NodeCost(par, W, |par|) + Times(0, W[|par|]);
  }

  /** Code lengths for ascending weights, the lightest first: they fill the code space and none are shorter. */
  ghost predicate MinimumLengths(w: seq<nat>, lens: seq<nat>)
  {
    && |lens| == |w|
    && (|w| == 1 ==> lens == [1])
    && (|w| >= 2 ==>
          && MinRedundancy.Filled(lens, 0, 23, HuffmanLimit.SUPPORTED)
          && Shortest(w, lens))
  }

  ghost predicate Shortest(w: seq<nat>, lens: seq<nat>)
    requires |w| == |lens|
  {
    forall l: seq<nat>, m: nat :: |l| == |w| && CodeLengths(l, m) ==> Cost(w, lens) <= Cost(w, l)
  }

  lemma NoneShorter(w: seq<nat>, lens: seq<nat>)
    requires |w| == |lens| && Ascending(w) && Cost(w, lens) == MergeCost(w)
    ensures Shortest(w, lens)
  {
    forall l: seq<nat>, m: nat | |l| == |w| && CodeLengths(l, m)
      ensures Cost(w, lens) <= Cost(w, l)
    {
      LowerBound(w, l, m);
    }
  }

  lemma MergesReady(w: seq<nat>, W: seq<nat>, par: seq<nat>, R: seq<nat>)
    requires |w| == |par| + 2 && |W| == |par| + 1 && Tree(par) && Weighed(par, W) && W[|par|] < 65536
    requires History(w, W, par, R) && R[|W|] == |par|
    ensures Merges(w, W, par, R)
  {
    forall i | 0 <= i <= |par|
      ensures Depth(par, i) <= 21
    {
      DepthBound(par, W, i);
    }
  }

  lemma LengthsReady(w: seq<nat>, W: seq<nat>, par: seq<nat>, R: seq<nat>, lens: seq<nat>)
    requires |w| == |lens| == |par| + 2 && |W| == |par| + 1 && Tree(par) && |R| == |par| + 2
    requires History(w, W, par, R) && R[|W|] == |par| && MergeCost(w) == Sum(W) && Ascending(w)
    requires MinRedundancy.Filled(lens, 0, 23, HuffmanLimit.SUPPORTED) && LeafDepths(par, R, lens, 0)
    ensures MinimumLengths(w, lens)
  {
    CostIsMerges(w, W, par, R, lens);
    NoneShorter(w, lens);
  }

  /**
   Replaces ascending weights by code lengths. The weights are counts that together fit in 16 bits, the
   width of the cells; the lengths then never exceed 23.
   */
  method MinimumRedundancy(a: array<SymFreq>, n: nat)
    requires n <= a.Length && Ascending(KeysOf(a[..n])) && Sum(KeysOf(a[..n])) < 65536
    requires forall i :: 0 <= i < n ==> a[i].key >= 1
    modifies a
    ensures SameSyms(a[..], old(a[..])) && a[n..] == old(a[n..])
    ensures MinimumLengths(old(KeysOf(a[..n])), KeysOf(a[..n]))
  {
    hide Merges, AtLevel, Tree, History, Weighed, MinRedundancy.Filled, LeafDepths, MergeCost, Shortest;
    ghost var w := KeysOf(a[..n]);
    if n == 0 {
      return;
    } else if n == 1 {
      a[0] := a[0].(key := 1);
      assert KeysOf(a[..n]) == [1];
      return;
    }
    ghost var W, par, R := MergePhase(a, n, w);
    MergesReady(w, W, par, R);
    DepthPhase(a, n, par);
    StartLevels(par, R, KeysOf(a[..n]));
    LevelPhase(a, n, w, W, par, R);
    LengthsReady(w, W, par, R, KeysOf(a[..n]));
  }
}
