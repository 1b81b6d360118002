/**
 The inflater's two-level Huffman decoding tables (qqwry/miniz.c, tinfl_decompress and TINFL_HUFF_DECODE).

 Codes of at most ten bits are answered by one probe of a 1024-entry table indexed by the next ten bits of
 input. A longer code starts with a negative entry there, a reference into a binary tree whose nodes are
 allocated in pairs and addressed by negative indices. The tables are built from code lengths alone, with
 codes numbered as in module Canonical; the main result is that decoding inverts that numbering.
 */
module InflateTable {
  import opened Bits
  import opened Canonical

  const MAX_BITS: nat := 15
  const FAST_BITS: nat := 10
  const LOOKUP_SIZE: nat := 1024
  const MAX_SYMBOLS: nat := 288
  const TREE_SIZE: nat := 576

  /** The bit buffer begins with the given bits. */
  predicate StartsWith(bitBuf: nat, bits: seq<bool>)
  {
    LowBits(bitBuf, |bits|) == bits
  }

  /** Code lengths the inflater accepts: a complete set, or at most one code. */
  ghost predicate Acceptable(sizes: seq<nat>)
  {
    && |sizes| <= MAX_SYMBOLS
    && (forall i :: 0 <= i < |sizes| ==> sizes[i] <= MAX_BITS)
    && (End(sizes, MAX_BITS) == Pow2(MAX_BITS) || UsedCount(sizes) <= 1)
  }

  function UsedCount(sizes: seq<nat>): (n: nat)
  {
    if sizes == [] then 0
    else
      var k := |sizes| - 1;
      UsedCount(sizes[..k]) + (if sizes[k] > 0 then 1 else 0)
  }

  // ---------- what the tables mean ----------

  /** The entry that refers to tree node m; its two children live in slots 2m and 2m + 1. */
  function NodeRef(m: nat): (v: int)
  {
    -(2 * m + 1)
  }

  ghost predicate IsNode(nodes: seq<seq<bool>>, q: seq<bool>, v: int)
  {
    exists m :: 0 <= m < |nodes| && nodes[m] == q && v == NodeRef(m)
  }

  /** Tree entry v is right for the bit string q, the first `done` symbols having been entered. */
  ghost predicate Denotes(sizes: seq<nat>, done: nat, nodes: seq<seq<bool>>, q: seq<bool>, v: int)
  {
    if v < 0 then IsNode(nodes, q, v)
    else if v > 0 then v < done && Used(sizes, v) && CodeBits(sizes, v) == q
    else q !in nodes && forall t :: 0 < t < done && Used(sizes, t) ==> CodeBits(sizes, t) != q
  }

  /** Lookup entry v is right for the ten bits p. */
  ghost predicate LookDenotes(sizes: seq<nat>, done: nat, nodes: seq<seq<bool>>, p: seq<bool>, v: int)
  {
    if v < 0 then IsNode(nodes, p, v)
    else if v > 0 then
      (var s := v % 512;
       s < done && Used(sizes, s) && v == sizes[s] * 512 + s && CodeBits(sizes, s) <= p)
    else
      p !in nodes
      && forall t :: 0 <= t < done && Used(sizes, t) && sizes[t] <= FAST_BITS ==> !(CodeBits(sizes, t) <= p)
  }

  ghost predicate Distinct(nodes: seq<seq<bool>>)
  {
    forall i, j :: 0 <= i < j < |nodes| ==> nodes[i] != nodes[j]
  }

  /** Every node is a proper prefix, of ten bits or more, of the code of a symbol below `top`. */
  ghost predicate Origin(sizes: seq<nat>, top: nat, nodes: seq<seq<bool>>)
  {
    forall m :: 0 <= m < |nodes| ==> FAST_BITS <= |nodes[m]| && PrefixOfCode(sizes, top, nodes[m])
  }

  ghost predicate PrefixOfCode(sizes: seq<nat>, top: nat, q: seq<bool>)
  {
    exists t :: 0 <= t < top && Used(sizes, t) && q < CodeBits(sizes, t)
  }

  /** Every proper prefix, of ten bits or more, of an entered code is a node. */
  ghost predicate Closure(sizes: seq<nat>, done: nat, nodes: seq<seq<bool>>)
  {
    forall t, k :: 0 <= t < done && Used(sizes, t) && FAST_BITS <= k < sizes[t] ==> CodeBits(sizes, t)[..k] in nodes
  }

  function Parent(q: seq<bool>): (p: seq<bool>)
  {
    if q == [] then [] else q[..|q| - 1]
  }

  ghost predicate ParentClosed(nodes: seq<seq<bool>>)
  {
    forall q {:trigger Parent(q)} :: q in nodes && |q| > FAST_BITS ==> Parent(q) in nodes
  }

  ghost predicate Nodes(sizes: seq<nat>, done: nat, top: nat, nodes: seq<seq<bool>>)
  {
    && |nodes| <= MAX_SYMBOLS && Distinct(nodes)
    && Origin(sizes, top, nodes) && Closure(sizes, done, nodes) && ParentClosed(nodes)
  }

  ghost predicate LookOk(sizes: seq<nat>, done: nat, look: seq<int>, nodes: seq<seq<bool>>)
  {
    && |look| == LOOKUP_SIZE
    && (forall i :: 0 <= i < LOOKUP_SIZE ==> LookDenotes(sizes, done, nodes, LowBits(i, FAST_BITS), look[i]))
  }

  ghost predicate TreeOk(sizes: seq<nat>, done: nat, tree: seq<int>, nodes: seq<seq<bool>>)
  {
    && |tree| == TREE_SIZE && |nodes| <= MAX_SYMBOLS
    && (forall m, b :: 0 <= m < |nodes| ==> Denotes(sizes, done, nodes, nodes[m] + [b], tree[2 * m + BitInt(b)]))
    && (forall k :: 2 * |nodes| <= k < TREE_SIZE ==> tree[k] == 0)
  }

  /** The tables when the first `done` symbols have been entered and the nodes belong to the first `top`. */
  ghost predicate Inv(sizes: seq<nat>, done: nat, top: nat, look: seq<int>, tree: seq<int>, nodes: seq<seq<bool>>)
  {
    Nodes(sizes, done, top, nodes) && LookOk(sizes, done, look, nodes) && TreeOk(sizes, done, tree, nodes)
  }

  /** The tables decode exactly the canonical codes of `sizes`. */
  ghost predicate TableFor(sizes: seq<nat>, look: seq<int>, tree: seq<int>)
  {
    Acceptable(sizes) && exists nodes :: Inv(sizes, |sizes|, |sizes|, look, tree, nodes)
  }

  // ---------- a set of lengths the inflater accepts fits ----------

  lemma {:induction false} FewCodesFit(sizes: seq<nat>, max: nat)
    requires forall i :: 0 <= i < |sizes| ==> sizes[i] <= max
    ensures UsedCount(sizes) == 0 ==> KraftSum(sizes, max) == 0
    ensures UsedCount(sizes) == 1 ==> KraftSum(sizes, max) <= Pow2(max)
  {
    if sizes != [] {
      var k := |sizes| - 1;
      FewCodesFit(sizes[..k], max);
      if sizes[k] > 0 {
        Pow2Mono(max - sizes[k], max);
      }
    }
  }

  lemma AcceptableFits(sizes: seq<nat>)
    requires Acceptable(sizes)
    ensures Fits(sizes, MAX_BITS)
  {
    FewCodesFit(sizes, MAX_BITS);
    EndIsKraftSum(sizes, MAX_BITS);
  }

  // ---------- the tree never outgrows its array ----------

  function LengthCount(nodes: seq<seq<bool>>, k: nat): (n: nat)
  {
    if nodes == [] then 0
    else
      var i := |nodes| - 1;
      LengthCount(nodes[..i], k) + (if |nodes[i]| == k then 1 else 0)
  }

  lemma {:induction false} IntervalCard(s: set<nat>, lo: nat, hi: nat)
    requires lo <= hi && forall x :: x in s ==> lo <= x < hi
    ensures |s| <= hi - lo
    decreases hi - lo
  {
    if lo < hi {
      var t := s - {lo};
      assert forall x :: x in t ==> lo + 1 <= x < hi;
      IntervalCard(t, lo + 1, hi);
      assert s <= t + {lo};
      assert |s| <= |t + {lo}|  by {
        if lo in s {
          assert s == t + {lo};
        } else {
          assert s == t;
        }
      }
    } else {
      assert s == {} by {
        if x :| x in s {
          assert false;
        }
      }
    }
  }

  ghost function ValuesOfLength(nodes: seq<seq<bool>>, k: nat): (s: set<nat>)
  {
    if nodes == [] then {}
    else
      var i := |nodes| - 1;
      ValuesOfLength(nodes[..i], k) + (if |nodes[i]| == k then {FromHighFirst(nodes[i])} else {})
  }

  lemma {:induction false} NodeOfValue(nodes: seq<seq<bool>>, k: nat, v: nat) returns (m: nat)
    requires v in ValuesOfLength(nodes, k)
    ensures m < |nodes| && |nodes[m]| == k && FromHighFirst(nodes[m]) == v
  {
    var i := |nodes| - 1;
    if |nodes[i]| == k && v == FromHighFirst(nodes[i]) {
      m := i;
    } else {
      m := NodeOfValue(nodes[..i], k, v);
    }
  }

  lemma {:induction false} LengthCountIsCard(nodes: seq<seq<bool>>, k: nat)
    requires Distinct(nodes)
    ensures LengthCount(nodes, k) == |ValuesOfLength(nodes, k)|
  {
    if nodes != [] {
      var i := |nodes| - 1;
      var v := FromHighFirst(nodes[i]);
      LengthCountIsCard(nodes[..i], k);
      if |nodes[i]| == k && v in ValuesOfLength(nodes[..i], k) {
        var m := NodeOfValue(nodes[..i], k, v);
        HighFirstOfBits(nodes[m]);
        HighFirstOfBits(nodes[i]);
        assert false;
      }
    }
  }

  lemma LengthCountBound(nodes: seq<seq<bool>>, k: nat, lo: nat, hi: nat)
    requires Distinct(nodes) && lo <= hi
    requires forall m :: 0 <= m < |nodes| && |nodes[m]| == k ==> lo <= FromHighFirst(nodes[m]) < hi
    ensures LengthCount(nodes, k) <= hi - lo
  {
    LengthCountIsCard(nodes, k);
    forall v | v in ValuesOfLength(nodes, k)
      ensures lo <= v < hi
    {
      var m := NodeOfValue(nodes, k, v);
    }
    IntervalCard(ValuesOfLength(nodes, k), lo, hi);
  }

  lemma {:induction false} AllLengths(nodes: seq<seq<bool>>)
    requires forall m :: 0 <= m < |nodes| ==> 10 <= |nodes[m]| <= 14
    ensures |nodes| == LengthCount(nodes, 10) + LengthCount(nodes, 11) + LengthCount(nodes, 12)
                     + LengthCount(nodes, 13) + LengthCount(nodes, 14)
  {
    if nodes != [] {
      AllLengths(nodes[..|nodes| - 1]);
    }
  }

  lemma {:induction false} LongCounts(sizes: seq<nat>)
    ensures Count(sizes, 11) + Count(sizes, 12) + Count(sizes, 13) + Count(sizes, 14) + Count(sizes, 15) <= |sizes|
  {
    if sizes != [] {
      LongCounts(sizes[..|sizes| - 1]);
    }
  }

  lemma HighFirstRoundTrip(v: nat, n: nat)
    requires v < Pow2(n)
    ensures FromHighFirst(HighFirst(v, n)) == v
  {
    HighFirstOfBits(HighFirst(v, n));
    HighFirstInjective(v, FromHighFirst(HighFirst(v, n)), n);
  }

  /** The value of the first k bits of a longer code. */
  lemma PrefixValue(sizes: seq<nat>, t: nat, k: nat, max: nat)
    requires Fits(sizes, max) && Used(sizes, t) && k < sizes[t]
    ensures FromHighFirst(CodeBits(sizes, t)[..k]) == Shr(Code(sizes, t), sizes[t] - k)
    ensures End(sizes, k) <= FromHighFirst(CodeBits(sizes, t)[..k]) < Pow2(k)
  {
    CodeFits(sizes, t, max);
    PrefixOfNumber(Code(sizes, t), sizes[t], k);
    LongerCodeIsPast(sizes, t, k);
  }

  lemma PrefixOfNumber(c: nat, n: nat, k: nat)
    requires c < Pow2(n) && k <= n
    ensures FromHighFirst(HighFirst(c, n)[..k]) == Shr(c, n - k)
  {
    HighFirstPrefix(c, n, k);
    var d := n - k;
    assert n == k + d;
    ShrBelow(c, k, d);
    HighFirstRoundTrip(Shr(c, d), k);
  }

  lemma {:induction false} OnlyOneUsed(sizes: seq<nat>, s: nat, t: nat)
    requires Used(sizes, s) && Used(sizes, t) && UsedCount(sizes) <= 1
    ensures s == t
  {
    if s != t {
      var k := |sizes| - 1;
      if s < k && t < k {
        OnlyOneUsed(sizes[..k], s, t);
      } else {
        UsedPositive(sizes[..k], if s < k then s else t);
      }
    }
  }

  lemma {:induction false} UsedPositive(sizes: seq<nat>, s: nat)
    requires Used(sizes, s)
    ensures UsedCount(sizes) >= 1
  {
    var k := |sizes| - 1;
    if s < k {
      UsedPositive(sizes[..k], s);
    }
  }

  lemma OneNodePerLength(sizes: seq<nat>, nodes: seq<seq<bool>>, t: nat, k: nat)
    requires Acceptable(sizes) && UsedCount(sizes) <= 1 && Used(sizes, t)
    requires Distinct(nodes) && Origin(sizes, |sizes|, nodes)
    ensures LengthCount(nodes, k) <= 1
  {
    AcceptableFits(sizes);
    var v := if k < sizes[t] then Shr(Code(sizes, t), sizes[t] - k) else 0;
    forall m | 0 <= m < |nodes| && |nodes[m]| == k
      ensures FromHighFirst(nodes[m]) == v
    {
      var u :| 0 <= u < |sizes| && Used(sizes, u) && nodes[m] < CodeBits(sizes, u);
      OnlyOneUsed(sizes, t, u);
      assert nodes[m] == CodeBits(sizes, t)[..k];
      PrefixValue(sizes, t, k, MAX_BITS);
    }
    LengthCountBound(nodes, k, v, v + 1);
  }

  lemma NodesOfLength(sizes: seq<nat>, nodes: seq<seq<bool>>, k: nat)
    requires Fits(sizes, MAX_BITS) && k <= MAX_BITS
    requires Distinct(nodes) && Origin(sizes, |sizes|, nodes)
    ensures LengthCount(nodes, k) <= Pow2(k) - End(sizes, k)
  {
    FitsBelow(sizes, k, MAX_BITS);
    forall m | 0 <= m < |nodes| && |nodes[m]| == k
      ensures End(sizes, k) <= FromHighFirst(nodes[m]) < Pow2(k)
    {
      var u :| 0 <= u < |sizes| && Used(sizes, u) && nodes[m] < CodeBits(sizes, u);
      assert nodes[m] == CodeBits(sizes, u)[..k];
      PrefixValue(sizes, u, k, MAX_BITS);
    }
    LengthCountBound(nodes, k, End(sizes, k), Pow2(k));
  }

  lemma NodeLengths(sizes: seq<nat>, nodes: seq<seq<bool>>)
    requires Acceptable(sizes) && Origin(sizes, |sizes|, nodes)
    ensures forall m :: 0 <= m < |nodes| ==> 10 <= |nodes[m]| <= 14
  {
    forall m | 0 <= m < |nodes|
      ensures 10 <= |nodes[m]| <= 14
    {
      assert PrefixOfCode(sizes, |sizes|, nodes[m]);
      var u :| 0 <= u < |sizes| && Used(sizes, u) && nodes[m] < CodeBits(sizes, u);
      assert |CodeBits(sizes, u)| <= 15;
    }
  }

  /** The codes of any acceptable lengths need at most 288 tree nodes, so 576 slots suffice. */
  lemma TreeHasRoom(sizes: seq<nat>, nodes: seq<seq<bool>>)
    requires Acceptable(sizes)
    requires Distinct(nodes) && Origin(sizes, |sizes|, nodes)
    ensures |nodes| <= MAX_SYMBOLS
  {
    AcceptableFits(sizes);
    NodeLengths(sizes, nodes);
    AllLengths(nodes);
    if End(sizes, MAX_BITS) == Pow2(MAX_BITS) {
      NodesOfLength(sizes, nodes, 10);
      NodesOfLength(sizes, nodes, 11);
      NodesOfLength(sizes, nodes, 12);
      NodesOfLength(sizes, nodes, 13);
      NodesOfLength(sizes, nodes, 14);
      Levels(sizes);
      LongCounts(sizes);
    } else if nodes != [] {
      var u :| 0 <= u < |sizes| && Used(sizes, u) && nodes[0] < CodeBits(sizes, u);
      OneNodePerLength(sizes, nodes, u, 10);
      OneNodePerLength(sizes, nodes, u, 11);
      OneNodePerLength(sizes, nodes, u, 12);
      OneNodePerLength(sizes, nodes, u, 13);
      OneNodePerLength(sizes, nodes, u, 14);
    }
  }

  lemma Levels(sizes: seq<nat>)
    ensures End(sizes, 11) == 2 * End(sizes, 10) + Count(sizes, 11)
    ensures End(sizes, 12) == 2 * End(sizes, 11) + Count(sizes, 12)
    ensures End(sizes, 13) == 2 * End(sizes, 12) + Count(sizes, 13)
    ensures End(sizes, 14) == 2 * End(sizes, 13) + Count(sizes, 14)
    ensures End(sizes, 15) == 2 * End(sizes, 14) + Count(sizes, 15)
    ensures Pow2(10) == 1024 && Pow2(11) == 2048 && Pow2(12) == 4096 && Pow2(13) == 8192
    ensures Pow2(14) == 16384 && Pow2(15) == 32768
  {
    Pow2Values();
  }

  // ---------- entering one symbol ----------

  /** Comparable codes belong to the same symbol. */
  lemma SameSymbol(sizes: seq<nat>, s: nat, t: nat, bits: seq<bool>)
    requires Acceptable(sizes) && Used(sizes, s) && Used(sizes, t)
    requires CodeBits(sizes, s) <= bits && CodeBits(sizes, t) <= bits
    ensures s == t
  {
    AcceptableFits(sizes);
    if s != t {
      PrefixFree(sizes, s, t, MAX_BITS);
      PrefixFree(sizes, t, s, MAX_BITS);
    }
  }

  /** No code is a prefix of a tree node. */
  lemma NodeIsNotPastCode(sizes: seq<nat>, s: nat, top: nat, nodes: seq<seq<bool>>, q: seq<bool>)
    requires Acceptable(sizes) && Used(sizes, s)
    requires Origin(sizes, top, nodes) && q in nodes
    ensures !(CodeBits(sizes, s) <= q)
  {
    if CodeBits(sizes, s) <= q {
      var u :| 0 <= u < top && Used(sizes, u) && q < CodeBits(sizes, u);
      SameSymbol(sizes, s, u, CodeBits(sizes, u));
      assert false;
    }
  }

  /** An entry for another bit string stays right when symbol s is entered. */
  lemma SymbolKeeps(sizes: seq<nat>, s: nat, nodes: seq<seq<bool>>, p: seq<bool>, v: int)
    requires Denotes(sizes, s, nodes, p, v)
    requires Used(sizes, s) ==> p != CodeBits(sizes, s)
    ensures Denotes(sizes, s + 1, nodes, p, v)
  {
  }

  lemma LookSymbolKeeps(sizes: seq<nat>, s: nat, nodes: seq<seq<bool>>, p: seq<bool>, v: int)
    requires LookDenotes(sizes, s, nodes, p, v)
    requires Used(sizes, s) && sizes[s] <= FAST_BITS ==> !(CodeBits(sizes, s) <= p)
    ensures LookDenotes(sizes, s + 1, nodes, p, v)
  {
  }

  lemma WidenOrigin(sizes: seq<nat>, top: nat, nodes: seq<seq<bool>>)
    requires Origin(sizes, top, nodes)
    ensures Origin(sizes, top + 1, nodes)
  {
    forall m | 0 <= m < |nodes|
      ensures PrefixOfCode(sizes, top + 1, nodes[m])
    {
      assert PrefixOfCode(sizes, top, nodes[m]);
    }
  }

  /** Entering a symbol leaves a tree alone in which its code has no slot. */
  lemma TreeSymbol(sizes: seq<nat>, s: nat, tree: seq<int>, nodes: seq<seq<bool>>)
    requires TreeOk(sizes, s, tree, nodes)
    requires Used(sizes, s) ==> forall m :: 0 <= m < |nodes| ==> |nodes[m]| >= sizes[s]
    ensures TreeOk(sizes, s + 1, tree, nodes)
  {
    hide Denotes, CodeBits;
    forall m, b | 0 <= m < |nodes|
      ensures Denotes(sizes, s + 1, nodes, nodes[m] + [b], tree[2 * m + BitInt(b)])
    {
      assert Used(sizes, s) ==> |CodeBits(sizes, s)| == sizes[s] < |nodes[m] + [b]|;
      SymbolKeeps(sizes, s, nodes, nodes[m] + [b], tree[2 * m + BitInt(b)]);
    }
  }

  lemma LookSymbol(sizes: seq<nat>, s: nat, look: seq<int>, nodes: seq<seq<bool>>)
    requires LookOk(sizes, s, look, nodes)
    requires Used(sizes, s) ==> sizes[s] > FAST_BITS
    ensures LookOk(sizes, s + 1, look, nodes)
  {
    hide LookDenotes, LowBits, CodeBits;
    forall i | 0 <= i < LOOKUP_SIZE
      ensures LookDenotes(sizes, s + 1, nodes, LowBits(i, FAST_BITS), look[i])
    {
      LookSymbolKeeps(sizes, s, nodes, LowBits(i, FAST_BITS), look[i]);
    }
  }

  lemma SkipUnused(sizes: seq<nat>, s: nat, look: seq<int>, tree: seq<int>, nodes: seq<seq<bool>>)
    requires Inv(sizes, s, s, look, tree, nodes) && !Used(sizes, s)
    ensures Inv(sizes, s + 1, s + 1, look, tree, nodes)
  {
    hide Denotes, LookDenotes, LowBits, ParentClosed, Distinct;
    WidenOrigin(sizes, s, nodes);
    LookSymbol(sizes, s, look, nodes);
    TreeSymbol(sizes, s, tree, nodes);
  }

  /** The lookup table after a short code has been written to every index that starts with it. */
  lemma LookShort(sizes: seq<nat>, s: nat, look: seq<int>, nodes: seq<seq<bool>>, look': seq<int>)
    requires Used(sizes, s) && s < 512 && LookOk(sizes, s, look, nodes)
    requires |look'| == LOOKUP_SIZE
    requires forall i :: 0 <= i < LOOKUP_SIZE ==>
               look'[i] == if CodeBits(sizes, s) <= LowBits(i, FAST_BITS) then sizes[s] * 512 + s else look[i]
    ensures LookOk(sizes, s + 1, look', nodes)
  {
    hide Denotes, LowBits, CodeBits;
    forall i | 0 <= i < LOOKUP_SIZE
      ensures LookDenotes(sizes, s + 1, nodes, LowBits(i, FAST_BITS), look'[i])
    {
      if !(CodeBits(sizes, s) <= LowBits(i, FAST_BITS)) {
        LookSymbolKeeps(sizes, s, nodes, LowBits(i, FAST_BITS), look[i]);
      }
    }
  }

  lemma EnterShort(sizes: seq<nat>, s: nat, look: seq<int>, tree: seq<int>, nodes: seq<seq<bool>>, look': seq<int>)
    requires Acceptable(sizes) && Used(sizes, s) && sizes[s] <= FAST_BITS
    requires Inv(sizes, s, s, look, tree, nodes)
    requires |look| == LOOKUP_SIZE && |look'| == LOOKUP_SIZE
    requires forall i :: 0 <= i < LOOKUP_SIZE ==>
               look'[i] == if CodeBits(sizes, s) <= LowBits(i, FAST_BITS) then sizes[s] * 512 + s else look[i]
    ensures Inv(sizes, s + 1, s + 1, look', tree, nodes)
  {
    hide Denotes, LookDenotes, LowBits, ParentClosed, Distinct;
    WidenOrigin(sizes, s, nodes);
    LookShort(sizes, s, look, nodes, look');
    TreeSymbol(sizes, s, tree, nodes);
  }

  /** A new node keeps the structural facts and cannot exceed the tree. */
  lemma AddNode(sizes: seq<nat>, s: nat, nodes: seq<seq<bool>>, q: seq<bool>)
    requires Acceptable(sizes) && Used(sizes, s)
    requires Nodes(sizes, s, s + 1, nodes)
    requires FAST_BITS <= |q| && q < CodeBits(sizes, s) && q !in nodes
    requires |q| > FAST_BITS ==> Parent(q) in nodes
    ensures Nodes(sizes, s, s + 1, nodes + [q])
    ensures |nodes| < MAX_SYMBOLS
  {
    OriginAdd(sizes, s, nodes, q);
    ParentClosedAdd(nodes, q);
    ClosureAdd(sizes, s, nodes, q);
    OriginWhole(sizes, s + 1, nodes + [q]);
    TreeHasRoom(sizes, nodes + [q]);
  }

  lemma OriginAdd(sizes: seq<nat>, s: nat, nodes: seq<seq<bool>>, q: seq<bool>)
    requires Used(sizes, s) && Origin(sizes, s + 1, nodes)
    requires FAST_BITS <= |q| && q < CodeBits(sizes, s)
    ensures Origin(sizes, s + 1, nodes + [q])
  {
    var nodes' := nodes + [q];
    forall m | 0 <= m < |nodes'|
      ensures FAST_BITS <= |nodes'[m]| && PrefixOfCode(sizes, s + 1, nodes'[m])
    {
      if m < |nodes| {
        assert nodes'[m] == nodes[m];
      }
    }
  }

  lemma ParentClosedAdd(nodes: seq<seq<bool>>, q: seq<bool>)
    requires ParentClosed(nodes)
    requires |q| > FAST_BITS ==> Parent(q) in nodes
    ensures ParentClosed(nodes + [q])
  {
    forall p | p in nodes + [q] && |p| > FAST_BITS
      ensures Parent(p) in nodes + [q]
    {
    }
  }

  lemma ClosureAdd(sizes: seq<nat>, s: nat, nodes: seq<seq<bool>>, q: seq<bool>)
    requires Closure(sizes, s, nodes)
    ensures Closure(sizes, s, nodes + [q])
  {
  }

  lemma OriginWhole(sizes: seq<nat>, top: nat, nodes: seq<seq<bool>>)
    requires Origin(sizes, top, nodes) && top <= |sizes|
    ensures Origin(sizes, |sizes|, nodes)
  {
    forall m | 0 <= m < |nodes|
      ensures PrefixOfCode(sizes, |sizes|, nodes[m])
    {
      assert PrefixOfCode(sizes, top, nodes[m]);
    }
  }

  /** The children of a fresh node are empty: nothing entered so far extends it. */
  lemma FreshChildren(sizes: seq<nat>, s: nat, nodes: seq<seq<bool>>, q: seq<bool>, b: bool)
    requires FAST_BITS <= |q| && q !in nodes
    requires Closure(sizes, s, nodes) && ParentClosed(nodes)
    ensures Denotes(sizes, s, nodes + [q], q + [b], 0)
  {
    var c := q + [b];
    assert Parent(c) == q;
    forall t | 0 < t < s && Used(sizes, t)
      ensures CodeBits(sizes, t) != c
    {
      assert |q| < sizes[t] ==> CodeBits(sizes, t)[..|q|] in nodes;
    }
  }

  /** Allocating a node for the first ten bits of a long code. */
  lemma EnterRoot(sizes: seq<nat>, s: nat, look: seq<int>, tree: seq<int>, nodes: seq<seq<bool>>, i: nat)
    requires Acceptable(sizes) && Used(sizes, s) && sizes[s] > FAST_BITS
    requires Inv(sizes, s, s + 1, look, tree, nodes) && |look| == LOOKUP_SIZE
    requires i < LOOKUP_SIZE && LowBits(i, FAST_BITS) == CodeBits(sizes, s)[..FAST_BITS] && look[i] == 0
    ensures |nodes| < MAX_SYMBOLS
    ensures Inv(sizes, s, s + 1, look[i := NodeRef(|nodes|)], tree, nodes + [LowBits(i, FAST_BITS)])
  {
    hide LookDenotes, Denotes, LowBits;
    var q := LowBits(i, FAST_BITS);
    RootIsNew(sizes, s, look, nodes, i);
    AddNode(sizes, s, nodes, q);
    LookRoot(sizes, s, look, nodes, i);
    TreeRoot(sizes, s, tree, nodes, q);
  }

  lemma RootIsNew(sizes: seq<nat>, s: nat, look: seq<int>, nodes: seq<seq<bool>>, i: nat)
    requires LookOk(sizes, s, look, nodes) && i < LOOKUP_SIZE && look[i] == 0
    ensures LowBits(i, FAST_BITS) !in nodes
  {
    hide LowBits, CodeBits;
    assert LookDenotes(sizes, s, nodes, LowBits(i, FAST_BITS), look[i]);
  }

  lemma LookRoot(sizes: seq<nat>, s: nat, look: seq<int>, nodes: seq<seq<bool>>, i: nat)
    requires LookOk(sizes, s, look, nodes) && i < LOOKUP_SIZE
    ensures LookOk(sizes, s, look[i := NodeRef(|nodes|)], nodes + [LowBits(i, FAST_BITS)])
  {
    hide LowBits, CodeBits;
    var q := LowBits(i, FAST_BITS);
    var look' := look[i := NodeRef(|nodes|)];
    forall j | 0 <= j < LOOKUP_SIZE
      ensures LookDenotes(sizes, s, nodes + [q], LowBits(j, FAST_BITS), look'[j])
    {
      if j != i {
        LookIndexUnique(i, j);
        LookKeeps(sizes, s, nodes, q, LowBits(j, FAST_BITS), look[j]);
      }
    }
  }

  lemma TreeRoot(sizes: seq<nat>, s: nat, tree: seq<int>, nodes: seq<seq<bool>>, q: seq<bool>)
    requires TreeOk(sizes, s, tree, nodes) && |nodes| < MAX_SYMBOLS
    requires Closure(sizes, s, nodes) && ParentClosed(nodes)
    requires forall m :: 0 <= m < |nodes| ==> FAST_BITS <= |nodes[m]|
    requires |q| == FAST_BITS && q !in nodes
    ensures TreeOk(sizes, s, tree, nodes + [q])
  {
    hide Denotes, CodeBits, Closure, ParentClosed;
    var nodes' := nodes + [q];
    forall m, b | 0 <= m < |nodes'|
      ensures Denotes(sizes, s, nodes', nodes'[m] + [b], tree[2 * m + BitInt(b)])
    {
      if m < |nodes| {
        assert |nodes[m] + [b]| > |q|;
        TreeKeeps(sizes, s, nodes, q, nodes[m] + [b], tree[2 * m + BitInt(b)]);
      } else {
        FreshChildren(sizes, s, nodes, q, b);
      }
    }
  }

  lemma LookIndexUnique(i: nat, j: nat)
    requires i < LOOKUP_SIZE && j < LOOKUP_SIZE && i != j
    ensures LowBits(i, FAST_BITS) != LowBits(j, FAST_BITS)
  {
    Pow2Values();
    if LowBits(i, FAST_BITS) == LowBits(j, FAST_BITS) {
      LowBitsInjective(i, j, FAST_BITS);
    }
  }

  /** Allocating a node below node m. */
  lemma EnterInner(sizes: seq<nat>, s: nat, look: seq<int>, tree: seq<int>, nodes: seq<seq<bool>>, m: nat, b: bool)
    requires Acceptable(sizes) && Used(sizes, s)
    requires Inv(sizes, s, s + 1, look, tree, nodes) && |tree| == TREE_SIZE && |nodes| <= MAX_SYMBOLS
    requires m < |nodes| && nodes[m] + [b] < CodeBits(sizes, s) && tree[2 * m + BitInt(b)] == 0
    ensures |nodes| < MAX_SYMBOLS
    ensures Inv(sizes, s, s + 1, look, tree[2 * m + BitInt(b) := NodeRef(|nodes|)], nodes + [nodes[m] + [b]])
  {
    hide LookDenotes, Denotes, LowBits, CodeBits;
    var q := nodes[m] + [b];
    InnerIsNew(sizes, s, tree, nodes, m, b);
    assert Parent(q) == nodes[m];
    AddNode(sizes, s, nodes, q);
    LookInner(sizes, s, look, nodes, q);
    TreeInner(sizes, s, tree, nodes, m, b);
  }

  lemma InnerIsNew(sizes: seq<nat>, s: nat, tree: seq<int>, nodes: seq<seq<bool>>, m: nat, b: bool)
    requires TreeOk(sizes, s, tree, nodes) && m < |nodes| && tree[2 * m + BitInt(b)] == 0
    ensures nodes[m] + [b] !in nodes
  {
    hide CodeBits;
    assert Denotes(sizes, s, nodes, nodes[m] + [b], tree[2 * m + BitInt(b)]);
  }

  lemma LookInner(sizes: seq<nat>, s: nat, look: seq<int>, nodes: seq<seq<bool>>, q: seq<bool>)
    requires LookOk(sizes, s, look, nodes) && |q| > FAST_BITS
    ensures LookOk(sizes, s, look, nodes + [q])
  {
    hide LookDenotes, LowBits, CodeBits;
    forall j | 0 <= j < LOOKUP_SIZE
      ensures LookDenotes(sizes, s, nodes + [q], LowBits(j, FAST_BITS), look[j])
    {
      LookKeeps(sizes, s, nodes, q, LowBits(j, FAST_BITS), look[j]);
    }
  }

  lemma TreeInner(sizes: seq<nat>, s: nat, tree: seq<int>, nodes: seq<seq<bool>>, m: nat, b: bool)
    requires TreeOk(sizes, s, tree, nodes) && |nodes| < MAX_SYMBOLS
    requires Distinct(nodes) && Closure(sizes, s, nodes) && ParentClosed(nodes)
    requires m < |nodes| && FAST_BITS <= |nodes[m]| && nodes[m] + [b] !in nodes
    ensures TreeOk(sizes, s, tree[2 * m + BitInt(b) := NodeRef(|nodes|)], nodes + [nodes[m] + [b]])
  {
    hide Denotes, CodeBits, Closure, ParentClosed, Distinct, IsNode;
    var q := nodes[m] + [b];
    var nodes', tree' := nodes + [q], tree[2 * m + BitInt(b) := NodeRef(|nodes|)];
    forall n, c | 0 <= n < |nodes'|
      ensures Denotes(sizes, s, nodes', nodes'[n] + [c], tree'[2 * n + BitInt(c)])
    {
      if n == |nodes| {
        FreshChildren(sizes, s, nodes, q, c);
      } else {
        InnerEntry(sizes, s, tree, nodes, m, b, n, c);
      }
    }
  }

  lemma InnerEntry(sizes: seq<nat>, s: nat, tree: seq<int>, nodes: seq<seq<bool>>, m: nat, b: bool, n: nat, c: bool)
    requires Distinct(nodes) && m < |nodes| && n < |nodes| && 2 * |nodes| <= |tree|
    requires Denotes(sizes, s, nodes, nodes[n] + [c], tree[2 * n + BitInt(c)])
    ensures Denotes(sizes, s, nodes + [nodes[m] + [b]], nodes[n] + [c],
                    tree[2 * m + BitInt(b) := NodeRef(|nodes|)][2 * n + BitInt(c)])
  {
    hide Denotes, CodeBits, Distinct;
    var slot, other := 2 * m + BitInt(b), 2 * n + BitInt(c);
    if slot == other {
      NewNode(sizes, s, nodes, nodes[m] + [b]);
    } else {
      if nodes[n] + [c] == nodes[m] + [b] {
        SamePath(nodes, n, m, c, b);
      }
      TreeKeeps(sizes, s, nodes, nodes[m] + [b], nodes[n] + [c], tree[other]);
    }
  }

  lemma NewNode(sizes: seq<nat>, s: nat, nodes: seq<seq<bool>>, q: seq<bool>)
    ensures Denotes(sizes, s, nodes + [q], q, NodeRef(|nodes|))
  {
  }

  /** An entry for another bit string stays right when a node for q is added. */
  lemma TreeKeeps(sizes: seq<nat>, s: nat, nodes: seq<seq<bool>>, q: seq<bool>, p: seq<bool>, v: int)
    requires Denotes(sizes, s, nodes, p, v) && p != q
    ensures Denotes(sizes, s, nodes + [q], p, v)
  {
  }

  lemma LookKeeps(sizes: seq<nat>, s: nat, nodes: seq<seq<bool>>, q: seq<bool>, p: seq<bool>, v: int)
    requires LookDenotes(sizes, s, nodes, p, v) && p != q
    ensures LookDenotes(sizes, s, nodes + [q], p, v)
  {
  }

  lemma SamePath(nodes: seq<seq<bool>>, n: nat, m: nat, c: bool, b: bool)
    requires Distinct(nodes) && n < |nodes| && m < |nodes| && nodes[n] + [c] == nodes[m] + [b]
    ensures n == m && c == b
  {
    var x, y := nodes[n] + [c], nodes[m] + [b];
    assert x[..|x| - 1] == nodes[n] && y[..|y| - 1] == nodes[m];
    assert x[|x| - 1] == c && y[|y| - 1] == b;
  }

  /** Storing the symbol at the end of its path. */
  lemma EnterLeaf(sizes: seq<nat>, s: nat, look: seq<int>, tree: seq<int>, nodes: seq<seq<bool>>, m: nat, b: bool,
                  slot: nat)
    requires Acceptable(sizes) && Used(sizes, s) && sizes[s] > FAST_BITS
    requires Inv(sizes, s, s + 1, look, tree, nodes) && |tree| == TREE_SIZE && |nodes| <= MAX_SYMBOLS
    requires m < |nodes| && nodes[m] + [b] == CodeBits(sizes, s)
    requires PathPresent(CodeBits(sizes, s), sizes[s] - 1, nodes)
    requires slot == 2 * m + BitInt(b)
    ensures Inv(sizes, s + 1, s + 1, look, tree[slot := s], nodes)
  {
    hide LookDenotes, Denotes, LowBits;
    LookSymbol(sizes, s, look, nodes);
    var q := nodes[m] + [b];
    if q in nodes {
      NodeIsNotPastCode(sizes, s, s + 1, nodes, q);
    }
    TreeLeaf(sizes, s, tree, nodes, m, b);
  }

  lemma TreeLeaf(sizes: seq<nat>, s: nat, tree: seq<int>, nodes: seq<seq<bool>>, m: nat, b: bool)
    requires TreeOk(sizes, s, tree, nodes) && Distinct(nodes)
    requires Used(sizes, s) && m < |nodes| && nodes[m] + [b] == CodeBits(sizes, s) && CodeBits(sizes, s) !in nodes
    ensures TreeOk(sizes, s + 1, tree[2 * m + BitInt(b) := s], nodes)
  {
    hide Denotes, CodeBits, Distinct;
    var tree' := tree[2 * m + BitInt(b) := s];
    forall n, c | 0 <= n < |nodes|
      ensures Denotes(sizes, s + 1, nodes, nodes[n] + [c], tree'[2 * n + BitInt(c)])
    {
      LeafEntry(sizes, s, tree, nodes, m, b, n, c);
    }
  }

  lemma LeafEntry(sizes: seq<nat>, s: nat, tree: seq<int>, nodes: seq<seq<bool>>, m: nat, b: bool, n: nat, c: bool)
    requires Distinct(nodes) && m < |nodes| && n < |nodes| && 2 * |nodes| <= |tree|
    requires Denotes(sizes, s, nodes, nodes[n] + [c], tree[2 * n + BitInt(c)])
    requires Used(sizes, s) && nodes[m] + [b] == CodeBits(sizes, s) && CodeBits(sizes, s) !in nodes
    ensures Denotes(sizes, s + 1, nodes, nodes[n] + [c], tree[2 * m + BitInt(b) := s][2 * n + BitInt(c)])
  {
    hide CodeBits;
    if nodes[n] + [c] == CodeBits(sizes, s) {
      SamePath(nodes, n, m, c, b);
    } else {
      SymbolKeeps(sizes, s, nodes, nodes[n] + [c], tree[2 * n + BitInt(c)]);
    }
  }

  // ---------- building the tables ----------

  /** Writes k to every index that agrees with rev on its low `size` bits. */
  method FillShort(look: array<int>, rev: nat, size: nat, k: int)
    requires look.Length == LOOKUP_SIZE && rev < Pow2(size)
    modifies look
    ensures forall i :: 0 <= i < LOOKUP_SIZE ==> look[i] == if Low(i, size) == rev then k else old(look[i])
  {
    var step := Pow2(size);
    var r := rev;
    LowSmall(rev, size);
    forall i | 0 <= i < r
      ensures Low(i, size) != rev
    {
      LowSmall(i, size);
    }
    while r < LOOKUP_SIZE
      invariant Low(r, size) == rev
      invariant forall i :: 0 <= i < LOOKUP_SIZE ==>
                  look[i] == if i < r && Low(i, size) == rev then k else old(look[i])
      decreases LOOKUP_SIZE - r
    {
      NextWithSameLow(r, size);
      look[r] := k;
      r := r + step;
    }
  }

  lemma NextWithSameLow(r: nat, n: nat)
    ensures Low(r + Pow2(n), n) == Low(r, n)
    ensures forall i :: r < i < r + Pow2(n) ==> Low(i, n) != Low(r, n)
  {
    LowNext(r, n);
    forall i | r < i < r + Pow2(n)
      ensures Low(i, n) != Low(r, n)
    {
      if Low(i, n) == Low(r, n) {
        LowApart(r, i, n);
      }
    }
  }

  /** Index i starts with the code exactly when it has the code's reversed value in its low bits. */
  lemma IndexStartsWith(i: nat, bits: seq<bool>, n: nat)
    requires |bits| <= n
    ensures bits <= LowBits(i, n) <==> Low(i, |bits|) == Val(bits)
  {
    var k := |bits|;
    var all, low := LowBits(i, n), LowBits(i, k);
    assert all[..k] == low;
    ValLowBits(i, k);
    assert bits <= all <==> bits == all[..k];
    if Val(low) == Val(bits) {
      SameValue(low, bits);
    }
  }

  lemma SameValue(a: seq<bool>, b: seq<bool>)
    requires |a| == |b| && Val(a) == Val(b)
    ensures a == b
  {
    LowBitsVal(a);
    LowBitsVal(b);
  }

  ghost predicate PathPresent(code: seq<bool>, d: nat, nodes: seq<seq<bool>>)
    requires d <= |code|
  {
    forall k :: FAST_BITS <= k <= d ==> code[..k] in nodes
  }

  lemma PathGrows(code: seq<bool>, d: nat, nodes: seq<seq<bool>>, nodes': seq<seq<bool>>, m': nat)
    requires d < |code| && PathPresent(code, d, nodes) && nodes <= nodes'
    requires m' < |nodes'| && nodes'[m'] == code[..d + 1]
    ensures PathPresent(code, d + 1, nodes')
  {
    forall k | FAST_BITS <= k <= d + 1
      ensures code[..k] in nodes'
    {
      if k <= d {
        assert code[..k] in nodes;
      }
    }
  }

  /** Partway into entering symbol s: node m stands for the first d bits of its code. */
  ghost predicate OnPath(sizes: seq<nat>, s: nat, look: seq<int>, tree: seq<int>, nodes: seq<seq<bool>>,
                         nextRef: int, m: nat, r: nat, d: nat)
    requires Used(sizes, s)
  {
    && |nodes| <= MAX_SYMBOLS && nextRef == NodeRef(|nodes|)
    && FAST_BITS <= d < sizes[s] && m < |nodes| && nodes[m] == CodeBits(sizes, s)[..d]
    && r == Shr(Val(CodeBits(sizes, s)), d - 1)
    && PathPresent(CodeBits(sizes, s), d, nodes)
    && Inv(sizes, s, s + 1, look, tree, nodes)
  }

  /** One step down a path: follows the branch for the given bit, or makes it. */
  method StepDown(look: array<int>, tree: array<int>, nextRef: int, cur: int, bit: nat,
                  ghost sizes: seq<nat>, ghost s: nat, ghost nodes: seq<seq<bool>>, ghost m: nat, ghost r: nat, ghost d: nat)
    returns (nextRef': int, cur': int, ghost nodes': seq<seq<bool>>, ghost m': nat)
    requires Acceptable(sizes) && Used(sizes, s) && d + 1 < sizes[s]
    requires OnPath(sizes, s, look[..], tree[..], nodes, nextRef, m, r, d)
    requires cur == NodeRef(m) && bit == r / 2 % 2
    requires look != tree && look.Length == LOOKUP_SIZE && tree.Length == TREE_SIZE
    modifies tree
    ensures OnPath(sizes, s, look[..], tree[..], nodes', nextRef', m', r / 2, d + 1) && cur' == NodeRef(m')
  {
    hide Inv, CodeBits, Val, Shr, Acceptable, PathPresent;
    ghost var code := CodeBits(sizes, s);
    ghost var b := code[d];
    NextBit(code, r, d);
    var slot := -(cur - bit) - 1;
    assert slot == 2 * m + BitInt(b);
    InnerEntryCases(sizes, s, look[..], tree[..], nodes, m, b);
    if tree[slot] == 0 {
      EnterInner(sizes, s, look[..], tree[..], nodes, m, b);
      ghost var look0, tree0 := look[..], tree[..];
      tree[slot] := nextRef;
      assert look[..] == look0 && tree[..] == tree0[slot := nextRef];
      cur', nextRef' := nextRef, nextRef - 2;
      nodes', m' := nodes + [nodes[m] + [b]], |nodes|;
    } else {
      cur', nextRef', nodes' := tree[slot], nextRef, nodes;
      m' :| 0 <= m' < |nodes| && nodes[m'] == nodes[m] + [b] && cur' == NodeRef(m');
    }
    PathGrows(code, d, nodes, nodes', m');
  }

  /** The node for the first ten bits of a long code, made if it is not there yet. */
  method RootNode(look: array<int>, tree: array<int>, nextRef: int, rev: nat,
                  ghost sizes: seq<nat>, ghost s: nat, ghost nodes: seq<seq<bool>>)
    returns (nextRef': int, cur: int, r: nat, ghost nodes': seq<seq<bool>>, ghost m: nat)
    requires Acceptable(sizes) && Used(sizes, s) && sizes[s] > FAST_BITS && rev == Val(CodeBits(sizes, s))
    requires Inv(sizes, s, s + 1, look[..], tree[..], nodes) && |nodes| <= MAX_SYMBOLS && nextRef == NodeRef(|nodes|)
    requires look != tree && look.Length == LOOKUP_SIZE && tree.Length == TREE_SIZE
    modifies look
    ensures OnPath(sizes, s, look[..], tree[..], nodes', nextRef', m, r, FAST_BITS)
    ensures cur == NodeRef(m)
  {
    hide Inv, Acceptable, Shr, Val, LowBits, CodeBits;
    LongIndex(rev, CodeBits(sizes, s));
    var i := rev % LOOKUP_SIZE;
    cur := look[i];
    RootEntry(sizes, s, look[..], tree[..], nodes, i);
    if cur == 0 {
      EnterRoot(sizes, s, look[..], tree[..], nodes, i);
      ghost var look0, tree0 := look[..], tree[..];
      look[i] := nextRef;
      assert look[..] == look0[i := nextRef] && tree[..] == tree0;
      cur, nextRef' := nextRef, nextRef - 2;
      nodes', m := nodes + [LowBits(i, FAST_BITS)], |nodes|;
    } else {
      nextRef', nodes' := nextRef, nodes;
      m :| 0 <= m < |nodes| && nodes[m] == CodeBits(sizes, s)[..FAST_BITS] && cur == NodeRef(m);
    }
    assert nodes'[m] == CodeBits(sizes, s)[..FAST_BITS];
    r := Shr(rev, FAST_BITS - 1);
  }

  /** Enters a code of more than ten bits: finds or makes its path, then stores the symbol. */
  method InsertLong(look: array<int>, tree: array<int>, nextRef: int, rev: nat, s: nat, codeSize: nat,
                    ghost sizes: seq<nat>, ghost nodes: seq<seq<bool>>)
    returns (nextRef': int, ghost nodes': seq<seq<bool>>)
    requires Acceptable(sizes) && Used(sizes, s) && codeSize == sizes[s] > FAST_BITS
    requires rev == Val(CodeBits(sizes, s))
    requires Inv(sizes, s, s, look[..], tree[..], nodes) && |nodes| <= MAX_SYMBOLS && nextRef == NodeRef(|nodes|)
    requires look != tree && look.Length == LOOKUP_SIZE && tree.Length == TREE_SIZE
    modifies look, tree
    ensures Inv(sizes, s + 1, s + 1, look[..], tree[..], nodes') && |nodes'| <= MAX_SYMBOLS
    ensures nextRef' == NodeRef(|nodes'|)
  {
    hide Inv, OnPath, Acceptable, CodeBits, Val;
    BeginSymbol(sizes, s, look[..], tree[..], nodes);
    var cur: int, r: nat;
    ghost var m: nat;
    nextRef', cur, r, nodes', m := RootNode(look, tree, nextRef, rev, sizes, s, nodes);
    var j := codeSize;
    ghost var d := FAST_BITS;
    while j > FAST_BITS + 1
      invariant FAST_BITS < j <= codeSize && d == FAST_BITS + codeSize - j
      invariant OnPath(sizes, s, look[..], tree[..], nodes', nextRef', m, r, d)
      invariant cur == NodeRef(m)
    {
      nextRef', cur, nodes', m := StepDown(look, tree, nextRef', cur, r / 2 % 2, sizes, s, nodes', m, r, d);
      r, j, d := r / 2, j - 1, d + 1;
    }
    assert d == sizes[s] - 1;
    cur := cur - r / 2 % 2;
    LeafSlot(sizes, s, look[..], tree[..], nodes', nextRef', m, r, -cur - 1);
    ghost var look0, tree0 := look[..], tree[..];
    tree[-cur - 1] := s;
    assert look[..] == look0 && tree[..] == tree0[-cur - 1 := s];
  }

  lemma LeafSlot(sizes: seq<nat>, s: nat, look: seq<int>, tree: seq<int>, nodes: seq<seq<bool>>,
                 nextRef: int, m: nat, r: nat, slot: nat)
    requires Acceptable(sizes) && Used(sizes, s) && sizes[s] > FAST_BITS && |tree| == TREE_SIZE
    requires slot == 2 * m + r / 2 % 2
    requires OnPath(sizes, s, look, tree, nodes, nextRef, m, r, sizes[s] - 1)
    ensures m < |nodes| <= MAX_SYMBOLS && nextRef == NodeRef(|nodes|)
    ensures Inv(sizes, s + 1, s + 1, look, tree[slot := s], nodes)
  {
    hide Inv, CodeBits, Val, Shr, Acceptable;
    var code, d := CodeBits(sizes, s), sizes[s] - 1;
    NextBit(code, r, d);
    assert code[..d + 1] == code;
    EnterLeaf(sizes, s, look, tree, nodes, m, code[d], slot);
  }

  lemma BeginSymbol(sizes: seq<nat>, s: nat, look: seq<int>, tree: seq<int>, nodes: seq<seq<bool>>)
    requires Inv(sizes, s, s, look, tree, nodes)
    ensures Inv(sizes, s, s + 1, look, tree, nodes)
  {
    hide Denotes, LookDenotes, LowBits, CodeBits, Closure, ParentClosed, Distinct;
    WidenOrigin(sizes, s, nodes);
  }

  lemma LongIndex(rev: nat, code: seq<bool>)
    requires rev == Val(code) && |code| > FAST_BITS
    ensures LowBits(rev % LOOKUP_SIZE, FAST_BITS) == code[..FAST_BITS]
  {
    Pow2Values();
    LowBitsVal(code);
    assert LowBits(rev, |code|)[..FAST_BITS] == LowBits(rev, FAST_BITS);
    ValLowBits(rev, FAST_BITS);
    LowIsRemainder(rev, FAST_BITS);
    LowBitsVal(LowBits(rev, FAST_BITS));
  }

  lemma NextBit(code: seq<bool>, r: nat, d: nat)
    requires 0 < d < |code| && r == Shr(Val(code), d - 1)
    ensures r / 2 == Shr(Val(code), d) && r / 2 % 2 == BitInt(code[d])
    ensures code[..d + 1] == code[..d] + [code[d]]
  {
    var rev := Val(code);
    ShrAdd(rev, d - 1, 1);
    assert Shr(r, 1) == Shr(r / 2, 0);
    LowBitsVal(code);
    assert LowBits(rev, |code|)[d] == (Shr(rev, d) % 2 == 1);
  }

  /** While a long code is being entered, its first ten bits lead to a node or to nothing. */
  lemma RootEntry(sizes: seq<nat>, s: nat, look: seq<int>, tree: seq<int>, nodes: seq<seq<bool>>, i: nat)
    requires Acceptable(sizes) && Used(sizes, s) && sizes[s] > FAST_BITS
    requires Inv(sizes, s, s + 1, look, tree, nodes) && |look| == LOOKUP_SIZE
    requires i < LOOKUP_SIZE && LowBits(i, FAST_BITS) == CodeBits(sizes, s)[..FAST_BITS]
    ensures look[i] == 0 || IsNode(nodes, CodeBits(sizes, s)[..FAST_BITS], look[i])
  {
    assert LookDenotes(sizes, s, nodes, LowBits(i, FAST_BITS), look[i]);
    if look[i] > 0 {
      SameSymbol(sizes, look[i] % 512, s, CodeBits(sizes, s));
    }
  }

  lemma InnerEntryCases(sizes: seq<nat>, s: nat, look: seq<int>, tree: seq<int>, nodes: seq<seq<bool>>, m: nat, b: bool)
    requires Acceptable(sizes) && Used(sizes, s)
    requires Inv(sizes, s, s + 1, look, tree, nodes) && |tree| == TREE_SIZE && |nodes| <= MAX_SYMBOLS
    requires m < |nodes| && nodes[m] + [b] < CodeBits(sizes, s)
    ensures tree[2 * m + BitInt(b)] == 0 || IsNode(nodes, nodes[m] + [b], tree[2 * m + BitInt(b)])
  {
    var v := tree[2 * m + BitInt(b)];
    assert Denotes(sizes, s, nodes, nodes[m] + [b], v);
    if v > 0 {
      SameSymbol(sizes, v, s, CodeBits(sizes, s));
    }
  }

  /** How many symbols have a length between 1 and k. */
  function UsedUpTo(sizes: seq<nat>, k: nat): (n: nat)
  {
    if k == 0 then 0 else UsedUpTo(sizes, k - 1) + Count(sizes, k)
  }

  lemma {:induction false} UsedUpToSnoc(sizes: seq<nat>, x: nat, k: nat)
    ensures UsedUpTo(sizes + [x], k) == UsedUpTo(sizes, k) + (if 1 <= x <= k then 1 else 0)
  {
    if k > 0 {
      UsedUpToSnoc(sizes, x, k - 1);
      assert (sizes + [x])[..|sizes|] == sizes;
    }
  }

  lemma {:induction false} UsedUpToAll(sizes: seq<nat>, k: nat)
    requires forall i :: 0 <= i < |sizes| ==> sizes[i] <= k
    ensures UsedUpTo(sizes, k) == UsedCount(sizes)
  {
    if sizes == [] {
      UsedUpToEmpty(k);
    } else {
      var i := |sizes| - 1;
      UsedUpToAll(sizes[..i], k);
      assert sizes == sizes[..i] + [sizes[i]];
      UsedUpToSnoc(sizes[..i], sizes[i], k);
    }
  }

  lemma {:induction false} UsedUpToEmpty(k: nat)
    ensures UsedUpTo([], k) == 0
  {
    if k > 0 {
      UsedUpToEmpty(k - 1);
    }
  }

  /** The first code of every length, and the totals on which the inflater accepts or rejects the lengths. */
  method NextCodes(counts: array<nat>, ghost sizes: seq<nat>) returns (nextCode: array<nat>, used: nat, total: nat)
    requires counts.Length == MAX_BITS + 1
    requires forall l :: 0 <= l <= MAX_BITS ==> counts[l] == Count(sizes, l)
    ensures fresh(nextCode) && nextCode.Length == MAX_BITS + 2
    ensures forall l :: 1 <= l <= MAX_BITS + 1 ==> nextCode[l] == 2 * End(sizes, l - 1)
    ensures used == UsedUpTo(sizes, MAX_BITS) && total == 2 * End(sizes, MAX_BITS)
  {
    nextCode := new nat[MAX_BITS + 2](_ => 0);
    used, total := 0, 0;
    var i := 1;
    while i <= MAX_BITS
      invariant 1 <= i <= MAX_BITS + 1
      invariant used == UsedUpTo(sizes, i - 1) && total == 2 * End(sizes, i - 1)
      invariant forall l :: 1 <= l <= i ==> nextCode[l] == 2 * End(sizes, l - 1)
    {
      used := used + counts[i];
      total := 2 * (total + counts[i]);
      nextCode[i + 1] := total;
      i := i + 1;
    }
  }

  lemma EmptyTables(sizes: seq<nat>, look: seq<int>, tree: seq<int>)
    requires |look| == LOOKUP_SIZE && |tree| == TREE_SIZE
    requires (forall i :: 0 <= i < LOOKUP_SIZE ==> look[i] == 0) && (forall i :: 0 <= i < TREE_SIZE ==> tree[i] == 0)
    ensures Inv(sizes, 0, 0, look, tree, [])
  {
  }

  lemma ShortFilled(sizes: seq<nat>, s: nat, look: seq<int>, tree: seq<int>, nodes: seq<seq<bool>>, look': seq<int>)
    requires Acceptable(sizes) && Used(sizes, s) && sizes[s] <= FAST_BITS
    requires Inv(sizes, s, s, look, tree, nodes)
    requires |look| == LOOKUP_SIZE && |look'| == LOOKUP_SIZE
    requires forall i :: 0 <= i < LOOKUP_SIZE ==>
               look'[i] == if Low(i, sizes[s]) == Val(CodeBits(sizes, s)) then sizes[s] * 512 + s else look[i]
    ensures Inv(sizes, s + 1, s + 1, look', tree, nodes)
  {
    hide Inv, Acceptable, CodeBits, LowBits, Low, Val;
    forall i | 0 <= i < LOOKUP_SIZE
      ensures look'[i] == if CodeBits(sizes, s) <= LowBits(i, FAST_BITS) then sizes[s] * 512 + s else look[i]
    {
      IndexStartsWith(i, CodeBits(sizes, s), FAST_BITS);
    }
    EnterShort(sizes, s, look, tree, nodes, look');
  }

  /** Enters one used symbol into the tables. */
  method EnterSymbol(look: array<int>, tree: array<int>, nextRef: int, code: nat, s: nat, codeSize: nat,
                     ghost sizes: seq<nat>, ghost nodes: seq<seq<bool>>)
    returns (nextRef': int, ghost nodes': seq<seq<bool>>)
    requires Acceptable(sizes) && Used(sizes, s) && codeSize == sizes[s] && code == Code(sizes, s)
    requires Inv(sizes, s, s, look[..], tree[..], nodes) && |nodes| <= MAX_SYMBOLS && nextRef == NodeRef(|nodes|)
    requires look != tree && look.Length == LOOKUP_SIZE && tree.Length == TREE_SIZE
    modifies look, tree
    ensures Inv(sizes, s + 1, s + 1, look[..], tree[..], nodes') && |nodes'| <= MAX_SYMBOLS
    ensures nextRef' == NodeRef(|nodes'|)
  {
    hide Inv, Acceptable, Low, Code, HighFirst;
    var rev := ReverseCode(code, codeSize);
    if codeSize <= FAST_BITS {
      ghost var look0, tree0 := look[..], tree[..];
      FillShort(look, rev, codeSize, codeSize * 512 + s);
      ShortFilled(sizes, s, look0, tree0, nodes, look[..]);
      assert tree[..] == tree0;
      nextRef', nodes' := nextRef, nodes;
    } else {
      nextRef', nodes' := InsertLong(look, tree, nextRef, rev, s, codeSize, sizes, nodes);
    }
  }

  /**
   Builds both tables from code lengths, or reports the lengths as invalid. Invalid means that there are
   at least two codes and they do not exhaust the bit strings.
   */
  method BuildTable(sizes: seq<nat>, look: array<int>, tree: array<int>) returns (ok: bool)
    requires |sizes| <= MAX_SYMBOLS && forall i :: 0 <= i < |sizes| ==> sizes[i] <= MAX_BITS
    requires look != tree && look.Length == LOOKUP_SIZE && tree.Length == TREE_SIZE
    modifies look, tree
    ensures ok <==> Complete(sizes, MAX_BITS) || UsedCount(sizes) <= 1
    ensures ok ==> TableFor(sizes, look[..], tree[..])
  {
    hide Inv, CodeBits;
    forall i | 0 <= i < LOOKUP_SIZE { look[i] := 0; }
    forall i | 0 <= i < TREE_SIZE { tree[i] := 0; }
    EmptyTables(sizes, look[..], tree[..]);
    ghost var look0, tree0 := look[..], tree[..];
    var counts := CountSizes(sizes, MAX_BITS + 1);
    var nextCode, used, total := NextCodes(counts, sizes);
    UsedUpToAll(sizes, MAX_BITS);
    Pow2Values();
    if total != 65536 && used > 1 {
      return false;
    }
    assert look[..] == look0 && tree[..] == tree0;
    var nextRef := -1;
    ghost var nodes: seq<seq<bool>> := [];
    for s := 0 to |sizes|
      invariant Inv(sizes, s, s, look[..], tree[..], nodes)
      invariant |nodes| <= MAX_SYMBOLS && nextRef == NodeRef(|nodes|)
      invariant forall l :: 1 <= l <= MAX_BITS ==> nextCode[l] == 2 * End(sizes, l - 1) + Count(sizes[..s], l)
    {
      assert sizes[..s + 1][..s] == sizes[..s];
      var codeSize := sizes[s];
      if codeSize == 0 {
        SkipUnused(sizes, s, look[..], tree[..], nodes);
      } else {
        var code := nextCode[codeSize];
        nextCode[codeSize] := code + 1;
        nextRef, nodes := EnterSymbol(look, tree, nextRef, code, s, codeSize, sizes, nodes);
      }
    }
    ok := true;
  }

  // ---------- decoding ----------

  /** What the walk down the tree reads: it stops at a symbol, or after `limit` bits. */
  function Walk(tree: seq<int>, bitBuf: nat, ref: int, depth: nat, limit: nat): (r: (int, nat))
    ensures r.1 >= depth
    decreases limit - depth
  {
    if ref >= 0 || depth >= limit then (ref, depth)
    else
      var slot := -ref - 1 + Shr(bitBuf, depth) % 2;
      if slot >= |tree| then (0, depth) else Walk(tree, bitBuf, tree[slot], depth + 1, limit)
  }

  /** The symbol and the code length that the tables give for a bit buffer. */
  function Answer(look: seq<int>, tree: seq<int>, bitBuf: nat): (r: (int, nat))
    requires |look| == LOOKUP_SIZE
  {
    var temp := look[bitBuf % LOOKUP_SIZE];
    if temp >= 0 then (temp % 512, temp / 512) else Walk(tree, bitBuf, temp, FAST_BITS, MAX_BITS + 1)
  }

  /** Whether the first n bits of the buffer are enough for the tables to give a symbol. */
  predicate Decided(look: seq<int>, tree: seq<int>, bitBuf: nat, n: nat)
    requires |look| == LOOKUP_SIZE
  {
    var temp := look[bitBuf % LOOKUP_SIZE];
    if temp >= 0 then 1 <= temp / 512 <= n else n > FAST_BITS && Walk(tree, bitBuf, temp, FAST_BITS, n).0 >= 0
  }

  lemma {:induction false} WalkFurther(tree: seq<int>, bitBuf: nat, ref: int, depth: nat, limit: nat, more: nat)
    requires limit <= more && Walk(tree, bitBuf, ref, depth, limit).0 >= 0
    ensures Walk(tree, bitBuf, ref, depth, more) == Walk(tree, bitBuf, ref, depth, limit)
    decreases limit - depth
  {
    hide Shr;
    if ref < 0 && depth < limit {
      var slot := -ref - 1 + Shr(bitBuf, depth) % 2;
      if slot < |tree| {
        WalkFurther(tree, bitBuf, tree[slot], depth + 1, limit, more);
      }
    }
  }

  lemma {:induction false} WalkWithin(tree: seq<int>, bitBuf: nat, ref: int, depth: nat, limit: nat)
    requires depth <= limit
    ensures Walk(tree, bitBuf, ref, depth, limit).1 <= limit
    decreases limit - depth
  {
    hide Shr;
    if ref < 0 && depth < limit {
      var slot := -ref - 1 + Shr(bitBuf, depth) % 2;
      if slot < |tree| {
        WalkWithin(tree, bitBuf, tree[slot], depth + 1, limit);
      }
    }
  }

  /** When n bits are enough, the answer does not use more. */
  lemma DecidedAnswer(look: seq<int>, tree: seq<int>, bitBuf: nat, n: nat)
    requires |look| == LOOKUP_SIZE && Decided(look, tree, bitBuf, n) && n <= MAX_BITS
    ensures Answer(look, tree, bitBuf).1 <= n
  {
    hide Walk;
    var temp := look[bitBuf % LOOKUP_SIZE];
    if temp < 0 {
      WalkFurther(tree, bitBuf, temp, FAST_BITS, n, MAX_BITS + 1);
      WalkWithin(tree, bitBuf, temp, FAST_BITS, n);
    }
  }

  /** Where a walk ends: at an entry that is right for the bits read, below a node, or still at a node. */
  ghost predicate EndsRight(sizes: seq<nat>, nodes: seq<seq<bool>>, bitBuf: nat, v: int, d: nat)
  {
    if v < 0 then LowBits(bitBuf, d) in nodes
    else d > FAST_BITS && LowBits(bitBuf, d - 1) in nodes && Denotes(sizes, |sizes|, nodes, LowBits(bitBuf, d), v)
  }

  lemma {:induction false} WalkEnds(sizes: seq<nat>, look: seq<int>, tree: seq<int>, nodes: seq<seq<bool>>, bitBuf: nat,
                                    m: nat, d: nat, limit: nat)
    requires Acceptable(sizes) && Inv(sizes, |sizes|, |sizes|, look, tree, nodes)
    requires m < |nodes| && nodes[m] == LowBits(bitBuf, d) && FAST_BITS <= d
    ensures var r := Walk(tree, bitBuf, NodeRef(m), d, limit);
            && EndsRight(sizes, nodes, bitBuf, r.0, r.1)
            && (r.0 < 0 ==> r.1 >= limit)
    decreases limit - d
  {
    hide Inv, Acceptable, Shr, LowBits, Denotes;
    if d < limit {
      var b := Shr(bitBuf, d) % 2 == 1;
      TreeEntry(sizes, look, tree, nodes, m, b);
      NextLowBit(bitBuf, d);
      var slot := 2 * m + BitInt(b);
      var v := tree[slot];
      assert -NodeRef(m) - 1 + Shr(bitBuf, d) % 2 == slot;
      if v < 0 {
        var n := ChildNode(sizes, nodes, LowBits(bitBuf, d + 1), v);
        WalkEnds(sizes, look, tree, nodes, bitBuf, n, d + 1, limit);
      }
    }
  }

  lemma ChildNode(sizes: seq<nat>, nodes: seq<seq<bool>>, q: seq<bool>, v: int) returns (n: nat)
    requires v < 0 && Denotes(sizes, |sizes|, nodes, q, v)
    ensures n < |nodes| && nodes[n] == q && v == NodeRef(n)
  {
    n :| 0 <= n < |nodes| && nodes[n] == q && v == NodeRef(n);
  }

  lemma NextLowBit(v: nat, d: nat)
    ensures LowBits(v, d + 1) == LowBits(v, d) + [Shr(v, d) % 2 == 1]
  {
  }

  lemma TreeEntry(sizes: seq<nat>, look: seq<int>, tree: seq<int>, nodes: seq<seq<bool>>, m: nat, b: bool)
    requires Inv(sizes, |sizes|, |sizes|, look, tree, nodes) && m < |nodes|
    ensures |tree| == TREE_SIZE && |nodes| <= MAX_SYMBOLS
    ensures Denotes(sizes, |sizes|, nodes, nodes[m] + [b], tree[2 * m + BitInt(b)])
  {
    hide Denotes, LookDenotes, CodeBits, LowBits, Closure, ParentClosed, Distinct;
  }

  lemma LookEntry(sizes: seq<nat>, look: seq<int>, tree: seq<int>, nodes: seq<seq<bool>>, i: nat)
    requires Inv(sizes, |sizes|, |sizes|, look, tree, nodes) && i < LOOKUP_SIZE
    ensures |look| == LOOKUP_SIZE && LookDenotes(sizes, |sizes|, nodes, LowBits(i, FAST_BITS), look[i])
    ensures Origin(sizes, |sizes|, nodes) && Closure(sizes, |sizes|, nodes)
  {
    hide Denotes, LookDenotes, CodeBits, LowBits, ParentClosed, Distinct;
  }

  lemma FirstTenBits(bitBuf: nat)
    ensures LowBits(bitBuf % LOOKUP_SIZE, FAST_BITS) == LowBits(bitBuf, FAST_BITS)
  {
    Pow2Values();
    LowIsRemainder(bitBuf, FAST_BITS);
    ValLowBits(bitBuf, FAST_BITS);
    LowBitsVal(LowBits(bitBuf, FAST_BITS));
  }

  lemma LowBitsPrefix(v: nat, k: nat, n: nat)
    requires k <= n
    ensures LowBits(v, n)[..k] == LowBits(v, k)
  {
  }

  /** The buffer agrees with a code as far as its first n bits go. */
  ghost predicate Agrees(bitBuf: nat, n: nat, code: seq<bool>)
  {
    var k := if n < |code| then n else |code|;
    LowBits(bitBuf, k) == code[..k]
  }

  /** A code that lies within the first d bits of the buffer. */
  lemma AgreesWithin(bitBuf: nat, n: nat, code: seq<bool>, d: nat)
    requires Agrees(bitBuf, n, code) && d <= n
    ensures |code| <= d ==> code <= LowBits(bitBuf, d)
    ensures d <= |code| ==> LowBits(bitBuf, d) == code[..d]
  {
    var k := if n < |code| then n else |code|;
    if |code| <= d {
      LowBitsPrefix(bitBuf, |code|, d);
    } else {
      LowBitsPrefix(bitBuf, d, k);
    }
  }

  /** At the end of a walk, a code that agrees with the buffer has been read exactly if it is the answer. */
  lemma EndIsCode(sizes: seq<nat>, nodes: seq<seq<bool>>, bitBuf: nat, n: nat, s: nat, v: int, d: nat)
    requires Acceptable(sizes) && Used(sizes, s) && Origin(sizes, |sizes|, nodes) && Closure(sizes, |sizes|, nodes)
    requires EndsRight(sizes, nodes, bitBuf, v, d) && Agrees(bitBuf, n, CodeBits(sizes, s)) && d <= n
    ensures v < 0 ==> sizes[s] > d
    ensures v >= 0 ==> sizes[s] == d && v == s
  {
    hide Acceptable, CodeBits, LowBits, Origin, Agrees;
    var code, path := CodeBits(sizes, s), LowBits(bitBuf, d);
    AgreesWithin(bitBuf, n, code, d);
    if v < 0 {
      NodeIsNotPastCode(sizes, s, |sizes|, nodes, path);
    } else {
      AgreesWithin(bitBuf, n, code, d - 1);
      NodeIsNotPastCode(sizes, s, |sizes|, nodes, LowBits(bitBuf, d - 1));
      if v > 0 {
        LeafIsCode(sizes, s, v, path);
      }
    }
  }

  lemma LeafIsCode(sizes: seq<nat>, s: nat, v: nat, path: seq<bool>)
    requires Acceptable(sizes) && Used(sizes, s) && Used(sizes, v) && CodeBits(sizes, v) == path
    requires |CodeBits(sizes, s)| <= |path| ==> CodeBits(sizes, s) <= path
    requires |path| <= |CodeBits(sizes, s)| ==> path == CodeBits(sizes, s)[..|path|]
    ensures s == v
  {
    hide Acceptable, CodeBits;
    SameSymbol(sizes, s, v, if |path| <= sizes[s] then CodeBits(sizes, s) else path);
  }

  /** A positive lookup entry is the answer for every code that agrees with the buffer and is long enough to tell. */
  lemma LookIsCode(sizes: seq<nat>, nodes: seq<seq<bool>>, bitBuf: nat, n: nat, s: nat, v: int)
    requires Acceptable(sizes) && Used(sizes, s) && v > 0 && Agrees(bitBuf, n, CodeBits(sizes, s))
    requires LookDenotes(sizes, |sizes|, nodes, LowBits(bitBuf, FAST_BITS), v)
    requires v / 512 <= n || sizes[s] <= n
    ensures v % 512 == s && v / 512 == sizes[s]
  {
    hide Acceptable, CodeBits, LowBits, Agrees;
    var t := v % 512;
    assert v / 512 == sizes[t];
    LookCodeLength(sizes, t, LowBits(bitBuf, FAST_BITS));
    LowBitsPrefix(bitBuf, sizes[t], FAST_BITS);
    AgreesShort(sizes, bitBuf, n, s, t);
  }

  lemma LookCodeLength(sizes: seq<nat>, t: nat, p: seq<bool>)
    requires Used(sizes, t) && CodeBits(sizes, t) <= p
    ensures sizes[t] <= |p| && CodeBits(sizes, t) == p[..sizes[t]]
  {
  }

  lemma AgreesShort(sizes: seq<nat>, bitBuf: nat, n: nat, s: nat, t: nat)
    requires Acceptable(sizes) && Used(sizes, s) && Used(sizes, t) && Agrees(bitBuf, n, CodeBits(sizes, s))
    requires CodeBits(sizes, t) == LowBits(bitBuf, sizes[t]) && (sizes[t] <= n || sizes[s] <= n)
    ensures s == t
  {
    hide Acceptable, CodeBits, LowBits;
    var k := if sizes[s] < sizes[t] then sizes[s] else sizes[t];
    AgreesWithin(bitBuf, n, CodeBits(sizes, s), k);
    LowBitsPrefix(bitBuf, k, sizes[t]);
    if sizes[s] <= sizes[t] {
      SameSymbol(sizes, s, t, CodeBits(sizes, t));
    } else {
      SameSymbol(sizes, s, t, CodeBits(sizes, s));
    }
  }

  /** A buffer that starts with the code of s is answered with s and the length of that code. */
  lemma AnswerIsCode(sizes: seq<nat>, look: seq<int>, tree: seq<int>, bitBuf: nat, s: nat)
    requires TableFor(sizes, look, tree) && |look| == LOOKUP_SIZE
    requires Used(sizes, s) && StartsWith(bitBuf, CodeBits(sizes, s))
    ensures Answer(look, tree, bitBuf) == (s, sizes[s])
  {
    hide Inv, Acceptable, CodeBits, LowBits, LookDenotes, EndsRight, Walk, Agrees;
    var nodes :| Inv(sizes, |sizes|, |sizes|, look, tree, nodes);
    var v := look[bitBuf % LOOKUP_SIZE];
    LookEntry(sizes, look, tree, nodes, bitBuf % LOOKUP_SIZE);
    FirstTenBits(bitBuf);
    StartsAgrees(bitBuf, CodeBits(sizes, s), MAX_BITS + 1);
    CodeLengthBound(sizes, s);
    if v > 0 {
      LookIsCode(sizes, nodes, bitBuf, MAX_BITS + 1, s, v);
    } else if v == 0 {
      NoEmptyEntry(sizes, nodes, bitBuf, MAX_BITS + 1, s);
    } else {
      var m := LookNode(sizes, nodes, LowBits(bitBuf, FAST_BITS), v);
      WalkEnds(sizes, look, tree, nodes, bitBuf, m, FAST_BITS, MAX_BITS + 1);
      WalkWithin(tree, bitBuf, v, FAST_BITS, MAX_BITS + 1);
      var r := Walk(tree, bitBuf, v, FAST_BITS, MAX_BITS + 1);
      EndIsCode(sizes, nodes, bitBuf, MAX_BITS + 1, s, r.0, r.1);
    }
  }

  lemma StartsAgrees(bitBuf: nat, code: seq<bool>, n: nat)
    requires StartsWith(bitBuf, code)
    ensures Agrees(bitBuf, n, code)
  {
    var k := if n < |code| then n else |code|;
    LowBitsPrefix(bitBuf, k, |code|);
  }

  lemma CodeLengthBound(sizes: seq<nat>, s: nat)
    requires Acceptable(sizes) && Used(sizes, s)
    ensures sizes[s] <= MAX_BITS
  {
  }

  lemma LookNode(sizes: seq<nat>, nodes: seq<seq<bool>>, p: seq<bool>, v: int) returns (m: nat)
    requires v < 0 && LookDenotes(sizes, |sizes|, nodes, p, v)
    ensures m < |nodes| && nodes[m] == p && v == NodeRef(m)
  {
    m :| 0 <= m < |nodes| && nodes[m] == p && v == NodeRef(m);
  }

  /** An empty lookup entry means that no code agrees with the buffer and ends within its bits. */
  lemma NoEmptyEntry(sizes: seq<nat>, nodes: seq<seq<bool>>, bitBuf: nat, n: nat, s: nat)
    requires Acceptable(sizes) && Used(sizes, s) && Agrees(bitBuf, n, CodeBits(sizes, s))
    requires LookDenotes(sizes, |sizes|, nodes, LowBits(bitBuf, FAST_BITS), 0) && Closure(sizes, |sizes|, nodes)
    ensures sizes[s] > n
  {
    hide Acceptable, CodeBits, LowBits, Agrees, Closure;
    RootPresent(sizes, nodes, s);
    if sizes[s] <= n {
      var k := if sizes[s] <= FAST_BITS then sizes[s] else FAST_BITS;
      AgreesWithin(bitBuf, n, CodeBits(sizes, s), k);
      LowBitsPrefix(bitBuf, k, FAST_BITS);
    }
  }

  lemma RootPresent(sizes: seq<nat>, nodes: seq<seq<bool>>, s: nat)
    requires Used(sizes, s) && Closure(sizes, |sizes|, nodes)
    ensures sizes[s] > FAST_BITS ==> CodeBits(sizes, s)[..FAST_BITS] in nodes
  {
  }

  /** The first n bits decide exactly when a code that agrees with them ends within them. */
  lemma DecidedIff(sizes: seq<nat>, look: seq<int>, tree: seq<int>, bitBuf: nat, n: nat, s: nat)
    requires TableFor(sizes, look, tree) && |look| == LOOKUP_SIZE
    requires Used(sizes, s) && Agrees(bitBuf, n, CodeBits(sizes, s))
    ensures Decided(look, tree, bitBuf, n) <==> sizes[s] <= n
  {
    hide Inv, Acceptable, CodeBits, LowBits, LookDenotes, EndsRight, Walk, Agrees;
    var nodes :| Inv(sizes, |sizes|, |sizes|, look, tree, nodes);
    var v := look[bitBuf % LOOKUP_SIZE];
    LookEntry(sizes, look, tree, nodes, bitBuf % LOOKUP_SIZE);
    FirstTenBits(bitBuf);
    if v > 0 {
      LookLength(sizes, nodes, LowBits(bitBuf, FAST_BITS), v);
      if v / 512 <= n || sizes[s] <= n {
        LookIsCode(sizes, nodes, bitBuf, n, s, v);
      }
    } else if v == 0 {
      NoEmptyEntry(sizes, nodes, bitBuf, n, s);
    } else {
      var m := LookNode(sizes, nodes, LowBits(bitBuf, FAST_BITS), v);
      if n <= FAST_BITS {
        NodeNotDecided(sizes, nodes, bitBuf, n, s);
      } else {
        WalkEnds(sizes, look, tree, nodes, bitBuf, m, FAST_BITS, n);
        WalkWithin(tree, bitBuf, v, FAST_BITS, n);
        var r := Walk(tree, bitBuf, v, FAST_BITS, n);
        EndIsCode(sizes, nodes, bitBuf, n, s, r.0, r.1);
      }
    }
  }

  lemma LookLength(sizes: seq<nat>, nodes: seq<seq<bool>>, p: seq<bool>, v: int)
    requires v > 0 && LookDenotes(sizes, |sizes|, nodes, p, v)
    ensures v / 512 >= 1 && v % 512 < |sizes|
  {
  }

  lemma NodeNotDecided(sizes: seq<nat>, nodes: seq<seq<bool>>, bitBuf: nat, n: nat, s: nat)
    requires Acceptable(sizes) && Used(sizes, s) && Origin(sizes, |sizes|, nodes)
    requires LowBits(bitBuf, FAST_BITS) in nodes && n <= FAST_BITS && Agrees(bitBuf, n, CodeBits(sizes, s))
    ensures sizes[s] > n
  {
    hide Acceptable, CodeBits, LowBits, Agrees, Origin;
    AgreesWithin(bitBuf, n, CodeBits(sizes, s), n);
    LowBitsPrefix(bitBuf, n, FAST_BITS);
    NodeIsNotPastCode(sizes, s, |sizes|, nodes, LowBits(bitBuf, FAST_BITS));
  }

  /** Whatever the buffer, the answer is a symbol of the alphabet, or 0, and takes at most 15 bits. */
  lemma AnswerInRange(sizes: seq<nat>, look: seq<int>, tree: seq<int>, bitBuf: nat)
    requires TableFor(sizes, look, tree) && |look| == LOOKUP_SIZE
    ensures var r := Answer(look, tree, bitBuf); 0 <= r.0 && (r.0 < |sizes| || r.0 == 0) && r.1 <= MAX_BITS
  {
    hide Inv, Acceptable, CodeBits, LowBits, LookDenotes, Walk;
    var nodes :| Inv(sizes, |sizes|, |sizes|, look, tree, nodes);
    var v := look[bitBuf % LOOKUP_SIZE];
    LookEntry(sizes, look, tree, nodes, bitBuf % LOOKUP_SIZE);
    FirstTenBits(bitBuf);
    if v > 0 {
      LookBits(sizes, nodes, LowBits(bitBuf, FAST_BITS), v);
    } else if v < 0 {
      var m := LookNode(sizes, nodes, LowBits(bitBuf, FAST_BITS), v);
      WalkEnds(sizes, look, tree, nodes, bitBuf, m, FAST_BITS, MAX_BITS + 1);
      var r := Walk(tree, bitBuf, v, FAST_BITS, MAX_BITS + 1);
      EndInRange(sizes, nodes, bitBuf, r.0, r.1);
    }
  }

  lemma LookBits(sizes: seq<nat>, nodes: seq<seq<bool>>, p: seq<bool>, v: int)
    requires Acceptable(sizes) && v > 0 && LookDenotes(sizes, |sizes|, nodes, p, v)
    ensures v / 512 <= MAX_BITS && v % 512 < |sizes|
  {
  }

  lemma EndInRange(sizes: seq<nat>, nodes: seq<seq<bool>>, bitBuf: nat, v: int, d: nat)
    requires Acceptable(sizes) && Origin(sizes, |sizes|, nodes) && EndsRight(sizes, nodes, bitBuf, v, d)
    requires v < 0 ==> d >= MAX_BITS + 1
    ensures 0 <= v && (v < |sizes| || v == 0) && d <= MAX_BITS
  {
    hide Acceptable, CodeBits, LowBits, Origin;
    NodesAreShort(sizes, nodes, bitBuf);
  }

  lemma NodesAreShort(sizes: seq<nat>, nodes: seq<seq<bool>>, bitBuf: nat)
    requires Acceptable(sizes) && Origin(sizes, |sizes|, nodes)
    ensures forall d: nat :: LowBits(bitBuf, d) in nodes ==> d <= 14
  {
    hide Acceptable, LowBits, Origin;
    NodeLengths(sizes, nodes);
    forall d: nat | LowBits(bitBuf, d) in nodes
      ensures d <= 14
    {
      var m :| 0 <= m < |nodes| && nodes[m] == LowBits(bitBuf, d);
      assert |nodes[m]| <= 14;
    }
  }

  /**
   Decodes one symbol: a probe of the lookup table, then, for long codes, a walk down the tree. A buffer
   that starts with the code of s decodes to s and to the length of that code.
   */
  method DecodeSymbol(look: seq<int>, tree: seq<int>, bitBuf: nat, ghost sizes: seq<nat>)
    returns (sym: nat, codeLen: nat)
    requires TableFor(sizes, look, tree) && |look| == LOOKUP_SIZE
    ensures (sym, codeLen) == Answer(look, tree, bitBuf)
    ensures forall s: nat :: Used(sizes, s) && StartsWith(bitBuf, CodeBits(sizes, s)) ==>
            sym == s && codeLen == sizes[s]
    ensures (sym < |sizes| || sym == 0) && codeLen <= MAX_BITS
  {
    hide TableFor, StartsWith, Walk, CodeBits, Shr;
    AnswerInRange(sizes, look, tree, bitBuf);
    forall s: nat | Used(sizes, s) && StartsWith(bitBuf, CodeBits(sizes, s))
      ensures Answer(look, tree, bitBuf) == (s, sizes[s])
    {
      AnswerIsCode(sizes, look, tree, bitBuf, s);
    }
    var temp := look[bitBuf % LOOKUP_SIZE];
    if temp >= 0 {
      codeLen, sym := temp / 512, temp % 512;
    } else {
      temp, codeLen := WalkTree(tree, bitBuf, temp, MAX_BITS + 1);
      sym := temp;
    }
  }

  /** The walk down the tree, one bit at a time. */
  method WalkTree(tree: seq<int>, bitBuf: nat, ref: int, limit: nat) returns (temp: int, codeLen: nat)
    ensures (temp, codeLen) == Walk(tree, bitBuf, ref, FAST_BITS, limit)
  {
    hide Shr;
    temp, codeLen := ref, FAST_BITS;
    while temp < 0 && codeLen < limit
      invariant Walk(tree, bitBuf, temp, codeLen, limit) == Walk(tree, bitBuf, ref, FAST_BITS, limit)
      decreases limit - codeLen
    {
      var slot := -temp - 1 + Shr(bitBuf, codeLen) % 2;
      if slot >= |tree| {
        temp := 0;
        return;
      }
      temp := tree[slot];
      codeLen := codeLen + 1;
    }
  }

  /**
   The attempt to decode with the bits at hand, made when little input is left: it succeeds exactly when they hold a
   whole code.
   */
  method TryDecode(look: seq<int>, tree: seq<int>, bitBuf: nat, numBits: nat, ghost sizes: seq<nat>)
    returns (found: bool)
    requires TableFor(sizes, look, tree) && |look| == LOOKUP_SIZE
    ensures found == Decided(look, tree, bitBuf, numBits)
    ensures forall s: nat :: Used(sizes, s) && Agrees(bitBuf, numBits, CodeBits(sizes, s)) ==>
            (found <==> sizes[s] <= numBits)
  {
    hide TableFor, Walk, CodeBits, Agrees;
    forall s: nat | Used(sizes, s) && Agrees(bitBuf, numBits, CodeBits(sizes, s))
      ensures Decided(look, tree, bitBuf, numBits) <==> sizes[s] <= numBits
    {
      DecidedIff(sizes, look, tree, bitBuf, numBits, s);
    }
    var temp := look[bitBuf % LOOKUP_SIZE];
    if temp >= 0 {
      var codeLen := temp / 512;
      found := codeLen != 0 && numBits >= codeLen;
    } else if numBits > FAST_BITS {
      var codeLen;
      temp, codeLen := WalkTree(tree, bitBuf, temp, numBits);
      found := temp >= 0;
    } else {
      found := false;
    }
  }

  /** A complete set of lengths leaves no buffer undecodable. */
  lemma CompleteDecodes(sizes: seq<nat>, bitBuf: nat) returns (s: nat)
    requires Acceptable(sizes) && Complete(sizes, MAX_BITS)
    ensures Used(sizes, s) && StartsWith(bitBuf, CodeBits(sizes, s))
  {
    var bits := LowBits(bitBuf, MAX_BITS);
    s := CoveringSymbol(sizes, bits, MAX_BITS);
    assert LowBits(bitBuf, sizes[s]) == bits[..sizes[s]];
  }

  /** A buffer starts with the code of at most one symbol. */
  lemma DecodesUniquely(sizes: seq<nat>, bitBuf: nat, s: nat, t: nat)
    requires Acceptable(sizes) && Used(sizes, s) && Used(sizes, t)
    requires StartsWith(bitBuf, CodeBits(sizes, s)) && StartsWith(bitBuf, CodeBits(sizes, t))
    ensures s == t
  {
    var n := if sizes[s] < sizes[t] then sizes[t] else sizes[s];
    var bits := LowBits(bitBuf, n);
    assert bits[..sizes[s]] == CodeBits(sizes, s) && bits[..sizes[t]] == CodeBits(sizes, t);
    SameSymbol(sizes, s, t, bits);
  }
}
