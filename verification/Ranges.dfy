/**
 Sets of byte positions as ordered half-open intervals, the representation behind
 avhttp/include/avhttp/rangefield.hpp. An ordered map from left to right edges is a sequence of ranges with ascending
 left edges.
 */
module Ranges {

  /** The positions from left up to, but not including, right. */
  datatype Range = Range(left: int, right: int)

  predicate In(r: Range, x: int)
  {
    r.left <= x < r.right
  }

  ghost predicate Covers(rs: seq<Range>, x: int)
  {
    exists i :: 0 <= i < |rs| && In(rs[i], x)
  }

  /** Left edges are the keys of the map. */
  ghost predicate Keyed(rs: seq<Range>)
  {
    forall i, j :: 0 <= i < j < |rs| ==> rs[i].left < rs[j].left
  }

  /** Non-empty ranges that neither overlap nor touch, in order. */
  ghost predicate Normal(rs: seq<Range>)
  {
    && (forall i :: 0 <= i < |rs| ==> rs[i].left < rs[i].right)
    && (forall i, j :: 0 <= i < j < |rs| ==> rs[i].right < rs[j].left)
  }

  /** What merging nothing leaves behind: one empty range. */
  const NOTHING: seq<Range> := [Range(0, 0)]

  // ---------- map operations ----------

  /** Assigns a right edge to a left edge, replacing an earlier one. */
  function Put(rs: seq<Range>, r: Range): (rs': seq<Range>)
  {
    if rs == [] || r.left < rs[0].left then [r] + rs
    else if r.left == rs[0].left then [r] + rs[1..]
    else [rs[0]] + Put(rs[1..], r)
  }

  /** Adds a range unless its left edge is taken. */
  function Insert(rs: seq<Range>, r: Range): (rs': seq<Range>)
  {
    if rs == [] || r.left < rs[0].left then [r] + rs
    else if r.left == rs[0].left then rs
    else [rs[0]] + Insert(rs[1..], r)
  }

  lemma {:induction false} InsertLast(rs: seq<Range>, r: Range)
    requires forall i :: 0 <= i < |rs| ==> rs[i].left < r.left
    ensures Insert(rs, r) == rs + [r]
  {
    if rs != [] {
      InsertLast(rs[1..], r);
    }
  }

  /** The entries with another left edge. */
  function Others(rs: seq<Range>, left: int): (os: seq<Range>)
    ensures |os| <= |rs|
  {
    if rs == [] then []
    else if rs[0].left == left then Others(rs[1..], left)
    else [rs[0]] + Others(rs[1..], left)
  }

  lemma {:induction false} OthersAre(rs: seq<Range>, left: int, r: Range)
    ensures r in Others(rs, left) <==> r in rs && r.left != left
  {
    if rs != [] {
      OthersAre(rs[1..], left, r);
      assert r in rs <==> r == rs[0] || r in rs[1..];
    }
  }

  lemma {:induction false} PutElements(rs: seq<Range>, r: Range, e: Range)
    requires Keyed(rs)
    ensures e in Put(rs, r) <==> e == r || (e in rs && e.left != r.left)
  {
    if rs != [] {
      assert e in rs <==> e == rs[0] || e in rs[1..];
      if r.left > rs[0].left {
        PutElements(rs[1..], r, e);
        assert e in [rs[0]] + Put(rs[1..], r) <==> e == rs[0] || e in Put(rs[1..], r);
      } else if e in rs[1..] {
        assert rs[0].left < e.left;
      }
    }
  }

  lemma {:induction false} PutKeyed(rs: seq<Range>, r: Range)
    requires Keyed(rs)
    ensures Keyed(Put(rs, r))
  {
    if rs != [] && r.left > rs[0].left {
      PutKeyed(rs[1..], r);
      var tail := Put(rs[1..], r);
      forall j | 0 <= j < |tail|
        ensures rs[0].left < tail[j].left
      {
        PutElements(rs[1..], r, tail[j]);
      }
    }
  }

  // ---------- covered points ----------

  lemma CoversIn(rs: seq<Range>, x: int)
    ensures Covers(rs, x) <==> exists r :: r in rs && In(r, x)
  {
    if Covers(rs, x) {
      var i :| 0 <= i < |rs| && In(rs[i], x);
      assert rs[i] in rs;
    }
  }

  lemma CoversSnoc(rs: seq<Range>, r: Range, x: int)
    ensures Covers(rs + [r], x) <==> Covers(rs, x) || In(r, x)
  {
    var all := rs + [r];
    if Covers(rs, x) {
      var i :| 0 <= i < |rs| && In(rs[i], x);
      assert In(all[i], x);
    }
    if In(r, x) {
      assert In(all[|rs|], x);
    }
  }

  /** What an update covers: the new range and all entries with another left edge. */
  lemma PutCovers(rs: seq<Range>, r: Range, x: int)
    requires Keyed(rs)
    ensures Covers(Put(rs, r), x) <==> In(r, x) || Covers(Others(rs, r.left), x)
  {
    CoversIn(Put(rs, r), x);
    CoversIn(Others(rs, r.left), x);
    forall e: Range
      ensures e in Put(rs, r) <==> e == r || e in Others(rs, r.left)
    {
      PutElements(rs, r, e);
      OthersAre(rs, r.left, e);
    }
  }

  /** Where no entry starts at the left edge, an update only adds. */
  lemma PutAdds(rs: seq<Range>, r: Range, x: int)
    requires Keyed(rs) && forall i :: 0 <= i < |rs| && rs[i].left == r.left ==> rs[i].right <= r.right
    ensures Covers(Put(rs, r), x) <==> In(r, x) || Covers(rs, x)
  {
    PutCovers(rs, r, x);
    CoversIn(rs, x);
    CoversIn(Others(rs, r.left), x);
    if e :| e in rs && In(e, x) {
      OthersAre(rs, r.left, e);
    }
    if e :| e in Others(rs, r.left) && In(e, x) {
      OthersAre(rs, r.left, e);
    }
  }

  /** What is covered, by the entry with a given left edge and by the others. */
  lemma CoversSplit(rs: seq<Range>, left: int, x: int)
    ensures Covers(rs, x) <==> Covers(Others(rs, left), x) || exists i :: 0 <= i < |rs| && rs[i].left == left && In(rs[i], x)
  {
    CoversIn(rs, x);
    CoversIn(Others(rs, left), x);
    if i :| 0 <= i < |rs| && In(rs[i], x) && rs[i].left != left {
      OthersAre(rs, left, rs[i]);
    }
    if e :| e in Others(rs, left) && In(e, x) {
      OthersAre(rs, left, e);
    }
  }

  /** What an entry with the same left edge covers behind the new range, the others cover too. */
  ghost predicate OthersReach(rs: seq<Range>, r: Range)
  {
    forall i, x :: 0 <= i < |rs| && rs[i].left == r.left && r.right <= x < rs[i].right ==> Covers(Others(rs, r.left), x)
  }

  /**
   An update can uncover bytes, since it replaces an entry with the same left edge. Merged or not, all covered bytes
   stay covered exactly when the other entries cover what that entry covers behind the new range.
   */
  lemma PutKeepsIff(rs: seq<Range>, r: Range)
    requires Keyed(rs) && r.left < r.right
    ensures (forall x :: Covers(rs, x) ==> Covers(Put(rs, r), x)) <==> OthersReach(rs, r)
  {
    hide Covers, Put;
    forall x
      ensures Covers(Put(rs, r), x) <==> In(r, x) || Covers(Others(rs, r.left), x)
      ensures Covers(rs, x) <==> Covers(Others(rs, r.left), x) || exists i :: 0 <= i < |rs| && rs[i].left == r.left && In(rs[i], x)
    {
      PutCovers(rs, r, x);
      CoversSplit(rs, r.left, x);
    }
    if OthersReach(rs, r) {
      forall x | Covers(rs, x)
        ensures Covers(Put(rs, r), x)
      {
        if i :| 0 <= i < |rs| && rs[i].left == r.left && In(rs[i], x) && !In(r, x) {
          assert r.right <= x < rs[i].right;
        }
      }
    } else {
      var i, x :| 0 <= i < |rs| && rs[i].left == r.left && r.right <= x < rs[i].right && !Covers(Others(rs, r.left), x);
      assert In(rs[i], x) && !In(r, x);
    }
  }

  /** On merged ranges that is: no entry with the same left edge reaches further to the right. */
  lemma PutKeepsMerged(rs: seq<Range>, r: Range)
    requires Normal(rs) && r.left < r.right
    ensures (forall x :: Covers(rs, x) ==> Covers(Put(rs, r), x))
        <==> (forall i :: 0 <= i < |rs| && rs[i].left == r.left ==> rs[i].right <= r.right)
  {
    if i :| 0 <= i < |rs| && rs[i].left == r.left && rs[i].right > r.right {
      assert In(rs[i], r.right) && Covers(rs, r.right);
      PutLoses(rs, r, i);
    } else {
      forall x | Covers(rs, x)
        ensures Covers(Put(rs, r), x)
      {
        PutAdds(rs, r, x);
      }
    }
  }

  /** Recording [0, 3) when [0, 10) is known uncovers byte 5. */
  lemma OverwriteExample()
    ensures Covers([Range(0, 10)], 5) && !Covers(Put([Range(0, 10)], Range(0, 3)), 5)
  {
    var rs := [Range(0, 10)];
    assert In(rs[0], 5);
    assert Put(rs, Range(0, 3)) == [Range(0, 3)];
  }

  lemma PutLoses(rs: seq<Range>, r: Range, i: nat)
    requires Normal(rs) && r.left < r.right && i < |rs| && rs[i].left == r.left && rs[i].right > r.right
    ensures !Covers(Put(rs, r), r.right)
  {
    PutCovers(rs, r, r.right);
    CoversIn(Others(rs, r.left), r.right);
    forall e | e in Others(rs, r.left)
      ensures !In(e, r.right)
    {
      OthersAre(rs, r.left, e);
      var j :| 0 <= j < |rs| && rs[j] == e;
    }
  }

  // ---------- normal form ----------

  /** In normal form a covered stretch lies in one range. */
  lemma OneRange(rs: seq<Range>, left: int, right: int) returns (i: nat)
    requires Normal(rs) && left < right && forall x :: left <= x < right ==> Covers(rs, x)
    ensures i < |rs| && rs[i].left <= left && right <= rs[i].right
  {
    assert Covers(rs, left);
    i :| 0 <= i < |rs| && In(rs[i], left);
    GapAfter(rs, i);
  }

  /** The point behind a range is not covered. */
  lemma GapAfter(rs: seq<Range>, i: nat)
    requires Normal(rs) && i < |rs|
    ensures !Covers(rs, rs[i].right)
  {
    forall j | 0 <= j < |rs|
      ensures !In(rs[j], rs[i].right)
    {
    }
  }

  lemma NormalTail(rs: seq<Range>)
    requires Normal(rs) && rs != []
    ensures Normal(rs[1..])
    ensures forall x :: Covers(rs[1..], x) <==> Covers(rs, x) && !In(rs[0], x)
  {
    forall x
      ensures Covers(rs[1..], x) <==> Covers(rs, x) && !In(rs[0], x)
    {
      if i :| 0 <= i < |rs[1..]| && In(rs[1..][i], x) {
        assert In(rs[i + 1], x) && rs[0].right < rs[i + 1].left;
      }
      if i :| 0 <= i < |rs| && In(rs[i], x) && !In(rs[0], x) {
        assert In(rs[1..][i - 1], x);
      }
    }
  }

  lemma EmptyCoversNothing(rs: seq<Range>)
    requires Normal(rs)
    ensures rs == [] || Covers(rs, rs[0].left)
  {
    if rs != [] {
      assert In(rs[0], rs[0].left);
    }
  }

  /** The normal form is determined by the points it covers. */
  lemma {:induction false} NormalUnique(a: seq<Range>, b: seq<Range>)
    requires Normal(a) && Normal(b) && forall x :: Covers(a, x) <==> Covers(b, x)
    ensures a == b
  {
    if a == [] {
      EmptyCoversNothing(b);
    } else if b == [] {
      EmptyCoversNothing(a);
    } else {
      SameHead(a, b);
      NormalTail(a);
      NormalTail(b);
      NormalUnique(a[1..], b[1..]);
    }
  }

  lemma SameHead(a: seq<Range>, b: seq<Range>)
    requires Normal(a) && Normal(b) && a != [] && b != [] && forall x :: Covers(a, x) <==> Covers(b, x)
    ensures a[0] == b[0]
  {
    HeadIsLeast(a, b);
    HeadIsLeast(b, a);
    GapAfter(a, 0);
    GapAfter(b, 0);
    assert !In(b[0], a[0].right) && !In(a[0], b[0].right);
  }

  lemma HeadIsLeast(a: seq<Range>, b: seq<Range>)
    requires Normal(a) && Normal(b) && a != [] && b != [] && forall x :: Covers(a, x) <==> Covers(b, x)
    ensures a[0].left <= b[0].left
  {
    assert In(b[0], b[0].left) && Covers(b, b[0].left);
    var i :| 0 <= i < |a| && In(a[i], b[0].left);
    assert i > 0 ==> a[0].right < a[i].left;
  }
}
