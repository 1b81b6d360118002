/**
 The record of downloaded byte ranges (avhttp/include/avhttp/rangefield.hpp, class rangefield, in the build without
 threads). Updates only note a range; the ranges are merged when they are next needed.
 */
module RangeField {
  import opened Ranges

  /** Ranges of a field of the given size; the empty range at 0 is what merging nothing leaves. */
  ghost predicate Fits(rs: seq<Range>, size: int)
  {
    forall i :: 0 <= i < |rs| ==> rs[i] == Range(0, 0) || 0 <= rs[i].left < rs[i].right <= size
  }

  ghost predicate Merged(rs: seq<Range>)
  {
    Normal(rs) || rs == NOTHING
  }

  // ---------- merging ----------

  /** After i entries: the finished ranges, and the one at hand, cover what the entries cover. */
  ghost predicate Merging(rs: seq<Range>, i: nat, size: int, done: seq<Range>, max: Range)
  {
    && i <= |rs|
    && if max == Range(0, 0) then done == [] && (forall x :: !Covers(rs[..i], x))
       else
         && Normal(done + [max]) && Fits(done + [max], size)
         && (forall x :: Covers(done + [max], x) <==> Covers(rs[..i], x))
         && (forall k :: i <= k < |rs| ==> max.left < rs[k].left)
  }

  lemma CoversNext(rs: seq<Range>, i: nat, x: int)
    requires i < |rs|
    ensures Covers(rs[..i + 1], x) <==> Covers(rs[..i], x) || In(rs[i], x)
  {
    assert rs[..i + 1] == rs[..i] + [rs[i]];
    CoversSnoc(rs[..i], rs[i], x);
  }

  /** An entry inside the range at hand adds nothing. */
  lemma MergeInside(rs: seq<Range>, i: nat, size: int, done: seq<Range>, max: Range)
    requires Merging(rs, i, size, done, max) && i < |rs| && Keyed(rs) && Fits(rs, size)
    requires rs[i].left >= max.left && rs[i].right <= max.right
    ensures Merging(rs, i + 1, size, done, max)
  {
    forall x
      ensures Covers(rs[..i + 1], x) <==> Covers(rs[..i], x)
    {
      CoversNext(rs, i, x);
      CoversSnoc(done, max, x);
    }
  }

  /** An entry that starts inside or right behind the range at hand extends it. */
  lemma MergeExtends(rs: seq<Range>, i: nat, size: int, done: seq<Range>, max: Range)
    requires Merging(rs, i, size, done, max) && i < |rs| && Keyed(rs) && Fits(rs, size)
    requires max.left < rs[i].left <= max.right < rs[i].right
    ensures Merging(rs, i + 1, size, done, Range(max.left, rs[i].right))
  {
    var max' := Range(max.left, rs[i].right);
    assert (done + [max])[|done|] == max;
    forall x
      ensures Covers(done + [max'], x) <==> Covers(rs[..i + 1], x)
    {
      CoversNext(rs, i, x);
      CoversSnoc(done, max, x);
      CoversSnoc(done, max', x);
    }
    NormalReplaced(size, done, max, max');
  }

  lemma NormalReplaced(size: int, done: seq<Range>, max: Range, max': Range)
    requires Normal(done + [max]) && Fits(done + [max], size) && 0 <= max.left
    requires max'.left == max.left && max.right <= max'.right <= size
    ensures Normal(done + [max']) && Fits(done + [max'], size)
  {
    var a, b := done + [max], done + [max'];
    assert a[|done|] == max;
    forall i | 0 <= i < |b|
      ensures b[i].left < b[i].right && (b[i] == Range(0, 0) || 0 <= b[i].left < b[i].right <= size)
    {
      assert a[i].left < a[i].right;
    }
    forall i, j | 0 <= i < j < |b|
      ensures b[i].right < b[j].left
    {
      assert a[i].right < a[j].left;
    }
  }

  /** An entry further to the right finishes the range at hand. */
  lemma MergeApart(rs: seq<Range>, i: nat, size: int, done: seq<Range>, max: Range)
    requires Merging(rs, i, size, done, max) && i < |rs| && Keyed(rs) && Fits(rs, size)
    requires rs[i] != Range(0, 0) && (rs[i].left > max.right || max == Range(0, 0))
    ensures max == Range(0, 0) ==> Merging(rs, i + 1, size, [], rs[i])
    ensures max != Range(0, 0) ==> Merging(rs, i + 1, size, done + [max], rs[i])
  {
    var done' := if max == Range(0, 0) then [] else done + [max];
    forall x
      ensures Covers(done' + [rs[i]], x) <==> Covers(rs[..i + 1], x)
    {
      CoversNext(rs, i, x);
      CoversSnoc(done', rs[i], x);
    }
    if max != Range(0, 0) {
      assert done'[|done|] == max;
      forall k | 0 <= k < |done'|
        ensures done'[k].right < rs[i].left
      {
        assert k < |done| ==> done'[k].right < done'[|done|].left;
      }
    }
  }

  lemma MergeDone(rs: seq<Range>, size: int, done: seq<Range>, max: Range)
    requires Merging(rs, |rs|, size, done, max)
    ensures Merged(Insert(done, max)) && Fits(Insert(done, max), size) && Keyed(Insert(done, max))
    ensures forall x :: Covers(Insert(done, max), x) <==> Covers(rs, x)
  {
    assert rs[..|rs|] == rs;
    if max != Range(0, 0) {
      LastInserted(done, max);
    } else {
      assert [Range(0, 0)] + [] == NOTHING;
    }
  }

  lemma LastInserted(done: seq<Range>, max: Range)
    requires Normal(done + [max])
    ensures Insert(done, max) == done + [max] && Keyed(done + [max])
  {
    var all := done + [max];
    assert all[|done|] == max;
    forall i | 0 <= i < |done|
      ensures done[i].left < max.left
    {
      assert all[i].right < all[|done|].left;
    }
    InsertLast(done, max);
  }

  // ---------- gaps ----------

  /** The gaps before `point`. */
  ghost predicate GapsBefore(rs: seq<Range>, gaps: seq<Range>, point: int)
  {
    && Normal(gaps) && (forall i :: 0 <= i < |gaps| ==> 0 <= gaps[i].left && gaps[i].right < point)
    && (forall x :: x < point ==> (Covers(gaps, x) <==> 0 <= x && !Covers(rs, x)))
  }

  /** A gap and the range behind it. */
  lemma NextGap(rs: seq<Range>, gaps: seq<Range>, point: int, i: nat)
    requires Normal(rs) && i < |rs| && GapsBefore(rs, gaps, point) && 0 <= point < rs[i].left
    requires forall k :: 0 <= k < i ==> rs[k].right <= point
    ensures Insert(gaps, Range(point, rs[i].left)) == gaps + [Range(point, rs[i].left)]
    ensures GapsBefore(rs, gaps + [Range(point, rs[i].left)], rs[i].right)
  {
    var gap := Range(point, rs[i].left);
    InsertLast(gaps, gap);
    forall x | x < rs[i].right
      ensures Covers(gaps + [gap], x) <==> 0 <= x && !Covers(rs, x)
    {
      CoversSnoc(gaps, gap, x);
      if x >= rs[i].left {
        assert In(rs[i], x);
        NothingThere(gaps, point, x);
      } else if x >= point {
        NotCovered(rs, i, point, x);
        NothingThere(gaps, point, x);
      }
    }
  }

  lemma NothingThere(gaps: seq<Range>, point: int, x: int)
    requires (forall i :: 0 <= i < |gaps| ==> gaps[i].right < point) && x >= point
    ensures !Covers(gaps, x)
  {
  }

  lemma NotCovered(rs: seq<Range>, i: nat, point: int, x: int)
    requires Normal(rs) && i <= |rs| && (forall k :: 0 <= k < i ==> rs[k].right <= point)
    requires point <= x && (i < |rs| ==> x < rs[i].left)
    ensures !Covers(rs, x)
  {
    forall k | 0 <= k < |rs|
      ensures !In(rs[k], x)
    {
      assert k > i ==> rs[i].right < rs[k].left;
    }
  }

  /** The gaps of a field are what its ranges leave uncovered. */
  ghost predicate AreGaps(rs: seq<Range>, size: int, gaps: seq<Range>)
  {
    Normal(gaps) && forall x :: Covers(gaps, x) <==> 0 <= x < size && !Covers(rs, x)
  }

  lemma TailGap(rs: seq<Range>, size: int, gaps: seq<Range>, point: int)
    requires Merged(rs) && Fits(rs, size) && size > 0 && GapsBefore(rs, gaps, point) && 0 <= point <= size
    requires forall k :: 0 <= k < |rs| ==> rs[k].right <= point
    ensures point == size ==> AreGaps(rs, size, gaps)
    ensures point < size ==> Insert(gaps, Range(point, size)) == gaps + [Range(point, size)]
    ensures point < size ==> AreGaps(rs, size, gaps + [Range(point, size)])
  {
    var gap := Range(point, size);
    InsertLast(gaps, gap);
    forall x
      ensures x >= point ==> !Covers(gaps, x) && !Covers(rs, x)
      ensures Covers(gaps + [gap], x) <==> Covers(gaps, x) || In(gap, x)
    {
      CoversSnoc(gaps, gap, x);
      if x >= point {
        NothingThere(gaps, point, x);
      }
    }
  }

  // ---------- what callers see ----------

  /** The longest covered stretch from `left` on, within `right`. */
  ghost predicate LongestFrom(rs: seq<Range>, left: int, right: int, r: int)
  {
    left < r <= right && (forall x :: left <= x < r ==> Covers(rs, x)) && (r == right || !Covers(rs, r))
  }

  ghost predicate Full(rs: seq<Range>, size: int)
  {
    forall x :: 0 <= x < size ==> Covers(rs, x)
  }

  /** A maximal uncovered stretch. */
  ghost predicate Free(rs: seq<Range>, size: int, left: int, right: int)
  {
    && 0 <= left < right <= size && (forall x :: left <= x < right ==> !Covers(rs, x))
    && (right == size || Covers(rs, right))
  }

  /** An uncovered stretch starts at the least uncovered point from `offset` on, or else at the least one of all. */
  ghost predicate FreeFrom(rs: seq<Range>, size: int, offset: int, left: int, right: int)
  {
    && Free(rs, size, left, right)
    && (if exists y :: offset <= y && 0 <= y < size && !Covers(rs, y)
        then offset <= left && (forall y :: offset <= y < left && 0 <= y ==> Covers(rs, y))
        else forall y :: 0 <= y < left ==> Covers(rs, y))
  }

  // ---------- the field ----------

  class Field {
    var size: int
    var needMerge: bool
    var ranges: seq<Range>

    ghost predicate Valid()
      reads this
    {
      size >= 0 && Keyed(ranges) && Fits(ranges, size) && (needMerge || Merged(ranges))
    }

    constructor (size: int)
      requires size >= 0
      ensures Valid() && this.size == size && ranges == [] && !needMerge
    {
      this.size, needMerge, ranges := size, false, [];
    }

    /** Records a range, which replaces an entry with the same left edge; a range outside the field is refused. */
    method Update(left: int, right: int) returns (ok: bool)
      requires Valid()
      modifies this
      ensures Valid() && size == old(size) && (ok <==> 0 <= left < right <= size)
      ensures ranges == if ok then Put(old(ranges), Range(left, right)) else old(ranges)
      ensures needMerge == (ok || old(needMerge))
    {
      if left < 0 || right > size || right <= left {
        return false;
      }
      PutKeyed(ranges, Range(left, right));
      PutFits(ranges, Range(left, right), size);
      ranges := Put(ranges, Range(left, right));
      needMerge := true;
      return true;
    }

    /** Brings the ranges into normal form; the covered points stay the same. */
    method Merge()
      requires Valid()
      modifies this
      ensures Valid() && size == old(size) && !needMerge && Merged(ranges)
      ensures forall x :: Covers(ranges, x) <==> old(Covers(ranges, x))
    {
      hide Covers, Normal;
      var result: seq<Range> := [];
      var max := Range(0, 0);
      StartMerging(ranges, size);
      for i := 0 to |ranges|
        invariant Merging(ranges, i, size, result, max)
        invariant ranges == old(ranges) && size == old(size) && Valid()
      {
        var e := ranges[i];
        LeftOf(ranges, i, size, result, max);
        if e.left >= max.left && e.right <= max.right {
          MergeInside(ranges, i, size, result, max);
        } else if e.left <= max.left && max.left <= e.right <= max.right {
          // entries come in ascending order, so none starts before the range at hand
          assert false;
        } else if e.left > max.left && e.left <= max.right {
          MergeExtends(ranges, i, size, result, max);
          max := Range(max.left, e.right);
        } else if e.left > max.right || max == Range(0, 0) {
          MergeApart(ranges, i, size, result, max);
          if max != Range(0, 0) {
            FinishedInserted(ranges, i, size, result, max);
            result := Insert(result, max);
          }
          max := e;
        }
      }
      MergeDone(ranges, size, result, max);
      ranges := Insert(result, max);
      needMerge := false;
    }

    /** Merges if an update has been recorded since the last merge. */
    method Tidy()
      requires Valid()
      modifies this
      ensures Valid() && size == old(size) && !needMerge && Merged(ranges)
      ensures forall x :: Covers(ranges, x) <==> old(Covers(ranges, x))
    {
      if needMerge {
        Merge();
      }
    }

    /** Whether all of a range is covered. */
    method CheckRange(left: int, right: int) returns (ok: bool)
      requires Valid() && 0 <= left < right <= size
      modifies this
      ensures Valid() && size == old(size) && forall x :: Covers(ranges, x) <==> old(Covers(ranges, x))
      ensures ok <==> forall x :: left <= x < right ==> old(Covers(ranges, x))
    {
      hide Keyed, Fits, Merged;
      Tidy();
      ghost var rs := ranges;
      for i := 0 to |ranges|
        invariant forall k :: 0 <= k < i ==> !(ranges[k].left <= left && right <= ranges[k].right)
      {
        if left >= ranges[i].left && right <= ranges[i].right {
          AllIn(rs, i, left, right);
          return true;
        }
      }
      SomeGap(rs, left, right);
      return false;
    }

    /** Cuts a range to the longest stretch from its left edge that is covered. */
    method GetRange(left: int, right: int) returns (ok: bool, right': int)
      requires Valid() && 0 <= left < right <= size
      modifies this
      ensures Valid() && size == old(size) && forall x :: Covers(ranges, x) <==> old(Covers(ranges, x))
      ensures ok <==> Covers(ranges, left)
      ensures if ok then LongestFrom(ranges, left, right, right') else right' == right
    {
      hide Keyed, Fits, Covers, LongestFrom;
      Tidy();
      right' := right;
      for i := 0 to |ranges|
        invariant forall k :: 0 <= k < i ==> !In(ranges[k], left)
      {
        if left >= ranges[i].left {
          if right <= ranges[i].right {
            Longest(ranges, i, left, right);
            return true, right;
          }
          if right > ranges[i].left && ranges[i].right > left {
            Longest(ranges, i, left, right);
            return true, ranges[i].right;
          }
        }
      }
      ok := false;
      NowhereIn(ranges, left);
    }

    /** The ranges that are not covered. */
    method InverseRanges() returns (gaps: seq<Range>)
      requires Valid()
      modifies this
      ensures Valid() && size == old(size) && !needMerge && Merged(ranges)
      ensures forall x :: Covers(ranges, x) <==> old(Covers(ranges, x))
      ensures size > 0 ==> AreGaps(ranges, size, gaps)
      ensures size == 0 ==> gaps == if ranges == [] then NOTHING else []
    {
      hide Covers, Keyed, AreGaps;
      Tidy();
      gaps := [];
      var point := 0;
      NoGapsYet(ranges);
      for i := 0 to |ranges|
        invariant 0 <= point <= size && GapsBefore(ranges, gaps, point)
        invariant forall k :: 0 <= k < i ==> ranges[k].right <= point
        invariant if i > 0 then point == ranges[i - 1].right else point == 0 && gaps == []
        invariant size == 0 ==> gaps == []
        modifies {}
      {
        GapStep(ranges, gaps, point, i, size);
        if i == 0 {
          if ranges[i].left != 0 {
            point := 0;
            gaps := Insert(gaps, Range(point, ranges[i].left));
          }
          point := ranges[i].right;
        } else {
          gaps := Insert(gaps, Range(point, ranges[i].left));
          point := ranges[i].right;
        }
      }
      if size > 0 {
        TailGap(ranges, size, gaps, point);
      }
      EmptyInsert(point, size);
      if point != size || |ranges| == 0 {
        gaps := Insert(gaps, Range(point, size));
      }
    }

    /** The field with covered and uncovered exchanged. */
    method Inverse() returns (f: Field)
      requires Valid()
      modifies this
      ensures Valid() && size == old(size) && forall x :: Covers(ranges, x) <==> old(Covers(ranges, x))
      ensures fresh(f) && f.size == size && !f.needMerge
      ensures size > 0 ==> f.Valid() && forall x :: Covers(f.ranges, x) <==> 0 <= x < size && !Covers(ranges, x)
    {
      hide Covers, Keyed, Fits;
      var gaps := InverseRanges();
      f := new Field(size);
      f.needMerge := needMerge;
      f.ranges := gaps;
      if size > 0 {
        GapsFit(ranges, size, gaps);
      }
    }

    /**
     A free stretch from `offset` on, or else from the start; fails only when nothing is free. A field of no bytes
     offers an empty stretch until it is merged for the first time.
     */
    method OutSpace(offset: int) returns (ok: bool, left: int, right: int)
      requires Valid()
      modifies this
      ensures Valid() && size == old(size) && forall x :: Covers(ranges, x) <==> old(Covers(ranges, x))
      ensures size > 0 ==> (ok <==> !Full(ranges, size))
      ensures size > 0 && ok ==> FreeFrom(ranges, size, offset, left, right)
      ensures size == 0 ==> (ok <==> ranges == []) && left == right == 0
    {
      hide Covers, Keyed, Fits, FreeFrom, AreGaps, Full;
      var gaps := InverseRanges();
      left, right := 0, 0;
      if size > 0 {
        GapsOrFull(ranges, size, gaps);
      }
      if |gaps| == 0 {
        return false, 0, 0;
      }
      for i := 0 to |gaps|
        invariant forall k :: 0 <= k < i ==> gaps[k].right <= offset
        modifies {}
      {
        if offset >= gaps[i].left {
          if offset < gaps[i].right {
            if size > 0 {
              GapIsFree(ranges, size, gaps, i, offset);
            }
            return true, offset, gaps[i].right;
          }
        } else {
          if size > 0 {
            GapIsFree(ranges, size, gaps, i, offset);
          }
          return true, gaps[i].left, gaps[i].right;
        }
      }
      if size > 0 {
        FirstGapIsFree(ranges, size, gaps, offset);
      }
      return true, gaps[0].left, gaps[0].right;
    }

    /** Whether everything is covered; a field of no bytes is full once it has been merged. */
    method IsFull() returns (full: bool)
      requires Valid()
      modifies this
      ensures Valid() && size == old(size) && forall x :: Covers(ranges, x) <==> old(Covers(ranges, x))
      ensures size > 0 ==> (full <==> Full(ranges, size))
      ensures size == 0 ==> (full <==> ranges == NOTHING)
    {
      hide Covers, Keyed, Full;
      Tidy();
      if size > 0 {
        FullIsOne(ranges, size);
      }
      full := |ranges| == 1 && ranges[0].left == 0 && ranges[0].right == size;
    }

    /** The sum of the sizes of all entries, merged or not. */
    method RangeSize() returns (total: int)
      requires Valid()
      ensures total == Sizes(ranges)
      ensures |CoveredPoints(ranges, size)| <= total
      ensures total == |CoveredPoints(ranges, size)| <==> Disjoint(ranges)
    {
      hide CoveredPoints, Disjoint;
      total := 0;
      for i := 0 to |ranges|
        invariant total == Sizes(ranges[..i])
      {
        assert ranges[..i + 1][..i] == ranges[..i];
        total := total + ranges[i].right - ranges[i].left;
      }
      assert ranges[..|ranges|] == ranges;
      SizesCount(ranges, size);
    }
  }

  lemma GapsFit(rs: seq<Range>, size: int, gaps: seq<Range>)
    requires AreGaps(rs, size, gaps)
    ensures Keyed(gaps) && Fits(gaps, size)
  {
    forall i | 0 <= i < |gaps|
      ensures 0 <= gaps[i].left < gaps[i].right <= size
    {
      GapIsWhole(rs, size, gaps, i);
    }
  }

  /** Inverting twice gives back the merged ranges. */
  lemma InverseTwice(rs: seq<Range>, size: int, gaps: seq<Range>, back: seq<Range>)
    requires Normal(rs) && Fits(rs, size) && AreGaps(rs, size, gaps) && AreGaps(gaps, size, back)
    ensures back == rs
  {
    forall x
      ensures Covers(rs, x) ==> 0 <= x < size
    {
    }
    NormalUnique(back, rs);
  }

  // ---------- counting bytes ----------

  function Sizes(rs: seq<Range>): (t: int)
  {
    if rs == [] then 0 else Sizes(rs[..|rs| - 1]) + (rs[|rs| - 1].right - rs[|rs| - 1].left)
  }

  ghost function CoveredPoints(rs: seq<Range>, size: int): (s: set<int>)
  {
    set x | 0 <= x < size && Covers(rs, x)
  }

  ghost predicate Disjoint(rs: seq<Range>)
  {
    forall i, j, x :: 0 <= i < j < |rs| && In(rs[i], x) ==> !In(rs[j], x)
  }

  ghost function Points(r: Range): (s: set<int>)
  {
    set x | r.left <= x < r.right && In(r, x)
  }

  lemma {:induction false} PointsCount(l: int, r: int)
    requires l <= r
    ensures |Points(Range(l, r))| == r - l
    decreases r - l
  {
    if l == r {
      assert Points(Range(l, r)) == {};
    } else {
      PointsCount(l, r - 1);
      assert Points(Range(l, r)) == Points(Range(l, r - 1)) + {r - 1};
    }
  }

  lemma UnionCount(a: set<int>, b: set<int>)
    ensures |a + b| <= |a| + |b|
    ensures |a + b| == |a| + |b| <==> a * b == {}
  {
    assert |a + b| + |a * b| == |a| + |b|;
    assert |a * b| == 0 <==> a * b == {};
  }

  /** The sizes add up to the number of covered bytes exactly when no byte is covered twice. */
  lemma {:induction false} SizesCount(rs: seq<Range>, size: int)
    requires Fits(rs, size)
    ensures |CoveredPoints(rs, size)| <= Sizes(rs)
    ensures Sizes(rs) == |CoveredPoints(rs, size)| <==> Disjoint(rs)
  {
    if rs == [] {
      assert CoveredPoints(rs, size) == {};
    } else {
      var k := |rs| - 1;
      var a, b := CoveredPoints(rs[..k], size), Points(rs[k]);
      SizesCount(rs[..k], size);
      PointsCount(rs[k].left, rs[k].right);
      LastPoints(rs, size);
      UnionCount(a, b);
    }
  }

  lemma LastPoints(rs: seq<Range>, size: int)
    requires Fits(rs, size) && rs != []
    ensures var k := |rs| - 1;
            && CoveredPoints(rs, size) == CoveredPoints(rs[..k], size) + Points(rs[k])
            && (Disjoint(rs) <==> Disjoint(rs[..k]) && CoveredPoints(rs[..k], size) * Points(rs[k]) == {})
  {
    var k := |rs| - 1;
    assert rs == rs[..k] + [rs[k]];
    forall x
      ensures Covers(rs, x) <==> Covers(rs[..k], x) || In(rs[k], x)
    {
      CoversSnoc(rs[..k], rs[k], x);
    }
    DisjointLast(rs, size);
  }

  lemma DisjointLast(rs: seq<Range>, size: int)
    requires Fits(rs, size) && rs != []
    ensures var k := |rs| - 1; Disjoint(rs) <==> Disjoint(rs[..k]) && CoveredPoints(rs[..k], size) * Points(rs[k]) == {}
  {
    var k := |rs| - 1;
    var a, b := CoveredPoints(rs[..k], size), Points(rs[k]);
    if Disjoint(rs) {
      forall x | x in a
        ensures x !in b
      {
        var i :| 0 <= i < k && In(rs[..k][i], x);
        assert In(rs[i], x);
      }
    }
    if Disjoint(rs[..k]) && a * b == {} {
      forall i, j, x | 0 <= i < j < |rs| && In(rs[i], x)
        ensures !In(rs[j], x)
      {
        if j == k {
          assert In(rs[..k][i], x) && Covers(rs[..k], x);
          assert x in a && x !in a * b;
        } else {
          assert In(rs[..k][i], x);
          assert !In(rs[..k][j], x);
        }
      }
    }
  }

  lemma AllIn(rs: seq<Range>, i: nat, left: int, right: int)
    requires i < |rs| && rs[i].left <= left && right <= rs[i].right
    ensures forall x :: left <= x < right ==> Covers(rs, x)
  {
    forall x | left <= x < right
      ensures Covers(rs, x)
    {
      assert In(rs[i], x);
    }
  }

  lemma SomeGap(rs: seq<Range>, left: int, right: int)
    requires Merged(rs) && left < right && forall k :: 0 <= k < |rs| ==> !(rs[k].left <= left && right <= rs[k].right)
    ensures exists x :: left <= x < right && !Covers(rs, x)
  {
    if rs == NOTHING {
      assert !Covers(rs, left);
    } else if forall x :: left <= x < right ==> Covers(rs, x) {
      var i := OneRange(rs, left, right);
    }
  }

  lemma NowhereIn(rs: seq<Range>, x: int)
    requires forall k :: 0 <= k < |rs| ==> !In(rs[k], x)
    ensures !Covers(rs, x)
  {
  }

  lemma Longest(rs: seq<Range>, i: nat, left: int, right: int)
    requires Merged(rs) && i < |rs| && In(rs[i], left) && left < right
    ensures Covers(rs, left)
    ensures right <= rs[i].right ==> LongestFrom(rs, left, right, right)
    ensures rs[i].right < right ==> LongestFrom(rs, left, right, rs[i].right)
  {
    AllIn(rs, i, left, rs[i].right);
    if rs != NOTHING {
      GapAfter(rs, i);
    }
  }

  lemma NoGapsYet(rs: seq<Range>)
    requires forall i :: 0 <= i < |rs| ==> rs[i].left >= 0
    ensures GapsBefore(rs, [], 0)
  {
  }

  /** What one entry adds to the gaps. */
  lemma GapStep(rs: seq<Range>, gaps: seq<Range>, point: int, i: nat, size: int)
    requires Merged(rs) && Fits(rs, size) && size >= 0 && i < |rs| && GapsBefore(rs, gaps, point) && 0 <= point
    requires (forall k :: 0 <= k < i ==> rs[k].right <= point) && (if i > 0 then point == rs[i - 1].right else point == 0)
    requires i == 0 ==> gaps == []
    ensures 0 <= rs[i].right <= size && point <= rs[i].right
    ensures i > 0 || rs[i].left != 0 ==> GapsBefore(rs, Insert(gaps, Range(point, rs[i].left)), rs[i].right)
    ensures i == 0 && rs[i].left == 0 ==> GapsBefore(rs, gaps, rs[i].right)
    ensures size == 0 ==> i == 0 && rs[i].left == 0
  {
    if i > 0 {
      assert rs[0] == Range(0, 0) ==> rs == NOTHING;
      NextGap(rs, gaps, point, i);
    } else if rs[i].left != 0 {
      NextGap(rs, gaps, point, i);
    } else {
      FirstAtZero(rs, gaps);
    }
  }

  lemma FirstAtZero(rs: seq<Range>, gaps: seq<Range>)
    requires rs != [] && rs[0].left == 0 && GapsBefore(rs, gaps, 0) && gaps == []
    ensures GapsBefore(rs, gaps, rs[0].right)
  {
    forall x | x < rs[0].right
      ensures Covers(gaps, x) <==> 0 <= x && !Covers(rs, x)
    {
      assert 0 <= x ==> In(rs[0], x);
    }
  }

  lemma EmptyInsert(point: int, size: int)
    ensures Insert([], Range(point, size)) == [Range(point, size)]
  {
  }

  lemma GapsOrFull(rs: seq<Range>, size: int, gaps: seq<Range>)
    requires AreGaps(rs, size, gaps)
    ensures gaps == [] <==> Full(rs, size)
  {
    if gaps != [] {
      assert In(gaps[0], gaps[0].left) && Covers(gaps, gaps[0].left);
    } else {
      forall x | 0 <= x < size
        ensures Covers(rs, x)
      {
        assert !Covers(gaps, x);
      }
    }
  }

  /** From `offset`, or from its start if that is later, a gap is free. */
  lemma GapIsFree(rs: seq<Range>, size: int, gaps: seq<Range>, i: nat, offset: int)
    requires AreGaps(rs, size, gaps) && i < |gaps| && (offset < gaps[i].left || offset < gaps[i].right)
    requires forall k :: 0 <= k < i ==> gaps[k].right <= offset
    ensures FreeFrom(rs, size, offset, if offset >= gaps[i].left then offset else gaps[i].left, gaps[i].right)
  {
    var left, right := if offset >= gaps[i].left then offset else gaps[i].left, gaps[i].right;
    GapIsWhole(rs, size, gaps, i);
    assert offset <= left && 0 <= left < size && !Covers(rs, left);
    forall y | offset <= y < left && 0 <= y
      ensures Covers(rs, y)
    {
      assert !Covers(gaps, y) by { BetweenGaps(gaps, i, y); }
    }
  }

  lemma BetweenGaps(gaps: seq<Range>, i: nat, y: int)
    requires Normal(gaps) && i < |gaps| && y < gaps[i].left && forall k :: 0 <= k < i ==> gaps[k].right <= y
    ensures !Covers(gaps, y)
  {
    forall k | 0 <= k < |gaps|
      ensures !In(gaps[k], y)
    {
      assert k > i ==> gaps[i].right < gaps[k].left;
    }
  }

  lemma GapIsWhole(rs: seq<Range>, size: int, gaps: seq<Range>, i: nat)
    requires AreGaps(rs, size, gaps) && i < |gaps|
    ensures Free(rs, size, gaps[i].left, gaps[i].right)
  {
    var g := gaps[i];
    forall x | g.left <= x < g.right
      ensures !Covers(rs, x) && 0 <= x < size
    {
      assert In(gaps[i], x) && Covers(gaps, x);
    }
    assert In(gaps[i], g.left) && Covers(gaps, g.left) && In(gaps[i], g.right - 1) && Covers(gaps, g.right - 1);
    GapAfter(gaps, i);
  }

  lemma FirstGapIsFree(rs: seq<Range>, size: int, gaps: seq<Range>, offset: int)
    requires AreGaps(rs, size, gaps) && gaps != [] && forall k :: 0 <= k < |gaps| ==> gaps[k].right <= offset
    ensures FreeFrom(rs, size, offset, gaps[0].left, gaps[0].right)
  {
    GapIsWhole(rs, size, gaps, 0);
    forall y | offset <= y && 0 <= y < size
      ensures Covers(rs, y)
    {
      assert !Covers(gaps, y);
    }
    forall y | 0 <= y < gaps[0].left
      ensures Covers(rs, y)
    {
      BetweenGaps(gaps, 0, y);
    }
  }

  lemma NoOther(rs: seq<Range>, size: int, i: nat)
    requires Normal(rs) && Fits(rs, size) && i < |rs| && rs[i].left <= 0 && size <= rs[i].right
    ensures |rs| == 1
  {
    if |rs| > 1 {
      Apart(rs, if i == 0 then 0 else i - 1);
    }
  }

  lemma Apart(rs: seq<Range>, j: nat)
    requires Normal(rs) && j + 1 < |rs|
    ensures rs[j].left < rs[j].right < rs[j + 1].left < rs[j + 1].right
  {
  }

  lemma FullIsOne(rs: seq<Range>, size: int)
    requires Merged(rs) && Fits(rs, size) && size > 0
    ensures Full(rs, size) <==> |rs| == 1 && rs[0].left == 0 && rs[0].right == size
  {
    if Full(rs, size) {
      assert Covers(rs, 0);
      var i := OneRange(rs, 0, size);
      NoOther(rs, size, i);
    } else if |rs| == 1 && rs[0].left == 0 && rs[0].right == size {
      AllIn(rs, 0, 0, size);
    }
  }

  lemma PutFits(rs: seq<Range>, r: Range, size: int)
    requires Keyed(rs) && Fits(rs, size) && 0 <= r.left < r.right <= size
    ensures Fits(Put(rs, r), size)
  {
    var rs' := Put(rs, r);
    forall i | 0 <= i < |rs'|
      ensures rs'[i] == Range(0, 0) || 0 <= rs'[i].left < rs'[i].right <= size
    {
      PutElements(rs, r, rs'[i]);
    }
  }

  lemma StartMerging(rs: seq<Range>, size: int)
    ensures Merging(rs, 0, size, [], Range(0, 0))
  {
  }

  /** Entries come in order, so the range at hand starts before the next entry. */
  lemma LeftOf(rs: seq<Range>, i: nat, size: int, done: seq<Range>, max: Range)
    requires Merging(rs, i, size, done, max) && i < |rs| && Fits(rs, size)
    ensures max == Range(0, 0) ==> done == [] && rs[i].left >= 0 && rs[i].right >= 0
    ensures max != Range(0, 0) ==> max.left < rs[i].left && max.left < max.right && rs[i] != Range(0, 0)
  {
    if max != Range(0, 0) {
      assert (done + [max])[|done|] == max;
    }
  }

  lemma FinishedInserted(rs: seq<Range>, i: nat, size: int, done: seq<Range>, max: Range)
    requires Merging(rs, i, size, done, max) && max != Range(0, 0)
    ensures Insert(done, max) == done + [max]
  {
    LastInserted(done, max);
  }
}
