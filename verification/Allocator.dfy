/**
 Handing out byte ranges to download (avhttp/include/avhttp/impl/multi_download.ipp, multi_download::allocate_range): a free
 stretch is taken from the range field, cut to the size of a request, and recorded as taken.
 */
module Allocator {
  import opened Ranges
  import opened RangeField

  /** The free positions of a field. */
  ghost function FreePoints(rs: seq<Range>, size: int): (s: set<int>)
  {
    set x | 0 <= x < size && !Covers(rs, x)
  }

  /** Takes the next stretch to download, at most `max` bytes from `point` on. Both edges of the result are included. */
  method Allocate(f: Field, point: int, max: int) returns (ok: bool, r: Range)
    requires f.Valid() && f.size > 0 && max >= 1
    modifies f
    ensures f.Valid() && f.size == old(f.size)
    ensures ok <==> !old(Full(f.ranges, f.size))
    ensures !ok ==> forall x :: Covers(f.ranges, x) <==> old(Covers(f.ranges, x))
    ensures ok ==> 0 <= r.left <= r.right < f.size && r.right - r.left + 1 <= max
    ensures ok ==> forall x :: r.left <= x <= r.right ==> !old(Covers(f.ranges, x))
    ensures ok ==> forall x :: Covers(f.ranges, x) <==> old(Covers(f.ranges, x)) || r.left <= x <= r.right
    ensures ok ==> FirstFree(old(f.ranges), f.size, point, r.left)
    ensures ok ==> r.right - r.left + 1 == max || r.right + 1 == f.size || old(Covers(f.ranges, r.right + 1))
  {
    hide Covers, Keyed, Fits, Put;
    ghost var before := f.ranges;
    var left, right;
    ok, left, right := f.OutSpace(point);
    ghost var rs := f.ranges;
    SameFull(before, rs, f.size);
    if !ok {
      return false, Range(-1, -1);
    }
    if right - left + 1 > max {
      right := left + max;
    }
    StretchAdds(rs, f.size, point, left, right);
    SameFirst(before, rs, f.size, point, left);
    var done := f.Update(left, right);
    r := Range(left, right - 1);
  }

  /** A position is the least free one from `point` on, or else the least of all. */
  ghost predicate FirstFree(rs: seq<Range>, size: int, point: int, left: int)
  {
    && 0 <= left < size && !Covers(rs, left)
    && (if exists y :: point <= y && 0 <= y < size && !Covers(rs, y)
        then point <= left && (forall y :: point <= y < left && 0 <= y ==> Covers(rs, y))
        else forall y :: 0 <= y < left ==> Covers(rs, y))
  }

  lemma SameFull(a: seq<Range>, b: seq<Range>, size: int)
    requires forall x :: Covers(b, x) <==> Covers(a, x)
    ensures Full(a, size) <==> Full(b, size)
  {
    hide Covers;
  }

  lemma SameFirst(a: seq<Range>, b: seq<Range>, size: int, point: int, left: int)
    requires (forall x :: Covers(b, x) <==> Covers(a, x)) && FirstFree(b, size, point, left)
    ensures FirstFree(a, size, point, left)
  {
    hide Covers;
  }

  /** Recording the front of a free stretch covers it and changes nothing else. */
  lemma StretchAdds(rs: seq<Range>, size: int, point: int, left: int, right: int)
    requires Keyed(rs) && Fits(rs, size)
    requires exists end :: left < right <= end && FreeFrom(rs, size, point, left, end)
    ensures 0 <= left < right <= size && FirstFree(rs, size, point, left)
    ensures forall x :: left <= x < right ==> !Covers(rs, x)
    ensures forall x :: Covers(Put(rs, Range(left, right)), x) <==> Covers(rs, x) || left <= x < right
  {
    var end :| left < right <= end && FreeFrom(rs, size, point, left, end);
    forall i | 0 <= i < |rs| && rs[i].left == left
      ensures rs[i].right <= right
    {
      assert !Covers(rs, left);
      assert !In(rs[i], left);
    }
    forall x
      ensures Covers(Put(rs, Range(left, right)), x) <==> Covers(rs, x) || left <= x < right
    {
      PutAdds(rs, Range(left, right), x);
    }
  }

  /** Two stretches with included edges share no position. */
  predicate Apart(a: Range, b: Range)
  {
    a.right < b.left || b.right < a.left
  }

  ghost predicate HandedOut(rs: seq<Range>, now: seq<Range>, handed: seq<Range>)
  {
    && (forall i, j :: 0 <= i < j < |handed| ==> Apart(handed[i], handed[j]))
    && (forall i, x :: 0 <= i < |handed| && handed[i].left <= x <= handed[i].right ==> !Covers(rs, x) && Covers(now, x))
    && (forall x :: Covers(now, x) ==> Covers(rs, x) || exists i :: 0 <= i < |handed| && handed[i].left <= x <= handed[i].right)
    && (forall x :: Covers(rs, x) ==> Covers(now, x))
  }

  lemma HandOne(rs: seq<Range>, now: seq<Range>, next: seq<Range>, handed: seq<Range>, r: Range)
    requires HandedOut(rs, now, handed) && r.left <= r.right
    requires forall x :: r.left <= x <= r.right ==> !Covers(now, x)
    requires forall x :: Covers(next, x) <==> Covers(now, x) || r.left <= x <= r.right
    requires forall i :: 0 <= i < |handed| ==> handed[i].left <= handed[i].right
    ensures HandedOut(rs, next, handed + [r])
  {
    hide Covers;
    var all := handed + [r];
    forall i, j | 0 <= i < j < |all|
      ensures Apart(all[i], all[j])
    {
      if j == |handed| {
        NoOverlap(now, handed[i], r);
      }
    }
    forall x | Covers(next, x)
      ensures Covers(rs, x) || exists i :: 0 <= i < |all| && all[i].left <= x <= all[i].right
    {
      if Covers(now, x) && !Covers(rs, x) {
        var i :| 0 <= i < |handed| && handed[i].left <= x <= handed[i].right;
        assert all[i].left <= x <= all[i].right;
      } else if r.left <= x <= r.right {
        assert all[|handed|].left <= x <= all[|handed|].right;
      }
    }
  }

  lemma NoOverlap(now: seq<Range>, a: Range, r: Range)
    requires a.left <= a.right && r.left <= r.right
    requires forall x :: a.left <= x <= a.right ==> Covers(now, x)
    requires forall x :: r.left <= x <= r.right ==> !Covers(now, x)
    ensures Apart(a, r)
  {
    hide Covers;
    var x := if a.left < r.left then r.left else a.left;
    assert a.left <= x <= a.right ==> Covers(now, x);
  }

  /**
   A stretch has the full size, or ends at the end of the field, at a byte taken at the beginning, or at an earlier
   stretch.
   */
  ghost predicate FullOrEnds(rs: seq<Range>, size: int, max: int, handed: seq<Range>, i: nat)
    requires i < |handed|
  {
    || handed[i].right - handed[i].left + 1 == max
    || handed[i].right + 1 == size
    || Covers(rs, handed[i].right + 1)
    || exists j :: 0 <= j < i && handed[j].left == handed[i].right + 1
  }

  lemma EndsAtStretch(rs: seq<Range>, now: seq<Range>, size: int, max: int, handed: seq<Range>, r: Range)
    requires HandedOut(rs, now, handed) && !Covers(now, r.right)
    requires r.right - r.left + 1 == max || r.right + 1 == size || Covers(now, r.right + 1)
    ensures FullOrEnds(rs, size, max, handed + [r], |handed|)
  {
    hide Covers;
    var all := handed + [r];
    if Covers(now, r.right + 1) && !Covers(rs, r.right + 1) {
      var j :| 0 <= j < |handed| && handed[j].left <= r.right + 1 <= handed[j].right;
      assert handed[j].left == r.right + 1;
      assert all[j].left == all[|handed|].right + 1;
    }
  }

  lemma StillEnds(rs: seq<Range>, size: int, max: int, handed: seq<Range>, r: Range)
    requires forall i :: 0 <= i < |handed| ==> FullOrEnds(rs, size, max, handed, i)
    ensures forall i :: 0 <= i < |handed| ==> FullOrEnds(rs, size, max, handed + [r], i)
  {
    hide Covers;
    forall i | 0 <= i < |handed|
      ensures FullOrEnds(rs, size, max, handed + [r], i)
    {
      assert FullOrEnds(rs, size, max, handed, i);
      if exists j :: 0 <= j < i && handed[j].left == handed[i].right + 1 {
        var j :| 0 <= j < i && handed[j].left == handed[i].right + 1;
        assert (handed + [r])[j].left == (handed + [r])[i].right + 1;
      }
    }
  }

  lemma FewerFree(now: seq<Range>, next: seq<Range>, size: int, left: int)
    requires 0 <= left < size && !Covers(now, left) && Covers(next, left) && forall x :: Covers(now, x) ==>
             Covers(next, x)
    ensures |FreePoints(next, size)| < |FreePoints(now, size)|
  {
    hide Covers;
    var a, b := FreePoints(next, size), FreePoints(now, size);
    assert left in b && left !in a && a <= b - {left};
    SmallerSet(a, b - {left});
  }

  lemma SmallerSet(a: set<int>, b: set<int>)
    requires a <= b
    ensures |a| <= |b|
  {
    UnionCount(a, b - a);
    assert a * (b - a) == {} && a + (b - a) == b;
  }

  /**
   Allocating until nothing is left, from whatever points: no byte is handed out twice, none that was taken before,
   and in the end the field is full. Only the end of the field, what was taken, and earlier stretches cut one short, so
   that there is at most one for every `max` free bytes, one more for every gap, and one more for every start inside a gap.
   */
  method AllocateAll(f: Field, max: int) returns (handed: seq<Range>)
    requires f.Valid() && f.size > 0 && max >= 1
    modifies f
    ensures f.Valid() && f.size == old(f.size) && Full(f.ranges, f.size)
    ensures HandedOut(old(f.ranges), f.ranges, handed)
    ensures forall i :: 0 <= i < |handed| ==> 0 <= handed[i].left <= handed[i].right < f.size
    ensures forall i :: 0 <= i < |handed| ==> FullOrEnds(old(f.ranges), f.size, max, handed, i)
    ensures (|handed| - old(|Ends(f.ranges, f.size, 0)|) - |InsideStarts(old(f.ranges), handed)|) * max
         <= old(|FreePoints(f.ranges, f.size)|)
  {
    hide Covers, HandedOut, FirstFree, Full, FullOrEnds, Ends, InsideStarts;
    handed := [];
    NothingHanded(f.ranges);
    while true
      invariant f.Valid() && f.size == old(f.size) && HandedOut(old(f.ranges), f.ranges, handed)
      invariant forall i :: 0 <= i < |handed| ==> 0 <= handed[i].left <= handed[i].right < f.size
      invariant forall i :: 0 <= i < |handed| ==> FullOrEnds(old(f.ranges), f.size, max, handed, i)
      decreases |FreePoints(f.ranges, f.size)|
    {
      var point: int := *;
      ghost var now := f.ranges;
      var ok, r := Allocate(f, point, max);
      if !ok {
        SameFull(now, f.ranges, f.size);
        SameHanded(old(f.ranges), now, f.ranges, handed);
        CountAll(old(f.ranges), f.ranges, f.size, max, handed);
        return;
      }
      EndsAtStretch(old(f.ranges), now, f.size, max, handed, r);
      StillEnds(old(f.ranges), f.size, max, handed, r);
      HandOne(old(f.ranges), now, f.ranges, handed, r);
      FewerFree(now, f.ranges, f.size, r.left);
      handed := handed + [r];
    }
  }

  lemma NothingHanded(rs: seq<Range>)
    ensures HandedOut(rs, rs, [])
  {
  }

  lemma SameHanded(rs: seq<Range>, now: seq<Range>, next: seq<Range>, handed: seq<Range>)
    requires HandedOut(rs, now, handed) && forall x :: Covers(next, x) <==> Covers(now, x)
    ensures HandedOut(rs, next, handed)
  {
    hide Covers;
  }

  // ---------- allocating from one point ----------

  /** Where a stretch handed out from `point` may end early: behind the last free byte of a gap, or at the point. */
  ghost function Ends(rs: seq<Range>, size: int, point: int): (s: set<int>)
  {
    set x | 1 <= x <= size && EndsAt(rs, size, point, x)
  }

  ghost predicate EndsAt(rs: seq<Range>, size: int, point: int, x: int)
  {
    !Covers(rs, x - 1) && (x == size || x == point || Covers(rs, x))
  }

  /** What is left of each gap, cut in two at the point, is its rear part. */
  ghost predicate RearParts(rs: seq<Range>, now: seq<Range>, size: int, point: int)
  {
    forall x :: 0 <= x < size - 1 && !Covers(now, x) && !Covers(rs, x + 1) && x + 1 != point ==> !Covers(now, x + 1)
  }

  ghost predicate FullOrLast(rs: seq<Range>, size: int, point: int, max: int, r: Range)
  {
    r.right - r.left + 1 == max || r.right + 1 in Ends(rs, size, point)
  }

  lemma EndsInGap(rs: seq<Range>, now: seq<Range>, size: int, point: int, max: int, r: Range)
    requires RearParts(rs, now, size, point) && 0 <= r.left <= r.right < size
    requires !Covers(now, r.right) && forall x :: Covers(rs, x) ==> Covers(now, x)
    requires r.right - r.left + 1 == max || r.right + 1 == size || Covers(now, r.right + 1)
    ensures FullOrLast(rs, size, point, max, r)
  {
    hide Covers;
    assert r.right - r.left + 1 != max ==> EndsAt(rs, size, point, r.right + 1);
  }

  lemma RearStays(rs: seq<Range>, now: seq<Range>, next: seq<Range>, size: int, point: int, r: Range)
    requires RearParts(rs, now, size, point) && FirstFree(now, size, point, r.left) && r.left <= r.right
    requires forall x :: Covers(next, x) <==> Covers(now, x) || r.left <= x <= r.right
    ensures RearParts(rs, next, size, point)
  {
    hide Covers;
    forall x | 0 <= x < size - 1 && !Covers(next, x) && !Covers(rs, x + 1) && x + 1 != point
      ensures !Covers(next, x + 1)
    {
      assert x + 1 != r.left;
    }
  }

  /**
   Allocating from one point until nothing is left takes at most one request for every `max` free bytes, and one more
   for every gap, or two for the gap that the point lies in.
   */
  method AllocateFrom(f: Field, point: int, max: int) returns (handed: seq<Range>)
    requires f.Valid() && f.size > 0 && max >= 1
    modifies f
    ensures f.Valid() && f.size == old(f.size) && Full(f.ranges, f.size)
    ensures HandedOut(old(f.ranges), f.ranges, handed)
    ensures forall i :: 0 <= i < |handed| ==> 0 <= handed[i].left <= handed[i].right < f.size
    ensures forall i :: 0 <= i < |handed| ==> FullOrLast(old(f.ranges), f.size, point, max, handed[i])
    ensures (|handed| - old(|Ends(f.ranges, f.size, point)|)) * max <= old(|FreePoints(f.ranges, f.size)|)
  {
    hide Covers, HandedOut, FirstFree, Full, RearParts, FullOrLast, Ends;
    handed := [];
    NothingHanded(f.ranges);
    AllLeft(f.ranges, f.size, point);
    while true
      invariant f.Valid() && f.size == old(f.size) && HandedOut(old(f.ranges), f.ranges, handed)
      invariant forall i :: 0 <= i < |handed| ==> 0 <= handed[i].left <= handed[i].right < f.size
      invariant forall i :: 0 <= i < |handed| ==> FullOrLast(old(f.ranges), f.size, point, max, handed[i])
      invariant RearParts(old(f.ranges), f.ranges, f.size, point)
      decreases |FreePoints(f.ranges, f.size)|
    {
      ghost var now := f.ranges;
      var ok, r := Allocate(f, point, max);
      if !ok {
        SameFull(now, f.ranges, f.size);
        SameHanded(old(f.ranges), now, f.ranges, handed);
        CountHanded(old(f.ranges), f.ranges, f.size, point, max, handed);
        return;
      }
      Kept(old(f.ranges), now, handed);
      EndsInGap(old(f.ranges), now, f.size, point, max, r);
      RearStays(old(f.ranges), now, f.ranges, f.size, point, r);
      HandOne(old(f.ranges), now, f.ranges, handed, r);
      FewerFree(now, f.ranges, f.size, r.left);
      handed := handed + [r];
    }
  }

  lemma AllLeft(rs: seq<Range>, size: int, point: int)
    ensures RearParts(rs, rs, size, point)
  {
  }

  lemma Kept(rs: seq<Range>, now: seq<Range>, handed: seq<Range>)
    requires HandedOut(rs, now, handed)
    ensures forall x :: Covers(rs, x) ==> Covers(now, x)
  {
  }

  /** The stretch takes bytes of `free`, and ends in `ends` if it does not have the full size. */
  ghost predicate Drawn(r: Range, max: int, free: set<int>, ends: set<int>)
  {
    Points(Range(r.left, r.right + 1)) <= free && (r.right - r.left + 1 == max || r.right + 1 in ends)
  }

  lemma {:induction false} CountStretches(handed: seq<Range>, max: int, free: set<int>, ends: set<int>)
    requires max >= 1 && forall i :: 0 <= i < |handed| ==> handed[i].left <= handed[i].right
    requires forall i, j :: 0 <= i < j < |handed| ==> Apart(handed[i], handed[j])
    requires forall i :: 0 <= i < |handed| ==> Drawn(handed[i], max, free, ends)
    ensures (|handed| - |ends|) * max <= |free|
  {
    if handed == [] {
      Monotone(-|ends|, 0, max);
    } else {
      hide Drawn;
      var n := |handed| - 1;
      var last := handed[n];
      var full := last.right - last.left + 1 == max;
      var free1 := free - Points(Range(last.left, last.right + 1));
      var ends1 := if full then ends else ends - {last.right + 1};
      forall i | 0 <= i < n
        ensures Drawn(handed[..n][i], max, free1, ends1)
      {
        DrawnApart(handed[i], last, max, free, ends);
      }
      CountStretches(handed[..n], max, free1, ends1);
      TakeOut(last, max, free, ends);
      Monotone(n - |ends1|, n + 1 - |ends|, max);
      OneMoreFull(n, |ends|, max);
    }
  }

  lemma DrawnApart(a: Range, last: Range, max: int, free: set<int>, ends: set<int>)
    requires Apart(a, last) && a.left <= a.right && last.left <= last.right && Drawn(a, max, free, ends)
    ensures Drawn(a, max, free - Points(Range(last.left, last.right + 1)),
                  if last.right - last.left + 1 == max then ends else ends - {last.right + 1})
  {
  }

  lemma TakeOut(r: Range, max: int, free: set<int>, ends: set<int>)
    requires r.left <= r.right && Drawn(r, max, free, ends)
    ensures |free - Points(Range(r.left, r.right + 1))| == |free| - (r.right - r.left + 1)
    ensures r.right - r.left + 1 != max ==> |ends - {r.right + 1}| == |ends| - 1
  {
    var mine := Points(Range(r.left, r.right + 1));
    PointsCount(r.left, r.right + 1);
    UnionCount(free - mine, mine);
    assert (free - mine) + mine == free && (free - mine) * mine == {};
  }

  lemma OneMoreFull(n: int, k: int, max: int)
    ensures (n + 1 - k) * max == (n - k) * max + max
  {
  }

  lemma Monotone(a: int, b: int, m: int)
    requires a <= b && m >= 1
    ensures a * m <= b * m
  {
  }

  lemma CountHanded(rs: seq<Range>, now: seq<Range>, size: int, point: int, max: int, handed: seq<Range>)
    requires max >= 1 && HandedOut(rs, now, handed)
    requires forall i :: 0 <= i < |handed| ==> 0 <= handed[i].left <= handed[i].right < size
    requires forall i :: 0 <= i < |handed| ==> FullOrLast(rs, size, point, max, handed[i])
    ensures (|handed| - |Ends(rs, size, point)|) * max <= |FreePoints(rs, size)|
  {
    hide Covers, Ends;
    forall i | 0 <= i < |handed|
      ensures Drawn(handed[i], max, FreePoints(rs, size), Ends(rs, size, point))
    {
      assert FullOrLast(rs, size, point, max, handed[i]);
    }
    CountStretches(handed, max, FreePoints(rs, size), Ends(rs, size, point));
  }

  /** Stretch j starts inside a gap: the byte before it was free at the beginning and had not been handed out. */
  ghost predicate StartsInside(rs: seq<Range>, handed: seq<Range>, j: nat)
    requires j < |handed|
  {
    var x := handed[j].left - 1;
    0 <= x && !Covers(rs, x) && forall i :: 0 <= i < j ==> !(handed[i].left <= x <= handed[i].right)
  }

  ghost function InsideStarts(rs: seq<Range>, handed: seq<Range>): (s: set<int>)
  {
    set j | 0 <= j < |handed| && StartsInside(rs, handed, j) :: handed[j].left
  }

  lemma CountAll(rs: seq<Range>, now: seq<Range>, size: int, max: int, handed: seq<Range>)
    requires max >= 1 && HandedOut(rs, now, handed)
    requires forall i :: 0 <= i < |handed| ==> 0 <= handed[i].left <= handed[i].right < size
    requires forall i :: 0 <= i < |handed| ==> FullOrEnds(rs, size, max, handed, i)
    ensures (|handed| - |Ends(rs, size, 0)| - |InsideStarts(rs, handed)|) * max <= |FreePoints(rs, size)|
  {
    hide Covers, Ends, InsideStarts, FreePoints, HandedOut, FullOrEnds;
    var ends, inner := Ends(rs, size, 0), InsideStarts(rs, handed);
    forall i | 0 <= i < |handed|
      ensures Drawn(handed[i], max, FreePoints(rs, size), ends + inner)
    {
      DrawnAnywhere(rs, now, size, max, handed, i);
    }
    AllApart(rs, now, handed);
    CountStretches(handed, max, FreePoints(rs, size), ends + inner);
    UnionCount(ends, inner);
    Monotone(|handed| - |ends| - |inner|, |handed| - |ends + inner|, max);
  }

  lemma AllApart(rs: seq<Range>, now: seq<Range>, handed: seq<Range>)
    requires HandedOut(rs, now, handed)
    ensures forall i, j :: 0 <= i < j < |handed| ==> Apart(handed[i], handed[j])
  {
  }

  lemma DrawnAnywhere(rs: seq<Range>, now: seq<Range>, size: int, max: int, handed: seq<Range>, i: nat)
    requires HandedOut(rs, now, handed) && i < |handed| && FullOrEnds(rs, size, max, handed, i)
    requires 0 <= handed[i].left <= handed[i].right < size
    ensures Drawn(handed[i], max, FreePoints(rs, size), Ends(rs, size, 0) + InsideStarts(rs, handed))
  {
    hide Covers;
    var r := handed[i];
    assert forall x :: r.left <= x <= r.right ==> !Covers(rs, x);
    assert Points(Range(r.left, r.right + 1)) <= FreePoints(rs, size);
    if r.right + 1 == size || Covers(rs, r.right + 1) {
      assert EndsAt(rs, size, 0, r.right + 1);
    } else if r.right - r.left + 1 != max {
      var j :| 0 <= j < i && handed[j].left == r.right + 1;
      forall k | 0 <= k < j
        ensures !(handed[k].left <= r.right <= handed[k].right)
      {
        assert Apart(handed[k], handed[i]);
      }
      assert StartsInside(rs, handed, j);
    }
  }

  /** The stretch that one call hands out; the contract of `Allocate` leaves no other. */
  ghost predicate Next(rs: seq<Range>, size: int, point: int, max: int, r: Range)
  {
    && FirstFree(rs, size, point, r.left) && r.left <= r.right < size && r.right - r.left + 1 <= max
    && (forall x :: r.left <= x <= r.right ==> !Covers(rs, x))
    && (r.right - r.left + 1 == max || r.right + 1 == size || Covers(rs, r.right + 1))
  }

  lemma NextIsUnique(rs: seq<Range>, size: int, point: int, max: int, a: Range, b: Range)
    requires Next(rs, size, point, max, a) && Next(rs, size, point, max, b)
    ensures a == b
  {
    hide Covers;
  }

  /**
   With a moving point the starts inside gaps matter: every byte of a gap may be handed out alone, from the last to
   the first.
   */
  lemma MovingPoint(n: int, max: int)
    requires n >= 1 && max >= 1
    ensures Next([], n, n - 1, max, Range(n - 1, n - 1))
    ensures n >= 2 ==> forall k :: 1 <= k < n ==> Next([Range(k, n)], n, k - 1, max, Range(k - 1, k - 1))
  {
    assert forall x :: !Covers([], x);
    forall k | 1 <= k < n
      ensures Next([Range(k, n)], n, k - 1, max, Range(k - 1, k - 1))
    {
      var rs := [Range(k, n)];
      assert forall x :: Covers(rs, x) <==> k <= x < n by {
        forall x | k <= x < n
          ensures Covers(rs, x)
        {
          assert In(rs[0], x);
        }
      }
    }
  }
}
