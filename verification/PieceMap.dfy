/**
 Converting between byte ranges and a bitmap of pieces (avhttp/include/avhttp/rangefield.hpp, range_to_bitfield and
 bitfield_to_range). The conversion to a bitmap walks pieces and ranges side by side and moves on by at most one range per
 piece, so it never marks an incomplete piece but can miss a complete one.
 */
module PieceMap {
  import opened Ranges
  import RangeField
  import BitField

  // ---------- pieces ----------

  /** Where piece i starts. */
  function Edge(i: int, ps: int): (e: int)
  {
    i * ps
  }

  lemma EdgeStep(i: int, ps: int)
    ensures Edge(i + 1, ps) == Edge(i, ps) + ps && Edge(0, ps) == 0
  {
  }

  lemma {:induction false} EdgeMono(i: int, j: int, ps: int)
    requires i <= j && ps >= 1
    ensures Edge(i, ps) + (j - i) <= Edge(j, ps)
    ensures i < j ==> Edge(i + 1, ps) <= Edge(j, ps)
    decreases j - i
  {
    hide Edge;
    if i < j {
      EdgeMono(i, j - 1, ps);
      EdgeStep(j - 1, ps);
    }
  }

  function PieceCount(size: int, ps: int): (n: int)
    requires ps >= 1
  {
    size / ps + (if size % ps == 0 then 0 else 1)
  }

  /** The pieces cover the field, and none is empty. */
  lemma PieceCountIs(size: int, ps: int)
    requires size >= 0 && ps >= 1
    ensures 0 <= PieceCount(size, ps) && size <= Edge(PieceCount(size, ps), ps) < size + ps
    ensures PieceCount(size, ps) > 0 ==> Edge(PieceCount(size, ps) - 1, ps) < size
  {
    var q, r := size / ps, size % ps;
    assert size == Edge(q, ps) + r;
    assert q >= 0;
    EdgeStep(q, ps);
    EdgeStep(q - 1, ps);
  }

  /** Where piece i ends: the last piece may be short. */
  function End(i: int, ps: int, size: int): (e: int)
  {
    if Edge(i + 1, ps) > size then size else Edge(i + 1, ps)
  }

  lemma PieceShape(i: int, ps: int, size: int)
    requires size >= 0 && ps >= 1 && 0 <= i < PieceCount(size, ps)
    ensures 0 <= Edge(i, ps) < End(i, ps, size) <= size
  {
    hide Edge;
    PieceCountIs(size, ps);
    EdgeStep(i, ps);
    EdgeMono(0, i, ps);
    EdgeStep(0, ps);
    EdgeMono(i, PieceCount(size, ps) - 1, ps);
  }

  lemma PiecesInOrder(i: int, j: int, ps: int, size: int)
    requires size >= 0 && ps >= 1 && 0 <= i < j < PieceCount(size, ps)
    ensures End(i, ps, size) <= Edge(j, ps)
  {
    hide Edge;
    EdgeMono(i, j, ps);
  }

  /** Piece i lies in the range. */
  predicate Inside(r: Range, i: int, ps: int, size: int)
  {
    r.left <= Edge(i, ps) && End(i, ps, size) <= r.right
  }

  ghost predicate Complete(rs: seq<Range>, i: int, ps: int, size: int)
  {
    forall x :: Edge(i, ps) <= x < End(i, ps, size) ==> Covers(rs, x)
  }

  lemma CompleteIffInside(rs: seq<Range>, i: int, ps: int, size: int)
    requires RangeField.Merged(rs) && size >= 0 && ps >= 1 && 0 <= i < PieceCount(size, ps)
    ensures Complete(rs, i, ps, size) <==> exists k :: 0 <= k < |rs| && Inside(rs[k], i, ps, size)
  {
    hide Edge, End, Covers;
    PieceShape(i, ps, size);
    if Complete(rs, i, ps, size) {
      if rs == NOTHING {
        NothingCovered(Edge(i, ps));
      } else {
        var k := OneRange(rs, Edge(i, ps), End(i, ps, size));
      }
    } else if k :| 0 <= k < |rs| && Inside(rs[k], i, ps, size) {
      RangeField.AllIn(rs, k, Edge(i, ps), End(i, ps, size));
    }
  }

  lemma NothingCovered(x: int)
    ensures !Covers(NOTHING, x)
  {
  }

  // ---------- the walk ----------

  /** At piece i the walk leaves the range. */
  predicate Leaves(r: Range, i: int, ps: int, size: int)
  {
    End(i, ps, size) >= r.right && !Inside(r, i, ps, size)
  }

  /** The first piece from `from` on at which the walk leaves the range. */
  function LeavesFrom(r: Range, from: nat, ps: int, size: int): (t: nat)
    requires ps >= 1
    ensures t >= from
    decreases PieceCount(size, ps) - from
  {
    if from >= PieceCount(size, ps) || Leaves(r, from, ps, size) then from else LeavesFrom(r, from + 1, ps, size)
  }

  lemma {:induction false} NotBefore(r: Range, from: nat, ps: int, size: int, i: nat)
    requires ps >= 1 && from <= i < PieceCount(size, ps)
    ensures i < LeavesFrom(r, from, ps, size) ==> !Leaves(r, i, ps, size)
    ensures i == LeavesFrom(r, from, ps, size) ==> Leaves(r, i, ps, size)
    decreases i - from
  {
    hide Leaves;
    if from < i && !Leaves(r, from, ps, size) {
      NotBefore(r, from + 1, ps, size, i);
    }
  }

  /** The piece at which the walk leaves range m: at most one range is left per piece. */
  function LeftAt(rs: seq<Range>, m: nat, ps: int, size: int): (t: nat)
    requires m < |rs| && ps >= 1
  {
    LeavesFrom(rs[m], if m == 0 then 0 else LeftAt(rs, m - 1, ps, size) + 1, ps, size)
  }

  /** Piece i is marked: it lies in a range that the walk has reached by then. */
  ghost predicate Marked(rs: seq<Range>, i: int, ps: int, size: int)
    requires ps >= 1
  {
    exists k :: 0 <= k < |rs| && Inside(rs[k], i, ps, size) && (k == 0 || LeftAt(rs, k - 1, ps, size) <= i)
  }

  lemma {:induction false} LeftInOrder(rs: seq<Range>, m: nat, k: nat, ps: int, size: int)
    requires m < k < |rs| && ps >= 1
    ensures LeftAt(rs, m, ps, size) + (k - m) <= LeftAt(rs, k, ps, size)
    decreases k
  {
    hide LeavesFrom;
    LeftStep(rs, k, ps, size);
    if m < k - 1 {
      LeftInOrder(rs, m, k - 1, ps, size);
    }
  }

  lemma LeftStep(rs: seq<Range>, k: nat, ps: int, size: int)
    requires k < |rs| && ps >= 1
    ensures k > 0 ==> LeftAt(rs, k - 1, ps, size) < LeftAt(rs, k, ps, size)
  {
  }

  /** A range is not left before its pieces have been passed. */
  lemma StaysInside(rs: seq<Range>, k: nat, i: nat, ps: int, size: int)
    requires k < |rs| && ps >= 1 && size >= 0 && i < PieceCount(size, ps) && Inside(rs[k], i, ps, size)
    ensures LeftAt(rs, k, ps, size) > i
  {
    var from := if k == 0 then 0 else LeftAt(rs, k - 1, ps, size) + 1;
    var t := LeftAt(rs, k, ps, size);
    if t <= i {
      LeftFrom(rs, k, ps, size);
      NotBefore(rs[k], from, ps, size, t);
      NotLeftEarly(rs[k], t, i, ps, size);
    }
  }

  lemma LeftFrom(rs: seq<Range>, k: nat, ps: int, size: int)
    requires k < |rs| && ps >= 1
    ensures var from := if k == 0 then 0 else LeftAt(rs, k - 1, ps, size) + 1;
            LeftAt(rs, k, ps, size) == LeavesFrom(rs[k], from, ps, size) >= from
  {
  }

  lemma NotLeftEarly(r: Range, t: nat, i: nat, ps: int, size: int)
    requires ps >= 1 && size >= 0 && t <= i < PieceCount(size, ps) && Inside(r, i, ps, size)
    ensures !Leaves(r, t, ps, size)
  {
    hide Edge, End;
    PieceShape(i, ps, size);
    if t < i {
      PiecesInOrder(t, i, ps, size);
    }
  }

  /** Before piece i the walk stands at range j: the ranges before it have been left, it has not. */
  ghost predicate At(rs: seq<Range>, j: nat, i: nat, ps: int, size: int)
    requires ps >= 1
  {
    && j <= |rs|
    && (j < |rs| ==> i <= LeftAt(rs, j, ps, size))
    && (j > 0 ==> LeftAt(rs, j - 1, ps, size) < i)
  }

  /** The walk leaves the range it stands at exactly when its time has come. */
  lemma LeavesNow(rs: seq<Range>, j: nat, i: nat, ps: int, size: int)
    requires ps >= 1 && At(rs, j, i, ps, size) && j < |rs| && i < PieceCount(size, ps)
    ensures Leaves(rs[j], i, ps, size) <==> LeftAt(rs, j, ps, size) == i
  {
    hide Leaves;
    LeftFrom(rs, j, ps, size);
    NotBefore(rs[j], if j == 0 then 0 else LeftAt(rs, j - 1, ps, size) + 1, ps, size, i);
  }

  lemma WalkOn(rs: seq<Range>, j: nat, i: nat, ps: int, size: int)
    requires ps >= 1 && At(rs, j, i, ps, size) && i < PieceCount(size, ps)
    ensures j < |rs| && Leaves(rs[j], i, ps, size) ==> At(rs, j + 1, i + 1, ps, size)
    ensures j == |rs| || !Leaves(rs[j], i, ps, size) ==> At(rs, j, i + 1, ps, size)
  {
    hide Leaves, LeftAt;
    if j < |rs| {
      LeavesNow(rs, j, i, ps, size);
      if j + 1 < |rs| {
        LeftStep(rs, j + 1, ps, size);
      }
    }
  }

  /** Only the range at hand, or the next one when it is being left, can mark the piece. */
  lemma MarkedHere(rs: seq<Range>, j: nat, i: nat, ps: int, size: int, k: nat)
    requires ps >= 1 && size >= 0 && At(rs, j, i, ps, size) && i < PieceCount(size, ps)
    requires k < |rs| && Inside(rs[k], i, ps, size) && (k == 0 || LeftAt(rs, k - 1, ps, size) <= i)
    ensures j < |rs| && (k == j || (k == j + 1 && Leaves(rs[j], i, ps, size)))
  {
    hide Leaves, LeftAt, Inside;
    StaysInside(rs, k, i, ps, size);
    if k < j {
      if k < j - 1 {
        LeftInOrder(rs, k, j - 1, ps, size);
      }
    } else if k > j {
      LeavesNow(rs, j, i, ps, size);
      if j < k - 1 {
        LeftInOrder(rs, j, k - 1, ps, size);
      }
    }
  }

  lemma MarkedIff(rs: seq<Range>, j: nat, i: nat, ps: int, size: int)
    requires ps >= 1 && size >= 0 && At(rs, j, i, ps, size) && i < PieceCount(size, ps)
    ensures j == |rs| ==> !Marked(rs, i, ps, size)
    ensures j < |rs| && Leaves(rs[j], i, ps, size) ==>
              (Marked(rs, i, ps, size) <==> j + 1 < |rs| && Inside(rs[j + 1], i, ps, size))
    ensures j < |rs| && !Leaves(rs[j], i, ps, size) ==> (Marked(rs, i, ps, size) <==> Inside(rs[j], i, ps, size))
  {
    hide Leaves, LeftAt, Inside;
    if k :| 0 <= k < |rs| && Inside(rs[k], i, ps, size) && (k == 0 || LeftAt(rs, k - 1, ps, size) <= i) {
      MarkedHere(rs, j, i, ps, size, k);
    }
    if j < |rs| {
      LeavesNow(rs, j, i, ps, size);
      LeavesIs(rs[j], i, ps, size);
    }
  }

  /** The bitmap after the pieces below i have been looked at. */
  ghost predicate MarkedUpTo(rs: seq<Range>, was: seq<bool>, bits: seq<bool>, i: nat, ps: int, size: int)
    requires ps >= 1
  {
    |bits| == |was| && forall p :: 0 <= p < |was| ==> bits[p] == (was[p] || (p < i && Marked(rs, p, ps, size)))
  }

  /** The starting point of the conversion: the old bits that are kept, and zeros. */
  function Kept(bits: seq<bool>, n: nat): (r: seq<bool>)
  {
    if n <= |bits| then bits[..n] else bits + BitField.Filled(n - |bits|, false)
  }

  const INT_MAX: int := 0x7FFF_FFFF

  /** A product of two 32-bit integers, wrapped to 32 bits. */
  function Mul32(a: int, b: int): (p: int)
    ensures -INT_MAX - 1 <= p <= INT_MAX
  {
    (a * b + INT_MAX + 1) % (2 * INT_MAX + 2) - INT_MAX - 1
  }

  /** Piece edges stay within 32-bit integers, so computing them does not wrap. */
  lemma EdgesFit(i: int, ps: int, size: int)
    requires size >= 0 && ps >= 1 && size + ps <= INT_MAX && 0 <= i < PieceCount(size, ps)
    ensures Mul32(i, ps) == Edge(i, ps) && Mul32(i + 1, ps) == Edge(i + 1, ps)
  {
    EdgesBounded(i, ps, size);
    NoWrap(i, ps);
    NoWrap(i + 1, ps);
  }

  lemma NoWrap(a: int, b: int)
    requires 0 <= Edge(a, b) <= INT_MAX
    ensures Mul32(a, b) == Edge(a, b)
  {
  }

  lemma EdgesBounded(i: int, ps: int, size: int)
    requires size >= 0 && ps >= 1 && size + ps <= INT_MAX && 0 <= i < PieceCount(size, ps)
    ensures 0 <= Edge(i, ps) <= INT_MAX && 0 <= Edge(i + 1, ps) <= INT_MAX
  {
    hide Edge;
    PieceCountIs(size, ps);
    EdgeStep(i, ps);
    EdgeMono(0, i, ps);
    EdgeMono(i + 1, PieceCount(size, ps), ps);
    EdgeStep(0, ps);
  }

  /** Marks the complete pieces; piece edges are computed in 32 bits. */
  method ToBitmap(f: RangeField.Field, bf: BitField.Bitmap, ps: int)
    requires f.Valid() && bf.Valid() && ps >= 1 && f.size + ps <= INT_MAX
    modifies f, bf, bf.bytes
    ensures f.Valid() && f.size == old(f.size) && RangeField.Merged(f.ranges)
    ensures forall x :: Covers(f.ranges, x) <==> old(Covers(f.ranges, x))
    ensures bf.Valid() && bf.size == PieceCount(f.size, ps)
    ensures MarkedUpTo(f.ranges, Kept(old(bf.Contents()), bf.size), bf.Contents(), bf.size, ps, f.size)
  {
    hide Covers, Leaves, Inside, LeftAt, Marked, Edge, Mul32, BitField.FirstBits, BitField.ZeroBehind,
         BitField.BytesFor;
    f.Tidy();
    var rs, size := f.ranges, f.size;
    PieceCountIs(size, ps);
    var n := PieceCount(size, ps);
    ghost var old0 := bf.Contents();
    bf.Resize(n, false);
    ghost var was := bf.Contents();
    assert was == Kept(old0, n);
    var j := 0;
    for i := 0 to n
      invariant f.ranges == rs && f.size == size && f.Valid() && RangeField.Merged(rs)
      invariant forall x :: Covers(rs, x) <==> old(Covers(f.ranges, x))
      invariant bf.Valid() && bf.size == n && fresh(bf.bytes)
      invariant At(rs, j, i, ps, size) && MarkedUpTo(rs, was, bf.Contents(), i, ps, size)
    {
      MarkedIff(rs, j, i, ps, size);
      WalkOn(rs, j, i, ps, size);
      EdgesFit(i, ps, size);
      var l, r := Mul32(i, ps), Mul32(i + 1, ps);
      r := if r > size then size else r;
      var complete := false;
      if j < |rs| {
        InsideIs(rs[j], i, ps, size);
        LeavesIs(rs[j], i, ps, size);
        if l >= rs[j].left && r <= rs[j].right {
          complete := true;
        } else if r >= rs[j].right {
          j := j + 1;
          if j < |rs| {
            InsideIs(rs[j], i, ps, size);
            if l >= rs[j].left && r <= rs[j].right {
              complete := true;
            }
          }
        }
      }
      if complete {
        bf.SetBit(i);
      }
    }
  }

  lemma InsideIs(r: Range, i: int, ps: int, size: int)
    ensures Inside(r, i, ps, size) <==> Edge(i, ps) >= r.left && End(i, ps, size) <= r.right
  {
  }

  lemma LeavesIs(r: Range, i: int, ps: int, size: int)
    ensures Leaves(r, i, ps, size) <==> End(i, ps, size) >= r.right && !Inside(r, i, ps, size)
  {
  }

  /** A marked piece is complete. */
  lemma MarkedIsComplete(rs: seq<Range>, i: int, ps: int, size: int)
    requires RangeField.Merged(rs) && size >= 0 && ps >= 1 && 0 <= i < PieceCount(size, ps) && Marked(rs, i, ps, size)
    ensures Complete(rs, i, ps, size)
  {
    hide Inside, LeftAt, Complete;
    CompleteIffInside(rs, i, ps, size);
  }

  // ---------- when every complete piece is marked ----------

  /** The piece of the last byte of a range. */
  function LastPiece(r: Range, ps: int): (i: int)
    requires ps >= 1
  {
    (r.right - 1) / ps
  }

  /** The first piece that starts in a range or behind its start. */
  function FirstPiece(r: Range, ps: int): (i: int)
    requires ps >= 1
  {
    (r.left + ps - 1) / ps
  }

  /** The piece behind a range: the one with its last byte, unless that one lies wholly in the range. */
  function PieceBehind(r: Range, ps: int, size: int): (i: int)
    requires ps >= 1
  {
    LastPiece(r, ps) + (if Inside(r, LastPiece(r, ps), ps, size) then 1 else 0)
  }

  /** A range that contains a whole piece. */
  predicate HoldsPiece(r: Range, ps: int, size: int)
    requires ps >= 1
  {
    FirstPiece(r, ps) < PieceCount(size, ps) && Inside(r, FirstPiece(r, ps), ps, size)
  }

  /**
   The walk leaves at most one range per piece, so ranges that end close together queue up. No queue reaches a range that
   contains a whole piece.
   */
  ghost predicate NoBacklog(rs: seq<Range>, ps: int, size: int)
    requires ps >= 1
  {
    forall m, k :: 0 <= m < k < |rs| && HoldsPiece(rs[k], ps, size) ==>
      PieceBehind(rs[m], ps, size) + (k - 1 - m) <= FirstPiece(rs[k], ps)
  }

  lemma DivisionEdges(x: int, ps: int)
    requires ps >= 1
    ensures Edge(x / ps, ps) <= x < Edge(x / ps + 1, ps)
  {
    EdgeStep(x / ps, ps);
    assert x == (x / ps) * ps + x % ps;
  }

  lemma EdgeOrder(i: int, j: int, ps: int)
    requires ps >= 1 && Edge(i, ps) < Edge(j, ps)
    ensures i < j
  {
    hide Edge;
    if j <= i {
      EdgeMono(j, i, ps);
    }
  }

  lemma LastPieceShape(r: Range, ps: int, size: int)
    requires ps >= 1 && 0 <= r.left < r.right <= size
    ensures var l := LastPiece(r, ps);
            0 <= l < PieceCount(size, ps) && Edge(l, ps) < r.right <= End(l, ps, size)
  {
    hide Edge;
    var l := LastPiece(r, ps);
    DivisionEdges(r.right - 1, ps);
    PieceCountIs(size, ps);
    EdgeStep(0, ps);
    EdgeOrder(0, l + 1, ps);
    EdgeOrder(l, PieceCount(size, ps), ps);
  }

  /** The walk leaves a range at every piece from the one behind it on. */
  lemma LeavesBehind(r: Range, i: nat, ps: int, size: int)
    requires ps >= 1 && 0 <= r.left < r.right <= size && i < PieceCount(size, ps)
    ensures Leaves(r, i, ps, size) <==> i >= PieceBehind(r, ps, size)
    ensures 0 <= PieceBehind(r, ps, size) <= PieceCount(size, ps)
  {
    hide Edge, End, LastPiece;
    var l := LastPiece(r, ps);
    LastPieceShape(r, ps, size);
    PieceShape(i, ps, size);
    if i < l {
      PiecesInOrder(i, l, ps, size);
    } else if l < i {
      PiecesInOrder(l, i, ps, size);
    }
  }

  lemma {:induction false} LeavesFromIs(r: Range, from: nat, ps: int, size: int)
    requires ps >= 1 && 0 <= r.left < r.right <= size
    ensures LeavesFrom(r, from, ps, size) == if from < PieceBehind(r, ps, size) then PieceBehind(r, ps, size) else from
    decreases PieceCount(size, ps) - from
  {
    hide Leaves, PieceBehind;
    if from < PieceCount(size, ps) {
      LeavesBehind(r, from, ps, size);
      if !Leaves(r, from, ps, size) {
        LeavesFromIs(r, from + 1, ps, size);
      }
    } else {
      BehindBounded(r, ps, size);
    }
  }

  lemma BehindBounded(r: Range, ps: int, size: int)
    requires ps >= 1 && 0 <= r.left < r.right <= size
    ensures PieceBehind(r, ps, size) <= PieceCount(size, ps)
  {
    hide Edge;
    LastPieceShape(r, ps, size);
  }

  /** A range has been left by piece i exactly when every range before it, and it, has had its turn by then. */
  lemma {:induction false} LeftByIff(rs: seq<Range>, k: nat, i: nat, ps: int, size: int)
    requires ps >= 1 && Normal(rs) && RangeField.Fits(rs, size) && k < |rs|
    ensures LeftAt(rs, k, ps, size) <= i <==> forall m :: 0 <= m <= k ==> PieceBehind(rs[m], ps, size) + (k - m) <= i
  {
    hide LeavesFrom, PieceBehind;
    LeftFrom(rs, k, ps, size);
    assert 0 <= rs[k].left < rs[k].right <= size;
    LeavesFromIs(rs[k], if k == 0 then 0 else LeftAt(rs, k - 1, ps, size) + 1, ps, size);
    if k > 0 && i > 0 {
      LeftByIff(rs, k - 1, i - 1, ps, size);
    } else if k > 0 {
      assert 0 <= rs[k - 1].left < rs[k - 1].right <= size;
      BehindNonNegative(rs[k - 1], ps, size);
    }
  }

  lemma BehindNonNegative(r: Range, ps: int, size: int)
    requires ps >= 1 && 0 <= r.left < r.right <= size
    ensures PieceBehind(r, ps, size) >= 0
  {
    hide Edge;
    LastPieceShape(r, ps, size);
  }

  /** The first whole piece of a range, if there is any, is the first one behind its start. */
  lemma FirstInside(r: Range, i: nat, ps: int, size: int)
    requires ps >= 1 && 0 <= r.left && size >= 0 && i < PieceCount(size, ps) && Inside(r, i, ps, size)
    ensures 0 <= FirstPiece(r, ps) <= i && HoldsPiece(r, ps, size)
  {
    hide Edge, FirstPiece;
    var f := FirstPiece(r, ps);
    FirstPieceShape(r, ps);
    EdgeOrder(f - 1, i, ps);
    if f < i {
      PiecesInOrder(f, i, ps, size);
      PieceShape(i, ps, size);
    }
  }

  lemma FirstPieceShape(r: Range, ps: int)
    requires ps >= 1 && 0 <= r.left
    ensures Edge(FirstPiece(r, ps) - 1, ps) < r.left <= Edge(FirstPiece(r, ps), ps) && FirstPiece(r, ps) >= 0
  {
    var f := FirstPiece(r, ps);
    DivisionEdges(r.left + ps - 1, ps);
    EdgeStep(f, ps);
    EdgeStep(f - 1, ps);
    assert f >= 0;
  }

  /** The walk reaches every range with a whole piece in time exactly when there is no backlog. */
  lemma InTimeIff(rs: seq<Range>, ps: int, size: int)
    requires ps >= 1 && size >= 0 && Normal(rs) && RangeField.Fits(rs, size)
    ensures InTime(rs, ps, size) <==> NoBacklog(rs, ps, size)
  {
    hide Inside, LeftAt, PieceBehind, FirstPiece, Edge, End;
    if NoBacklog(rs, ps, size) {
      forall k, i | 1 <= k < |rs| && 0 <= i < PieceCount(size, ps) && Inside(rs[k], i, ps, size)
        ensures LeftAt(rs, k - 1, ps, size) <= i
      {
        FirstInside(rs[k], i, ps, size);
        LeftByIff(rs, k - 1, i, ps, size);
      }
    } else {
      var m, k :| 0 <= m < k < |rs| && HoldsPiece(rs[k], ps, size)
                  && PieceBehind(rs[m], ps, size) + (k - 1 - m) > FirstPiece(rs[k], ps);
      var f := FirstPiece(rs[k], ps);
      FirstPieceShape(rs[k], ps);
      LeftByIff(rs, k - 1, f, ps, size);
      assert Inside(rs[k], f, ps, size);
    }
  }

  /** No range with a complete piece is reached too late by the walk. */
  ghost predicate InTime(rs: seq<Range>, ps: int, size: int)
    requires ps >= 1
  {
    forall k, i :: 1 <= k < |rs| && 0 <= i < PieceCount(size, ps) && Inside(rs[k], i, ps, size) ==>
      LeftAt(rs, k - 1, ps, size) <= i
  }

  /** The bitmap marks every complete piece exactly when the ranges leave no backlog. */
  lemma ExactIff(rs: seq<Range>, ps: int, size: int)
    requires RangeField.Merged(rs) && RangeField.Fits(rs, size) && size >= 0 && ps >= 1
    ensures (forall i :: 0 <= i < PieceCount(size, ps) && Complete(rs, i, ps, size) ==> Marked(rs, i, ps, size))
        <==> NoBacklog(rs, ps, size)
  {
    hide Inside, LeftAt, Complete, Marked, NoBacklog;
    if rs == NOTHING {
      NoBacklogAlone(rs, ps, size);
    } else {
      InTimeIff(rs, ps, size);
    }
    if InTime(rs, ps, size) {
      forall i | 0 <= i < PieceCount(size, ps) && Complete(rs, i, ps, size)
        ensures Marked(rs, i, ps, size)
      {
        MarkedInTime(rs, i, ps, size);
      }
    } else {
      var k, i :| 1 <= k < |rs| && 0 <= i < PieceCount(size, ps) && Inside(rs[k], i, ps, size)
                  && LeftAt(rs, k - 1, ps, size) > i;
      MissedLate(rs, k, i, ps, size);
    }
  }

  lemma NoBacklogAlone(rs: seq<Range>, ps: int, size: int)
    requires ps >= 1 && |rs| <= 1
    ensures NoBacklog(rs, ps, size) && InTime(rs, ps, size)
  {
  }

  lemma MarkedInTime(rs: seq<Range>, i: int, ps: int, size: int)
    requires RangeField.Merged(rs) && size >= 0 && ps >= 1 && 0 <= i < PieceCount(size, ps)
    requires InTime(rs, ps, size) && Complete(rs, i, ps, size)
    ensures Marked(rs, i, ps, size)
  {
    hide Inside, LeftAt, Complete;
    CompleteIffInside(rs, i, ps, size);
  }

  lemma MissedLate(rs: seq<Range>, k: nat, i: nat, ps: int, size: int)
    requires RangeField.Merged(rs) && size >= 0 && ps >= 1 && i < PieceCount(size, ps) && 1 <= k < |rs|
    requires Inside(rs[k], i, ps, size) && LeftAt(rs, k - 1, ps, size) > i
    ensures Complete(rs, i, ps, size) && !Marked(rs, i, ps, size)
  {
    hide Inside, LeftAt, Complete;
    CompleteIffInside(rs, i, ps, size);
    forall m | 0 <= m < |rs| && Inside(rs[m], i, ps, size)
      ensures m == k
    {
      OnlyOneInside(rs, k, m, i, ps, size);
    }
  }

  lemma OnlyOneInside(rs: seq<Range>, k: nat, m: nat, i: nat, ps: int, size: int)
    requires RangeField.Merged(rs) && size >= 0 && ps >= 1 && i < PieceCount(size, ps) && k < |rs| && m < |rs|
    requires Inside(rs[k], i, ps, size) && Inside(rs[m], i, ps, size)
    ensures k == m
  {
    hide Edge, End;
    PieceShape(i, ps, size);
  }

  // ---------- ranges on piece edges ----------

  /** The ranges are runs of whole pieces, from as[k] up to but not including bs[k], with a piece between any two. */
  ghost predicate Aligned(rs: seq<Range>, starts: seq<nat>, stops: seq<nat>, ps: int, size: int)
    requires ps >= 1
  {
    && |starts| == |stops| == |rs|
    && (forall k :: 0 <= k < |rs| ==> OnEdges(rs[k], starts[k], stops[k], ps, size))
    && (forall k, m :: 0 <= k < m < |rs| ==> stops[k] < starts[m])
  }

  ghost predicate OnEdges(r: Range, a: nat, b: nat, ps: int, size: int)
    requires ps >= 1
  {
    && a < b <= PieceCount(size, ps)
    && r.left == Edge(a, ps) && r.right == (if Edge(b, ps) > size then size else Edge(b, ps))
  }

  /** A run contains exactly its pieces. */
  lemma RunInside(r: Range, a: nat, b: nat, i: nat, ps: int, size: int)
    requires ps >= 1 && size >= 0 && OnEdges(r, a, b, ps, size) && i < PieceCount(size, ps)
    ensures Inside(r, i, ps, size) <==> a <= i < b
  {
    hide Edge;
    PieceShape(i, ps, size);
    if i < a {
      EdgeMono(i, a, ps);
    } else {
      EdgeMono(a, i, ps);
      if i < b {
        EdgeMono(i + 1, b, ps);
      } else {
        EdgeMono(b, i, ps);
      }
    }
  }

  lemma {:induction false} LeavesBy(r: Range, from: nat, i: nat, ps: int, size: int)
    requires ps >= 1 && from <= i && (i >= PieceCount(size, ps) || Leaves(r, i, ps, size))
    ensures LeavesFrom(r, from, ps, size) <= i
    decreases i - from
  {
    hide Leaves;
    if from < i && from < PieceCount(size, ps) && !Leaves(r, from, ps, size) {
      LeavesBy(r, from + 1, i, ps, size);
    }
  }

  /** The walk leaves a run right behind it. */
  lemma RunLeft(r: Range, a: nat, b: nat, ps: int, size: int)
    requires ps >= 1 && size >= 0 && OnEdges(r, a, b, ps, size) && b < PieceCount(size, ps)
    ensures Leaves(r, b, ps, size)
  {
    hide Edge;
    PieceShape(b, ps, size);
    RunInside(r, a, b, b, ps, size);
  }

  lemma {:induction false} LeftInTime(rs: seq<Range>, starts: seq<nat>, stops: seq<nat>, k: nat, ps: int, size: int)
    requires ps >= 1 && size >= 0 && Aligned(rs, starts, stops, ps, size) && k < |rs|
    ensures LeftAt(rs, k, ps, size) <= stops[k]
  {
    hide LeavesFrom, OnEdges, Leaves;
    var from := if k == 0 then 0 else LeftAt(rs, k - 1, ps, size) + 1;
    LeftFrom(rs, k, ps, size);
    if k > 0 {
      LeftInTime(rs, starts, stops, k - 1, ps, size);
      assert stops[k - 1] < starts[k];
    }
    RunOrder(rs[k], starts[k], stops[k], ps, size);
    if stops[k] < PieceCount(size, ps) {
      RunLeft(rs[k], starts[k], stops[k], ps, size);
    }
    LeavesBy(rs[k], from, stops[k], ps, size);
  }

  lemma RunOrder(r: Range, a: nat, b: nat, ps: int, size: int)
    requires ps >= 1 && OnEdges(r, a, b, ps, size)
    ensures a < b <= PieceCount(size, ps)
  {
  }

  /** Ranges on piece edges are all reached in time: they leave no backlog, so every complete piece is marked. */
  lemma AlignedExact(rs: seq<Range>, starts: seq<nat>, stops: seq<nat>, ps: int, size: int)
    requires ps >= 1 && size >= 0 && Aligned(rs, starts, stops, ps, size)
    ensures NoBacklog(rs, ps, size)
    ensures forall i :: 0 <= i < PieceCount(size, ps) && Complete(rs, i, ps, size) ==> Marked(rs, i, ps, size)
  {
    hide Aligned, InTime, NoBacklog, Complete, Marked;
    AlignedNormal(rs, starts, stops, ps, size);
    AlignedInTime(rs, starts, stops, ps, size);
    InTimeIff(rs, ps, size);
    ExactIff(rs, ps, size);
  }

  lemma AlignedInTime(rs: seq<Range>, starts: seq<nat>, stops: seq<nat>, ps: int, size: int)
    requires ps >= 1 && size >= 0 && Aligned(rs, starts, stops, ps, size)
    ensures InTime(rs, ps, size)
  {
    hide OnEdges, LeftAt, Inside;
    forall k, i | 1 <= k < |rs| && 0 <= i < PieceCount(size, ps) && Inside(rs[k], i, ps, size)
      ensures LeftAt(rs, k - 1, ps, size) <= i
    {
      LeftInTime(rs, starts, stops, k - 1, ps, size);
      assert OnEdges(rs[k], starts[k], stops[k], ps, size);
      RunInside(rs[k], starts[k], stops[k], i, ps, size);
      assert stops[k - 1] < starts[k];
    }
  }

  /** Three small ranges in one piece keep the walk busy while a complete piece goes by. */
  lemma LateExample()
    ensures var rs := [Range(1, 2), Range(3, 4), Range(5, 6), Range(10, 20)];
            Normal(rs) && RangeField.Fits(rs, 20) && Complete(rs, 1, 10, 20) && !Marked(rs, 1, 10, 20)
  {
    var rs := [Range(1, 2), Range(3, 4), Range(5, 6), Range(10, 20)];
    assert PieceCount(20, 10) == 2;
    assert Edge(1, 10) == 10 && End(1, 10, 20) == 20 && Edge(0, 10) == 0 && End(0, 10, 20) == 10;
    RangeField.AllIn(rs, 3, 10, 20);
    assert Leaves(rs[0], 0, 10, 20) && LeftAt(rs, 0, 10, 20) == 0;
    assert Leaves(rs[1], 1, 10, 20) && LeftAt(rs, 1, 10, 20) == 1;
    assert LeftAt(rs, 2, 10, 20) == 2;
    forall k | 0 <= k < |rs| && Inside(rs[k], 1, 10, 20)
      ensures k == 3
    {
    }
  }

  // ---------- from a bitmap ----------

  /** The ranges are the runs of set bits. */
  ghost predicate RunsOf(rs: seq<Range>, bits: seq<bool>, starts: seq<nat>, stops: seq<nat>, ps: int, size: int)
    requires ps >= 1
  {
    && Aligned(rs, starts, stops, ps, size)
    && (forall p :: 0 <= p < |bits| ==> (bits[p] <==> InRun(starts, stops, p)))
    && (forall k :: 0 <= k < |stops| ==> stops[k] <= |bits|)
  }

  ghost predicate InRun(starts: seq<nat>, stops: seq<nat>, p: int)
    requires |starts| == |stops|
  {
    exists k :: 0 <= k < |starts| && starts[k] <= p < stops[k]
  }

  lemma AlignedNormal(rs: seq<Range>, starts: seq<nat>, stops: seq<nat>, ps: int, size: int)
    requires ps >= 1 && size >= 0 && Aligned(rs, starts, stops, ps, size)
    ensures Normal(rs) && RangeField.Fits(rs, size) && Keyed(rs)
  {
    hide Edge;
    forall k | 0 <= k < |rs|
      ensures 0 <= rs[k].left < rs[k].right <= size
    {
      PieceShape(starts[k], ps, size);
      EdgeMono(starts[k] + 1, stops[k], ps);
    }
    forall k, m | 0 <= k < m < |rs|
      ensures rs[k].right < rs[m].left
    {
      assert stops[k] < starts[m] && OnEdges(rs[k], starts[k], stops[k], ps, size)
             && OnEdges(rs[m], starts[m], stops[m], ps, size);
      EdgeMono(stops[k], starts[m], ps);
    }
  }

  /** A piece is complete exactly when its bit is set. */
  lemma RunsComplete(rs: seq<Range>, bits: seq<bool>, starts: seq<nat>, stops: seq<nat>, ps: int, size: int, p: nat)
    requires ps >= 1 && size >= 0 && RunsOf(rs, bits, starts, stops, ps, size)
    requires p < |bits| == PieceCount(size, ps)
    ensures Complete(rs, p, ps, size) <==> bits[p]
  {
    hide OnEdges, Inside, Complete;
    AlignedNormal(rs, starts, stops, ps, size);
    CompleteIffInside(rs, p, ps, size);
    forall k | 0 <= k < |rs|
      ensures Inside(rs[k], p, ps, size) <==> starts[k] <= p < stops[k]
    {
      assert OnEdges(rs[k], starts[k], stops[k], ps, size);
      RunInside(rs[k], starts[k], stops[k], p, ps, size);
    }
    assert bits[p] <==> InRun(starts, stops, p);
  }

  /** From a bitmap to ranges and back: the same bits, whatever merging does in between. */
  lemma BitmapRoundTrip(rs: seq<Range>, bits: seq<bool>, starts: seq<nat>, stops: seq<nat>, ps: int, size: int,
                        merged: seq<Range>, p: nat)
    requires ps >= 1 && size >= 0 && RunsOf(rs, bits, starts, stops, ps, size)
    requires p < |bits| == PieceCount(size, ps)
    requires RangeField.Merged(merged) && (forall x :: Covers(merged, x) <==> Covers(rs, x))
    ensures Marked(merged, p, ps, size) <==> bits[p]
  {
    hide RunsOf, Marked, Complete, Aligned;
    RunsComplete(rs, bits, starts, stops, ps, size, p);
    RunsAligned(rs, bits, starts, stops, ps, size);
    AlignedNormal(rs, starts, stops, ps, size);
    SameComplete(rs, merged, p, ps, size);
    if merged == NOTHING {
      NothingMarked(p, ps, size);
    } else {
      NormalUnique(merged, rs);
      AlignedInTime(rs, starts, stops, ps, size);
      if Complete(rs, p, ps, size) {
        MarkedInTime(rs, p, ps, size);
      }
    }
    if Marked(merged, p, ps, size) {
      MarkedIsComplete(merged, p, ps, size);
    }
  }

  lemma RunsAligned(rs: seq<Range>, bits: seq<bool>, starts: seq<nat>, stops: seq<nat>, ps: int, size: int)
    requires ps >= 1 && RunsOf(rs, bits, starts, stops, ps, size)
    ensures Aligned(rs, starts, stops, ps, size)
  {
  }

  lemma SameComplete(a: seq<Range>, b: seq<Range>, p: int, ps: int, size: int)
    requires forall x :: Covers(b, x) <==> Covers(a, x)
    ensures Complete(a, p, ps, size) <==> Complete(b, p, ps, size)
  {
    hide Covers, Edge, End;
  }

  lemma NothingMarked(p: nat, ps: int, size: int)
    requires ps >= 1 && size >= 0 && p < PieceCount(size, ps)
    ensures !Complete(NOTHING, p, ps, size)
  {
    hide Edge, End;
    PieceShape(p, ps, size);
    NothingCovered(Edge(p, ps));
  }

  /** From ranges to a bitmap and back: nothing is covered that was not covered before. */
  lemma RangesShrink(rs: seq<Range>, bits: seq<bool>, again: seq<Range>, starts: seq<nat>, stops: seq<nat>, ps: int,
                     size: int, x: int)
    requires ps >= 1 && size >= 0 && RangeField.Merged(rs) && |bits| == PieceCount(size, ps)
    requires forall p :: 0 <= p < |bits| && bits[p] ==> Marked(rs, p, ps, size)
    requires RunsOf(again, bits, starts, stops, ps, size) && Covers(again, x)
    ensures Covers(rs, x)
  {
    hide Marked, OnEdges, Covers;
    RunsAligned(again, bits, starts, stops, ps, size);
    AlignedNormal(again, starts, stops, ps, size);
    var p := PieceOf(again, starts, stops, ps, size, x);
    assert bits[p];
    MarkedIsComplete(rs, p, ps, size);
  }

  /** The piece of a covered point. */
  lemma PieceOf(rs: seq<Range>, starts: seq<nat>, stops: seq<nat>, ps: int, size: int, x: int) returns (p: nat)
    requires ps >= 1 && size >= 0 && Aligned(rs, starts, stops, ps, size) && Covers(rs, x)
    ensures p < PieceCount(size, ps) && Edge(p, ps) <= x < End(p, ps, size) && InRun(starts, stops, p)
  {
    var k :| 0 <= k < |rs| && In(rs[k], x);
    assert OnEdges(rs[k], starts[k], stops[k], ps, size);
    p := PieceIn(rs[k], starts[k], stops[k], ps, size, x);
  }

  lemma {:induction false} PieceIn(r: Range, a: nat, b: nat, ps: int, size: int, x: int) returns (p: nat)
    requires ps >= 1 && size >= 0 && OnEdges(r, a, b, ps, size) && Edge(a, ps) <= x < r.right
    ensures a <= p < b && Edge(p, ps) <= x < End(p, ps, size)
    decreases b - a
  {
    hide Edge;
    if x < End(a, ps, size) {
      p := a;
    } else {
      EdgeMono(a + 1, b, ps);
      p := PieceIn(Range(Edge(a + 1, ps), r.right), a + 1, b, ps, size, x);
    }
  }

  /** The runs among the first i bits; the last one may still be open. */
  ghost predicate Reading(rs: seq<Range>, bits: seq<bool>, starts: seq<nat>, stops: seq<nat>, i: nat, open: bool,
                          a: nat, ps: int, size: int)
    requires ps >= 1
  {
    && i <= |bits| && |starts| == |stops| == |rs| && Aligned(rs, starts, stops, ps, size)
    && (forall k :: 0 <= k < |stops| ==> stops[k] < i || (stops[k] == i && !open))
    && (forall k :: 0 <= k < |stops| ==> stops[k] < |bits| && !bits[stops[k]])
    && (open ==> a < i && (forall p :: a <= p < i ==> bits[p]) && (forall k :: 0 <= k < |stops| ==> stops[k] < a))
    && (forall p :: 0 <= p < i ==> (bits[p] <==> InRun(starts, stops, p) || (open && a <= p)))
  }

  lemma OpenRun(rs: seq<Range>, bits: seq<bool>, starts: seq<nat>, stops: seq<nat>, i: nat, ps: int, size: int)
    requires ps >= 1 && Reading(rs, bits, starts, stops, i, false, 0, ps, size) && i < |bits| && bits[i]
    ensures Reading(rs, bits, starts, stops, i + 1, true, i, ps, size)
  {
    hide Aligned;
    forall k | 0 <= k < |stops|
      ensures stops[k] < i
    {
      assert stops[k] <= i && !bits[stops[k]];
    }
    NotInRun(starts, stops, i);
  }

  lemma NotInRun(starts: seq<nat>, stops: seq<nat>, p: int)
    requires |starts| == |stops| && forall k :: 0 <= k < |stops| ==> stops[k] <= p
    ensures !InRun(starts, stops, p)
  {
  }

  lemma LongerRun(rs: seq<Range>, bits: seq<bool>, starts: seq<nat>, stops: seq<nat>, i: nat, a: nat, ps: int,
                  size: int)
    requires ps >= 1 && Reading(rs, bits, starts, stops, i, true, a, ps, size) && i < |bits| && bits[i]
    ensures Reading(rs, bits, starts, stops, i + 1, true, a, ps, size)
  {
    hide Aligned;
    NotInRun(starts, stops, i);
  }

  lemma NoRun(rs: seq<Range>, bits: seq<bool>, starts: seq<nat>, stops: seq<nat>, i: nat, ps: int, size: int)
    requires ps >= 1 && Reading(rs, bits, starts, stops, i, false, 0, ps, size) && i < |bits| && !bits[i]
    ensures Reading(rs, bits, starts, stops, i + 1, false, 0, ps, size)
  {
    hide Aligned;
    NotInRun(starts, stops, i);
  }

  function RunRange(a: nat, b: nat, ps: int, size: int): (r: Range)
  {
    Range(Edge(a, ps), if Edge(b, ps) > size then size else Edge(b, ps))
  }

  /** A finished run is the range with the largest left edge so far. */
  lemma RunPut(rs: seq<Range>, starts: seq<nat>, stops: seq<nat>, a: nat, b: nat, ps: int, size: int)
    requires ps >= 1 && size >= 0 && Aligned(rs, starts, stops, ps, size) && a < b <= PieceCount(size, ps)
    requires forall k :: 0 <= k < |stops| ==> stops[k] < a
    ensures Put(rs, RunRange(a, b, ps, size)) == rs + [RunRange(a, b, ps, size)]
    ensures Aligned(rs + [RunRange(a, b, ps, size)], starts + [a], stops + [b], ps, size)
  {
    hide Edge;
    var r := RunRange(a, b, ps, size);
    forall k | 0 <= k < |rs|
      ensures rs[k].left < r.left
    {
      assert OnEdges(rs[k], starts[k], stops[k], ps, size);
      EdgeMono(starts[k], a, ps);
    }
    PutLast(rs, r);
  }

  lemma {:induction false} PutLast(rs: seq<Range>, r: Range)
    requires forall k :: 0 <= k < |rs| ==> rs[k].left < r.left
    ensures Put(rs, r) == rs + [r]
  {
    if rs != [] {
      PutLast(rs[1..], r);
    }
  }

  lemma InRunSnoc(starts: seq<nat>, stops: seq<nat>, a: nat, b: nat, p: int)
    requires |starts| == |stops|
    ensures InRun(starts + [a], stops + [b], p) <==> InRun(starts, stops, p) || a <= p < b
  {
    var s, t := starts + [a], stops + [b];
    if k :| 0 <= k < |starts| && starts[k] <= p < stops[k] {
      assert s[k] <= p < t[k];
    }
    if a <= p < b {
      assert s[|starts|] <= p < t[|starts|];
    }
  }

  lemma CloseRun(rs: seq<Range>, bits: seq<bool>, starts: seq<nat>, stops: seq<nat>, i: nat, a: nat, ps: int, size: int)
    requires ps >= 1 && size >= 0 && |bits| <= PieceCount(size, ps)
    requires Reading(rs, bits, starts, stops, i, true, a, ps, size) && i < |bits| && !bits[i]
    ensures Put(rs, RunRange(a, i, ps, size)) == rs + [RunRange(a, i, ps, size)]
    ensures Reading(rs + [RunRange(a, i, ps, size)], bits, starts + [a], stops + [i], i + 1, false, 0, ps, size)
  {
    hide Aligned, InRun;
    RunPut(rs, starts, stops, a, i, ps, size);
    forall p | 0 <= p <= i
      ensures InRun(starts + [a], stops + [i], p) <==> InRun(starts, stops, p) || a <= p < i
    {
      InRunSnoc(starts, stops, a, i, p);
    }
    NotInRun(starts, stops, i);
  }

  lemma LastRun(rs: seq<Range>, bits: seq<bool>, starts: seq<nat>, stops: seq<nat>, a: nat, ps: int, size: int)
    requires ps >= 1 && size >= 0 && |bits| <= PieceCount(size, ps)
    requires Reading(rs, bits, starts, stops, |bits|, true, a, ps, size)
    ensures Put(rs, RunRange(a, |bits|, ps, size)) == rs + [RunRange(a, |bits|, ps, size)]
    ensures RunsOf(rs + [RunRange(a, |bits|, ps, size)], bits, starts + [a], stops + [|bits|], ps, size)
  {
    hide Aligned, InRun;
    RunPut(rs, starts, stops, a, |bits|, ps, size);
    forall p | 0 <= p < |bits|
      ensures InRun(starts + [a], stops + [|bits|], p) <==> InRun(starts, stops, p) || a <= p < |bits|
    {
      InRunSnoc(starts, stops, a, |bits|, p);
    }
  }

  lemma NoOpenRun(rs: seq<Range>, bits: seq<bool>, starts: seq<nat>, stops: seq<nat>, ps: int, size: int)
    requires ps >= 1 && Reading(rs, bits, starts, stops, |bits|, false, 0, ps, size)
    ensures RunsOf(rs, bits, starts, stops, ps, size)
  {
  }

  /** Replaces the ranges by the runs of set bits. */
  method FromBitmap(f: RangeField.Field, bf: BitField.Bitmap, ps: int)
    returns (ghost starts: seq<nat>, ghost stops: seq<nat>)
    requires f.Valid() && bf.Valid() && ps >= 1 && f.size + ps <= INT_MAX && bf.size <= PieceCount(f.size, ps)
    modifies f
    ensures f.Valid() && f.size == old(f.size) && f.needMerge
    ensures RunsOf(f.ranges, bf.Contents(), starts, stops, ps, f.size)
  {
    hide Reading, Aligned, RunsOf, Edge, Mul32, BitField.FirstBits, BitField.ZeroBehind;
    ghost var bits := bf.Contents();
    var size := f.size;
    var rs: seq<Range> := [];
    var left, right, recorded := 0, 0, false;
    starts, stops := [], [];
    ghost var a := 0;
    NothingRead(bits, ps, size);
    for i := 0 to bf.size
      invariant 0 <= a && (!recorded ==> a == 0)
      invariant recorded ==> left == Edge(a, ps) && right == Edge(i, ps)
      invariant Reading(rs, bits, starts, stops, i, recorded, a, ps, size)
      modifies {}
    {
      var bit := bf.GetBit(i);
      EdgeStep(i, ps);
      if bit && !recorded {
        OpenRun(rs, bits, starts, stops, i, ps, size);
        EdgesFit(i, ps, size);
        left := Mul32(i, ps);
        right := left + ps;
        recorded := true;
        a := i;
      } else if bit {
        LongerRun(rs, bits, starts, stops, i, a, ps, size);
        right := right + ps;
      } else if recorded {
        CloseRun(rs, bits, starts, stops, i, a, ps, size);
        right := if right < size then right else size;
        rs := Put(rs, Range(left, right));
        recorded := false;
        starts, stops, a := starts + [a], stops + [i], 0;
      } else {
        NoRun(rs, bits, starts, stops, i, ps, size);
      }
    }
    if recorded {
      LastRun(rs, bits, starts, stops, a, ps, size);
      right := if right < size then right else size;
      rs := Put(rs, Range(left, right));
      starts, stops := starts + [a], stops + [|bits|];
    } else {
      NoOpenRun(rs, bits, starts, stops, ps, size);
    }
    RunsAligned(rs, bits, starts, stops, ps, size);
    AlignedNormal(rs, starts, stops, ps, size);
    f.ranges := rs;
    f.needMerge := true;
  }

  lemma NothingRead(bits: seq<bool>, ps: int, size: int)
    requires ps >= 1
    ensures Reading([], bits, [], [], 0, false, 0, ps, size)
  {
  }
}
