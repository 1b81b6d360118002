/**
 Looking up files in a ZIP directory (qqwry/miniz.c, mz_zip_reader_filename_less,
 mz_zip_reader_sort_central_dir_offsets_by_filename, mz_zip_reader_locate_file). File indices are heap-sorted by
 case-folded name once; a name is then found by binary search, which must agree with the linear scan.
 */
module ZipIndex {
  import opened Common

  type Name = seq<Byte>

  const MAX_NAME: nat := 0xFFFF

  /** ASCII upper case to lower case. */
  function Lower(c: Byte): (r: Byte)
  {
    if 65 <= c <= 90 then c + 32 else c
  }

  /** Less, equal or greater, on case-folded names: the first difference decides, then the length. */
  function Order(a: Name, b: Name): (o: int)
    ensures -1 <= o <= 1
  {
    if a == [] && b == [] then 0
    else if a == [] then -1
    else if b == [] then 1
    else if Lower(a[0]) < Lower(b[0]) then -1
    else if Lower(a[0]) > Lower(b[0]) then 1
    else Order(a[1..], b[1..])
  }

  function Folded(a: Name): (r: Name)
    ensures |r| == |a|
  {
    seq(|a|, i requires 0 <= i < |a| => Lower(a[i]))
  }

  lemma {:induction false} OrderFlip(a: Name, b: Name)
    ensures Order(a, b) == -Order(b, a)
  {
    if a != [] && b != [] {
      OrderFlip(a[1..], b[1..]);
    }
  }

  lemma {:induction false} OrderTransitive(a: Name, b: Name, c: Name)
    requires Order(a, b) <= 0 && Order(b, c) <= 0
    ensures Order(a, c) <= 0
    ensures Order(a, b) < 0 || Order(b, c) < 0 ==> Order(a, c) < 0
  {
    if a != [] && b != [] && c != [] && Lower(a[0]) == Lower(b[0]) == Lower(c[0]) {
      OrderTransitive(a[1..], b[1..], c[1..]);
    }
  }

  /** Only names that are equal after folding compare as equal. */
  lemma {:induction false} OrderEqual(a: Name, b: Name)
    ensures Order(a, b) == 0 <==> Folded(a) == Folded(b)
  {
    if a != [] && b != [] {
      OrderEqual(a[1..], b[1..]);
      assert Folded(a) == [Lower(a[0])] + Folded(a[1..]) && Folded(b) == [Lower(b[0])] + Folded(b[1..]);
      assert Folded(a)[0] == Lower(a[0]) && Folded(a)[1..] == Folded(a[1..]);
      assert Folded(b)[0] == Lower(b[0]) && Folded(b)[1..] == Folded(b[1..]);
    }
  }

  /** The same byte, or a letter from A to Z and its small form. */
  predicate SameLetter(x: Byte, y: Byte)
  {
    x == y || ('A' as int <= x <= 'Z' as int && y == x + 32) || ('A' as int <= y <= 'Z' as int && x == y + 32)
  }

  lemma FoldsIff(x: Byte, y: Byte)
    ensures Lower(x) == Lower(y) <==> SameLetter(x, y)
  {
  }

  /** Names compare as equal if and only if they differ at most in the case of ASCII letters. */
  lemma {:induction false} SameNameIff(a: Name, b: Name)
    ensures Order(a, b) == 0 <==> |a| == |b| && forall i :: 0 <= i < |a| ==> SameLetter(a[i], b[i])
  {
    hide Lower, SameLetter;
    if a != [] && b != [] {
      FoldsIff(a[0], b[0]);
      SameNameIff(a[1..], b[1..]);
      assert forall i :: 0 < i < |a| ==> a[i] == a[1..][i - 1];
      assert forall i :: 0 < i < |b| ==> b[i] == b[1..][i - 1];
    }
  }

  /** The names agree up to place i, where a ends, or has the smaller byte when A to Z count as a to z. */
  ghost predicate BeforeAt(a: Name, b: Name, i: nat)
  {
    && i <= |a| && i < |b| && (forall k :: 0 <= k < i ==> SameLetter(a[k], b[k]))
    && (i == |a| || Small(a[i]) < Small(b[i]))
  }

  function Small(x: Byte): (y: Byte)
  {
    if 'A' as int <= x <= 'Z' as int then x + 32 else x
  }

  /** One name comes before another if and only if the first place where they differ says so, or it is a beginning. */
  lemma {:induction false} BeforeIff(a: Name, b: Name)
    ensures Order(a, b) < 0 <==> exists i: nat :: BeforeAt(a, b, i)
  {
    if a == [] {
      assert b != [] ==> BeforeAt(a, b, 0);
    } else if b != [] {
      BeforeIff(a[1..], b[1..]);
      FoldsIff(a[0], b[0]);
      if Lower(a[0]) < Lower(b[0]) {
        assert BeforeAt(a, b, 0);
      } else if exists i: nat :: BeforeAt(a[1..], b[1..], i) {
        var i: nat :| BeforeAt(a[1..], b[1..], i);
        if Lower(a[0]) == Lower(b[0]) {
          assert BeforeAt(a, b, i + 1);
        }
      }
      if exists i: nat :: BeforeAt(a, b, i) {
        var i: nat :| BeforeAt(a, b, i);
        if i > 0 {
          assert SameLetter(a[0], b[0]);
          BeforeRest(a, b, i);
        }
      }
    }
  }

  lemma BeforeRest(a: Name, b: Name, i: nat)
    requires BeforeAt(a, b, i) && i > 0
    ensures BeforeAt(a[1..], b[1..], i - 1)
  {
    hide SameLetter, Small;
  }

  // ---------- comparing names ----------

  /** The comparison loop: the first place at which the folded names differ, and what they hold there. */
  method FirstDifference(l: Name, r: Name) returns (i: nat, x: int, y: int)
    ensures i <= |l| && i <= |r| && Order(l, r) == Order(l[i..], r[i..])
    ensures i < |l| && i < |r| ==> x == Lower(l[i]) && y == Lower(r[i]) && x != y
  {
    var n := if |l| < |r| then |l| else |r|;
    i, x, y := 0, 0, 0;
    assert l[0..] == l && r[0..] == r;
    while i < n
      invariant 0 <= i <= n && Order(l, r) == Order(l[i..], r[i..])
    {
      x, y := Lower(l[i]), Lower(r[i]);
      if x != y {
        break;
      }
      assert l[i..][1..] == l[i + 1..] && r[i..][1..] == r[i + 1..];
      i := i + 1;
    }
  }

  /** The comparison of the search: negative, zero or positive. */
  method Compare(l: Name, r: Name) returns (comp: int)
    ensures (comp < 0 <==> Order(l, r) < 0) && (comp == 0 <==> Order(l, r) == 0)
  {
    var i, x, y := FirstDifference(l, r);
    if i == |l| || i == |r| {
      comp := |l| - |r|;
    } else {
      comp := x - y;
    }
  }

  /** The comparison of the sort. */
  method Less(l: Name, r: Name) returns (less: bool)
    ensures less <==> Order(l, r) < 0
  {
    var i, x, y := FirstDifference(l, r);
    less := if i == |l| || i == |r| then |l| < |r| else x < y;
  }

  // ---------- heaps of file indices ----------

  ghost predicate Indices(names: seq<Name>, a: seq<nat>)
  {
    forall i :: 0 <= i < |a| ==> a[i] < |names|
  }

  /** The file at place i does not come after the file at place j. */
  ghost predicate Le(names: seq<Name>, a: seq<nat>, i: nat, j: nat)
  {
    i < |a| && j < |a| && a[i] < |names| && a[j] < |names| && Order(names[a[i]], names[a[j]]) <= 0
  }

  predicate Child(i: int, c: int)
  {
    c == 2 * i + 1 || c == 2 * i + 2
  }

  /** Parents from `lo` on do not come before their children below `n`, except possibly the one at `hole`. */
  ghost predicate Heap(names: seq<Name>, a: seq<nat>, lo: int, n: nat, hole: int)
  {
    && n <= |a|
    && forall i: nat, c: nat :: lo <= i && i != hole && Child(i, c) && c < n ==> Le(names, a, c, i)
  }

  /** The children of the hole do not come after its parent. */
  ghost predicate Bridged(names: seq<Name>, a: seq<nat>, lo: int, n: nat, hole: nat)
  {
    forall i: nat, c: nat :: lo <= i && Child(i, hole) && Child(hole, c) && c < n ==> Le(names, a, c, i)
  }

  lemma LeTransitive(names: seq<Name>, a: seq<nat>, i: nat, j: nat, k: nat)
    requires Le(names, a, i, j) && Le(names, a, j, k)
    ensures Le(names, a, i, k)
  {
    OrderTransitive(names[a[i]], names[a[j]], names[a[k]]);
  }

  lemma LeTotal(names: seq<Name>, a: seq<nat>, i: nat, j: nat)
    requires i < |a| && j < |a| && Indices(names, a)
    ensures Le(names, a, i, j) || Le(names, a, j, i)
    ensures Le(names, a, i, i)
    ensures Order(names[a[i]], names[a[j]]) >= 0 ==> Le(names, a, j, i)
  {
    OrderFlip(names[a[i]], names[a[j]]);
    OrderFlip(names[a[i]], names[a[i]]);
  }

  /** Two places exchanged. */
  function Swapped(a: seq<nat>, i: nat, j: nat): (r: seq<nat>)
    requires i < |a| && j < |a|
    ensures |r| == |a|
  {
    a[i := a[j]][j := a[i]]
  }

  lemma LeSwapped(names: seq<Name>, a: seq<nat>, i: nat, j: nat, x: nat, y: nat)
    requires i < |a| && j < |a|
    ensures Le(names, Swapped(a, i, j), x, y) <==> Le(names, a, Moved(i, j, x), Moved(i, j, y))
  {
  }

  function Moved(i: nat, j: nat, x: nat): (y: nat)
  {
    if x == i then j else if x == j then i else x
  }

  /** Exchanging the hole with its later child moves the hole down. */
  lemma SiftStep(names: seq<Name>, a: seq<nat>, lo: int, n: nat, hole: nat, child: nat)
    requires Heap(names, a, lo, n, hole) && Bridged(names, a, lo, n, hole) && lo <= hole && Indices(names, a)
    requires Child(hole, child) && child < n && Le(names, a, hole, child)
    requires forall c: nat :: Child(hole, c) && c < n ==> Le(names, a, c, child)
    ensures Heap(names, Swapped(a, hole, child), lo, n, child) && Bridged(names, Swapped(a, hole, child), lo, n, child)
  {
    hide Le;
    var b := Swapped(a, hole, child);
    forall i: nat, c: nat | lo <= i && i != child && Child(i, c) && c < n
      ensures Le(names, b, c, i)
    {
      LeSwapped(names, a, hole, child, c, i);
    }
    forall i: nat, c: nat | lo <= i && Child(i, child) && Child(child, c) && c < n
      ensures Le(names, b, c, i)
    {
      assert i == hole;
      LeSwapped(names, a, hole, child, c, i);
    }
  }

  /** When neither child comes after the hole, the heap is whole. */
  lemma SiftDone(names: seq<Name>, a: seq<nat>, lo: int, n: nat, hole: nat)
    requires Heap(names, a, lo, n, hole)
    requires forall c: nat :: Child(hole, c) && c < n ==> Le(names, a, c, hole)
    ensures Heap(names, a, lo, n, -1)
  {
    hide Le;
  }

  /** The same indices, rearranged only between `start` and `n`. */
  ghost predicate Rearranged(was: seq<nat>, now: seq<nat>, start: nat, n: nat)
    requires start <= n <= |was|
  {
    |now| == |was| && multiset(now) == multiset(was) && now[n..] == was[n..] && now[..start] == was[..start]
  }

  lemma SwapRearranges(was: seq<nat>, now: seq<nat>, start: nat, n: nat, i: nat, j: nat)
    requires start <= i < j < n <= |was| && Rearranged(was, now, start, n)
    ensures Rearranged(was, Swapped(now, i, j), start, n)
  {
    var b := Swapped(now, i, j);
    assert b[n..] == now[n..] && b[..start] == now[..start];
    assert multiset(b) == multiset(now);
  }

  /** The child of `root` that comes last. */
  method LaterChild(names: seq<Name>, a: array<nat>, root: nat, n: nat) returns (child: nat)
    requires 2 * root + 1 < n <= a.Length && Indices(names, a[..])
    ensures Child(root, child) && child < n
    ensures forall c: nat :: Child(root, c) && c < n ==> Le(names, a[..], c, child)
  {
    hide Le;
    child := 2 * root + 1;
    LeTotal(names, a[..], child, child);
    if child + 1 < n {
      var less := Less(names[a[child]], names[a[child + 1]]);
      LeTotal(names, a[..], child, child + 1);
      LeTotal(names, a[..], child + 1, child + 1);
      LessIsLe(names, a[..], child, child + 1);
      if less {
        child := child + 1;
      }
    }
  }

  /** Moves the file at `start` down until no later file is below it. */
  method SiftDown(names: seq<Name>, a: array<nat>, start: nat, n: nat)
    requires start < n <= a.Length && Indices(names, a[..])
    requires Heap(names, a[..], start, n, start)
    modifies a
    ensures Heap(names, a[..], start, n, -1)
    ensures Rearranged(old(a[..]), a[..], start, n) && Indices(names, a[..])
  {
    hide Heap, Bridged, Le, Rearranged;
    var root := start;
    NothingAbove(names, a[..], start, n);
    NothingMoved(a[..], start, n);
    while 2 * root + 1 < n
      invariant start <= root < n && Indices(names, a[..])
      invariant Heap(names, a[..], start, n, root) && Bridged(names, a[..], start, n, root)
      invariant Rearranged(old(a[..]), a[..], start, n)
      decreases n - root
    {
      var child := LaterChild(names, a, root, n);
      var less := Less(names[a[root]], names[a[child]]);
      LeTotal(names, a[..], root, child);
      LessIsLe(names, a[..], root, child);
      if !less {
        ChildrenBelow(names, a[..], n, root, child);
        SiftDone(names, a[..], start, n, root);
        return;
      }
      SiftStep(names, a[..], start, n, root, child);
      SwapRearranges(old(a[..]), a[..], start, n, root, child);
      ghost var before := a[..];
      a[root], a[child] := a[child], a[root];
      assert a[..] == Swapped(before, root, child);
      root := child;
    }
    SiftDone(names, a[..], start, n, root);
  }

  lemma NothingMoved(a: seq<nat>, start: nat, n: nat)
    requires start <= n <= |a|
    ensures Rearranged(a, a, start, n)
  {
  }

  lemma NothingAbove(names: seq<Name>, a: seq<nat>, start: nat, n: nat)
    ensures Bridged(names, a, start, n, start)
  {
  }

  lemma LessIsLe(names: seq<Name>, a: seq<nat>, i: nat, j: nat)
    requires i < |a| && j < |a| && Indices(names, a)
    ensures Order(names[a[i]], names[a[j]]) < 0 ==> Le(names, a, i, j)
  {
  }

  lemma ChildrenBelow(names: seq<Name>, a: seq<nat>, n: nat, root: nat, child: nat)
    requires Le(names, a, child, root) && forall c: nat :: Child(root, c) && c < n ==> Le(names, a, c, child)
    ensures forall c: nat :: Child(root, c) && c < n ==> Le(names, a, c, root)
  {
    hide Le;
    forall c: nat | Child(root, c) && c < n
      ensures Le(names, a, c, root)
    {
      LeTransitive(names, a, c, child, root);
    }
  }

  /** The file at the top of a heap does not come before any other. */
  lemma {:induction false} TopIsLast(names: seq<Name>, a: seq<nat>, n: nat, i: nat)
    requires Heap(names, a, 0, n, -1) && i < n && Indices(names, a)
    ensures Le(names, a, i, 0)
  {
    hide Le;
    if i == 0 {
      LeTotal(names, a, 0, 0);
    } else {
      var p := (i - 1) / 2;
      assert Child(p, i);
      TopIsLast(names, a, n, p);
      LeTransitive(names, a, i, p, 0);
    }
  }

  /** The places from `end` on are sorted, and everything before them comes first. */
  ghost predicate SortedFrom(names: seq<Name>, a: seq<nat>, end: int)
  {
    forall i: nat, j: nat :: i < j < |a| && end <= j ==> Le(names, a, i, j)
  }

  lemma TopGoesLast(names: seq<Name>, a: seq<nat>, end: nat)
    requires Heap(names, a, 0, end + 1, -1) && end < |a| && Indices(names, a) && SortedFrom(names, a, end + 1)
    ensures SortedFrom(names, Swapped(a, end, 0), end) && Heap(names, Swapped(a, end, 0), 0, end, 0)
    ensures Indices(names, Swapped(a, end, 0))
  {
    hide Le;
    var b := Swapped(a, end, 0);
    forall i: nat, j: nat | i < j < |a| && end <= j
      ensures Le(names, b, i, j)
    {
      LeSwapped(names, a, end, 0, i, j);
      if j == end {
        TopIsLast(names, a, end + 1, Moved(end, 0, i));
      }
    }
    forall i: nat, c: nat | i != 0 && Child(i, c) && c < end
      ensures Le(names, b, c, i)
    {
      LeSwapped(names, a, end, 0, c, i);
    }
  }

  /** Sifting a prefix keeps what is sorted behind it. */
  lemma SortedKept(names: seq<Name>, a: seq<nat>, b: seq<nat>, end: nat)
    requires SortedFrom(names, a, end) && |a| == |b| && end <= |a| && a[end..] == b[end..] && multiset(a) == multiset(b)
    ensures SortedFrom(names, b, end)
  {
    forall i: nat, j: nat | i < j < |b| && end <= j
      ensures Le(names, b, i, j)
    {
      assert b[j] == b[end..][j - end] == a[end..][j - end] == a[j];
      if i >= end {
        assert b[i] == b[end..][i - end] == a[end..][i - end] == a[i];
        assert Le(names, a, i, j);
      } else {
        var k := PrefixPlace(a, b, end, i);
        assert Le(names, a, k, j);
      }
    }
  }

  lemma PrefixPlace(a: seq<nat>, b: seq<nat>, end: nat, i: nat) returns (k: nat)
    requires |a| == |b| && i < end <= |a| && a[end..] == b[end..] && multiset(a) == multiset(b)
    ensures k < end && a[k] == b[i]
  {
    var v := b[i];
    assert a == a[..end] + a[end..] && b == b[..end] + b[end..];
    assert multiset(a)[v] == multiset(a[..end])[v] + multiset(a[end..])[v];
    assert multiset(b)[v] == multiset(b[..end])[v] + multiset(b[end..])[v];
    assert v in b[..end];
    assert v in multiset(a[..end]);
    k :| 0 <= k < end && a[..end][k] == b[i];
  }

  /** Moves the file at the top of the heap behind the heap, and repairs what is left. */
  method MoveTop(names: seq<Name>, a: array<nat>, end: nat)
    requires 0 < end < a.Length && Indices(names, a[..])
    requires Heap(names, a[..], 0, end + 1, -1) && SortedFrom(names, a[..], end + 1)
    modifies a
    ensures multiset(a[..]) == multiset(old(a[..])) && Indices(names, a[..])
    ensures Heap(names, a[..], 0, end, -1) && SortedFrom(names, a[..], end)
  {
    hide Heap, Le, SortedFrom;
    TopGoesLast(names, a[..], end);
    ghost var before := a[..];
    a[end], a[0] := a[0], a[end];
    assert a[..] == Swapped(before, end, 0);
    ghost var swapped := a[..];
    SiftDown(names, a, 0, end);
    SortedKept(names, swapped, a[..], end);
  }

  /** Heap sort: the indices are rearranged so that their names ascend. */
  method SortIndices(names: seq<Name>, a: array<nat>)
    requires Indices(names, a[..])
    modifies a
    ensures multiset(a[..]) == multiset(old(a[..])) && Indices(names, a[..])
    ensures SortedFrom(names, a[..], 0)
  {
    hide Heap, Le, SortedFrom;
    var size := a.Length;
    var start := (size - 2) / 2;
    NoParents(names, a[..], start + 1);
    while start >= 0
      invariant -1 <= start && (start < 0 || start < size) && Indices(names, a[..])
      invariant Heap(names, a[..], start + 1, size, -1)
      invariant multiset(a[..]) == multiset(old(a[..]))
    {
      AddRoot(names, a[..], start);
      SiftDown(names, a, start, size);
      start := start - 1;
    }
    var end := size - 1;
    NothingSorted(names, a[..]);
    while end > 0
      invariant -1 <= end < size && Indices(names, a[..])
      invariant end >= 0 ==> Heap(names, a[..], 0, end + 1, -1)
      invariant SortedFrom(names, a[..], end + 1)
      invariant multiset(a[..]) == multiset(old(a[..]))
    {
      MoveTop(names, a, end);
      end := end - 1;
    }
    AllSorted(names, a[..], end);
  }

  lemma NoParents(names: seq<Name>, a: seq<nat>, lo: int)
    requires lo == (|a| - 2) / 2 + 1
    ensures Heap(names, a, lo, |a|, -1)
  {
  }

  lemma AddRoot(names: seq<Name>, a: seq<nat>, start: nat)
    requires Heap(names, a, start + 1, |a|, -1)
    ensures Heap(names, a, start, |a|, start)
  {
    hide Le;
  }

  lemma NothingSorted(names: seq<Name>, a: seq<nat>)
    ensures SortedFrom(names, a, |a|)
  {
  }

  lemma AllSorted(names: seq<Name>, a: seq<nat>, end: int)
    requires SortedFrom(names, a, end + 1) && end <= 0
    ensures SortedFrom(names, a, 0)
  {
    hide Le;
  }

  // ---------- finding a file ----------

  /** The file has the name, up to case. */
  ghost predicate Matches(names: seq<Name>, f: nat, name: Name)
  {
    f < |names| && Folded(names[f]) == Folded(name)
  }

  /** A file with the name, or -1 exactly when there is none. */
  ghost predicate Answer(names: seq<Name>, name: Name, f: int)
  {
    && (f == -1 || (f >= 0 && Matches(names, f, name)))
    && (f == -1 <==> (forall k: nat :: !Matches(names, k, name)))
  }

  /** A name that comes after place m is not found at or before m. */
  lemma NotUpTo(names: seq<Name>, a: seq<nat>, m: nat, name: Name)
    requires SortedFrom(names, a, 0) && Indices(names, a) && m < |a| && Order(names[a[m]], name) < 0
    ensures forall i :: 0 <= i <= m ==> !Matches(names, a[i], name)
  {
    forall i | 0 <= i <= m
      ensures !Matches(names, a[i], name)
    {
      if i < m {
        assert Le(names, a, i, m);
        OrderTransitive(names[a[i]], names[a[m]], name);
      }
      OrderEqual(names[a[i]], name);
    }
  }

  lemma NotFrom(names: seq<Name>, a: seq<nat>, m: nat, name: Name)
    requires SortedFrom(names, a, 0) && Indices(names, a) && m < |a| && Order(names[a[m]], name) > 0
    ensures forall i :: m <= i < |a| ==> !Matches(names, a[i], name)
  {
    forall i | m <= i < |a|
      ensures !Matches(names, a[i], name)
    {
      OrderFlip(names[a[m]], name);
      OrderFlip(names[a[i]], name);
      if i > m {
        assert Le(names, a, m, i);
        OrderTransitive(name, names[a[m]], names[a[i]]);
      }
      OrderEqual(names[a[i]], name);
    }
  }

  /** Every file is listed. */
  ghost predicate ListsAll(names: seq<Name>, a: seq<nat>)
  {
    forall f: nat :: f < |names| ==> f in a
  }

  /** Binary search: finds a file with the name exactly when there is one. */
  method BinarySearch(names: seq<Name>, a: seq<nat>, name: Name) returns (f: int)
    requires Indices(names, a) && SortedFrom(names, a, 0) && ListsAll(names, a)
    ensures Answer(names, name, f)
  {
    hide SortedFrom, Folded, Order;
    var l, h := 0, |a| - 1;
    while l <= h
      invariant 0 <= l <= h + 1 <= |a|
      invariant forall i :: 0 <= i < l ==> !Matches(names, a[i], name)
      invariant forall i :: h < i < |a| ==> !Matches(names, a[i], name)
    {
      var m := (l + h) / 2;
      f := a[m];
      var comp := Compare(names[f], name);
      OrderEqual(names[f], name);
      if comp == 0 {
        assert Matches(names, f, name);
        return;
      } else if comp < 0 {
        NotUpTo(names, a, m, name);
        l := m + 1;
      } else {
        NotFrom(names, a, m, name);
        h := m - 1;
      }
    }
    f := -1;
    forall k: nat
      ensures !Matches(names, k, name)
    {
      if k < |names| {
        assert k in a;
        var i :| 0 <= i < |a| && a[i] == k;
      }
    }
  }

  /** Two names of one length are equal up to case. */
  method EqualFolded(a: Name, b: Name) returns (equal: bool)
    requires |a| == |b|
    ensures equal <==> Folded(a) == Folded(b)
  {
    for i := 0 to |a|
      invariant forall k :: 0 <= k < i ==> Lower(a[k]) == Lower(b[k])
    {
      if Lower(a[i]) != Lower(b[i]) {
        assert Folded(a)[i] != Folded(b)[i];
        return false;
      }
    }
    return true;
  }

  /** The linear scan with default flags: the first file with the name, if any. */
  method LinearScan(names: seq<Name>, name: Name) returns (f: int)
    requires forall k :: 0 <= k < |names| ==> |names[k]| <= MAX_NAME
    ensures Answer(names, name, f) && forall k: nat :: k < f ==> !Matches(names, k, name)
  {
    if |name| > MAX_NAME {
      return -1;
    }
    for k: nat := 0 to |names|
      invariant forall j: nat :: j < k ==> !Matches(names, j, name)
    {
      if |names[k]| >= |name| && |names[k]| == |name| {
        var equal := EqualFolded(name, names[k]);
        if equal {
          assert Matches(names, k, name);
          return k;
        }
      }
    }
    return -1;
  }

  /** No two files have the same name up to case. */
  ghost predicate DistinctNames(names: seq<Name>)
  {
    forall j: nat, k: nat, name: Name :: Matches(names, j, name) && Matches(names, k, name) ==> j == k
  }

  /** The two searches agree on whether a file is there, and on which one when names are distinct up to case. */
  lemma SearchesAgree(names: seq<Name>, name: Name, f: int, g: int)
    requires Answer(names, name, f) && Answer(names, name, g)
    ensures f == -1 <==> g == -1
    ensures DistinctNames(names) ==> f == g
  {
    hide Matches;
  }

  /** Sorting the indices of a directory makes it searchable. */
  method SortDirectory(names: seq<Name>) returns (a: array<nat>)
    ensures fresh(a) && Indices(names, a[..]) && SortedFrom(names, a[..], 0) && ListsAll(names, a[..])
            && a.Length == |names|
  {
    a := new nat[|names|](i => i);
    ghost var was := a[..];
    SortIndices(names, a);
    forall f: nat | f < |names|
      ensures f in a[..]
    {
      assert was[f] == f;
      assert f in multiset(was);
      assert f in multiset(a[..]);
    }
  }
}
