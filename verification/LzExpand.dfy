/**
 What a sequence of literals and copies stands for, and how the inflater copies within its output (qqwry/miniz.c,
 tinfl_decompress, with an output buffer that does not wrap). A copy may overlap what it produces.
 */
module LzExpand {
  import opened InflateBlock

  /** Appends n bytes, each equal to the one `dist` places before it. */
  function Copied(done: seq<nat>, n: nat, dist: nat): (bytes: seq<nat>)
    requires 1 <= dist <= |done|
    ensures |bytes| == |done| + n
    decreases n
  {
    if n == 0 then done else Copied(done + [done[|done| - dist]], n - 1, dist)
  }

  datatype Expansion = Bytes(bytes: seq<nat>) | Unreachable

  /** The bytes after the items, if no copy reaches back before the first byte. */
  function Expand(done: seq<nat>, items: seq<Item>): (r: Expansion)
    decreases |items|
  {
    if items == [] then Bytes(done)
    else
      match items[0]
      case Lit(b) => Expand(done + [b], items[1..])
      case Copy(len, dist) =>
        if 1 <= dist <= |done| then Expand(Copied(done, len, dist), items[1..]) else Unreachable
  }

  /** `to` continues `from` with a period of `dist`. */
  ghost predicate Continues(from: seq<nat>, to: seq<nat>, dist: nat)
    requires 1 <= dist <= |from|
  {
    from <= to && forall i :: |from| <= i < |to| ==> to[i] == to[i - dist]
  }

  /** Copying is the only way to go on with that period. */
  lemma {:induction false} CopiedIff(done: seq<nat>, n: nat, dist: nat, bytes: seq<nat>)
    requires 1 <= dist <= |done| && |bytes| == |done| + n
    ensures bytes == Copied(done, n, dist) <==> Continues(done, bytes, dist)
    decreases n
  {
    if n > 0 {
      var next := done + [done[|done| - dist]];
      CopiedIff(next, n - 1, dist, bytes);
      if Continues(next, bytes, dist) {
        assert bytes[..|done|] == next[..|done|] == done;
        assert bytes[|done|] == next[|done|] == bytes[|done| - dist];
      }
      if Continues(done, bytes, dist) {
        assert bytes[..|next|] == next;
      }
    }
  }

  lemma {:induction false} ExpandGrows(done: seq<nat>, items: seq<Item>)
    ensures Expand(done, items).Bytes? ==> done <= Expand(done, items).bytes
    decreases |items|
  {
    if items != [] {
      match items[0]
      case Lit(b) => ExpandGrows(done + [b], items[1..]);
      case Copy(len, dist) =>
        if 1 <= dist <= |done| {
          var more := Copied(done, len, dist);
          CopiedIff(done, len, dist, more);
          ExpandGrows(more, items[1..]);
        }
    }
  }

  /** Items one after the other. */
  lemma {:induction false} ExpandConcat(done: seq<nat>, items: seq<Item>, more: seq<Item>)
    ensures Expand(done, items + more)
         == match Expand(done, items) case Unreachable => Unreachable case Bytes(bytes) => Expand(bytes, more)
    decreases |items|
  {
    if items == [] {
      assert items + more == more;
    } else {
      assert (items + more)[0] == items[0] && (items + more)[1..] == items[1..] + more;
      match items[0]
      case Lit(b) => ExpandConcat(done + [b], items[1..], more);
      case Copy(len, dist) =>
        if 1 <= dist <= |done| {
          ExpandConcat(Copied(done, len, dist), items[1..], more);
        }
    }
  }

  lemma OneLiteral(done: seq<nat>, b: nat)
    ensures Expand(done, [Lit(b)]) == Bytes(done + [b])
  {
    assert [Lit(b)][1..] == [];
  }

  lemma OneCopy(done: seq<nat>, len: nat, dist: nat)
    ensures Expand(done, [Copy(len, dist)])
         == if 1 <= dist <= |done| then Bytes(Copied(done, len, dist)) else Unreachable
  {
    assert [Copy(len, dist)][1..] == [];
  }

  // ---------- copying ----------

  /** Byte by byte, until the output is full. */
  method CopySlowly(out: array<nat>, at: nat, len: nat, dist: nat) returns (end: nat)
    requires 1 <= dist <= at <= out.Length
    modifies out
    ensures at <= end <= out.Length && end - at <= len && (end < at + len ==> end == out.Length)
    ensures out[..end] == Copied(old(out[..at]), end - at, dist)
  {
    ghost var done := out[..at];
    end := at;
    while end < at + len && end < out.Length
      invariant at <= end <= out.Length && end - at <= len
      invariant Continues(done, out[..end], dist)
    {
      out[end] := out[end - dist];
      end := end + 1;
    }
    CopiedIff(done, end - at, dist, out[..end]);
  }

  /** Eight bytes at a time, for a copy that does not overlap itself: two loads of four bytes, each then stored. */
  method CopyWide(out: array<nat>, at: nat, len: nat, dist: nat) returns (end: nat)
    requires 1 <= dist <= at <= out.Length && at + len <= out.Length && 9 <= len <= dist
    modifies out
    ensures end == at + len / 8 * 8
    ensures Continues(old(out[..at]), out[..end], dist)
  {
    ghost var done := out[..at];
    end := at;
    for i := 0 to len / 8
      invariant end == at + 8 * i && end <= out.Length
      invariant Continues(done, out[..end], dist)
    {
      CopyWord(out, end, dist, done);
      CopyWord(out, end + 4, dist, done);
      end := end + 8;
    }
  }

  method CopyWord(out: array<nat>, at: nat, dist: nat, ghost done: seq<nat>)
    requires 4 <= dist <= |done| && |done| <= at && at + 4 <= out.Length && Continues(done, out[..at], dist)
    modifies out
    ensures Continues(done, out[..at + 4], dist)
  {
    var a, b, c, d := out[at - dist], out[at - dist + 1], out[at - dist + 2], out[at - dist + 3];
    out[at], out[at + 1], out[at + 2], out[at + 3] := a, b, c, d;
  }

  /** The last one or two bytes. */
  method CopyTail(out: array<nat>, at: nat, len: nat, dist: nat, ghost done: seq<nat>)
    requires 1 <= dist <= |done| && |done| <= at && at + len <= out.Length && len < 3
             && Continues(done, out[..at], dist)
    modifies out
    ensures Continues(done, out[..at + len], dist)
  {
    if len > 0 {
      out[at] := out[at - dist];
      assert Continues(done, out[..at + 1], dist);
      if len > 1 {
        out[at + 1] := out[at + 1 - dist];
        assert Continues(done, out[..at + 2], dist);
      }
    }
  }

  /** Three bytes at a time. */
  method CopyTriples(out: array<nat>, at: nat, len: nat, dist: nat, ghost done: seq<nat>)
    requires 1 <= dist <= |done| && |done| <= at && at + len <= out.Length && 3 <= len
             && Continues(done, out[..at], dist)
    modifies out
    ensures Continues(done, out[..at + len], dist)
  {
    var cur, left := at, len;
    while left > 2
      invariant cur + left == at + len && 0 <= left && at <= cur
      invariant Continues(done, out[..cur], dist)
      decreases left
    {
      out[cur] := out[cur - dist];
      out[cur + 1] := out[cur + 1 - dist];
      out[cur + 2] := out[cur + 2 - dist];
      cur, left := cur + 3, left - 3;
    }
    CopyTail(out, cur, left, dist, done);
  }

  /** A copy as the inflater makes it; whichever way is taken, the bytes are the same. */
  method CopyBytes(out: array<nat>, at: nat, len: nat, dist: nat) returns (end: nat)
    requires 1 <= dist <= at <= out.Length && 3 <= len
    modifies out
    ensures end == (if at + len <= out.Length then at + len else out.Length)
    ensures out[..end] == Copied(old(out[..at]), end - at, dist)
  {
    ghost var done := out[..at];
    if at + len > out.Length {
      end := CopySlowly(out, at, len, dist);
    } else {
      end := at + len;
      if 9 <= len <= dist {
        var cur := CopyWide(out, at, len, dist);
        var left := len % 8;
        if left < 3 {
          CopyTail(out, cur, left, dist, done);
        } else {
          CopyTriples(out, cur, left, dist, done);
        }
      } else {
        CopyTriples(out, at, len, dist, done);
      }
      CopiedIff(done, len, dist, out[..end]);
    }
  }
}
