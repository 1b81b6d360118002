/**
 The compressor's dictionary and its search for matches (qqwry/miniz.c, tdefl_find_match in its portable form). The
 dictionary is a ring of the last bytes of the input, with its beginning repeated behind its end. Whatever the hash
 chains hold, what the search returns is a repetition in the input.
 */
module LzMatch {
  import opened Common

  const DICT_SIZE: nat := 32768
  const MAX_MATCH: nat := 258
  const MIN_MATCH: nat := 3
  const RING: nat := DICT_SIZE + MAX_MATCH - 1

  /** The place of an input position in the ring. */
  function Slot(j: nat): (k: nat)
    ensures k < DICT_SIZE
  {
    j % DICT_SIZE
  }

  /** The ring holds the input from `lo` to `hi`. */
  ghost predicate Holds(dict: seq<Byte>, input: seq<Byte>, lo: nat, hi: nat)
  {
    && |dict| == RING && lo <= hi <= |input| && hi - lo <= DICT_SIZE
    && forall j :: lo <= j < hi ==> HoldsAt(dict, input, j)
  }

  ghost predicate HoldsAt(dict: seq<Byte>, input: seq<Byte>, j: nat)
    requires |dict| == RING && j < |input|
  {
    dict[Slot(j)] == input[j] && (Slot(j) < MAX_MATCH - 1 ==> dict[DICT_SIZE + Slot(j)] == input[j])
  }

  lemma SlotAdd(j: nat, i: nat)
    requires i < DICT_SIZE
    ensures Slot(j + i) == if Slot(j) + i < DICT_SIZE then Slot(j) + i else Slot(j) + i - DICT_SIZE
  {
    var q := j / DICT_SIZE;
    assert j == q * DICT_SIZE + Slot(j);
    if Slot(j) + i < DICT_SIZE {
      assert j + i == q * DICT_SIZE + (Slot(j) + i);
    } else {
      assert j + i == (q + 1) * DICT_SIZE + (Slot(j) + i - DICT_SIZE);
    }
  }

  lemma SlotsDiffer(j: nat, k: nat)
    requires j < k < j + DICT_SIZE
    ensures Slot(j) != Slot(k)
  {
    SlotAdd(j, k - j);
  }

  /** Reading on behind the end of the ring gives the bytes that follow in the input. */
  lemma ByteAt(dict: seq<Byte>, input: seq<Byte>, lo: nat, hi: nat, j: nat, i: nat)
    requires Holds(dict, input, lo, hi) && lo <= j && j + i < hi && i < MAX_MATCH
    ensures Slot(j) + i < RING && dict[Slot(j) + i] == input[j + i]
  {
    hide Slot;
    SlotAdd(j, i);
    assert HoldsAt(dict, input, j + i);
  }

  /** The next byte of the input replaces the oldest one. */
  method Store(dict: array<Byte>, c: Byte, ghost input: seq<Byte>, ghost lo: nat, ghost lo': nat, at: nat)
    requires Holds(dict[..], input, lo, |input|) && lo <= lo' <= |input| && |input| + 1 - lo' <= DICT_SIZE
             && at == Slot(|input|)
    modifies dict
    ensures Holds(dict[..], input + [c], lo', |input| + 1)
  {
    hide Slot;
    ghost var before, n := dict[..], |input|;
    dict[at] := c;
    if at < MAX_MATCH - 1 {
      dict[DICT_SIZE + at] := c;
    }
    forall j | lo' <= j < n + 1
      ensures HoldsAt(dict[..], input + [c], j)
    {
      if j < n {
        SlotsDiffer(j, n);
        assert HoldsAt(before, input, j);
      }
    }
  }

  // ---------- matches ----------

  /** The input at p repeats for `len` bytes what is `dist` places before it. */
  ghost predicate Repeats(input: seq<Byte>, p: nat, dist: nat, len: nat)
  {
    1 <= dist <= p && p + len <= |input| && forall i :: p <= i < p + len ==> input[i] == input[i - dist]
  }

  /** Where a chain entry points: entries are positions modulo 2^16. */
  function Distance(p: nat, entry: nat): (d: nat)
  {
    (p - entry) % 65536
  }

  lemma EntrySlot(p: nat, entry: nat)
    requires Distance(p, entry) <= p
    ensures Slot(entry) == Slot(p - Distance(p, entry))
  {
    var d := Distance(p, entry);
    var q := (p - entry) / 65536;
    assert p - d == entry + 65536 * q;
    SameSlot(entry, p - d, 2 * q);
  }

  lemma SameSlot(a: nat, b: nat, q: int)
    requires b == a + DICT_SIZE * q
    ensures Slot(a) == Slot(b)
  {
    var k := a / DICT_SIZE;
    assert a == k * DICT_SIZE + Slot(a);
    assert b == (k + q) * DICT_SIZE + Slot(a);
  }

  // ---------- the chain ----------

  /** The chain leads on from a slot to the place d before p. */
  ghost predicate LeadsTo(next: seq<nat>, p: nat, maxDist: nat, slot: nat, d: nat)
  {
    slot < |next| && next[slot] != 0 && d == Distance(p, next[slot]) && d <= maxDist
  }

  ghost predicate ChainEnds(next: seq<nat>, p: nat, maxDist: nat, slot: nat)
  {
    slot < |next| && (next[slot] == 0 || Distance(p, next[slot]) > maxDist)
  }

  /** The slot reached by way of the given distances. */
  ghost function Reached(p: nat, slot: nat, ds: seq<nat>): (r: nat)
  {
    if ds == [] || ds[|ds| - 1] > p then slot else Slot(p - ds[|ds| - 1])
  }

  /** From a slot the chain leads to the places at these distances, one after the other. */
  ghost predicate Walk(next: seq<nat>, p: nat, maxDist: nat, slot: nat, ds: seq<nat>)
  {
    && (forall k :: 0 <= k < |ds| ==> ds[k] <= p)
    && forall k :: 0 <= k < |ds| ==> LeadsTo(next, p, maxDist, Reached(p, slot, ds[..k]), ds[k])
  }

  lemma WalkOn(next: seq<nat>, p: nat, maxDist: nat, slot: nat, ds: seq<nat>, d: nat)
    requires Walk(next, p, maxDist, slot, ds) && maxDist <= p && LeadsTo(next, p, maxDist, Reached(p, slot, ds), d)
    ensures Walk(next, p, maxDist, slot, ds + [d]) && Reached(p, slot, ds + [d]) == Slot(p - d)
  {
    hide Distance, Slot;
    var all := ds + [d];
    forall k | 0 <= k < |all|
      ensures LeadsTo(next, p, maxDist, Reached(p, slot, all[..k]), all[k])
    {
      assert all[..k] == if k < |ds| then ds[..k] else ds;
    }
  }

  lemma {:induction false} WalkJoin(next: seq<nat>, p: nat, maxDist: nat, slot: nat, a: seq<nat>, b: seq<nat>)
    requires maxDist <= p && Walk(next, p, maxDist, slot, a) && Walk(next, p, maxDist, Reached(p, slot, a), b)
    ensures Walk(next, p, maxDist, slot, a + b) && Reached(p, slot, a + b) == Reached(p, Reached(p, slot, a), b)
    decreases |b|
  {
    hide LeadsTo, Slot, Walk, Reached;
    if b == [] {
      assert a + b == a;
      NoSteps(next, p, maxDist, Reached(p, slot, a));
    } else {
      var k := |b| - 1;
      WalkFront(next, p, maxDist, Reached(p, slot, a), b);
      WalkJoin(next, p, maxDist, slot, a, b[..k]);
      WalkOn(next, p, maxDist, slot, a + b[..k], b[k]);
      WalkOn(next, p, maxDist, Reached(p, slot, a), b[..k], b[k]);
      assert a + b == a + b[..k] + [b[k]] && b == b[..k] + [b[k]];
    }
  }

  lemma WalkFront(next: seq<nat>, p: nat, maxDist: nat, slot: nat, b: seq<nat>)
    requires Walk(next, p, maxDist, slot, b) && b != []
    ensures var k := |b| - 1; Walk(next, p, maxDist, slot, b[..k]) && LeadsTo(next, p, maxDist, Reached(p, slot, b[..k]), b[k])
  {
    hide LeadsTo, Slot;
    var k := |b| - 1;
    assert forall i :: 0 <= i <= k ==> b[..k][..i] == b[..i];
  }

  /** How a search goes on. */
  datatype Probe = Hit | Miss | Stop

  /** The two bytes at the end of the best match so far are those of the place d before p. */
  ghost predicate Agrees(dict: seq<Byte>, p: nat, d: nat, len: nat, c0: Byte, c1: Byte)
    requires |dict| == RING && 1 <= len < MAX_MATCH && d <= p
  {
    dict[Slot(p - d) + len] == c0 && dict[Slot(p - d) + len - 1] == c1
  }

  /** One step along the chain: the candidate must agree in the two bytes at the end of the best match so far. */
  method ProbeOnce(dict: array<Byte>, next: array<nat>, p: nat, maxDist: nat, len: nat, c0: Byte, c1: Byte, slot: nat)
    returns (found: Probe, slot': nat, dist: nat)
    requires dict.Length == RING && next.Length == DICT_SIZE && slot < DICT_SIZE && 1 <= len < MAX_MATCH && maxDist <= p
    ensures slot' < DICT_SIZE
    ensures found == Stop <==> ChainEnds(next[..], p, maxDist, slot)
    ensures found == Stop ==> slot' == slot
    ensures found != Stop ==> dist <= maxDist && slot' == Slot(p - dist) && LeadsTo(next[..], p, maxDist, slot, dist)
    ensures found != Stop ==> (found == Hit <==> Agrees(dict[..], p, dist, len, c0, c1))
  {
    hide Slot, Distance;
    slot', dist := slot, 0;
    var entry := next[slot];
    if entry == 0 {
      return Stop, slot', dist;
    }
    dist := Distance(p, entry);
    if dist > maxDist {
      return Stop, slot', dist;
    }
    EntrySlot(p, entry);
    slot' := Slot(entry);
    found := if dict[slot' + len] == c0 && dict[slot' + len - 1] == c1 then Hit else Miss;
  }

  /** Probes until a candidate is hit or the probes are used up. `ds` are the distances of the candidates looked at. */
  method FindCandidate(dict: array<Byte>, next: array<nat>, p: nat, maxDist: nat, len: nat, c0: Byte, c1: Byte,
                       slot: nat, probes: nat)
    returns (hit: bool, slot': nat, dist: nat, probes': nat, ghost ds: seq<nat>)
    requires dict.Length == RING && next.Length == DICT_SIZE && slot < DICT_SIZE && 1 <= len < MAX_MATCH && maxDist <= p
    requires probes >= 1
    ensures slot' < DICT_SIZE && probes' < probes
    ensures Walk(next[..], p, maxDist, slot, ds) && slot' == Reached(p, slot, ds)
    ensures forall k :: 0 <= k < (if hit then |ds| - 1 else |ds|) ==> !Agrees(dict[..], p, ds[k], len, c0, c1)
    ensures hit ==> probes' >= 1 && dist <= maxDist && slot' == Slot(p - dist) && ds != [] && ds[|ds| - 1] == dist
    ensures !hit ==> ChainEnds(next[..], p, maxDist, slot') || (probes' == 0 && |ds| >= probes - 1)
    ensures |ds| <= 3 * (probes - if probes' == 0 then 1 else probes') && (hit ==> |ds| >= probes - probes')
  {
    hide Slot, Walk, Reached, LeadsTo, ChainEnds, Agrees;
    slot', dist, probes', ds := slot, 0, probes, [];
    NoSteps(next[..], p, maxDist, slot);
    while true
      invariant slot' < DICT_SIZE && 1 <= probes' <= probes
      invariant probes - probes' <= |ds| <= 3 * (probes - probes')
      invariant Walk(next[..], p, maxDist, slot, ds) && (forall k :: 0 <= k < |ds| ==> ds[k] <= p)
                && slot' == Reached(p, slot, ds)
      invariant forall k :: 0 <= k < |ds| ==> !Agrees(dict[..], p, ds[k], len, c0, c1)
      decreases probes'
    {
      probes' := probes' - 1;
      if probes' == 0 {
        return false, slot', dist, probes', ds;
      }
      for k := 0 to 3
        invariant slot' < DICT_SIZE
        invariant probes - probes' - 1 + k <= |ds| <= 3 * (probes - probes' - 1) + k
        invariant Walk(next[..], p, maxDist, slot, ds) && (forall k :: 0 <= k < |ds| ==> ds[k] <= p)
                  && slot' == Reached(p, slot, ds)
        invariant forall k :: 0 <= k < |ds| ==> !Agrees(dict[..], p, ds[k], len, c0, c1)
      {
        var found;
        found, slot', dist := ProbeOnce(dict, next, p, maxDist, len, c0, c1, slot');
        if found == Stop {
          return false, slot', dist, probes', ds;
        }
        WalkOn(next[..], p, maxDist, slot, ds, dist);
        ds := ds + [dist];
        if found == Hit {
          return true, slot', dist, probes', ds;
        }
      }
    }
  }

  lemma NoSteps(next: seq<nat>, p: nat, maxDist: nat, slot: nat)
    ensures Walk(next, p, maxDist, slot, []) && Reached(p, slot, []) == slot
  {
  }

  /** How far the bytes at two places of the ring agree. */
  method CommonLength(dict: array<Byte>, a: nat, b: nat, max: nat) returns (len: nat)
    requires dict.Length == RING && a < DICT_SIZE && b < DICT_SIZE && max <= MAX_MATCH
    ensures len <= max && dict[a..a + len] == dict[b..b + len]
    ensures len < max ==> dict[a + len] != dict[b + len]
  {
    len := 0;
    while len < max && dict[a + len] == dict[b + len]
      invariant len <= max && dict[a..a + len] == dict[b..b + len]
    {
      assert dict[a..a + len + 1] == dict[a..a + len] + [dict[a + len]];
      assert dict[b..b + len + 1] == dict[b..b + len] + [dict[b + len]];
      len := len + 1;
    }
  }

  lemma CommonRepeats(dict: seq<Byte>, input: seq<Byte>, lo: nat, p: nat, dist: nat, len: nat)
    requires Holds(dict, input, lo, |input|) && lo + dist <= p && 1 <= dist && p + len <= |input| && len <= MAX_MATCH
    requires dict[Slot(p)..Slot(p) + len] == dict[Slot(p - dist)..Slot(p - dist) + len]
    ensures Repeats(input, p, dist, len)
  {
    hide Slot;
    var a, b := Slot(p), Slot(p - dist);
    forall k | p <= k < p + len
      ensures input[k] == input[k - dist]
    {
      var i := k - p;
      ByteAt(dict, input, lo, |input|, p, i);
      ByteAt(dict, input, lo, |input|, p - dist, i);
      assert dict[a..a + len][i] == dict[b..b + len][i];
    }
  }

  /** No repetition at this distance is longer than m. */
  ghost predicate NoLonger(input: seq<Byte>, p: nat, d: nat, maxLen: nat, m: nat)
  {
    d > 0 ==> forall l :: m < l <= maxLen ==> !Repeats(input, p, d, l)
  }

  lemma RepeatsShorter(input: seq<Byte>, p: nat, d: nat, k: nat, l: nat)
    requires k <= l && Repeats(input, p, d, l)
    ensures Repeats(input, p, d, k)
  {
  }

  /** A place at which the next byte differs has no longer repetition. */
  lemma NextDiffers(input: seq<Byte>, p: nat, d: nat, maxLen: nat, m: nat)
    requires !Repeats(input, p, d, m + 1)
    ensures NoLonger(input, p, d, maxLen, m)
  {
    hide Repeats;
    forall l | m < l <= maxLen
      ensures !Repeats(input, p, d, l)
    {
      if Repeats(input, p, d, l) {
        RepeatsShorter(input, p, d, m + 1, l);
      }
    }
  }

  /** A longer repetition than the best so far has its last bytes where a candidate is tested. */
  lemma LongerAgrees(dict: seq<Byte>, input: seq<Byte>, lo: nat, p: nat, d: nat, m: nat)
    requires Holds(dict, input, lo, |input|) && lo + d <= p && p + m < |input| && 1 <= m < MAX_MATCH
    requires Repeats(input, p, d, m + 1)
    ensures Slot(p) + m < RING && Agrees(dict, p, d, m, dict[Slot(p) + m], dict[Slot(p) + m - 1])
  {
    hide Slot;
    ByteAt(dict, input, lo, |input|, p, m);
    ByteAt(dict, input, lo, |input|, p, m - 1);
    ByteAt(dict, input, lo, |input|, p - d, m);
    ByteAt(dict, input, lo, |input|, p - d, m - 1);
    assert input[p + m] == input[p + m - d] && input[p + m - 1] == input[p + m - 1 - d];
  }

  /** So the candidates passed over do not matter. */
  lemma MissedIsShort(dict: seq<Byte>, input: seq<Byte>, lo: nat, p: nat, d: nat, maxLen: nat, m: nat)
    requires Holds(dict, input, lo, |input|) && lo + d <= p && p + maxLen == |input| && 1 <= m < maxLen && m < MAX_MATCH
    requires Slot(p) + m < RING && !Agrees(dict, p, d, m, dict[Slot(p) + m], dict[Slot(p) + m - 1])
    ensures NoLonger(input, p, d, maxLen, m)
  {
    hide Slot, Holds, Repeats, Agrees, NoLonger;
    if Repeats(input, p, d, m + 1) {
      LongerAgrees(dict, input, lo, p, d, m);
    } else {
      NextDiffers(input, p, d, maxLen, m);
    }
  }

  /** Nor does one that has been measured. */
  lemma MeasuredIsShort(dict: seq<Byte>, input: seq<Byte>, lo: nat, p: nat, d: nat, maxLen: nat, common: nat)
    requires Holds(dict, input, lo, |input|) && lo + d <= p && 1 <= d && p + maxLen == |input| && maxLen <= MAX_MATCH
    requires common <= maxLen
    requires common < maxLen ==> Slot(p) + common < RING && Slot(p - d) + common < RING
                                 && dict[Slot(p) + common] != dict[Slot(p - d) + common]
    ensures NoLonger(input, p, d, maxLen, common)
  {
    hide Slot, Repeats, NoLonger;
    if common < maxLen {
      ByteAt(dict, input, lo, |input|, p, common);
      ByteAt(dict, input, lo, |input|, p - d, common);
      NotRepeated(input, p, d, common);
      NextDiffers(input, p, d, maxLen, common);
    } else {
      NothingLonger(input, p, d, maxLen);
    }
  }

  lemma NotRepeated(input: seq<Byte>, p: nat, d: nat, m: nat)
    requires d <= p && p + m < |input| && input[p + m] != input[p - d + m]
    ensures !Repeats(input, p, d, m + 1)
  {
    assert input[p + m] != input[p + m - d];
  }

  lemma NothingLonger(input: seq<Byte>, p: nat, d: nat, maxLen: nat)
    ensures NoLonger(input, p, d, maxLen, maxLen)
  {
  }

  lemma StillNoLonger(input: seq<Byte>, p: nat, ds: seq<nat>, maxLen: nat, m: nat, n: nat)
    requires m <= n && forall k :: 0 <= k < |ds| ==> NoLonger(input, p, ds[k], maxLen, m)
    ensures forall k :: 0 <= k < |ds| ==> NoLonger(input, p, ds[k], maxLen, n)
  {
    hide Repeats;
    forall k | 0 <= k < |ds|
      ensures NoLonger(input, p, ds[k], maxLen, n)
    {
      assert NoLonger(input, p, ds[k], maxLen, m);
    }
  }

  /** The best distance comes first among those with so long a repetition. */
  ghost predicate FirstBest(input: seq<Byte>, p: nat, ds: seq<nat>, dist: nat, len: nat)
  {
    exists m :: 0 <= m < |ds| && ds[m] == dist && BestBefore(input, p, ds, m, len)
  }

  ghost predicate BestBefore(input: seq<Byte>, p: nat, ds: seq<nat>, m: nat, len: nat)
    requires m <= |ds|
  {
    forall k :: 0 <= k < m ==> !Repeats(input, p, ds[k], len)
  }

  lemma StillFirst(input: seq<Byte>, p: nat, ds: seq<nat>, more: seq<nat>, dist: nat, len: nat)
    requires FirstBest(input, p, ds, dist, len)
    ensures FirstBest(input, p, ds + more, dist, len)
  {
    hide Repeats;
    var m :| 0 <= m < |ds| && ds[m] == dist && BestBefore(input, p, ds, m, len);
    assert (ds + more)[m] == dist && BestBefore(input, p, ds + more, m, len);
  }

  lemma LastIsFirst(input: seq<Byte>, p: nat, ds: seq<nat>, maxLen: nat, m: nat, len: nat)
    requires ds != [] && m < len <= maxLen && forall k :: 0 <= k < |ds| - 1 ==> NoLonger(input, p, ds[k], maxLen, m)
    ensures FirstBest(input, p, ds, ds[|ds| - 1], len)
  {
    var n := |ds| - 1;
    forall k | 0 <= k < n
      ensures !Repeats(input, p, ds[k], len)
    {
      assert NoLonger(input, p, ds[k], maxLen, m);
    }
    assert BestBefore(input, p, ds, n, len);
  }

  /** Why a search stops: the best length possible, the end of the chain, a place that is p itself, or no probes left. */
  ghost predicate Exhausted(next: seq<nat>, p: nat, maxDist: nat, ds: seq<nat>, probes: nat, best: bool)
  {
    || best
    || ChainEnds(next, p, maxDist, Reached(p, Slot(p), ds))
    || (ds != [] && ds[|ds| - 1] == 0)
    || |ds| >= probes - 1
  }

  /**
   Looks for a match longer than `len`. The result is the given length with distance zero, or a longer repetition in
   the input within the dictionary. Of all places that the chain leads to, up to its end or until the probes are used up,
   none has a longer repetition, and none before the one chosen has as long a one.
   */
  method FindMatch(dict: array<Byte>, next: array<nat>, maxProbes: (nat, nat), p: nat, maxDist: nat, maxLen: nat,
                   len: nat,
                   ghost input: seq<Byte>)
    returns (matchDist: nat, matchLen: nat, ghost ds: seq<nat>)
    requires next.Length == DICT_SIZE && maxProbes.0 >= 1 && maxProbes.1 >= 1
    requires maxDist <= p && p + maxLen == |input| && Holds(dict[..], input, p - maxDist, |input|)
    requires maxLen <= MAX_MATCH && 1 <= len < MAX_MATCH
    ensures matchDist == 0 ==> matchLen == len
    ensures matchDist > 0 ==> matchDist <= maxDist && len < matchLen <= maxLen && Repeats(input, p, matchDist, matchLen)
    ensures Walk(next[..], p, maxDist, Slot(p), ds)
    ensures Best(input, p, maxLen, ds, matchDist, matchLen)
    ensures var probes := if len >= 32 then maxProbes.1 else maxProbes.0;
            Exhausted(next[..], p, maxDist, ds, probes, matchLen >= maxLen) && |ds| <= 3 * (probes - 1)
  {
    hide Slot, Holds, Repeats, Walk, Reached, LeadsTo, ChainEnds, Agrees, Best, BestSave;
    RingSize(dict[..], input, p - maxDist);
    matchDist, matchLen, ds := 0, len, [];
    NoSteps(next[..], p, maxDist, Slot(p));
    NothingFound(input, p, maxLen, len);
    var pos := Slot(p);
    var probes := if len >= 32 then maxProbes.1 else maxProbes.0;
    ghost var allowed := probes;
    if maxLen <= len {
      return;
    }
    var c0, c1 := dict[pos + len], dict[pos + len - 1];
    var slot: nat := pos;
    while true
      invariant slot < DICT_SIZE && 1 <= probes <= allowed && len <= matchLen < maxLen
      invariant c0 == dict[pos + matchLen] && c1 == dict[pos + matchLen - 1]
      invariant matchDist == 0 ==> matchLen == len
      invariant matchDist > 0 ==> matchDist <= maxDist && len < matchLen && Repeats(input, p, matchDist, matchLen)
      invariant Walk(next[..], p, maxDist, pos, ds) && slot == Reached(p, pos, ds)
      invariant allowed - probes <= |ds| <= 3 * (allowed - probes)
      invariant Best(input, p, maxLen, ds, matchDist, matchLen)
      decreases probes
    {
      var hit: bool, dist: nat;
      ghost var more, before, from := [], ds, slot;
      hit, slot, dist, probes, more := FindCandidate(dict, next, p, maxDist, matchLen, c0, c1, slot, probes);
      WalkJoin(next[..], p, maxDist, pos, before, more);
      WalkBounds(next[..], p, maxDist, from, more);
      ds := before + more;
      Skipped(dict[..], input, p, maxDist, maxLen, matchDist, matchLen, before, more, hit);
      if !hit {
        return;
      }
      if dist == 0 {
        Closed(input, p, maxLen, ds, matchDist, matchLen);
        return;
      }
      var common := Measure(dict, p, dist, maxLen, pos, slot, input, p - maxDist);
      Measured(input, p, maxLen, ds, matchDist, matchLen, dist, common);
      if common > matchLen {
        matchDist, matchLen := dist, common;
        if matchLen == maxLen {
          return;
        }
        c0, c1 := dict[pos + matchLen], dict[pos + matchLen - 1];
      }
    }
  }

  /** Measures a candidate: the length of its repetition, up to the maximum. */
  method Measure(dict: array<Byte>, ghost p: nat, ghost dist: nat, maxLen: nat, pos: nat, slot: nat, ghost input: seq<Byte>,
                 ghost lo: nat)
    returns (common: nat)
    requires Holds(dict[..], input, lo, |input|) && 1 <= dist && lo + dist <= p && p + maxLen == |input|
    requires maxLen <= MAX_MATCH && pos == Slot(p) && slot == Slot(p - dist)
    ensures common <= maxLen && Repeats(input, p, dist, common) && NoLonger(input, p, dist, maxLen, common)
  {
    hide Slot, Holds, Repeats, NoLonger;
    RingSize(dict[..], input, lo);
    common := CommonLength(dict, pos, slot, maxLen);
    assert dict[..][pos..pos + common] == dict[..][slot..slot + common];
    CommonRepeats(dict[..], input, lo, p, dist, common);
    MeasuredIsShort(dict[..], input, lo, p, dist, maxLen, common);
  }

  /** Of the places looked at none is better than the best, and none before it as good. */
  ghost predicate Best(input: seq<Byte>, p: nat, maxLen: nat, ds: seq<nat>, dist: nat, len: nat)
  {
    && (forall k :: 0 <= k < |ds| ==> NoLonger(input, p, ds[k], maxLen, len))
    && (dist > 0 ==> FirstBest(input, p, ds, dist, len))
  }

  /** The same, save for the last place. */
  ghost predicate BestSave(input: seq<Byte>, p: nat, maxLen: nat, ds: seq<nat>, dist: nat, len: nat)
  {
    && (forall k :: 0 <= k < |ds| - 1 ==> NoLonger(input, p, ds[k], maxLen, len))
    && (dist > 0 ==> FirstBest(input, p, ds, dist, len))
  }

  lemma NothingFound(input: seq<Byte>, p: nat, maxLen: nat, len: nat)
    ensures Best(input, p, maxLen, [], 0, len)
  {
  }

  lemma Skipped(dict: seq<Byte>, input: seq<Byte>, p: nat, maxDist: nat, maxLen: nat, dist: nat, m: nat,
                before: seq<nat>, more: seq<nat>, hit: bool)
    requires maxDist <= p && Holds(dict, input, p - maxDist, |input|) && p + maxLen == |input| && 1 <= m < maxLen
    requires maxLen <= MAX_MATCH && |dict| == RING && forall k :: 0 <= k < |more| ==> more[k] <= maxDist
    requires forall k :: 0 <= k < (if hit then |more| - 1 else |more|) ==>
             !Agrees(dict, p, more[k], m, dict[Slot(p) + m], dict[Slot(p) + m - 1])
    requires Best(input, p, maxLen, before, dist, m)
    ensures BestSave(input, p, maxLen, before + more, dist, m)
    ensures !hit ==> Best(input, p, maxLen, before + more, dist, m)
  {
    hide Slot, Holds, Repeats, Agrees, NoLonger, FirstBest;
    SkippedAreShort(dict, input, p, maxDist, maxLen, m, before, more, hit);
    if dist > 0 {
      StillFirst(input, p, before, more, dist, m);
    }
  }

  lemma Closed(input: seq<Byte>, p: nat, maxLen: nat, ds: seq<nat>, dist: nat, m: nat)
    requires BestSave(input, p, maxLen, ds, dist, m) && ds != [] && ds[|ds| - 1] == 0
    ensures Best(input, p, maxLen, ds, dist, m)
  {
    hide Repeats, NoLonger, FirstBest;
    ZeroIsShort(input, p, maxLen, m);
  }

  lemma Measured(input: seq<Byte>, p: nat, maxLen: nat, ds: seq<nat>, dist: nat, m: nat, d: nat, common: nat)
    requires BestSave(input, p, maxLen, ds, dist, m) && ds != [] && ds[|ds| - 1] == d && common <= maxLen
    requires NoLonger(input, p, d, maxLen, common)
    ensures common > m ==> Best(input, p, maxLen, ds, d, common)
    ensures common <= m ==> Best(input, p, maxLen, ds, dist, m)
  {
    hide Repeats, NoLonger, FirstBest;
    if common > m {
      LastIsFirst(input, p, ds, maxLen, m, common);
      StillNoLonger(input, p, ds[..|ds| - 1], maxLen, m, common);
      assert forall k :: 0 <= k < |ds| - 1 ==> ds[..|ds| - 1][k] == ds[k];
    } else {
      StillNoLonger(input, p, [d], maxLen, common, m);
      assert [d][0] == d;
    }
  }

  lemma ZeroIsShort(input: seq<Byte>, p: nat, maxLen: nat, m: nat)
    ensures NoLonger(input, p, 0, maxLen, m)
  {
  }

  lemma WalkBounds(next: seq<nat>, p: nat, maxDist: nat, slot: nat, ds: seq<nat>)
    requires Walk(next, p, maxDist, slot, ds)
    ensures forall k :: 0 <= k < |ds| ==> ds[k] <= maxDist
  {
    hide Slot, Reached;
  }

  /** The candidates passed over on the way to a hit, or to the end. */
  lemma SkippedAreShort(dict: seq<Byte>, input: seq<Byte>, p: nat, maxDist: nat, maxLen: nat, m: nat, before: seq<nat>,
                        more: seq<nat>, hit: bool)
    requires maxDist <= p && Holds(dict, input, p - maxDist, |input|) && p + maxLen == |input| && 1 <= m < maxLen
    requires maxLen <= MAX_MATCH && |dict| == RING && forall k :: 0 <= k < |more| ==> more[k] <= maxDist
    requires forall k :: 0 <= k < (if hit then |more| - 1 else |more|) ==>
             !Agrees(dict, p, more[k], m, dict[Slot(p) + m], dict[Slot(p) + m - 1])
    requires forall k :: 0 <= k < |before| ==> NoLonger(input, p, before[k], maxLen, m)
    ensures forall k :: 0 <= k < (if hit then |before + more| - 1 else |before + more|) ==>
            NoLonger(input, p, (before + more)[k], maxLen, m)
  {
    hide Slot, Holds, Repeats, Agrees, NoLonger;
    forall k | 0 <= k < (if hit then |before + more| - 1 else |before + more|)
      ensures NoLonger(input, p, (before + more)[k], maxLen, m)
    {
      if k >= |before| {
        var d := more[k - |before|];
        assert (before + more)[k] == d;
        MissedIsShort(dict, input, p - maxDist, p, d, maxLen, m);
      }
    }
  }

  lemma RingSize(dict: seq<Byte>, input: seq<Byte>, lo: nat)
    requires Holds(dict, input, lo, |input|)
    ensures |dict| == RING
  {
  }
}
