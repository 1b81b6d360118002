/**
 The Adler-32 checksum with deferred reduction (section 8.2 of RFC 1950; qqwry/miniz.c, mz_adler32 and the same loop at
 the end of tinfl_decompress). The sums are reduced once per block of up to 5552 bytes and bytes are taken eight at a
 time; the result is that of the byte-by-byte definition.
 */
module Adler32 {
  import opened Common
  import Bits

  const BASE: nat := 65521
  const BLOCK: nat := 5552
  const WORD: nat := 0x1_0000_0000
  const INIT: nat := 1

  datatype Sums = Sums(s1: nat, s2: nat)

  // ---------- the definition ----------

  function Reduce(x: nat): (r: nat)
    ensures r < BASE
  {
    x % BASE
  }

  function Next(s: Sums, b: Byte): (r: Sums)
  {
    var s1 := Reduce(s.s1 + b);
    Sums(s1, Reduce(s.s2 + s1))
  }

  /** The sums after all bytes, reduced at every byte. */
  function Fold(s: Sums, data: seq<Byte>): (r: Sums)
  {
    if data == [] then s else Next(Fold(s, data[..|data| - 1]), data[|data| - 1])
  }

  function Unpack(adler: nat): (s: Sums)
  {
    Sums(adler % 65536, adler / 65536)
  }

  function Pack(s: Sums): (adler: nat)
  {
    s.s2 * 65536 + s.s1
  }

  /** The checksum of the data, starting from another checksum. */
  function Checksum(adler: nat, data: seq<Byte>): (r: nat)
  {
    Pack(Fold(Unpack(adler), data))
  }

  lemma {:induction false} FoldConcat(s: Sums, a: seq<Byte>, b: seq<Byte>)
    ensures Fold(s, a + b) == Fold(Fold(s, a), b)
  {
    if b == [] {
      assert a + b == a;
    } else {
      var k := |b| - 1;
      FoldConcat(s, a, b[..k]);
      assert (a + b)[..|a| + k] == a + b[..k];
    }
  }

  lemma FoldReduced(s: Sums, data: seq<Byte>)
    requires data != []
    ensures Fold(s, data).s1 < BASE && Fold(s, data).s2 < BASE
  {
    hide Reduce;
  }

  lemma UnpackPack(s: Sums)
    requires s.s1 < 65536
    ensures Unpack(Pack(s)) == s
  {
  }

  lemma PackUnpack(adler: nat)
    ensures Pack(Unpack(adler)) == adler
  {
  }

  /** Checksumming two parts in turn is checksumming them together. */
  lemma ChecksumConcat(adler: nat, a: seq<Byte>, b: seq<Byte>)
    requires adler < WORD
    ensures Checksum(Checksum(adler, a), b) == Checksum(adler, a + b)
  {
    hide Next, Pack, Unpack;
    FoldConcat(Unpack(adler), a, b);
    if a == [] {
      assert a + b == b;
      PackUnpack(adler);
    } else {
      FoldReduced(Unpack(adler), a);
      UnpackPack(Fold(Unpack(adler), a));
    }
  }

  // ---------- sums that are not reduced ----------

  function RawNext(s: Sums, b: Byte): (r: Sums)
  {
    Sums(s.s1 + b, s.s2 + (s.s1 + b))
  }

  function Raw(s: Sums, data: seq<Byte>): (r: Sums)
  {
    if data == [] then s else RawNext(Raw(s, data[..|data| - 1]), data[|data| - 1])
  }

  ghost predicate Congruent(a: Sums, b: Sums)
  {
    Reduce(a.s1) == Reduce(b.s1) && Reduce(a.s2) == Reduce(b.s2)
  }

  lemma ReduceAdd(x: nat, y: nat, b: nat)
    requires Reduce(x) == Reduce(y)
    ensures Reduce(x + b) == Reduce(y + b)
  {
    assert x == x / BASE * BASE + x % BASE && y == y / BASE * BASE + y % BASE;
  }

  lemma ReduceTwice(x: nat)
    ensures Reduce(Reduce(x)) == Reduce(x)
    ensures x < BASE ==> Reduce(x) == x
  {
  }

  lemma NextCongruent(a: Sums, b: Sums, x: Byte)
    requires Congruent(a, b)
    ensures Congruent(RawNext(a, x), Next(b, x))
  {
    hide Reduce;
    ReduceAdd(a.s1, b.s1, x);
    ReduceTwice(b.s1 + x);
    var s1 := Reduce(b.s1 + x);
    ReduceAdd(a.s2, b.s2, s1);
    ReduceAdd(a.s1 + x, s1, a.s2);
    ReduceTwice(b.s2 + s1);
  }

  lemma {:induction false} RawCongruent(a: Sums, b: Sums, data: seq<Byte>)
    requires Congruent(a, b)
    ensures Congruent(Raw(a, data), Fold(b, data))
  {
    if data != [] {
      var k := |data| - 1;
      RawCongruent(a, b, data[..k]);
      NextCongruent(Raw(a, data[..k]), Fold(b, data[..k]), data[k]);
    }
  }

  /** How large the sums can get within k bytes. */
  function Bound1(k: nat): (b: nat) { 65535 + 255 * k }

  function Bound2(k: nat): (b: nat)
  {
    if k == 0 then 65535 else Bound2(k - 1) + Bound1(k)
  }

  lemma {:induction false} RawBound(s: Sums, data: seq<Byte>)
    requires s.s1 <= 65535 && s.s2 <= 65535
    ensures Raw(s, data).s1 <= Bound1(|data|) && Raw(s, data).s2 <= Bound2(|data|)
  {
    if data != [] {
      RawBound(s, data[..|data| - 1]);
    }
  }

  lemma {:induction false} Bound2Closed(k: nat)
    ensures 2 * Bound2(k) == 2 * 65535 * (k + 1) + 255 * (k * (k + 1))
  {
    if k > 0 {
      Bound2Closed(k - 1);
      assert k * (k + 1) == (k - 1) * k + 2 * k;
    }
  }

  lemma {:induction false} Bound2Grows(k: nat, n: nat)
    requires k <= n
    ensures Bound2(k) <= Bound2(n)
    decreases n
  {
    if k < n {
      Bound2Grows(k, n - 1);
    }
  }

  /** Within a block no sum leaves 32 bits, even from sums that are not reduced. */
  lemma NoOverflow(s: Sums, data: seq<Byte>)
    requires s.s1 <= 65535 && s.s2 <= 65535 && |data| <= BLOCK
    ensures Raw(s, data).s1 < WORD && Raw(s, data).s2 < WORD
  {
    hide Raw, Bound2;
    RawBound(s, data);
    Bound2Grows(|data|, BLOCK);
    Bound2Closed(BLOCK);
  }

  // ---------- the loops ----------

  /** Addition in 32 bits. */
  function Add(x: nat, y: nat): (r: nat)
  {
    (x + y) % WORD
  }

  lemma AddSmall(x: nat, y: nat)
    requires x + y < WORD
    ensures Add(x, y) == x + y
  {
  }

  /** One byte within a block. */
  method TakeByte(s1: nat, s2: nat, data: seq<Byte>, from: nat, i: nat, ghost start: Sums) returns (s1': nat, s2': nat)
    requires start.s1 <= 65535 && start.s2 <= 65535 && i < BLOCK && from + i < |data|
    requires Sums(s1, s2) == Raw(start, data[from..from + i])
    ensures Sums(s1', s2') == Raw(start, data[from..from + i + 1])
  {
    hide Add;
    ghost var done := data[from..from + i + 1];
    assert done[..i] == data[from..from + i];
    NoOverflow(start, done);
    AddSmall(s1, data[from + i]);
    s1' := Add(s1, data[from + i]);
    AddSmall(s2, s1');
    s2' := Add(s2, s1');
  }

  lemma NoBytes(start: Sums, data: seq<Byte>, from: nat)
    requires from <= |data|
    ensures Raw(start, data[from..from + 0]) == start
  {
  }

  /** The sums over one block, eight bytes at a time. */
  method SumBlock(s1: nat, s2: nat, data: seq<Byte>, from: nat, len: nat) returns (s1': nat, s2': nat)
    requires s1 <= 65535 && s2 <= 65535 && len <= BLOCK && from + len <= |data|
    ensures Sums(s1', s2') == Raw(Sums(s1, s2), data[from..from + len])
  {
    hide Raw;
    ghost var start := Sums(s1, s2);
    s1', s2' := s1, s2;
    var i := 0;
    NoBytes(start, data, from);
    while i + 7 < len
      invariant 0 <= i <= len
      invariant Sums(s1', s2') == Raw(start, data[from..from + i])
    {
      s1', s2' := TakeByte(s1', s2', data, from, i, start);
      s1', s2' := TakeByte(s1', s2', data, from, i + 1, start);
      s1', s2' := TakeByte(s1', s2', data, from, i + 2, start);
      s1', s2' := TakeByte(s1', s2', data, from, i + 3, start);
      s1', s2' := TakeByte(s1', s2', data, from, i + 4, start);
      s1', s2' := TakeByte(s1', s2', data, from, i + 5, start);
      s1', s2' := TakeByte(s1', s2', data, from, i + 6, start);
      s1', s2' := TakeByte(s1', s2', data, from, i + 7, start);
      i := i + 8;
    }
    while i < len
      invariant 0 <= i <= len
      invariant Sums(s1', s2') == Raw(start, data[from..from + i])
    {
      s1', s2' := TakeByte(s1', s2', data, from, i, start);
      i := i + 1;
    }
  }

  /** What holds between blocks: the sums agree with the definition, and are reduced once a block is done. */
  ghost predicate Between(start: Sums, data: seq<Byte>, done: nat, s: Sums)
  {
    && done <= |data| && s.s1 <= 65535 && s.s2 <= 65535
    && (if done == 0 && s == start then true
        else s.s1 < BASE && s.s2 < BASE && Congruent(s, Fold(start, data[..done])))
  }

  /** A block, with the reduction behind it. */
  lemma BlockDone(start: Sums, data: seq<Byte>, done: nat, len: nat, s: Sums, r: Sums)
    requires Between(start, data, done, s) && done + len <= |data|
    requires r == Raw(s, data[done..done + len])
    ensures Between(start, data, done + len, Sums(Reduce(r.s1), Reduce(r.s2)))
  {
    hide Raw, Fold, Reduce;
    assert data[..done + len] == data[..done] + data[done..done + len];
    FoldConcat(start, data[..done], data[done..done + len]);
    StartOfFold(start, data, done);
    RawCongruent(s, Fold(start, data[..done]), data[done..done + len]);
    ReduceTwice(r.s1);
    ReduceTwice(r.s2);
  }

  lemma StartOfFold(start: Sums, data: seq<Byte>, done: nat)
    requires done <= |data|
    ensures done == 0 ==> Fold(start, data[..done]) == start
  {
  }

  /** Reduced sums that agree with a result of the definition are that result. */
  lemma AllDone(start: Sums, data: seq<Byte>, s: Sums)
    requires Between(start, data, |data|, s) && start.s1 <= 65535 && start.s2 <= 65535
    requires data == [] ==> s == start
    ensures s == Fold(start, data)
  {
    hide Reduce, Fold;
    assert data[..|data|] == data;
    if data == [] {
      StartOfFold(start, data, 0);
    } else {
      FoldReduced(start, data);
      ReduceTwice(s.s1);
      ReduceTwice(s.s2);
      ReduceTwice(Fold(start, data).s1);
      ReduceTwice(Fold(start, data).s2);
    }
  }

  /** The checksum of a buffer; without a buffer, the initial value. */
  method Compute(adler: nat, buffer: Option<seq<Byte>>) returns (r: nat)
    requires adler < WORD
    ensures r == if buffer.None? then INIT else Checksum(adler, buffer.value)
  {
    hide Raw, Fold, Reduce, Between;
    if buffer.None? {
      return INIT;
    }
    var s1: nat, s2: nat := adler % 65536, adler / 65536;
    var data := buffer.value;
    var left, blockLen := |data|, |data| % BLOCK;
    ghost var start, blocks := Unpack(adler), |data| / BLOCK;
    NothingDone(start, data);
    while left > 0
      invariant 0 <= left <= |data| && 0 <= blockLen <= BLOCK
      invariant left > 0 ==> blocks >= 0 && left == blockLen + BLOCK * blocks
      invariant Between(start, data, |data| - left, Sums(s1, s2)) && (data == [] ==> Sums(s1, s2) == start)
      decreases left, BLOCK - blockLen
    {
      BetweenBounds(start, data, |data| - left, Sums(s1, s2));
      var t1, t2 := SumBlock(s1, s2, data, |data| - left, blockLen);
      BlockDone(start, data, |data| - left, blockLen, Sums(s1, s2), Sums(t1, t2));
      s1, s2 := Reduce(t1), Reduce(t2);
      left := left - blockLen;
      blockLen := BLOCK;
      blocks := blocks - 1;
    }
    AllDone(start, data, Sums(s1, s2));
    r := s2 * 65536 + s1;
  }

  lemma NothingDone(start: Sums, data: seq<Byte>)
    requires start.s1 <= 65535 && start.s2 <= 65535
    ensures Between(start, data, 0, start)
  {
  }

  lemma BetweenBounds(start: Sums, data: seq<Byte>, done: nat, s: Sums)
    requires Between(start, data, done, s)
    ensures s.s1 <= 65535 && s.s2 <= 65535
  {
  }

  // ---------- the closed sums ----------

  function Total(data: seq<Byte>): (n: nat)
  {
    if data == [] then 0 else Total(data[..|data| - 1]) + data[|data| - 1]
  }

  /** Each byte of the data times the given weight less its place. */
  function Weighted(data: seq<Byte>, n: nat): (w: nat)
    requires |data| <= n
  {
    if data == [] then 0
    else
      var k := |data| - 1;
      Weighted(data[..k], n) + Times(n - k, data[k])
  }

  lemma {:induction false} WeightedMore(data: seq<Byte>, n: nat)
    requires |data| <= n
    ensures Weighted(data, n + 1) == Weighted(data, n) + Total(data)
  {
    if data != [] {
      WeightedMore(data[..|data| - 1], n);
    }
  }

  lemma {:induction false} RawClosed(s: Sums, data: seq<Byte>)
    ensures Raw(s, data).s1 == s.s1 + Total(data)
    ensures Raw(s, data).s2 == s.s2 + Times(|data|, s.s1) + Weighted(data, |data|)
  {
    if data != [] {
      var k := |data| - 1;
      RawClosed(s, data[..k]);
      WeightedMore(data[..k], k);
      assert Times(1, data[k]) == Times(0, data[k]) + data[k];
    }
  }

  /**
   From the sums a and b in a checksum, n bytes lead to a plus all bytes, and to b plus n times a plus each byte times the
   number of bytes from it to the end, both modulo 65521.
   */
  lemma ChecksumClosed(adler: nat, data: seq<Byte>)
    ensures data == [] ==> Checksum(adler, data) == adler
    ensures data != [] ==>
              var a, b, n := adler % 65536, adler / 65536, |data|;
              Checksum(adler, data) == (b + n * a + Weighted(data, n)) % 65521 * 65536 + (a + Total(data)) % 65521
  {
    var s := Unpack(adler);
    if data == [] {
      PackUnpack(adler);
    } else {
      hide Fold, Raw, Weighted, Total, Unpack;
      RawCongruent(s, s, data);
      RawClosed(s, data);
      FoldReduced(s, data);
      ReduceTwice(Fold(s, data).s1);
      ReduceTwice(Fold(s, data).s2);
      TimesIs(|data|, s.s1);
      UnpackIs(adler);
    }
  }

  lemma UnpackIs(adler: nat)
    ensures Unpack(adler).s1 == adler % 65536 && Unpack(adler).s2 == adler / 65536
  {
  }

  // ---------- the modulus ----------

  ghost predicate Prime(n: nat)
  {
    n >= 2 && forall d :: 2 <= d < n ==> n % d != 0
  }

  predicate NoneUpTo(n: nat, d: nat)
  {
    d < 2 || (n % d != 0 && NoneUpTo(n, d - 1))
  }

  lemma {:induction false} NoneBelow(n: nat, d: nat, e: nat)
    requires NoneUpTo(n, d) && 2 <= e <= d
    ensures n % e != 0
    decreases d
  {
    if e < d {
      NoneBelow(n, d - 1, e);
    }
  }

  lemma SmallDivisor(n: nat, d: nat)
    requires 256 <= d < n < 65536 && n % d == 0
    ensures 2 <= n / d <= 255 && n % (n / d) == 0
  {
    var q := n / d;
    assert n == d * q;
    assert q <= 255 by {
      assert q >= 256 ==> d * q >= 256 * 256;
    }
    assert q >= 2 by {
      assert q <= 1 ==> d * q <= d;
    }
    assert (q * d) % q == 0 by {
      ProductDivides(q, d);
    }
  }

  lemma ProductDivides(q: nat, d: nat)
    requires q > 0
    ensures (q * d) % q == 0
  {
    Bits.ModUnique(q * d, q, d, 0);
  }

  lemma CheckedFront()
    ensures NoneUpTo(65521, 74)
  {
    assert NoneUpTo(65521, 10);
    assert NoneUpTo(65521, 18);
    assert NoneUpTo(65521, 26);
    assert NoneUpTo(65521, 34);
    assert NoneUpTo(65521, 42);
    assert NoneUpTo(65521, 50);
    assert NoneUpTo(65521, 58);
    assert NoneUpTo(65521, 66);
    assert NoneUpTo(65521, 74);
  }

  lemma CheckedMiddle()
    ensures NoneUpTo(65521, 138)
  {
    CheckedFront();
    assert NoneUpTo(65521, 82);
    assert NoneUpTo(65521, 90);
    assert NoneUpTo(65521, 98);
    assert NoneUpTo(65521, 106);
    assert NoneUpTo(65521, 114);
    assert NoneUpTo(65521, 122);
    assert NoneUpTo(65521, 130);
    assert NoneUpTo(65521, 138);
  }

  lemma CheckedRear()
    ensures NoneUpTo(65521, 202)
  {
    CheckedMiddle();
    assert NoneUpTo(65521, 146);
    assert NoneUpTo(65521, 154);
    assert NoneUpTo(65521, 162);
    assert NoneUpTo(65521, 170);
    assert NoneUpTo(65521, 178);
    assert NoneUpTo(65521, 186);
    assert NoneUpTo(65521, 194);
    assert NoneUpTo(65521, 202);
  }

  lemma Checked()
    ensures NoneUpTo(65521, 255)
  {
    CheckedRear();
    assert NoneUpTo(65521, 210);
    assert NoneUpTo(65521, 218);
    assert NoneUpTo(65521, 226);
    assert NoneUpTo(65521, 234);
    assert NoneUpTo(65521, 242);
    assert NoneUpTo(65521, 250);
    assert NoneUpTo(65521, 255);
  }

  /** It is the largest prime below 65536. */
  lemma LargestPrime()
    ensures Prime(BASE) && forall n :: BASE < n < 65536 ==> !Prime(n)
  {
    Checked();
    forall d | 2 <= d < 65521
      ensures 65521 % d != 0
    {
      if d <= 255 {
        NoneBelow(65521, 255, d);
      } else if 65521 % d == 0 {
        SmallDivisor(65521, d);
        NoneBelow(65521, 255, 65521 / d);
      }
    }
    forall n | 65521 < n < 65536
      ensures !Prime(n)
    {
      Composite(n);
    }
  }

  lemma Composite(n: nat)
    requires 65521 < n < 65536
    ensures !Prime(n)
  {
    var d := if n % 2 == 0 then 2 else if n % 3 == 0 then 3 else if n % 5 == 0 then 5 else if n % 7 == 0 then 7
             else if n % 13 == 0 then 13 else 19;
    assert n % d == 0;
  }
}
