/** Powers of two and fixed-width bit strings, the common ground of the deflate writer and reader. */
module Bits {

  function Pow2(n: nat): (r: nat)
    ensures r > 0
  {
    if n == 0 then 1 else 2 * Pow2(n - 1)
  }

  lemma {:induction false} Pow2Add(a: nat, b: nat)
    ensures Pow2(a + b) == Pow2(a) * Pow2(b)
  {
    if a > 0 {
      Pow2Add(a - 1, b);
      assert Pow2(a + b) == 2 * Pow2(a - 1 + b);
    }
  }

  lemma {:induction false} Pow2Mono(a: nat, b: nat)
    requires a <= b
    ensures Pow2(a) <= Pow2(b)
    decreases b
  {
    if a < b {
      Pow2Mono(a, b - 1);
    }
  }

  lemma ByteFits(b: nat)
    requires b < 256
    ensures b < Pow2(8)
  {
    assert Pow2(8) == 256;
  }

  lemma Pow2Values()
    ensures Pow2(5) == 32 && Pow2(7) == 128 && Pow2(9) == 512 && Pow2(10) == 1024
    ensures Pow2(14) == 16384 && Pow2(15) == 32768 && Pow2(16) == 65536
  {
    assert Pow2(5) == 32;
    assert Pow2(10) == 1024;
    assert Pow2(14) == 16384;
  }

  /** v shifted right by n places. */
  function Shr(v: nat, n: nat): (r: nat)
  {
    if n == 0 then v else Shr(v / 2, n - 1)
  }

  lemma {:induction false} ShrIsDivision(v: nat, n: nat)
    ensures Shr(v, n) == v / Pow2(n)
  {
    if n > 0 {
      ShrIsDivision(v / 2, n - 1);
      DivDiv(v, Pow2(n - 1));
    }
  }

  lemma {:induction false} ShrAdd(v: nat, n: nat, m: nat)
    ensures Shr(v, n + m) == Shr(Shr(v, n), m)
  {
    if n > 0 {
      ShrAdd(v / 2, n - 1, m);
    }
  }

  /** v shifted left by n places. */
  function Shl(v: nat, n: nat): (r: nat)
  {
    if n == 0 then v else 2 * Shl(v, n - 1)
  }

  /** v with all but its low n bits masked off. */
  function Low(v: nat, n: nat): (r: nat)
    ensures r < Pow2(n)
  {
    if n == 0 then 0 else v % 2 + 2 * Low(v / 2, n - 1)
  }

  lemma {:induction false} LowIsRemainder(v: nat, n: nat)
    ensures Low(v, n) == v % Pow2(n)
  {
    if n > 0 {
      LowIsRemainder(v / 2, n - 1);
      ModSplit(v, Pow2(n - 1));
    }
  }

  lemma {:induction false} LowSmall(v: nat, n: nat)
    requires v < Pow2(n)
    ensures Low(v, n) == v
  {
    if n > 0 {
      LowSmall(v / 2, n - 1);
    }
  }

  lemma {:induction false} LowNext(v: nat, n: nat)
    ensures Low(v + Pow2(n), n) == Low(v, n)
  {
    if n > 0 {
      LowNext(v / 2, n - 1);
      assert (v + 2 * Pow2(n - 1)) / 2 == v / 2 + Pow2(n - 1);
    }
  }

  /** Numbers with the same low n bits are at least 2^n apart. */
  lemma {:induction false} LowApart(v: nat, w: nat, n: nat)
    requires v < w && Low(v, n) == Low(w, n)
    ensures v + Pow2(n) <= w
  {
    if n > 0 {
      assert v % 2 == w % 2;
      LowApart(v / 2, w / 2, n - 1);
    }
  }

  function BitInt(b: bool): (i: nat) { if b then 1 else 0 }

  /** The number a bit string denotes when its first bit is the least significant one. */
  function Val(bits: seq<bool>): (v: nat)
    ensures v < Pow2(|bits|)
  {
    if bits == [] then 0
    else
      var n := |bits| - 1;
      Val(bits[..n]) + (if bits[n] then Pow2(n) else 0)
  }

  /** The low n bits of v, least significant first: what writing v in n bits emits. */
  function LowBits(v: nat, n: nat): (bits: seq<bool>)
    ensures |bits| == n
  {
    seq(n, k requires 0 <= k < n => Shr(v, k) % 2 == 1)
  }

  /** The low n bits of v, most significant first: a Huffman code as a bit string. */
  function HighFirst(v: nat, n: nat): (bits: seq<bool>)
    ensures |bits| == n
  {
    if n == 0 then [] else HighFirst(v / 2, n - 1) + [v % 2 == 1]
  }

  lemma LowBitsStep(v: nat, n: nat)
    requires n > 0
    ensures LowBits(v, n) == [v % 2 == 1] + LowBits(v / 2, n - 1)
  {
  }

  lemma {:induction false} ValCons(b: bool, rest: seq<bool>)
    ensures Val([b] + rest) == BitInt(b) + 2 * Val(rest)
  {
    var s := [b] + rest;
    if rest == [] {
      assert s[..0] == [];
      assert Val(s[..0]) == 0 && Pow2(0) == 1;
    } else {
      var n := |rest| - 1;
      assert s[..n + 1] == [b] + rest[..n];
      ValCons(b, rest[..n]);
    }
  }

  lemma ValSnoc(bits: seq<bool>, b: bool)
    ensures Val(bits + [b]) == Val(bits) + (if b then Pow2(|bits|) else 0)
  {
    assert (bits + [b])[..|bits|] == bits;
  }

  /** The first bits count for what they are, the others for a multiple of a power of two. */
  lemma {:induction false} ValConcat(a: seq<bool>, b: seq<bool>)
    ensures Val(a + b) == Val(a) + Pow2(|a|) * Val(b)
  {
    hide Val, Pow2;
    if b == [] {
      assert a + b == a;
      ValNone();
    } else {
      var k := |b| - 1;
      var init, x := b[..k], b[k];
      ValConcat(a, init);
      assert b == init + [x] && a + b == a + init + [x];
      ValSnoc(init, x);
      ValSnoc(a + init, x);
      Pow2Add(|a|, k);
      Distribute(Pow2(|a|), Val(init), if x then Pow2(k) else 0);
    }
  }

  lemma ValNone()
    ensures Val([]) == 0
  {
  }

  lemma Distribute(p: nat, u: nat, v: nat)
    ensures p * (u + v) == p * u + p * v && p * 0 == 0
  {
  }

  lemma {:induction false} ValLowBits(v: nat, n: nat)
    ensures Val(LowBits(v, n)) == Low(v, n)
  {
    if n > 0 {
      ValLowBits(v / 2, n - 1);
      LowBitsStep(v, n);
      ValCons(v % 2 == 1, LowBits(v / 2, n - 1));
    }
  }

  lemma ModSplit(v: nat, m: nat)
    requires m > 0
    ensures v % (2 * m) == v % 2 + 2 * (v / 2 % m)
  {
    var h := v / 2;
    var q, r := h / m, h % m;
    assert v == 2 * (q * m + r) + v % 2;
    assert 2 * (q * m + r) == q * (2 * m) + 2 * r;
    ModUnique(v, 2 * m, q, v % 2 + 2 * r);
  }

  lemma MulAtLeast(d: int, m: nat)
    requires d >= 1
    ensures d * m >= m
  {
    assert d * m == (d - 1) * m + m;
  }

  lemma QuotientUnique(m: nat, q: int, r: int, q': int, r': int)
    requires m > 0 && 0 <= r < m && 0 <= r' < m && q * m + r == q' * m + r'
    ensures q == q' && r == r'
  {
    assert (q - q') * m == r' - r;
    if q > q' {
      MulAtLeast(q - q', m);
    } else if q < q' {
      assert (q' - q) * m == r - r';
      MulAtLeast(q' - q, m);
    }
  }

  lemma ModUnique(v: nat, m: nat, q: nat, r: nat)
    requires m > 0 && r < m && v == q * m + r
    ensures v % m == r && v / m == q
  {
    assert v == (v / m) * m + v % m;
    QuotientUnique(m, q, r, v / m, v % m);
  }

  /** A bit string is determined by its length and its value. */
  lemma {:induction false} LowBitsVal(bits: seq<bool>)
    ensures LowBits(Val(bits), |bits|) == bits
  {
    if bits != [] {
      var b, rest, v := bits[0], bits[1..], Val(bits);
      assert v == BitInt(b) + 2 * Val(rest) by {
        assert bits == [b] + rest;
        ValCons(b, rest);
      }
      LowBitsVal(rest);
      LowBitsStep(v, |bits|);
      assert v / 2 == Val(rest);
    }
  }

  lemma {:induction false} LowBitsInjective(u: nat, v: nat, n: nat)
    requires u < Pow2(n) && v < Pow2(n)
    requires LowBits(u, n) == LowBits(v, n)
    ensures u == v
  {
    if n > 0 {
      LowBitsStep(u, n);
      LowBitsStep(v, n);
      var p, q := LowBits(u, n), LowBits(v, n);
      assert p[0] == q[0] && p[1..] == LowBits(u / 2, n - 1) && q[1..] == LowBits(v / 2, n - 1);
      LowBitsInjective(u / 2, v / 2, n - 1);
    }
  }

  lemma DivDiv(v: nat, m: nat)
    requires m > 0
    ensures v / 2 / m == v / (2 * m)
  {
    var h := v / 2;
    var q, r := h / m, h % m;
    assert v == 2 * (q * m + r) + v % 2;
    assert 2 * (q * m + r) == q * (2 * m) + 2 * r;
    ModUnique(v, 2 * m, q, v % 2 + 2 * r);
  }

  lemma LowBitsAppend(v: nat, n: nat, m: nat)
    ensures LowBits(v, n + m) == LowBits(v, n) + LowBits(Shr(v, n), m)
  {
    forall k | 0 <= k < m
      ensures Shr(v, n + k) == Shr(Shr(v, n), k)
    {
      ShrAdd(v, n, k);
    }
  }

  lemma {:induction false} HighFirstPrefix(v: nat, n: nat, k: nat)
    requires k <= n
    ensures HighFirst(v, n)[..k] == HighFirst(Shr(v, n - k), k)
    decreases n
  {
    if k < n {
      HighFirstPrefix(v / 2, n - 1, k);
      assert HighFirst(v, n)[..k] == HighFirst(v / 2, n - 1)[..k];
    }
  }

  lemma {:induction false} HighFirstInjective(u: nat, v: nat, n: nat)
    requires u < Pow2(n) && v < Pow2(n)
    requires HighFirst(u, n) == HighFirst(v, n)
    ensures u == v
  {
    if n > 0 {
      var p, q := HighFirst(u, n), HighFirst(v, n);
      assert p[..n - 1] == HighFirst(u / 2, n - 1) && q[..n - 1] == HighFirst(v / 2, n - 1);
      HighFirstInjective(u / 2, v / 2, n - 1);
      assert p[n - 1] == (u % 2 == 1) && q[n - 1] == (v % 2 == 1);
    }
  }

  /** Every bit string of length n is the code of exactly one number below 2^n. */
  function FromHighFirst(bits: seq<bool>): (v: nat)
    ensures v < Pow2(|bits|)
  {
    if bits == [] then 0
    else 2 * FromHighFirst(bits[..|bits| - 1]) + BitInt(bits[|bits| - 1])
  }

  lemma {:induction false} HighFirstOfBits(bits: seq<bool>)
    ensures HighFirst(FromHighFirst(bits), |bits|) == bits
  {
    if bits != [] {
      var n := |bits| - 1;
      HighFirstOfBits(bits[..n]);
      assert bits == bits[..n] + [bits[n]];
    }
  }
}
