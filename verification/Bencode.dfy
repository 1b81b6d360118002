/**
 Bencoding (BEP 3; avhttp/include/avhttp/bencode.hpp, entry.hpp): integers, byte strings, lists and dictionaries as
 self-delimiting byte strings.
 */
module Bencode {
  import opened Common

  /** A dictionary is its entries in the order of their keys. */
  datatype Entry =
    | Undefined
    | Int(value: int)
    | Str(bytes: seq<Byte>)
    | List(items: seq<Entry>)
    | Dict(pairs: seq<Pair>)

  datatype Pair = Pair(key: seq<Byte>, value: Entry)

  const CH_I: Byte := 105
  const CH_L: Byte := 108
  const CH_D: Byte := 100
  const CH_E: Byte := 101
  const COLON: Byte := 58
  const MINUS: Byte := 45
  const PLUS: Byte := 43

  // ---------- numbers ----------

  predicate IsDigit(b: Byte)
  {
    48 <= b <= 57
  }

  function Decimal(n: nat): (s: seq<Byte>)
    ensures |s| >= 1 && forall i :: 0 <= i < |s| ==> IsDigit(s[i])
  {
    if n < 10 then [48 + n] else Decimal(n / 10) + [48 + n % 10]
  }

  function Number(i: int): (s: seq<Byte>)
  {
    if i < 0 then [MINUS] + Decimal(-i) else Decimal(i)
  }

  /** The value of leading digits, starting from acc. */
  function Digits(s: seq<Byte>, acc: nat): (n: nat)
  {
    if s == [] || !IsDigit(s[0]) then acc else Digits(s[1..], 10 * acc + (s[0] - 48))
  }

  predicate IsSpace(b: Byte)
  {
    b == 32 || 9 <= b <= 13
  }

  function SkipSpace(s: seq<Byte>): (r: seq<Byte>)
  {
    if s == [] || !IsSpace(s[0]) then s else SkipSpace(s[1..])
  }

  const INT64_MAX: int := 0x7FFF_FFFF_FFFF_FFFF
  const INT64_MIN: int := -0x8000_0000_0000_0000

  function Saturate(i: int): (r: int)
    ensures INT64_MIN <= r <= INT64_MAX
  {
    if i > INT64_MAX then INT64_MAX else if i < INT64_MIN then INT64_MIN else i
  }

  /** strtoll in base 10: white space, a sign, digits; None without digits. Values out of range are clamped. */
  function StrToLl(s: seq<Byte>): (r: Option<int>)
  {
    var t := SkipSpace(s);
    var negative := t != [] && t[0] == MINUS;
    var u := if t != [] && (t[0] == MINUS || t[0] == PLUS) then t[1..] else t;
    if u == [] || !IsDigit(u[0]) then None
    else
      var n: int := Digits(u, 0);
      Some(Saturate(if negative then -n else n))
  }

  lemma {:induction false} DigitsSnoc(s: seq<Byte>, d: Byte, acc: nat)
    requires IsDigit(d) && forall i :: 0 <= i < |s| ==> IsDigit(s[i])
    ensures Digits(s + [d], acc) == 10 * Digits(s, acc) + (d - 48)
  {
    if s == [] {
      assert s + [d] == [d] && [d][1..] == [];
      assert Digits([d][1..], 10 * acc + (d - 48)) == 10 * acc + (d - 48);
    } else {
      DigitsSnoc(s[1..], d, 10 * acc + (s[0] - 48));
      assert (s + [d])[1..] == s[1..] + [d];
    }
  }

  lemma {:induction false} DecimalValue(n: nat)
    ensures Digits(Decimal(n), 0) == n
  {
    if n < 10 {
      var s: seq<Byte> := [48 + n];
      assert Decimal(n) == s && s[1..] == [];
      assert Digits(s[1..], 10 * 0 + (s[0] - 48)) == n;
    } else {
      DecimalValue(n / 10);
      DigitsSnoc(Decimal(n / 10), 48 + n % 10, 0);
    }
  }

  /** Numbers within 64 bits are read back. */
  lemma NumberRead(i: int)
    requires INT64_MIN <= i <= INT64_MAX
    ensures StrToLl(Number(i)) == Some(i)
  {
    hide Decimal, Digits;
    var n := if i < 0 then -i else i;
    DecimalValue(n);
    var d := Decimal(n);
    assert IsDigit(d[0]);
    if i < 0 {
      assert Number(i)[1..] == d && Number(i)[0] == MINUS;
    }
  }

  // ---------- the buffer for digits ----------

  function Pow10(k: nat): (p: nat)
    ensures p >= 1
  {
    if k == 0 then 1 else 10 * Pow10(k - 1)
  }

  lemma {:induction false} DecimalLength(n: nat, k: nat)
    requires k >= 1 && n < Pow10(k)
    ensures |Decimal(n)| <= k
  {
    if n >= 10 {
      assert k >= 2;
      DecimalLength(n / 10, k - 1);
    }
  }

  lemma NineteenDigits(n: nat)
    requires n <= INT64_MAX
    ensures |Decimal(n)| <= 19
  {
    assert Pow10(5) == 100000;
    assert Pow10(10) == 10000000000;
    assert Pow10(15) == 1000000000000000;
    assert Pow10(19) == 10000000000000000000;
    DecimalLength(n, 19);
  }

  const BUFFER: nat := 21

  /**
   Writes the digits backwards into the buffer. For every 64-bit value but the smallest, whose negation does not exist,
   the digits, a sign and the final zero fit.
   */
  method IntegerToStr(buf: array<Byte>, val: int) returns (start: nat)
    requires buf.Length == BUFFER && INT64_MIN < val <= INT64_MAX
    modifies buf
    ensures start < BUFFER && buf[start..BUFFER - 1] == Number(val) && buf[BUFFER - 1] == 0
  {
    hide Decimal, NonZero;
    var sign: nat, v, size := 0, val, BUFFER;
    if v < 0 {
      sign, v := 1, -v;
    }
    ghost var n := v;
    NineteenDigits(n);
    size := size - 1;
    buf[size] := 0;
    FirstDigits(n);
    if v == 0 {
      size := size - 1;
      buf[size] := 48;
      assert buf[size..20] == [48];
    } else {
      assert buf[size..20] == [];
    }
    size := PutDigits(buf, size, v, sign, Decimal(n));
    if sign == 1 {
      size := size - 1;
      ghost var digits := buf[size + 1..20];
      buf[size] := MINUS;
      assert buf[size..20] == [MINUS] + digits;
    }
    start := size;
  }

  /** The loop that writes the digits of v in front of those already written. */
  method PutDigits(buf: array<Byte>, size: nat, v: nat, sign: nat, ghost all: seq<Byte>) returns (size': nat)
    requires buf.Length == BUFFER && 1 <= size <= 20 && sign <= 1 && buf[20] == 0
    requires |all| <= 19 && NonZero(v) + buf[size..20] == all
    modifies buf
    ensures 1 <= size' <= 20 && buf[20] == 0 && buf[size'..20] == all
  {
    hide NonZero, Digit, Tenth;
    size' := size;
    var v' := v;
    while size' > sign && v' != 0
      invariant 1 <= size' <= 20 && buf[20] == 0
      invariant NonZero(v') + buf[size'..20] == all
      decreases size'
    {
      ghost var before := buf[size'..20];
      LastDigit(v', before);
      size' := size' - 1;
      buf[size'] := Digit(v');
      assert buf[size'..20] == [Digit(v')] + before;
      v' := Tenth(v');
    }
    NoneLeft(v', all, buf[size'..20], size', sign);
  }

  /** The digits of a number, none for zero. */
  ghost function NonZero(v: nat): (s: seq<Byte>)
  {
    if v == 0 then [] else Decimal(v)
  }

  function Digit(v: nat): (d: Byte)
  {
    48 + v % 10
  }

  function Tenth(v: nat): (q: nat)
  {
    v / 10
  }

  lemma FirstDigits(n: nat)
    ensures n == 0 ==> NonZero(n) + [48] == Decimal(n)
    ensures n != 0 ==> NonZero(n) + [] == Decimal(n)
  {
  }

  lemma LastDigit(v: nat, rest: seq<Byte>)
    requires v > 0
    ensures NonZero(v) + rest == NonZero(Tenth(v)) + ([Digit(v)] + rest)
  {
    assert NonZero(v) == NonZero(Tenth(v)) + [Digit(v)];
  }

  /** The loop ends because the digits are used up, not because the buffer is full. */
  lemma NoneLeft(v: nat, all: seq<Byte>, written: seq<Byte>, size: nat, sign: nat)
    requires NonZero(v) + written == all && |all| <= 19 && |written| == 20 - size && sign <= 1
             && (size <= sign || v == 0)
    ensures v == 0 && written == all && size >= 1
  {
  }

  // ---------- encoding ----------

  function EncodeStr(s: seq<Byte>): (out: seq<Byte>)
  {
    Decimal(|s|) + [COLON] + s
  }

  function Encode(e: Entry): (out: seq<Byte>)
    decreases e
  {
    match e
    case Undefined => []
    case Int(i) => [CH_I] + Number(i) + [CH_E]
    case Str(s) => EncodeStr(s)
    case List(items) => [CH_L] + EncodeItems(items) + [CH_E]
    case Dict(pairs) => [CH_D] + EncodePairs(pairs) + [CH_E]
  }

  function EncodeItems(items: seq<Entry>): (out: seq<Byte>)
    decreases items
  {
    if items == [] then [] else Encode(items[0]) + EncodeItems(items[1..])
  }

  function EncodePairs(pairs: seq<Pair>): (out: seq<Byte>)
    decreases pairs
  {
    if pairs == [] then [] else EncodeStr(pairs[0].key) + Encode(pairs[0].value) + EncodePairs(pairs[1..])
  }

  // ---------- decoding ----------

  /** An entry, the place behind it, and the error flag. */
  datatype Result = Result(entry: Entry, pos: nat, err: bool)

  const MAX_DEPTH: nat := 100

  /** The place of the next `token` from pos on, or |s|. */
  function Find(s: seq<Byte>, pos: nat, token: Byte): (p: nat)
    requires pos <= |s|
    ensures pos <= p <= |s| && (p < |s| ==> s[p] == token) && forall i :: pos <= i < p ==> s[i] != token
    decreases |s| - pos
  {
    if pos == |s| || s[pos] == token then pos else Find(s, pos + 1, token)
  }

  function DecodeInt(s: seq<Byte>, pos: nat): (r: Result)
    requires pos < |s|
  {
    var p := Find(s, pos + 1, CH_E);
    if p == |s| then Result(Undefined, p, true)
    else
      match StrToLl(s[pos + 1..p])
      case None => Result(Int(0), p + 1, true)
      case Some(i) => Result(Int(i), p + 1, false)
  }

  function DecodeStr(s: seq<Byte>, pos: nat): (r: Result)
    requires pos < |s|
    ensures !r.err ==> pos < r.pos <= |s| && r.entry.Str?
  {
    var p := Find(s, pos, COLON);
    if p == |s| then Result(Undefined, p, true)
    else
      var len := match StrToLl(s[pos..p]) case None => 0 case Some(n) => if n < 0 then 0 else n;
      if p + 1 + len > |s| then Result(Str(s[p + 1..]), |s|, true)
      else Result(Str(s[p + 1..p + 1 + len]), p + 1 + len, false)
  }

  /** Assigns to a key, keeping keys in order. */
  function PutPair(pairs: seq<Pair>, key: seq<Byte>, value: Entry): (r: seq<Pair>)
  {
    if pairs == [] || Before(key, pairs[0].key) then [Pair(key, value)] + pairs
    else if pairs[0].key == key then [Pair(key, value)] + pairs[1..]
    else [pairs[0]] + PutPair(pairs[1..], key, value)
  }

  /** The order of keys: byte by byte, a prefix first. */
  predicate Before(a: seq<Byte>, b: seq<Byte>)
  {
    b != [] && (a == [] || a[0] < b[0] || (a[0] == b[0] && Before(a[1..], b[1..])))
  }

  /** Reading past the end of the input is an error here. */
  function Decode(s: seq<Byte>, pos: nat, depth: nat): (r: Result)
    requires pos <= |s|
    ensures !r.err ==> pos < r.pos <= |s|
    decreases MAX_DEPTH - depth, |s| - pos, 2
  {
    if depth >= MAX_DEPTH || pos == |s| then Result(Undefined, pos, true)
    else if s[pos] == CH_I then DecodeInt(s, pos)
    else if s[pos] == CH_L then DecodeItems(s, pos + 1, depth, [])
    else if s[pos] == CH_D then DecodePairs(s, pos + 1, depth, [])
    else if IsDigit(s[pos]) then DecodeStr(s, pos)
    else Result(Undefined, pos, true)
  }

  function DecodeItems(s: seq<Byte>, pos: nat, depth: nat, items: seq<Entry>): (r: Result)
    requires pos <= |s| && depth < MAX_DEPTH
    ensures !r.err ==> pos < r.pos <= |s|
    decreases MAX_DEPTH - depth, |s| - pos, 1
  {
    if pos == |s| then Result(List(items), pos, true)
    else if s[pos] == CH_E then Result(List(items), pos + 1, false)
    else
      var r := Decode(s, pos, depth + 1);
      if r.err then Result(List(items + [r.entry]), r.pos, true)
      else DecodeItems(s, r.pos, depth, items + [r.entry])
  }

  /** A key that is not a string ends the dictionary without an error. */
  function DecodePairs(s: seq<Byte>, pos: nat, depth: nat, pairs: seq<Pair>): (r: Result)
    requires pos <= |s| && depth < MAX_DEPTH
    ensures !r.err ==> pos < r.pos <= |s|
    decreases MAX_DEPTH - depth, |s| - pos, 1
  {
    if pos == |s| then Result(Dict(pairs), pos, true)
    else if s[pos] == CH_E then Result(Dict(pairs), pos + 1, false)
    else
      var k := Decode(s, pos, depth + 1);
      if k.err then Result(Dict(pairs), k.pos, true)
      else if !k.entry.Str? then Result(Dict(pairs), k.pos, false)
      else
        var v := Decode(s, k.pos, depth + 1);
        if v.err then Result(Dict(PutPair(pairs, k.entry.bytes, v.entry)), v.pos, true)
        else DecodePairs(s, v.pos, depth, PutPair(pairs, k.entry.bytes, v.entry))
  }

  /** What the caller gets: an undefined entry on any error. */
  function Bdecode(s: seq<Byte>): (e: Entry)
  {
    var r := Decode(s, 0, 0);
    if r.err then Undefined else r.entry
  }

  // ---------- what can be encoded ----------

  const INT32_MAX: int := 0x7FFF_FFFF

  ghost predicate KeysSorted(pairs: seq<Pair>)
  {
    forall i, j :: 0 <= i < j < |pairs| ==> Before(pairs[i].key, pairs[j].key)
  }

  /** Integers and string lengths within the ranges of the C types, dictionaries in the order of their keys. */
  ghost predicate InRange(e: Entry)
    decreases e
  {
    match e
    case Undefined => true
    case Int(i) => INT64_MIN < i <= INT64_MAX
    case Str(s) => |s| <= INT32_MAX
    case List(items) => forall i :: 0 <= i < |items| ==> InRange(items[i])
    case Dict(pairs) =>
      KeysSorted(pairs) && forall i :: 0 <= i < |pairs| ==> |pairs[i].key| <= INT32_MAX && InRange(pairs[i].value)
  }

  /** No part of the entry is undefined. */
  ghost predicate Defined(e: Entry)
    decreases e
  {
    match e
    case Undefined => false
    case Int(_) => true
    case Str(_) => true
    case List(items) => forall i :: 0 <= i < |items| ==> Defined(items[i])
    case Dict(pairs) => forall i :: 0 <= i < |pairs| ==> Defined(pairs[i].value)
  }

  /** The entry, with its keys, is nested at most h deep. */
  ghost predicate Nested(e: Entry, h: int)
    decreases e
  {
    && h >= 1
    && match e
       case List(items) => forall i :: 0 <= i < |items| ==> Nested(items[i], h - 1)
       case Dict(pairs) => forall i :: 0 <= i < |pairs| ==> h >= 2 && Nested(pairs[i].value, h - 1)
       case _ => true
  }

  // ---------- places in the input ----------

  ghost predicate HasAt(s: seq<Byte>, pos: nat, t: seq<Byte>)
  {
    pos + |t| <= |s| && s[pos..pos + |t|] == t
  }

  lemma HasParts(s: seq<Byte>, pos: nat, a: seq<Byte>, b: seq<Byte>)
    requires HasAt(s, pos, a + b)
    ensures HasAt(s, pos, a) && HasAt(s, pos + |a|, b)
  {
    var t := s[pos..pos + |a + b|];
    assert s[pos..pos + |a|] == t[..|a|] && s[pos + |a|..pos + |a| + |b|] == t[|a|..];
  }

  lemma HasByte(s: seq<Byte>, pos: nat, b: Byte)
    requires HasAt(s, pos, [b])
    ensures pos < |s| && s[pos] == b
  {
    assert s[pos..pos + 1][0] == b;
  }

  lemma HasFirst(s: seq<Byte>, pos: nat, t: seq<Byte>)
    requires HasAt(s, pos, t) && t != []
    ensures pos < |s| && s[pos] == t[0]
  {
    assert s[pos..pos + |t|][0] == t[0];
  }

  /** The next token is right behind a stretch without it. */
  lemma FindsAfter(s: seq<Byte>, pos: nat, t: seq<Byte>, token: Byte)
    requires HasAt(s, pos, t) && HasAt(s, pos + |t|, [token]) && forall i :: 0 <= i < |t| ==> t[i] != token
    ensures Find(s, pos, token) == pos + |t|
  {
    HasByte(s, pos + |t|, token);
    forall i | pos <= i < pos + |t|
      ensures s[i] != token
    {
      assert s[pos..pos + |t|][i - pos] == t[i - pos];
    }
  }

  // ---------- reading back ----------

  lemma NumberHasNoE(i: int)
    ensures forall k :: 0 <= k < |Number(i)| ==> Number(i)[k] != CH_E
  {
    hide Decimal;
    var d := Decimal(if i < 0 then -i else i);
    assert forall k :: 0 <= k < |d| ==> IsDigit(d[k]);
  }

  lemma IntRead(s: seq<Byte>, pos: nat, i: int)
    requires INT64_MIN < i <= INT64_MAX && HasAt(s, pos, [CH_I] + Number(i) + [CH_E])
    ensures pos < |s| && DecodeInt(s, pos) == Result(Int(i), pos + |Number(i)| + 2, false)
  {
    hide StrToLl, Number;
    HasParts(s, pos, [CH_I] + Number(i), [CH_E]);
    HasParts(s, pos, [CH_I], Number(i));
    HasByte(s, pos, CH_I);
    NumberHasNoE(i);
    FindsAfter(s, pos + 1, Number(i), CH_E);
    HasByte(s, pos + 1 + |Number(i)|, CH_E);
    NumberRead(i);
  }

  lemma StrRead(s: seq<Byte>, pos: nat, t: seq<Byte>)
    requires |t| <= INT32_MAX && HasAt(s, pos, EncodeStr(t))
    ensures pos < |s| && IsDigit(s[pos]) && DecodeStr(s, pos) == Result(Str(t), pos + |EncodeStr(t)|, false)
  {
    hide StrToLl, Decimal;
    var d := Decimal(|t|);
    HasParts(s, pos, d + [COLON], t);
    HasParts(s, pos, d, [COLON]);
    assert IsDigit(d[0]) && forall k :: 0 <= k < |d| ==> IsDigit(d[k]);
    HasFirst(s, pos, d);
    FindsAfter(s, pos, d, COLON);
    HasByte(s, pos + |d|, COLON);
    NumberRead(|t|);
    assert Number(|t|) == d;
  }

  lemma FirstByte(e: Entry)
    requires Defined(e)
    ensures Encode(e) != [] && Encode(e)[0] != CH_E
  {
    hide Decimal;
    if e.Str? {
      var d := Decimal(|e.bytes|);
      assert IsDigit(d[0]);
    }
  }

  /** Decoding reads an encoded entry wherever it stands, whatever follows it. */
  lemma {:induction false} EntryRead(s: seq<Byte>, pos: nat, depth: nat, e: Entry)
    requires HasAt(s, pos, Encode(e)) && InRange(e) && Defined(e) && Nested(e, MAX_DEPTH - depth)
    ensures Decode(s, pos, depth) == Result(e, pos + |Encode(e)|, false)
    decreases e
  {
    hide Decode, Encode, HasAt;
    match e {
      case Int(i) => IntEntryRead(s, pos, depth, i);
      case Str(t) => StrEntryRead(s, pos, depth, t);
      case List(items) =>
        ListStart(s, pos, items);
        ItemsRead(s, pos + 1, depth, [], items);
        ListEntryRead(s, pos, depth, items);
      case Dict(pairs) =>
        DictStart(s, pos, pairs);
        assert [] + pairs == pairs;
        PairsRead(s, pos + 1, depth, [], pairs);
        DictEntryRead(s, pos, depth, pairs);
    }
  }

  lemma IntEntryRead(s: seq<Byte>, pos: nat, depth: nat, i: int)
    requires depth < MAX_DEPTH && INT64_MIN < i <= INT64_MAX && HasAt(s, pos, Encode(Int(i)))
    ensures Decode(s, pos, depth) == Result(Int(i), pos + |Encode(Int(i))|, false)
  {
    hide DecodeInt, HasAt, Number;
    IntRead(s, pos, i);
    HasFirst(s, pos, [CH_I] + Number(i) + [CH_E]);
  }

  lemma StrEntryRead(s: seq<Byte>, pos: nat, depth: nat, t: seq<Byte>)
    requires depth < MAX_DEPTH && |t| <= INT32_MAX && HasAt(s, pos, Encode(Str(t)))
    ensures Decode(s, pos, depth) == Result(Str(t), pos + |Encode(Str(t))|, false)
  {
    hide DecodeStr, HasAt, EncodeStr;
    StrRead(s, pos, t);
  }

  lemma ListStart(s: seq<Byte>, pos: nat, items: seq<Entry>)
    requires HasAt(s, pos, Encode(List(items)))
    ensures pos < |s| && s[pos] == CH_L && HasAt(s, pos + 1, EncodeItems(items))
    ensures HasAt(s, pos + 1 + |EncodeItems(items)|, [CH_E])
  {
    hide HasAt, EncodeItems;
    HasParts(s, pos, [CH_L] + EncodeItems(items), [CH_E]);
    HasParts(s, pos, [CH_L], EncodeItems(items));
    HasByte(s, pos, CH_L);
  }

  lemma ListEntryRead(s: seq<Byte>, pos: nat, depth: nat, items: seq<Entry>)
    requires depth < MAX_DEPTH && pos < |s| && s[pos] == CH_L
    requires DecodeItems(s, pos + 1, depth, []) == Result(List([] + items), pos + 1 + |EncodeItems(items)| + 1, false)
    ensures Decode(s, pos, depth) == Result(List(items), pos + |Encode(List(items))|, false)
  {
    hide DecodeItems, EncodeItems;
    assert [] + items == items;
  }

  lemma DictStart(s: seq<Byte>, pos: nat, pairs: seq<Pair>)
    requires HasAt(s, pos, Encode(Dict(pairs)))
    ensures pos < |s| && s[pos] == CH_D && HasAt(s, pos + 1, EncodePairs(pairs))
    ensures HasAt(s, pos + 1 + |EncodePairs(pairs)|, [CH_E])
  {
    hide HasAt, EncodePairs;
    HasParts(s, pos, [CH_D] + EncodePairs(pairs), [CH_E]);
    HasParts(s, pos, [CH_D], EncodePairs(pairs));
    HasByte(s, pos, CH_D);
  }

  lemma DictEntryRead(s: seq<Byte>, pos: nat, depth: nat, pairs: seq<Pair>)
    requires depth < MAX_DEPTH && pos < |s| && s[pos] == CH_D
    requires DecodePairs(s, pos + 1, depth, []) == Result(Dict([] + pairs), pos + 1 + |EncodePairs(pairs)| + 1, false)
    ensures Decode(s, pos, depth) == Result(Dict(pairs), pos + |Encode(Dict(pairs))|, false)
  {
    hide DecodePairs, EncodePairs;
    assert [] + pairs == pairs;
  }

  lemma {:induction false} ItemsRead(s: seq<Byte>, pos: nat, depth: nat, done: seq<Entry>, items: seq<Entry>)
    requires depth < MAX_DEPTH && HasAt(s, pos, EncodeItems(items)) && HasAt(s, pos + |EncodeItems(items)|, [CH_E])
    requires forall i :: 0 <= i < |items| ==>
             InRange(items[i]) && Defined(items[i]) && Nested(items[i], MAX_DEPTH - depth - 1)
    ensures pos <= |s| && DecodeItems(s, pos, depth, done) == Result(List(done + items), pos + |EncodeItems(items)| + 1, false)
    decreases items
  {
    hide Decode, HasAt, InRange, Defined, Nested, Encode, Find, Before;
    HasByte(s, pos + |EncodeItems(items)|, CH_E);
    if items == [] {
      assert done + items == done;
    } else {
      var first, rest := Encode(items[0]), EncodeItems(items[1..]);
      HasParts(s, pos, first, rest);
      FirstByte(items[0]);
      HasFirst(s, pos, first);
      EntryRead(s, pos, depth + 1, items[0]);
      ItemsRead(s, pos + |first|, depth, done + [items[0]], items[1..]);
      assert done + [items[0]] + items[1..] == done + items;
    }
  }

  lemma {:induction false} BeforeOrder(a: seq<Byte>, b: seq<Byte>)
    requires Before(a, b)
    ensures !Before(b, a) && a != b
  {
    if a != [] && b != [] && a[0] == b[0] {
      BeforeOrder(a[1..], b[1..]);
    }
  }

  lemma {:induction false} PutPairLast(pairs: seq<Pair>, key: seq<Byte>, value: Entry)
    requires forall i :: 0 <= i < |pairs| ==> Before(pairs[i].key, key)
    ensures PutPair(pairs, key, value) == pairs + [Pair(key, value)]
  {
    if pairs != [] {
      BeforeOrder(pairs[0].key, key);
      PutPairLast(pairs[1..], key, value);
    }
  }

  lemma {:induction false} PairsRead(s: seq<Byte>, pos: nat, depth: nat, done: seq<Pair>, pairs: seq<Pair>)
    requires depth < MAX_DEPTH && HasAt(s, pos, EncodePairs(pairs)) && HasAt(s, pos + |EncodePairs(pairs)|, [CH_E])
    requires KeysSorted(done + pairs)
    requires forall i :: 0 <= i < |pairs| ==>
             |pairs[i].key| <= INT32_MAX && depth + 2 <= MAX_DEPTH && InRange(pairs[i].value)
                                              && Defined(pairs[i].value) && Nested(pairs[i].value, MAX_DEPTH - depth - 1)
    ensures pos <= |s| && DecodePairs(s, pos, depth, done) == Result(Dict(done + pairs), pos + |EncodePairs(pairs)| + 1, false)
    decreases pairs
  {
    hide Decode, HasAt, InRange, Defined, Nested, EncodeStr, Encode, Before, PutPair, Find;
    HasByte(s, pos + |EncodePairs(pairs)|, CH_E);
    if pairs == [] {
      assert done + pairs == done;
    } else {
      var p := pairs[0];
      var key, value, rest := EncodeStr(p.key), Encode(p.value), EncodePairs(pairs[1..]);
      HasParts(s, pos, key + value, rest);
      HasParts(s, pos, key, value);
      KeyRead(s, pos, depth + 1, p.key);
      EntryRead(s, pos + |key|, depth + 1, p.value);
      PutNext(done, pairs);
      PairsRead(s, pos + |key| + |value|, depth, done + [p], pairs[1..]);
      assert done + [p] + pairs[1..] == done + pairs;
    }
  }

  lemma KeyRead(s: seq<Byte>, pos: nat, depth: nat, t: seq<Byte>)
    requires depth < MAX_DEPTH && |t| <= INT32_MAX && HasAt(s, pos, EncodeStr(t))
    ensures pos < |s| && s[pos] != CH_E && Decode(s, pos, depth) == Result(Str(t), pos + |EncodeStr(t)|, false)
  {
    hide DecodeStr, HasAt, EncodeStr;
    StrRead(s, pos, t);
  }

  lemma PutNext(done: seq<Pair>, pairs: seq<Pair>)
    requires KeysSorted(done + pairs) && pairs != []
    ensures PutPair(done, pairs[0].key, pairs[0].value) == done + [pairs[0]]
    ensures KeysSorted(done + [pairs[0]] + pairs[1..])
  {
    hide Before;
    var all := done + pairs;
    assert done + [pairs[0]] + pairs[1..] == all;
    forall i | 0 <= i < |done|
      ensures Before(done[i].key, pairs[0].key)
    {
      assert Before(all[i].key, all[|done|].key);
    }
    PutPairLast(done, pairs[0].key, pairs[0].value);
  }

  // ---------- the round trip ----------

  /** An encoded entry is read back, and decoding stops exactly behind it: no encoding is a prefix of another. */
  lemma ReadsExactly(e: Entry, suffix: seq<Byte>)
    requires InRange(e) && Defined(e) && Nested(e, MAX_DEPTH)
    ensures Decode(Encode(e) + suffix, 0, 0) == Result(e, |Encode(e)|, false)
  {
    hide Decode, Encode, InRange, Defined, Nested;
    var s := Encode(e) + suffix;
    assert s[0..0 + |Encode(e)|] == Encode(e);
    EntryRead(s, 0, 0, e);
  }

  lemma NoPrefix(a: Entry, b: Entry, suffix: seq<Byte>)
    requires InRange(a) && Defined(a) && Nested(a, MAX_DEPTH) && InRange(b) && Defined(b) && Nested(b, MAX_DEPTH)
    requires Encode(b) == Encode(a) + suffix
    ensures a == b && suffix == []
  {
    hide Decode, Encode, InRange, Defined, Nested;
    ReadsExactly(a, suffix);
    ReadsExactly(b, []);
    assert Encode(b) + [] == Encode(b);
  }

  ghost predicate GoodPairs(pairs: seq<Pair>, h: int)
  {
    forall i :: 0 <= i < |pairs| ==> Defined(pairs[i].value) && Nested(pairs[i].value, h)
  }

  lemma {:induction false} PutPairKeeps(pairs: seq<Pair>, key: seq<Byte>, value: Entry, h: int)
    requires Defined(value) && Nested(value, h) && GoodPairs(pairs, h)
    ensures GoodPairs(PutPair(pairs, key, value), h)
  {
    hide Defined, Nested, Before;
    var r := PutPair(pairs, key, value);
    if pairs != [] {
      PutPairKeeps(pairs[1..], key, value, h);
      var tail := PutPair(pairs[1..], key, value);
      forall i | 0 <= i < |r|
        ensures Defined(r[i].value) && Nested(r[i].value, h)
      {
        assert 1 <= i && r == [pairs[0]] + tail ==> r[i] == tail[i - 1];
      }
    }
  }

  /** What is decoded without an error has no undefined part and is not nested too deep. */
  lemma {:induction false} DecodedIsDefined(s: seq<Byte>, pos: nat, depth: nat)
    requires pos <= |s| && !Decode(s, pos, depth).err
    ensures Defined(Decode(s, pos, depth).entry) && Nested(Decode(s, pos, depth).entry, MAX_DEPTH - depth)
    decreases MAX_DEPTH - depth, |s| - pos, 2
  {
    hide StrToLl, Find;
    if s[pos] == CH_L {
      ItemsAreDefined(s, pos + 1, depth, []);
    } else if s[pos] == CH_D {
      PairsAreDefined(s, pos + 1, depth, []);
    }
  }

  lemma {:induction false} ItemsAreDefined(s: seq<Byte>, pos: nat, depth: nat, items: seq<Entry>)
    requires pos <= |s| && depth < MAX_DEPTH && !DecodeItems(s, pos, depth, items).err
    requires forall i :: 0 <= i < |items| ==> Defined(items[i]) && Nested(items[i], MAX_DEPTH - depth - 1)
    ensures var e := DecodeItems(s, pos, depth, items).entry; Defined(e) && Nested(e, MAX_DEPTH - depth)
    decreases MAX_DEPTH - depth, |s| - pos, 1
  {
    hide Decode;
    if s[pos] != CH_E {
      var r := Decode(s, pos, depth + 1);
      DecodedIsDefined(s, pos, depth + 1);
      ItemsAreDefined(s, r.pos, depth, items + [r.entry]);
    }
  }

  lemma {:induction false} PairsAreDefined(s: seq<Byte>, pos: nat, depth: nat, pairs: seq<Pair>)
    requires pos <= |s| && depth < MAX_DEPTH && !DecodePairs(s, pos, depth, pairs).err
    requires GoodPairs(pairs, MAX_DEPTH - depth - 1) && (pairs != [] ==> depth + 2 <= MAX_DEPTH)
    ensures var e := DecodePairs(s, pos, depth, pairs).entry; Defined(e) && Nested(e, MAX_DEPTH - depth)
    decreases MAX_DEPTH - depth, |s| - pos, 1
  {
    hide Decode, PutPair;
    assert Defined(Dict(pairs)) && Nested(Dict(pairs), MAX_DEPTH - depth);
    if s[pos] != CH_E {
      var k := Decode(s, pos, depth + 1);
      DecodedIsDefined(s, pos, depth + 1);
      NestedDepth(k.entry, MAX_DEPTH - depth - 1);
      if k.entry.Str? {
        var v := Decode(s, k.pos, depth + 1);
        DecodedIsDefined(s, k.pos, depth + 1);
        PutPairKeeps(pairs, k.entry.bytes, v.entry, MAX_DEPTH - depth - 1);
        PairsAreDefined(s, v.pos, depth, PutPair(pairs, k.entry.bytes, v.entry));
      }
    }
  }

  lemma NestedDepth(e: Entry, h: int)
    requires Nested(e, h)
    ensures h >= 1
  {
  }

  /**
   For every entry whose integers and lengths fit the C types: decoding its encoding gives it back exactly when it is
   undefined as a whole, or has no undefined part and is nested at most 100 deep.
   */
  lemma RoundTripIff(e: Entry)
    requires InRange(e)
    ensures Bdecode(Encode(e)) == e <==> e == Undefined || (Defined(e) && Nested(e, 100))
  {
    hide Decode, InRange, Nested, DecodeItems, DecodePairs;
    var s := Encode(e);
    if e == Undefined {
      NothingToDecode();
    } else if Defined(e) && Nested(e, MAX_DEPTH) {
      ReadsExactly(e, []);
      assert s + [] == s;
    } else if !Decode(s, 0, 0).err {
      DecodedIsDefined(s, 0, 0);
    }
  }

  lemma NothingToDecode()
    ensures Decode([], 0, 0).err
  {
  }

  /** An undefined item vanishes. */
  lemma UndefinedItemVanishes()
    ensures Bdecode(Encode(List([Undefined]))) != List([Undefined])
  {
    hide Decode;
    var e := List([Undefined]);
    assert !Defined(e.items[0]) && !Defined(e);
    RoundTripIff(e);
  }

  // ---------- the writer ----------

  /** Integers that can be negated, lengths that fit. */
  ghost predicate Writable(e: Entry)
    decreases e
  {
    match e
    case Undefined => true
    case Int(i) => INT64_MIN < i <= INT64_MAX
    case Str(s) => |s| <= INT64_MAX
    case List(items) => forall i :: 0 <= i < |items| ==> Writable(items[i])
    case Dict(pairs) => forall i :: 0 <= i < |pairs| ==> |pairs[i].key| <= INT64_MAX && Writable(pairs[i].value)
  }

  method WriteInteger(out: seq<Byte>, val: int) returns (out': seq<Byte>, n: nat)
    requires INT64_MIN < val <= INT64_MAX
    ensures out' == out + Number(val) && n == |Number(val)|
  {
    hide Decimal;
    var buf := new Byte[BUFFER];
    var i := IntegerToStr(buf, val);
    ghost var text := Number(val);
    assert forall k :: 0 <= k < |text| ==> text[k] != 0;
    out', n := out, 0;
    ghost var start := i;
    forall k | start <= k < BUFFER - 1
      ensures buf[k] == text[k - start]
    {
      assert buf[start..BUFFER - 1][k - start] == buf[k];
    }
    while buf[i] != 0
      invariant start <= i <= BUFFER - 1 && n == i - start && out' == out + text[..n]
      invariant |text| == BUFFER - 1 - start && buf[BUFFER - 1] == 0
      invariant forall k :: start <= k < BUFFER - 1 ==> buf[k] == text[k - start]
      decreases BUFFER - i
    {
      out' := out' + [buf[i]];
      assert text[..n + 1] == text[..n] + [text[n]];
      i, n := i + 1, n + 1;
    }
    assert text[..n] == text;
  }

  method WriteStr(out: seq<Byte>, s: seq<Byte>) returns (out': seq<Byte>, n: nat)
    requires |s| <= INT64_MAX
    ensures out' == out + EncodeStr(s) && n == |EncodeStr(s)|
  {
    out', n := WriteInteger(out, |s|);
    out' := out' + [COLON];
    for i := 0 to |s|
      invariant out' == out + Decimal(|s|) + [COLON] + s[..i]
    {
      out' := out' + [s[i]];
      assert s[..i + 1] == s[..i] + [s[i]];
    }
    assert s[..|s|] == s;
    n := n + |s| + 1;
  }

  method WriteItems(out: seq<Byte>, items: seq<Entry>) returns (out': seq<Byte>, n: nat)
    requires forall i :: 0 <= i < |items| ==> Writable(items[i])
    ensures out' == out + EncodeItems(items) && n == |EncodeItems(items)|
    decreases items
  {
    hide Writable, Encode;
    out', n := out, 0;
    for k := 0 to |items|
      invariant out' + EncodeItems(items[k..]) == out + EncodeItems(items)
      invariant n + |EncodeItems(items[k..])| == |EncodeItems(items)|
    {
      assert items[k..][1..] == items[k + 1..];
      var m;
      out', m := WriteEntry(out', items[k]);
      n := n + m;
    }
    assert items[|items|..] == [];
  }

  method WritePairs(out: seq<Byte>, pairs: seq<Pair>) returns (out': seq<Byte>, n: nat)
    requires forall i :: 0 <= i < |pairs| ==> |pairs[i].key| <= INT64_MAX && Writable(pairs[i].value)
    ensures out' == out + EncodePairs(pairs) && n == |EncodePairs(pairs)|
    decreases pairs
  {
    hide Writable, Encode, EncodeStr;
    out', n := out, 0;
    for k := 0 to |pairs|
      invariant out' + EncodePairs(pairs[k..]) == out + EncodePairs(pairs)
      invariant n + |EncodePairs(pairs[k..])| == |EncodePairs(pairs)|
    {
      assert pairs[k..][1..] == pairs[k + 1..];
      var m, m';
      out', m := WriteStr(out', pairs[k].key);
      out', m' := WriteEntry(out', pairs[k].value);
      n := n + m + m';
    }
    assert pairs[|pairs|..] == [];
  }

  /** Writes an entry and counts the bytes. */
  method WriteEntry(out: seq<Byte>, e: Entry) returns (out': seq<Byte>, n: nat)
    requires Writable(e)
    ensures out' == out + Encode(e) && n == |Encode(e)|
    decreases e
  {
    hide Number, EncodeStr, EncodeItems, EncodePairs;
    out', n := out, 0;
    match e {
      case Undefined =>
      case Int(i) =>
        out' := out' + [CH_I];
        out', n := WriteInteger(out', i);
        out' := out' + [CH_E];
        Enclosed(out, CH_I, Number(i));
        n := n + 2;
      case Str(s) =>
        out', n := WriteStr(out', s);
      case List(items) =>
        out' := out' + [CH_L];
        out', n := WriteItems(out', items);
        out' := out' + [CH_E];
        Enclosed(out, CH_L, EncodeItems(items));
        n := n + 2;
      case Dict(pairs) =>
        out' := out' + [CH_D];
        out', n := WritePairs(out', pairs);
        out' := out' + [CH_E];
        Enclosed(out, CH_D, EncodePairs(pairs));
        n := n + 2;
    }
  }

  lemma Enclosed(out: seq<Byte>, lead: Byte, body: seq<Byte>)
    ensures out + [lead] + body + [CH_E] == out + ([lead] + body + [CH_E])
  {
  }

  // ---------- the reader ----------

  /** Reads up to a token. */
  method ReadUntil(s: seq<Byte>, pos: nat, token: Byte) returns (text: seq<Byte>, p: nat, err: bool)
    requires pos <= |s|
    ensures p == Find(s, pos, token) && text == s[pos..p] && (err <==> p == |s|)
  {
    p, text, err := pos, [], false;
    if p == |s| {
      return text, p, true;
    }
    while s[p] != token
      invariant pos <= p < |s| && text == s[pos..p] && Find(s, p, token) == Find(s, pos, token)
      decreases |s| - p
    {
      text := text + [s[p]];
      p := p + 1;
      if p == |s| {
        return text, p, true;
      }
    }
  }

  method ReadInt(s: seq<Byte>, pos: nat) returns (r: Result)
    requires pos < |s|
    ensures r == DecodeInt(s, pos)
  {
    hide StrToLl;
    var text, p, err := ReadUntil(s, pos + 1, CH_E);
    if err {
      return Result(Undefined, p, true);
    }
    match StrToLl(text) {
      case None => return Result(Int(0), p + 1, true);
      case Some(i) => return Result(Int(i), p + 1, false);
    }
  }

  method ReadStr(s: seq<Byte>, pos: nat) returns (r: Result)
    requires pos < |s|
    ensures r == DecodeStr(s, pos)
  {
    hide StrToLl;
    var text, p, err := ReadUntil(s, pos, COLON);
    if err {
      return Result(Undefined, p, true);
    }
    var len := match StrToLl(text) case None => 0 case Some(n) => if n < 0 then 0 else n;
    var bytes: seq<Byte>, i: nat := [], 0;
    while i < len
      invariant i <= len && p + 1 + i <= |s| && bytes == s[p + 1..p + 1 + i]
    {
      if p + 1 + i == |s| {
        assert s[p + 1..] == bytes;
        return Result(Str(bytes), |s|, true);
      }
      bytes := bytes + [s[p + 1 + i]];
      i := i + 1;
    }
    return Result(Str(bytes), p + 1 + i, false);
  }

  method ReadItems(s: seq<Byte>, pos: nat, depth: nat) returns (r: Result)
    requires pos <= |s| && depth < MAX_DEPTH
    ensures r == DecodeItems(s, pos, depth, [])
    decreases MAX_DEPTH - depth, 0
  {
    hide Decode;
    var items, p: nat := [], pos;
    while p < |s| && s[p] != CH_E
      invariant p <= |s| && DecodeItems(s, p, depth, items) == DecodeItems(s, pos, depth, [])
      decreases |s| - p
    {
      var item := ReadEntry(s, p, depth + 1);
      if item.err {
        return Result(List(items + [item.entry]), item.pos, true);
      }
      items, p := items + [item.entry], item.pos;
    }
    return if p == |s| then Result(List(items), p, true) else Result(List(items), p + 1, false);
  }

  method ReadPairs(s: seq<Byte>, pos: nat, depth: nat) returns (r: Result)
    requires pos <= |s| && depth < MAX_DEPTH
    ensures r == DecodePairs(s, pos, depth, [])
    decreases MAX_DEPTH - depth, 0
  {
    hide Decode, PutPair;
    var pairs, p: nat := [], pos;
    while p < |s| && s[p] != CH_E
      invariant p <= |s| && DecodePairs(s, p, depth, pairs) == DecodePairs(s, pos, depth, [])
      decreases |s| - p
    {
      var key := ReadEntry(s, p, depth + 1);
      if key.err || !key.entry.Str? {
        return Result(Dict(pairs), key.pos, key.err);
      }
      var value := ReadEntry(s, key.pos, depth + 1);
      pairs := PutPair(pairs, key.entry.bytes, value.entry);
      if value.err {
        return Result(Dict(pairs), value.pos, true);
      }
      p := value.pos;
    }
    return if p == |s| then Result(Dict(pairs), p, true) else Result(Dict(pairs), p + 1, false);
  }

  /** Reads one entry. */
  method ReadEntry(s: seq<Byte>, pos: nat, depth: nat) returns (r: Result)
    requires pos <= |s|
    ensures r == Decode(s, pos, depth)
    decreases MAX_DEPTH - depth, 1
  {
    hide DecodeInt, DecodeStr, DecodeItems, DecodePairs;
    if depth >= MAX_DEPTH || pos == |s| {
      r := Result(Undefined, pos, true);
    } else if s[pos] == CH_I {
      r := ReadInt(s, pos);
    } else if s[pos] == CH_L {
      r := ReadItems(s, pos + 1, depth);
    } else if s[pos] == CH_D {
      r := ReadPairs(s, pos + 1, depth);
    } else if IsDigit(s[pos]) {
      r := ReadStr(s, pos);
    } else {
      r := Result(Undefined, pos, true);
    }
  }
}
