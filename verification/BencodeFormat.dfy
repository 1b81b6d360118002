/**
 Bencoding, character by character (BEP 3; avhttp/include/avhttp/bencode.hpp), and what becomes of dictionaries whose keys
 come in another order or more than once.
 */
module BencodeFormat {
  import opened Common
  import opened Bencode

  // ---------- the format ----------

  function B(c: char): (b: Byte)
    requires c < 128 as char
  {
    c as int
  }

  /** The number that a text of digits stands for. */
  function ValueOf(s: seq<Byte>): (n: int)
  {
    if s == [] then 0 else 10 * ValueOf(s[..|s| - 1]) + (s[|s| - 1] as int - '0' as int)
  }

  /** A number in base ten: digits, and no zero before others. */
  ghost predicate IsDecimal(s: seq<Byte>, n: nat)
  {
    && s != [] && (forall i :: 0 <= i < |s| ==> B('0') <= s[i] <= B('9'))
    && (|s| > 1 ==> s[0] != B('0')) && ValueOf(s) == n
  }

  lemma {:induction false} DecimalIs(n: nat)
    ensures IsDecimal(Decimal(n), n)
    ensures n > 0 ==> Decimal(n)[0] != B('0')
  {
    if n < 10 {
      var s := Decimal(n);
      assert s == [48 + n] && s[..0] == [];
      assert ValueOf(s[..0]) == 0;
    } else {
      DecimalIs(n / 10);
      var s, front := Decimal(n), Decimal(n / 10);
      assert s[..|s| - 1] == front;
    }
  }

  /** The text of an entry. */
  ghost predicate IsText(s: seq<Byte>, e: Entry)
    decreases e
  {
    match e
    case Undefined => s == []
    case Int(i) =>
      exists d: seq<Byte> :: IsNumber(d, i) && s == [B('i')] + d + [B('e')]
    case Str(t) => IsString(s, t)
    case List(items) =>
      exists parts: seq<seq<Byte>> ::
        && |parts| == |items| && (forall i :: 0 <= i < |items| ==> IsText(parts[i], items[i]))
        && s == [B('l')] + Joined(parts) + [B('e')]
    case Dict(pairs) =>
      exists keys: seq<seq<Byte>>, values: seq<seq<Byte>> ::
        && |keys| == |values| == |pairs| && (forall i :: 0 <= i < |pairs| ==> IsString(keys[i], pairs[i].key))
        && (forall i :: 0 <= i < |pairs| ==> IsText(values[i], pairs[i].value))
        && s == [B('d')] + JoinedPairs(keys, values) + [B('e')]
  }

  /** A minus before the number if it is negative. */
  ghost predicate IsNumber(s: seq<Byte>, i: int)
  {
    if i < 0 then s != [] && s[0] == B('-') && IsDecimal(s[1..], -i) else IsDecimal(s, i)
  }

  ghost predicate IsString(s: seq<Byte>, t: seq<Byte>)
  {
    exists d: seq<Byte> :: IsDecimal(d, |t|) && s == d + [B(':')] + t
  }

  function Joined(parts: seq<seq<Byte>>): (s: seq<Byte>)
  {
    if parts == [] then [] else parts[0] + Joined(parts[1..])
  }

  /** A key, its value, the next key and so on. */
  function JoinedPairs(keys: seq<seq<Byte>>, values: seq<seq<Byte>>): (s: seq<Byte>)
    requires |keys| == |values|
  {
    if keys == [] then [] else keys[0] + values[0] + JoinedPairs(keys[1..], values[1..])
  }

  lemma StringIsText(t: seq<Byte>)
    ensures IsString(EncodeStr(t), t)
  {
    hide IsDecimal;
    DecimalIs(|t|);
  }

  lemma IntIsText(i: int)
    ensures IsText(Encode(Int(i)), Int(i))
  {
    hide IsDecimal;
    var n := if i < 0 then -i else i;
    DecimalIs(n);
    assert i < 0 ==> Number(i)[1..] == Decimal(n);
    assert IsNumber(Number(i), i);
  }

  /** What is written for an entry is its text. */
  lemma EncodeIsText(e: Entry)
    ensures IsText(Encode(e), e)
    decreases e
  {
    hide IsString;
    match e
    case Undefined =>
    case Int(i) => IntIsText(i);
    case Str(t) => StringIsText(t);
    case List(items) =>
      var parts := Parts(items);
      forall i | 0 <= i < |items|
        ensures IsText(parts[i], items[i])
      {
        EncodeIsText(items[i]);
      }
      JoinedParts(items);
    case Dict(pairs) =>
      var keys, values := Keys(pairs), Values(pairs);
      forall i | 0 <= i < |pairs|
        ensures IsString(keys[i], pairs[i].key) && IsText(values[i], pairs[i].value)
      {
        StringIsText(pairs[i].key);
        EncodeIsText(pairs[i].value);
      }
      JoinedKeys(pairs);
  }

  function Parts(items: seq<Entry>): (r: seq<seq<Byte>>)
    ensures |r| == |items|
  {
    seq(|items|, i requires 0 <= i < |items| => Encode(items[i]))
  }

  function Keys(pairs: seq<Pair>): (r: seq<seq<Byte>>)
    ensures |r| == |pairs|
  {
    seq(|pairs|, i requires 0 <= i < |pairs| => EncodeStr(pairs[i].key))
  }

  function Values(pairs: seq<Pair>): (r: seq<seq<Byte>>)
    ensures |r| == |pairs|
  {
    seq(|pairs|, i requires 0 <= i < |pairs| => Encode(pairs[i].value))
  }

  lemma {:induction false} JoinedParts(items: seq<Entry>)
    ensures Joined(Parts(items)) == EncodeItems(items)
  {
    hide Encode;
    if items != [] {
      JoinedParts(items[1..]);
      assert Parts(items)[1..] == Parts(items[1..]);
    }
  }

  lemma {:induction false} JoinedKeys(pairs: seq<Pair>)
    ensures JoinedPairs(Keys(pairs), Values(pairs)) == EncodePairs(pairs)
  {
    hide Encode, EncodeStr;
    if pairs != [] {
      JoinedKeys(pairs[1..]);
      assert Keys(pairs)[1..] == Keys(pairs[1..]) && Values(pairs)[1..] == Values(pairs[1..]);
    }
  }

  // ---------- keys in any order ----------

  function Lookup(pairs: seq<Pair>, key: seq<Byte>): (v: Option<Entry>)
  {
    if pairs == [] then None
    else if pairs[0].key == key then Some(pairs[0].value)
    else Lookup(pairs[1..], key)
  }

  /** The value that comes last with a key. */
  function Last(pairs: seq<Pair>, key: seq<Byte>): (v: Option<Entry>)
  {
    if pairs == [] then None
    else
      var k := |pairs| - 1;
      if pairs[k].key == key then Some(pairs[k].value) else Last(pairs[..k], key)
  }

  lemma {:induction false} BeforeTransitive(a: seq<Byte>, b: seq<Byte>, c: seq<Byte>)
    requires Before(a, b) && Before(b, c)
    ensures Before(a, c)
  {
    if a != [] && b != [] && c != [] && a[0] == b[0] == c[0] {
      BeforeTransitive(a[1..], b[1..], c[1..]);
    }
  }

  lemma {:induction false} BeforeTotal(a: seq<Byte>, b: seq<Byte>)
    ensures a == b || Before(a, b) || Before(b, a)
  {
    if a != [] && b != [] && a[0] == b[0] {
      BeforeTotal(a[1..], b[1..]);
      assert a == [a[0]] + a[1..] && b == [b[0]] + b[1..];
    }
  }

  /** All keys come behind the given one. */
  ghost predicate Behind(key: seq<Byte>, pairs: seq<Pair>)
  {
    forall i :: 0 <= i < |pairs| ==> Before(key, pairs[i].key)
  }

  lemma {:induction false} NotThere(pairs: seq<Pair>, key: seq<Byte>)
    requires Behind(key, pairs)
    ensures Lookup(pairs, key) == None
  {
    hide Before;
    if pairs != [] {
      BeforeOrder(key, pairs[0].key);
      NotThere(pairs[1..], key);
    }
  }

  lemma FirstIsLeast(pairs: seq<Pair>)
    requires KeysSorted(pairs) && pairs != []
    ensures KeysSorted(pairs[1..]) && Behind(pairs[0].key, pairs[1..])
  {
    hide Before;
  }

  lemma SortedMore(p: Pair, pairs: seq<Pair>)
    requires KeysSorted(pairs) && Behind(p.key, pairs)
    ensures KeysSorted([p] + pairs) && ([p] + pairs)[1..] == pairs
  {
    hide Before;
  }

  lemma BehindFirst(key: seq<Byte>, pairs: seq<Pair>)
    requires KeysSorted(pairs) && pairs != [] && Before(key, pairs[0].key)
    ensures Behind(key, pairs)
  {
    hide Before;
    forall i | 0 < i < |pairs|
      ensures Before(key, pairs[i].key)
    {
      BeforeTransitive(key, pairs[0].key, pairs[i].key);
    }
  }

  /** Assigning to a key changes what is found under it and nothing else, and keeps the order. */
  lemma {:induction false} PutPairAssigns(pairs: seq<Pair>, key: seq<Byte>, value: Entry, k: seq<Byte>, low: seq<Byte>)
    requires KeysSorted(pairs)
    ensures var r := PutPair(pairs, key, value);
            && KeysSorted(r) && Lookup(r, k) == (if k == key then Some(value) else Lookup(pairs, k))
            && (Behind(low, pairs) && Before(low, key) ==> Behind(low, r))
  {
    hide Before, KeysSorted;
    var p := Pair(key, value);
    if pairs == [] {
      assert [p] + pairs == [p] && [p][1..] == [];
      OnePair(p);
    } else {
      FirstIsLeast(pairs);
      BeforeTotal(key, pairs[0].key);
      if Before(key, pairs[0].key) {
        BehindFirst(key, pairs);
        SortedMore(p, pairs);
      } else if pairs[0].key == key {
        SortedMore(p, pairs[1..]);
      } else {
        var rest := PutPair(pairs[1..], key, value);
        PutPairAssigns(pairs[1..], key, value, k, low);
        PutPairAssigns(pairs[1..], key, value, k, pairs[0].key);
        SortedMore(pairs[0], rest);
      }
    }
  }

  lemma OnePair(p: Pair)
    ensures KeysSorted([p])
  {
  }

  /** The pairs are assigned one after the other. */
  function Assign(done: seq<Pair>, pairs: seq<Pair>): (r: seq<Pair>)
    decreases |pairs|
  {
    if pairs == [] then done else Assign(PutPair(done, pairs[0].key, pairs[0].value), pairs[1..])
  }

  lemma {:induction false} LastMore(p: Pair, pairs: seq<Pair>, k: seq<Byte>)
    ensures Last([p] + pairs, k) == if Last(pairs, k).Some? then Last(pairs, k) else if p.key == k then Some(p.value) else None
  {
    if pairs == [] {
      assert [p] + pairs == [p] && [p][..0] == [];
      assert Last([p][..0], k) == None;
    } else {
      var n := |pairs| - 1;
      LastMore(p, pairs[..n], k);
      assert ([p] + pairs)[..n + 1] == [p] + pairs[..n];
    }
  }

  lemma {:induction false} AssignKeepsLast(done: seq<Pair>, pairs: seq<Pair>, k: seq<Byte>)
    requires KeysSorted(done)
    ensures KeysSorted(Assign(done, pairs))
    ensures Lookup(Assign(done, pairs), k) == if Last(pairs, k).Some? then Last(pairs, k) else Lookup(done, k)
    decreases |pairs|
  {
    hide KeysSorted, PutPair, Lookup, Last;
    if pairs == [] {
      NoneLast(k);
    } else {
      var p := pairs[0];
      PutPairAssigns(done, p.key, p.value, k, []);
      AssignKeepsLast(PutPair(done, p.key, p.value), pairs[1..], k);
      LastMore(p, pairs[1..], k);
      assert pairs == [p] + pairs[1..];
    }
  }

  lemma NoneLast(k: seq<Byte>)
    ensures Last([], k) == None
  {
  }

  lemma {:induction false} PairsAssigned(s: seq<Byte>, pos: nat, depth: nat, done: seq<Pair>, pairs: seq<Pair>)
    requires depth < MAX_DEPTH && HasAt(s, pos, EncodePairs(pairs)) && HasAt(s, pos + |EncodePairs(pairs)|, [CH_E])
    requires forall i :: 0 <= i < |pairs| ==> Readable(pairs[i], depth)
    ensures pos <= |s|
    ensures DecodePairs(s, pos, depth, done) == Result(Dict(Assign(done, pairs)), pos + |EncodePairs(pairs)| + 1, false)
    decreases pairs
  {
    hide Decode, HasAt, InRange, Defined, Nested, EncodeStr, Encode, Before, PutPair, Find;
    HasByte(s, pos + |EncodePairs(pairs)|, CH_E);
    if pairs != [] {
      var p := pairs[0];
      var key, value, rest := EncodeStr(p.key), Encode(p.value), EncodePairs(pairs[1..]);
      HasParts(s, pos, key + value, rest);
      HasParts(s, pos, key, value);
      KeyRead(s, pos, depth + 1, p.key);
      EntryRead(s, pos + |key|, depth + 1, p.value);
      PairsAssigned(s, pos + |key| + |value|, depth, PutPair(done, p.key, p.value), pairs[1..]);
    }
  }

  ghost predicate Readable(p: Pair, depth: nat)
  {
    && |p.key| <= INT32_MAX && depth + 2 <= MAX_DEPTH && InRange(p.value) && Defined(p.value)
    && Nested(p.value, MAX_DEPTH - depth - 1)
  }

  /**
   A dictionary whose keys come in any order, or again, is read with its keys in order, each with the value that came
   last.
   */
  lemma AnyKeysRead(pairs: seq<Pair>) returns (r: seq<Pair>)
    requires forall i :: 0 <= i < |pairs| ==> Readable(pairs[i], 0)
    ensures Bdecode([B('d')] + EncodePairs(pairs) + [B('e')]) == Dict(r)
    ensures KeysSorted(r) && forall k :: Lookup(r, k) == Last(pairs, k)
  {
    hide EncodePairs, DecodePairs, Lookup, Last, Assign, Readable;
    var s := [B('d')] + EncodePairs(pairs) + [B('e')];
    assert s[1..1 + |EncodePairs(pairs)|] == EncodePairs(pairs);
    assert s[1 + |EncodePairs(pairs)|..1 + |EncodePairs(pairs)| + 1] == [CH_E];
    PairsAssigned(s, 1, 0, [], pairs);
    r := Assign([], pairs);
    NoneSorted();
    AssignKeepsLast([], pairs, []);
    forall k
      ensures Lookup(r, k) == Last(pairs, k)
    {
      AssignKeepsLast([], pairs, k);
      NoneFound(k);
    }
  }

  lemma NoneSorted()
    ensures KeysSorted([])
  {
  }

  lemma NoneFound(k: seq<Byte>)
    ensures Lookup([], k) == None
  {
  }
}
