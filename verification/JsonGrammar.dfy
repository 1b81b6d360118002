/**
 The texts that the JSON reader accepts (avboost/include/boost/json_parser_read.hpp), written as a data type: what may
 stand between two tokens, strings with their escape sequences, numbers, words, arrays and objects, and the property tree
 that each text stands for. The numbers are those of section 6 of RFC 8259, save that blanks and comments may stand
 between their characters.
 */
module JsonGrammar {
  import opened Common
  import opened JsonWrite
  import JsonRead

  /** The bytes of a text in ASCII. */
  function Ascii(s: string): (r: Bytes)
    requires forall i :: 0 <= i < |s| ==> s[i] < 128 as char
    ensures |r| == |s|
  {
    seq(|s|, i requires 0 <= i < |s| => s[i] as int)
  }

  // ---------- gaps ----------

  datatype Space = White(b: Byte) | LineComment(text: Bytes, eol: Bytes) | BlockComment(text: Bytes)

  type Gap = seq<Space>

  /** A comment ends where it says that it does. */
  ghost predicate SpaceOk(x: Space)
  {
    match x
    case White(b) => 9 <= b <= 13 || b == 32
    case LineComment(text, eol) => InLine(text) && (eol == [10] || eol == [13] || eol == [13, 10])
    case BlockComment(text) => NotClosed(text)
  }

  ghost predicate InLine(text: Bytes)
  {
    forall i :: 0 <= i < |text| ==> text[i] != 10 && text[i] != 13
  }

  ghost predicate NotClosed(text: Bytes)
  {
    forall i :: 0 <= i < |text| - 1 ==> text[i] != 42 || text[i + 1] != 47
  }

  function SpaceText(x: Space): (s: Bytes)
    ensures s != []
  {
    match x
    case White(b) => [b]
    case LineComment(text, eol) => [47, 47] + text + eol
    case BlockComment(text) => [47, 42] + text + [42, 47]
  }

  ghost predicate GapOk(g: Gap)
  {
    forall i :: 0 <= i < |g| ==> SpaceOk(g[i])
  }

  function GapText(g: Gap): (s: Bytes)
  {
    if g == [] then [] else SpaceText(g[0]) + GapText(g[1..])
  }

  // ---------- strings ----------

  datatype Piece = Plain(b: Byte) | Escape(letter: Byte) | Code(hex: Bytes)

  predicate IsHex(b: Byte)
  {
    48 <= b <= 57 || 65 <= b <= 70 || 97 <= b <= 102
  }

  function HexOf(b: Byte): (v: nat)
    requires IsHex(b)
    ensures v < 16
  {
    if b <= 57 then b - 48 else if b <= 70 then b - 65 + 10 else b - 97 + 10
  }

  /** The number that four hexadecimal digits stand for. */
  function CodeOf(hex: Bytes): (u: nat)
    requires |hex| == 4 && forall i :: 0 <= i < 4 ==> IsHex(hex[i])
    ensures u < 65536
  {
    HexOf(hex[0]) * 4096 + HexOf(hex[1]) * 256 + HexOf(hex[2]) * 16 + HexOf(hex[3])
  }

  ghost predicate PieceOk(p: Piece)
  {
    match p
    case Plain(b) => b != 34 && b != 92
    case Escape(letter) => letter in {34, 92, 47, 98, 102, 110, 114, 116}
    case Code(hex) => |hex| == 4 && forall i :: 0 <= i < 4 ==> IsHex(hex[i])
  }

  function PieceText(p: Piece): (s: Bytes)
    ensures s != []
  {
    match p
    case Plain(b) => [b]
    case Escape(letter) => [92, letter]
    case Code(hex) => [92, 117] + hex
  }

  /** The bytes that a piece stands for. */
  ghost function Means(p: Piece): (s: Bytes)
    requires PieceOk(p)
  {
    match p
    case Plain(b) => [b]
    case Escape(letter) =>
      [if letter == 98 then 8 else if letter == 102 then 12 else if letter == 110 then 10
       else if letter == 114 then 13 else if letter == 116 then 9 else letter]
    case Code(hex) => JsonRead.Encode(CodeOf(hex))
  }

  predicate Trail(b: Byte)
  {
    0x80 <= b < 0xC0
  }

  /** What UTF-8 decoding, without further checks, makes of a text of one character. */
  function Utf8(s: seq<int>): (u: Option<int>)
  {
    if |s| == 1 && 0 <= s[0] < 0x80 then Some(s[0])
    else if |s| == 2 && 0xC0 <= s[0] < 0xE0 then Some((s[0] - 0xC0) * 64 + (s[1] - 0x80))
    else if |s| == 3 && 0xE0 <= s[0] < 0xF0 then
      Some((s[0] - 0xE0) * 4096 + (s[1] - 0x80) * 64 + (s[2] - 0x80))
    else if |s| == 4 && 0xF0 <= s[0] < 0xF8 then
      Some((s[0] - 0xF0) * 262144 + (s[1] - 0x80) * 4096 + (s[2] - 0x80) * 64 + (s[3] - 0x80))
    else None
  }

  /**
   Decoding the bytes of an escaped code gives the code back. A surrogate, which is no character, takes four bytes; every
   other code takes no more bytes than it needs.
   */
  lemma CodeDecoded(u: nat)
    requires u < 65536
    ensures var s := JsonRead.Encode(u);
            && Utf8(s) == Some(u) && (forall i :: 1 <= i < |s| ==> Trail(s[i]))
            && |s| == if u < 0x80 then 1 else if u < 0x800 then 2 else if 0xD800 <= u < 0xE000 then 4 else 3
  {
    assert u == u / 4096 * 4096 + u % 4096 && u % 4096 == u % 4096 / 64 * 64 + u % 64;
  }

  ghost predicate PiecesOk(ps: seq<Piece>)
  {
    forall i :: 0 <= i < |ps| ==> PieceOk(ps[i])
  }

  function PiecesText(ps: seq<Piece>): (s: Bytes)
  {
    if ps == [] then [] else PieceText(ps[0]) + PiecesText(ps[1..])
  }

  ghost function PiecesMean(ps: seq<Piece>): (s: Bytes)
    requires PiecesOk(ps)
  {
    if ps == [] then [] else Means(ps[0]) + PiecesMean(ps[1..])
  }

  /** A string in quotes; several in a row are one. */
  datatype Quoted = Quoted(gap: Gap, pieces: seq<Piece>)

  ghost predicate StringOk(qs: seq<Quoted>)
  {
    qs != [] && PartsOk(qs)
  }

  ghost predicate PartsOk(qs: seq<Quoted>)
  {
    forall i :: 0 <= i < |qs| ==> GapOk(qs[i].gap) && PiecesOk(qs[i].pieces)
  }

  function StringText(qs: seq<Quoted>): (s: Bytes)
  {
    if qs == [] then [] else GapText(qs[0].gap) + ([34] + PiecesText(qs[0].pieces) + [34] + StringText(qs[1..]))
  }

  ghost function StringMeans(qs: seq<Quoted>): (s: Bytes)
    requires PartsOk(qs)
  {
    if qs == [] then [] else PiecesMean(qs[0].pieces) + StringMeans(qs[1..])
  }

  // ---------- numbers and words ----------

  datatype Digit = Digit(gap: Gap, d: Byte)

  /** The parts of a number; an empty fraction or exponent is none. */
  datatype Num = Num(neg: bool, whole: seq<Digit>, point: Gap, frac: seq<Digit>, mark: Gap, e: Byte, signed: Option<Sign>,
                     exp: seq<Digit>)

  datatype Sign = Sign(gap: Gap, sign: Byte)

  ghost predicate DigitsOk(ds: seq<Digit>)
  {
    forall i :: 0 <= i < |ds| ==> GapOk(ds[i].gap) && 48 <= ds[i].d <= 57
  }

  function DigitsText(ds: seq<Digit>): (s: Bytes)
  {
    if ds == [] then [] else GapText(ds[0].gap) + ([ds[0].d] + DigitsText(ds[1..]))
  }

  /** Only a lone zero may lead. */
  ghost predicate NumOk(n: Num)
  {
    && n.whole != [] && DigitsOk(n.whole) && DigitsOk(n.frac) && DigitsOk(n.exp) && GapOk(n.point) && GapOk(n.mark)
    && (n.whole[0].d == 48 ==> |n.whole| == 1) && (!n.neg ==> n.whole[0].gap == [])
    && (n.e == 101 || n.e == 69)
    && (n.signed.Some? ==> GapOk(n.signed.value.gap) && (n.signed.value.sign == 43 || n.signed.value.sign == 45))
  }

  function FractionText(n: Num): (s: Bytes)
  {
    if n.frac == [] then [] else GapText(n.point) + ([46] + DigitsText(n.frac))
  }

  function SignText(n: Num): (s: Bytes)
  {
    match n.signed
    case None => []
    case Some(x) => GapText(x.gap) + [x.sign]
  }

  function ExponentText(n: Num): (s: Bytes)
  {
    if n.exp == [] then [] else GapText(n.mark) + ([n.e] + (SignText(n) + DigitsText(n.exp)))
  }

  function NumText(n: Num): (s: Bytes)
  {
    (if n.neg then [45] else []) + (DigitsText(n.whole) + (FractionText(n) + ExponentText(n)))
  }

  /** Numbers and three words are kept as they are written. */
  datatype Literal = Number(n: Num) | True | False | Null

  ghost predicate LiteralOk(x: Literal)
  {
    x.Number? ==> NumOk(x.n)
  }

  function LiteralText(x: Literal): (s: Bytes)
  {
    match x
    case Number(n) => NumText(n)
    case True => Ascii("true")
    case False => Ascii("false")
    case Null => Ascii("null")
  }

  // ---------- values ----------

  /** A value with the gap before it; `inside` is what an empty array or object holds. */
  datatype Doc =
    | Word(gap: Gap, word: Literal)
    | Text(strings: seq<Quoted>)
    | Group(gap: Gap, named: bool, inside: Gap, entries: seq<Entry>)

  /** An item of an array, or a member of an object with its key and the gap before the colon. */
  datatype Entry = Entry(key: seq<Quoted>, colon: Gap, value: Doc, after: Gap)

  ghost predicate DocOk(d: Doc)
    decreases d
  {
    match d
    case Word(gap, word) => GapOk(gap) && LiteralOk(word)
    case Text(strings) => StringOk(strings)
    case Group(gap, named, inside, entries) =>
      && GapOk(gap) && GapOk(inside)
      && forall i :: 0 <= i < |entries| ==>
           && (named ==> StringOk(entries[i].key)) && GapOk(entries[i].colon) && GapOk(entries[i].after)
           && DocOk(entries[i].value)
  }

  function Open(named: bool): (b: Byte)
  {
    if named then 123 else 91
  }

  function Close(named: bool): (b: Byte)
  {
    if named then 125 else 93
  }

  function Render(d: Doc): (s: Bytes)
    decreases d, if d.Group? then |d.entries| + 1 else 0
  {
    match d
    case Word(gap, word) => GapText(gap) + LiteralText(word)
    case Text(strings) => StringText(strings)
    case Group(gap, named, inside, entries) =>
      GapText(gap) + ([Open(named)] + (if entries == [] then GapText(inside) + [Close(named)] else RenderFrom(d, 0)))
  }

  function KeyText(e: Entry, named: bool): (s: Bytes)
  {
    if named then StringText(e.key) + (GapText(e.colon) + [58]) else []
  }

  /** The entries from place i on, and what closes them. */
  function RenderFrom(d: Doc, i: nat): (s: Bytes)
    requires d.Group? && i < |d.entries|
    decreases d, |d.entries| - i
  {
    var e := d.entries[i];
    KeyText(e, d.named) + (Render(e.value) + (GapText(e.after)
    + (if i + 1 < |d.entries| then [44] + RenderFrom(d, i + 1) else [Close(d.named)])))
  }

  /** The property tree of a value: data for strings, numbers and words, children for the rest. */
  ghost function TreeOf(d: Doc): (t: Tree)
    requires DocOk(d)
    decreases d, 1
  {
    match d
    case Word(_, word) => Tree(LiteralText(word), [])
    case Text(strings) => Tree(StringMeans(strings), [])
    case Group(_, _, _, _) => Tree([], ChildrenOf(d))
  }

  ghost function ChildrenOf(d: Doc): (children: seq<Child>)
    requires d.Group? && DocOk(d)
    ensures |children| == |d.entries|
    decreases d, 0
  {
    seq(|d.entries|, i requires 0 <= i < |d.entries| =>
      Child(if d.named then StringMeans(d.entries[i].key) else [], TreeOf(d.entries[i].value)))
  }
}
