/**
 Reading the texts of the JSON grammar (avboost/include/boost/json_parser_read.hpp): every one of them is accepted and
 read as the property tree it stands for.
 */
module JsonAccept {
  import opened Common
  import opened JsonWrite
  import opened JsonRead
  import G = JsonGrammar
  import RT = JsonRoundTrip

  // ---------- gaps ----------

  lemma {:induction false} LineAt(text: Bytes, eol: Bytes, s: Bytes)
    requires G.InLine(text) && (eol == [10] || eol == [13] || eol == [13, 10])
    ensures LineLength(text + eol + s)
         == |text| + |eol| + if eol == [13] && s != [] && s[0] == 10 then 1 else 0
    decreases |text|
  {
    var all := text + eol + s;
    if text == [] {
      assert all == eol + s;
      assert |eol| == 1 ==> (s != [] ==> all[1] == s[0]);
    } else {
      assert all[0] == text[0] && all[1..] == text[1..] + eol + s;
      LineAt(text[1..], eol, s);
    }
  }

  lemma {:induction false} CloseAt(text: Bytes, s: Bytes)
    requires G.NotClosed(text)
    ensures Closed(text + [42, 47] + s) && CloseLength(text + [42, 47] + s) == |text| + 2
    decreases |text|
  {
    var all := text + [42, 47] + s;
    if text == [] {
      assert all[0] == 42 && all[1] == 47;
    } else {
      assert all[0] == text[0] && all[1..] == text[1..] + [42, 47] + s;
      assert G.NotClosed(text[1..]) by {
        forall i | 0 <= i < |text[1..]| - 1
          ensures text[1..][i] != 42 || text[1..][i + 1] != 47
        {
          assert text[i + 1] != 42 || text[i + 1 + 1] != 47;
        }
      }
      CloseAt(text[1..], s);
      assert |text| > 1 ==> all[1] == text[1];
      assert |text| == 1 ==> all[1] == 42;
      assert !(all[0] == 42 && all[1] == 47) by {
        assert |text| > 1 ==> text[0] != 42 || text[0 + 1] != 47;
      }
    }
  }

  lemma LineSkipped(text: Bytes, eol: Bytes, s: Bytes)
    requires G.InLine(text) && (eol == [10] || eol == [13] || eol == [13, 10])
    ensures Skip([47, 47] + text + eol + s) == Skip(s)
  {
    hide LineLength;
    var all := [47, 47] + text + eol + s;
    assert all[0] == 47 && all[1] == 47 && all[2..] == text + eol + s;
    LineAt(text, eol, s);
    var n := CommentLength(all);
    if eol == [13] && s != [] && s[0] == 10 {
      assert all[n..] == s[1..];
    } else {
      assert all[n..] == s;
    }
  }

  lemma BlockSkipped(text: Bytes, s: Bytes)
    requires G.NotClosed(text)
    ensures Skip([47, 42] + text + [42, 47] + s) == Skip(s)
  {
    hide Closed, CloseLength;
    var all := [47, 42] + text + [42, 47] + s;
    assert all[0] == 47 && all[1] == 42 && all[2..] == text + [42, 47] + s;
    CloseAt(text, s);
    assert all[CommentLength(all)..] == s;
  }

  lemma SpaceSkipped(x: G.Space, s: Bytes)
    requires G.SpaceOk(x)
    ensures Skip(G.SpaceText(x) + s) == Skip(s)
  {
    match x
    case White(b) => assert ([b] + s)[0] == b && ([b] + s)[1..] == s;
    case LineComment(text, eol) => LineSkipped(text, eol, s);
    case BlockComment(text) => BlockSkipped(text, s);
  }

  lemma {:induction false} GapSkipped(g: G.Gap, s: Bytes)
    requires G.GapOk(g)
    ensures Skip(G.GapText(g) + s) == Skip(s)
    decreases |g|
  {
    hide Skip, G.SpaceText, G.SpaceOk;
    if g == [] {
      assert G.GapText(g) + s == s;
    } else {
      GapSkipped(g[1..], s);
      SpaceSkipped(g[0], G.GapText(g[1..]) + s);
      assert G.GapText(g) + s == G.SpaceText(g[0]) + (G.GapText(g[1..]) + s);
    }
  }

  /** Behind a gap stands the next character. */
  lemma GapThen(g: G.Gap, b: Byte, s: Bytes)
    requires G.GapOk(g) && RT.Solid(b)
    ensures Skip(G.GapText(g) + ([b] + s)) == [b] + s && ([b] + s)[1..] == s
    ensures Next(G.GapText(g) + ([b] + s), b) && forall x :: x != b ==> !Next(G.GapText(g) + ([b] + s), x)
  {
    hide Skip, G.GapText, G.GapOk;
    GapSkipped(g, [b] + s);
    RT.SkipNothing([b] + s);
  }

  // ---------- strings ----------

  lemma HexAgrees(b: Byte)
    ensures HexValue(b) == if G.IsHex(b) then Some(G.HexOf(b)) else None
  {
  }

  lemma PieceRead(p: G.Piece, s: Bytes)
    requires G.PieceOk(p)
    ensures var t := G.PieceText(p) + s;
            t[0] != 34 && Character(t) == Some((G.Means(p), |G.PieceText(p)|)) && t[|G.PieceText(p)|..] == s
  {
    hide HexValue, Encode;
    var t := G.PieceText(p) + s;
    if p.Code? {
      assert t[..2] == [92, 117] && t[2..6] == p.hex;
      HexAgrees(p.hex[0]);
      HexAgrees(p.hex[1]);
      HexAgrees(p.hex[2]);
      HexAgrees(p.hex[3]);
    }
  }

  lemma CharsConcat(a: Bytes, b: Bytes)
    ensures Chars(a) + Chars(b) == Chars(a + b)
  {
  }

  lemma InsideStep(p: G.Piece, tail: Bytes)
    requires G.PieceOk(p)
    ensures Inside(G.PieceText(p) + tail) == Append(Chars(G.Means(p)), Inside(tail))
  {
    hide Character, G.PieceText, G.PieceOk, G.Means, Chars;
    PieceRead(p, tail);
  }

  lemma {:induction false} PiecesRead(ps: seq<G.Piece>, rest: Bytes)
    requires G.PiecesOk(ps)
    ensures Inside(G.PiecesText(ps) + ([34] + rest)) == Match(Chars(G.PiecesMean(ps)), rest)
    decreases |ps|
  {
    hide Inside, G.PieceText, G.PieceOk, G.Means, Chars;
    if ps == [] {
      assert G.PiecesText(ps) + ([34] + rest) == [34] + rest;
      NothingInside(rest);
    } else {
      var tail := G.PiecesText(ps[1..]) + ([34] + rest);
      InsideStep(ps[0], tail);
      PiecesRead(ps[1..], rest);
      assert G.PiecesText(ps) + ([34] + rest) == G.PieceText(ps[0]) + tail;
      CharsConcat(G.Means(ps[0]), G.PiecesMean(ps[1..]));
    }
  }

  lemma NothingInside(rest: Bytes)
    ensures Inside([34] + rest) == Match(Chars([]), rest)
  {
    assert ([34] + rest)[1..] == rest;
  }

  /** A string in quotes, and one more if it follows. */
  lemma StringStep(q: G.Quoted, more: Bytes)
    requires G.GapOk(q.gap) && G.PiecesOk(q.pieces)
    ensures var s := G.GapText(q.gap) + ([34] + (G.PiecesText(q.pieces) + ([34] + more)));
            && Next(s, 34)
            && Strings(s) == if Next(more, 34) then Append(Chars(G.PiecesMean(q.pieces)), Strings(more))
                             else Match(Chars(G.PiecesMean(q.pieces)), more)
  {
    hide Skip, Inside, G.GapText, G.GapOk, G.PiecesOk, G.PiecesText, G.PiecesMean, Chars;
    GapThen(q.gap, 34, G.PiecesText(q.pieces) + ([34] + more));
    PiecesRead(q.pieces, more);
  }

  lemma {:induction false} StringsRead(qs: seq<G.Quoted>, rest: Bytes)
    requires G.StringOk(qs) && !Next(rest, 34)
    ensures Next(G.StringText(qs) + rest, 34) && Strings(G.StringText(qs) + rest) == Match(Chars(G.StringMeans(qs)), rest)
    decreases |qs|
  {
    hide Skip, Strings, Next, G.GapText, G.GapOk, G.PiecesOk, G.PiecesText, G.PiecesMean, Chars;
    var q, more := qs[0], G.StringText(qs[1..]) + rest;
    assert G.StringText(qs) + rest == G.GapText(q.gap) + ([34] + (G.PiecesText(q.pieces) + ([34] + more)));
    StringStep(q, more);
    CharsConcat(G.PiecesMean(q.pieces), G.StringMeans(qs[1..]));
    if |qs| == 1 {
      assert more == rest;
      assert G.PiecesMean(q.pieces) + [] == G.PiecesMean(q.pieces);
    } else {
      StringsRead(qs[1..], rest);
    }
  }

  // ---------- numbers and words ----------

  /** Behind blanks and comments stands a digit, a fraction or an exponent. */
  predicate StartsDigit(s: Bytes)
  {
    Skip(s) != [] && 48 <= Skip(s)[0] <= 57
  }

  predicate StartsFraction(s: Bytes)
  {
    Next(s, 46) && StartsDigit(Skip(s)[1..])
  }

  predicate StartsExponent(s: Bytes)
  {
    && (Next(s, 101) || Next(s, 69))
    && var t := Skip(s)[1..]; StartsDigit(if Next(t, 43) || Next(t, 45) then Skip(t)[1..] else t)
  }

  /** What follows a number would be taken for more of it. */
  ghost predicate GoesOn(n: G.Num, rest: Bytes)
  {
    if n.exp != [] then StartsDigit(rest)
    else if n.frac != [] then StartsDigit(rest) || StartsExponent(rest)
    else (StartsDigit(rest) && n.whole != [] && n.whole[0].d != 48) || StartsFraction(rest) || StartsExponent(rest)
  }

  lemma DigitsIff(s: Bytes)
    ensures Digits(s) == s <==> !StartsDigit(s)
    ensures StartsDigit(s) ==> |Digits(s)| < |s|
  {
    hide Skip;
  }

  lemma PartsIff(s: Bytes)
    ensures if StartsFraction(s) then |Fraction(s)| < |s| else Fraction(s) == s
    ensures if StartsExponent(s) then |Exponent(s)| < |s| else Exponent(s) == s
  {
    hide Skip, Digits, StartsDigit;
    var t := if Skip(s) == [] then [] else Skip(s)[1..];
    DigitsIff(t);
    DigitsIff(if Next(t, 43) || Next(t, 45) then Skip(t)[1..] else t);
  }

  lemma {:induction false} DigitsOver(ds: seq<G.Digit>, tail: Bytes)
    requires G.DigitsOk(ds)
    ensures Digits(G.DigitsText(ds) + tail) == Digits(tail)
    ensures ds != [] ==> StartsDigit(G.DigitsText(ds) + tail)
    decreases |ds|
  {
    hide Skip, G.GapText, G.GapOk;
    if ds == [] {
      assert G.DigitsText(ds) + tail == tail;
    } else {
      var more := G.DigitsText(ds[1..]) + tail;
      assert G.DigitsText(ds) + tail == G.GapText(ds[0].gap) + ([ds[0].d] + more);
      GapThen(ds[0].gap, ds[0].d, more);
      DigitsOver(ds[1..], tail);
    }
  }

  /** A gap and then a character that is no digit. */
  lemma NoDigit(g: G.Gap, b: Byte, s: Bytes)
    requires G.GapOk(g) && RT.Solid(b) && !IsDigit(b)
    ensures !StartsDigit(G.GapText(g) + ([b] + s)) && Digits(G.GapText(g) + ([b] + s)) == G.GapText(g) + ([b] + s)
    ensures b != 46 ==> Fraction(G.GapText(g) + ([b] + s)) == G.GapText(g) + ([b] + s)
  {
    hide Skip, Digits, G.GapText, G.GapOk;
    GapThen(g, b, s);
    DigitsIff(G.GapText(g) + ([b] + s));
  }

  lemma FractionOver(n: G.Num, tail: Bytes)
    requires G.NumOk(n) && n.frac != []
    ensures Fraction(G.FractionText(n) + tail) == Digits(tail)
    ensures Digits(G.FractionText(n) + tail) == G.FractionText(n) + tail
  {
    hide Skip, Digits, G.GapText, G.GapOk, G.DigitsText, G.DigitsOk, StartsDigit;
    var more := G.DigitsText(n.frac) + tail;
    assert G.FractionText(n) + tail == G.GapText(n.point) + ([46] + more);
    GapThen(n.point, 46, more);
    NoDigit(n.point, 46, more);
    DigitsOver(n.frac, tail);
    DigitsIff(more);
  }

  lemma ExponentOver(n: G.Num, rest: Bytes)
    requires G.NumOk(n) && n.exp != []
    ensures Exponent(G.ExponentText(n) + rest) == Digits(rest)
    ensures Digits(G.ExponentText(n) + rest) == G.ExponentText(n) + rest
    ensures Fraction(G.ExponentText(n) + rest) == G.ExponentText(n) + rest
  {
    hide Skip, Digits, Fraction, G.GapText, G.GapOk, G.DigitsText, G.DigitsOk, StartsDigit, G.SignText;
    var digits := G.DigitsText(n.exp) + rest;
    var more := G.SignText(n) + digits;
    assert G.ExponentText(n) + rest == G.GapText(n.mark) + ([n.e] + more);
    GapThen(n.mark, n.e, more);
    NoDigit(n.mark, n.e, more);
    DigitsOver(n.exp, rest);
    DigitsIff(digits);
    SignOver(n, rest);
  }

  lemma SignOver(n: G.Num, rest: Bytes)
    requires G.NumOk(n) && n.exp != []
    ensures var t, digits := G.SignText(n) + (G.DigitsText(n.exp) + rest), G.DigitsText(n.exp) + rest;
            (if Next(t, 43) || Next(t, 45) then Skip(t)[1..] else t) == digits
  {
    hide Skip, G.GapText, G.GapOk, G.DigitsText;
    var digits := G.DigitsText(n.exp) + rest;
    if n.signed.Some? {
      var x := n.signed.value;
      assert G.SignText(n) + digits == G.GapText(x.gap) + ([x.sign] + digits);
      GapThen(x.gap, x.sign, digits);
    } else {
      assert G.SignText(n) + digits == digits;
      DigitsOver(n.exp, rest);
    }
  }

  /** What is left behind the whole part. */
  lemma WholeOver(n: G.Num, rest: Bytes)
    requires G.NumOk(n)
    ensures var tail := G.FractionText(n) + G.ExponentText(n) + rest;
            Number(G.NumText(n) + rest) == Some(Exponent(Fraction(if n.whole[0].d == 48 then tail else Digits(tail))))
    ensures var t := G.NumText(n) + rest; t != [] && (t[0] == 45 || IsDigit(t[0])) && Skip(t) == t
  {
    hide Skip, Digits, Fraction, Exponent, G.GapText, G.GapOk, G.FractionText, G.ExponentText;
    var tail := G.FractionText(n) + G.ExponentText(n) + rest;
    var d := n.whole[0];
    var more := G.DigitsText(n.whole[1..]) + tail;
    var text := G.NumText(n) + rest;
    assert text == (if n.neg then [45] else []) + (G.GapText(d.gap) + ([d.d] + more));
    GapThen(d.gap, d.d, more);
    NoGap();
    if n.neg {
      var t := G.GapText(d.gap) + ([d.d] + more);
      assert text == G.GapText([]) + ([45] + t);
      GapThen([], 45, t);
    } else {
      assert text == G.GapText([]) + ([d.d] + more);
    }
    DigitsOver(n.whole[1..], tail);
    assert |n.whole| == 1 ==> more == tail;
  }

  lemma NoGap()
    ensures G.GapText([]) == [] && G.GapOk([])
  {
  }

  /** A number is read up to its end if and only if what follows does not go on with it. */
  lemma NumberIff(n: G.Num, rest: Bytes)
    requires G.NumOk(n)
    ensures Number(G.NumText(n) + rest).Some?
    ensures Number(G.NumText(n) + rest) == Some(rest) <==> !GoesOn(n, rest)
  {
    hide Skip, Number, Digits, Fraction, Exponent, G.NumText, StartsDigit, StartsFraction, StartsExponent, G.FractionText,
         G.ExponentText;
    WholeOver(n, rest);
    NoText(n);
    DigitsIff(rest);
    PartsIff(rest);
    var f, e := G.FractionText(n), G.ExponentText(n);
    assert f + e + rest == f + (e + rest);
    if n.exp != [] {
      ExponentOver(n, rest);
    } else {
      assert e + rest == rest;
    }
    if n.frac != [] {
      FractionOver(n, e + rest);
    } else {
      assert f + (e + rest) == e + rest;
    }
  }

  lemma NoText(n: G.Num)
    ensures n.frac == [] ==> G.FractionText(n) == []
    ensures n.exp == [] ==> G.ExponentText(n) == []
  {
  }

  /** A value that starts with a sign, a digit or a letter is a number or a word. */
  lemma ValueIsWord(s: Bytes)
    requires Skip(s) != [] && Skip(s)[0] != 34 && Skip(s)[0] != 123 && Skip(s)[0] != 91
    ensures Value(s) == Word(s)
  {
    hide Skip, Word;
  }

  /**
   A number is kept as it is written, blanks and comments inside it too, if and only if nothing behind it goes on with
   it.
   */
  lemma NumberKeptIff(g: G.Gap, n: G.Num, rest: Bytes)
    requires G.GapOk(g) && G.NumOk(n)
    ensures Value(G.GapText(g) + (G.NumText(n) + rest)) == Match([Literal(G.NumText(n))], rest) <==> !GoesOn(n, rest)
  {
    hide Skip, Number, G.GapText, G.GapOk, G.NumText, G.NumOk, GoesOn, Value;
    var text := G.NumText(n) + rest;
    GapSkipped(g, text);
    WholeOver(n, rest);
    NumberIff(n, rest);
    ValueIsWord(G.GapText(g) + text);
    if !GoesOn(n, rest) {
      assert text[..|text| - |rest|] == G.NumText(n);
    }
  }

  lemma WordBytes()
    ensures G.Ascii("true") == [116, 114, 117, 101] && G.Ascii("false") == [102, 97, 108, 115, 101]
    ensures G.Ascii("null") == [110, 117, 108, 108]
  {
  }

  lemma NoNumber(s: Bytes)
    requires s != [] && RT.Solid(s[0]) && s[0] != 45 && !IsDigit(s[0])
    ensures Number(s) == None && Skip(s) == s
  {
    RT.SkipNothing(s);
  }

  lemma WordKept(g: G.Gap, x: G.Literal, rest: Bytes)
    requires G.GapOk(g) && !x.Number?
    ensures Value(G.GapText(g) + (G.LiteralText(x) + rest)) == Match([Literal(G.LiteralText(x))], rest)
  {
    hide Skip, Number, G.GapText, G.GapOk, Value, G.Ascii;
    WordBytes();
    var w := G.LiteralText(x);
    var text := w + rest;
    assert text[..|w|] == w && text[|w|..] == rest && text[0] == w[0];
    NoNumber(text);
    GapSkipped(g, text);
    ValueIsWord(G.GapText(g) + text);
  }

  /** What may follow a value: nothing, a comma, or what closes an array or an object. */
  predicate Ends(rest: Bytes)
  {
    Skip(rest) == [] || Skip(rest)[0] == 44 || Skip(rest)[0] == 93 || Skip(rest)[0] == 125
  }

  lemma LiteralKept(g: G.Gap, x: G.Literal, rest: Bytes)
    requires G.GapOk(g) && G.LiteralOk(x) && Ends(rest)
    ensures Value(G.GapText(g) + (G.LiteralText(x) + rest)) == Match([Literal(G.LiteralText(x))], rest)
  {
    hide Skip, G.GapText, G.GapOk, Value, G.NumText, G.NumOk;
    if x.Number? {
      NumberKeptIff(g, x.n, rest);
    } else {
      WordKept(g, x, rest);
    }
  }

  // ---------- values ----------

  /** What a value makes the reader do. */
  ghost function ActsOf(d: G.Doc): (acts: seq<Action>)
    requires G.DocOk(d)
    decreases d, if d.Group? then |d.entries| + 1 else 0
  {
    match d
    case Word(_, word) => [Literal(G.LiteralText(word))]
    case Text(strings) => Chars(G.StringMeans(strings)) + [StringVal]
    case Group(_, _, _, entries) => [Begin] + ActsFrom(d, 0)
  }

  ghost function KeyActs(e: G.Entry, named: bool): (acts: seq<Action>)
    requires named ==> G.StringOk(e.key)
  {
    if named then Chars(G.StringMeans(e.key)) + [Name] else []
  }

  ghost function ActsFrom(d: G.Doc, i: nat): (acts: seq<Action>)
    requires d.Group? && G.DocOk(d) && i <= |d.entries|
    decreases d, |d.entries| - i
  {
    if i == |d.entries| then [End]
    else KeyActs(d.entries[i], d.named) + ActsOf(d.entries[i].value) + ActsFrom(d, i + 1)
  }

  /** The entries from place i on, with what follows. */
  ghost function Remaining(d: G.Doc, i: nat, rest: Bytes): (s: Bytes)
    requires d.Group? && i <= |d.entries|
  {
    if i == |d.entries| then [G.Close(d.named)] + rest else [44] + (G.RenderFrom(d, i) + rest)
  }

  lemma TextValueRead(strings: seq<G.Quoted>, rest: Bytes)
    requires G.StringOk(strings) && Ends(rest)
    ensures Value(G.StringText(strings) + rest) == Match(Chars(G.StringMeans(strings)) + [StringVal], rest)
  {
    hide Skip, Strings, G.StringText, G.StringMeans, G.StringOk;
    StringsRead(strings, rest);
  }

  lemma ValueRead(d: G.Doc, rest: Bytes)
    requires G.DocOk(d) && Ends(rest)
    ensures Value(G.Render(d) + rest) == Match(ActsOf(d), rest)
    decreases d, if d.Group? then |d.entries| + 2 else 0
  {
    hide Skip, Value, Ends, G.GapText, G.LiteralText, G.StringText, G.StringMeans, G.RenderFrom, G.StringOk, G.LiteralOk,
         ActsFrom;
    match d
    case Word(gap, word) =>
      assert G.Render(d) + rest == G.GapText(gap) + (G.LiteralText(word) + rest);
      LiteralKept(gap, word, rest);
    case Text(strings) =>
      TextValueRead(strings, rest);
    case Group(gap, named, inside, entries) =>
      GroupRead(d, rest);
      ValueIsGroup(G.Render(d) + rest, named);
  }

  lemma ValueIsGroup(s: Bytes, named: bool)
    requires Next(s, G.Open(named))
    ensures Value(s) == Group(s)
  {
    hide Skip, Group;
  }

  lemma GroupRead(d: G.Doc, rest: Bytes)
    requires d.Group? && G.DocOk(d)
    ensures Next(G.Render(d) + rest, G.Open(d.named))
    ensures Group(G.Render(d) + rest) == Match(ActsOf(d), rest)
    decreases d, |d.entries| + 1
  {
    hide Skip, Members, G.GapText, G.RenderFrom, ActsFrom, G.GapOk, G.StringOk;
    var inner := (if d.entries == [] then G.GapText(d.inside) + [G.Close(d.named)] else G.RenderFrom(d, 0)) + rest;
    assert G.Render(d) + rest == G.GapText(d.gap) + ([G.Open(d.named)] + inner);
    GapThen(d.gap, G.Open(d.named), inner);
    if d.entries == [] {
      assert inner == G.GapText(d.inside) + ([G.Close(d.named)] + rest);
      GapThen(d.inside, G.Close(d.named), rest);
      NoEntries(d);
    } else {
      NotClosedYet(d, rest);
      MembersRead(d, 0, rest);
    }
  }

  lemma NoEntries(d: G.Doc)
    requires d.Group? && G.DocOk(d) && d.entries == []
    ensures [Begin] + ActsFrom(d, 0) == [Begin, End]
  {
  }

  /** The first character of a value closes nothing. */
  lemma ValueStart(d: G.Doc, rest: Bytes)
    requires G.DocOk(d)
    ensures !Next(G.Render(d) + rest, 125) && !Next(G.Render(d) + rest, 93)
  {
    hide Skip, G.GapText, G.RenderFrom, G.GapOk, G.DigitsText, G.FractionText, G.ExponentText, G.StringText;
    match d
    case Word(gap, word) =>
      assert G.Render(d) + rest == G.GapText(gap) + (G.LiteralText(word) + rest);
      GapSkipped(gap, G.LiteralText(word) + rest);
      LiteralStart(word, rest);
    case Text(strings) =>
      StringStart(strings, rest);
    case Group(gap, named, inside, entries) =>
      var inner := (if entries == [] then G.GapText(inside) + [G.Close(named)] else G.RenderFrom(d, 0)) + rest;
      assert G.Render(d) + rest == G.GapText(gap) + ([G.Open(named)] + inner);
      GapThen(gap, G.Open(named), inner);
  }

  lemma LiteralStart(x: G.Literal, rest: Bytes)
    requires G.LiteralOk(x)
    ensures var t := G.LiteralText(x) + rest; t != [] && t[0] != 93 && t[0] != 125 && Skip(t) == t
  {
    hide Skip, G.NumText;
    if x.Number? {
      WholeOver(x.n, rest);
    } else {
      WordBytes();
      RT.SkipNothing(G.LiteralText(x) + rest);
    }
  }

  lemma StringStart(qs: seq<G.Quoted>, rest: Bytes)
    requires G.StringOk(qs)
    ensures Next(G.StringText(qs) + rest, 34) && forall b :: b != 34 ==> !Next(G.StringText(qs) + rest, b)
  {
    hide Skip, G.GapText, G.GapOk, G.PiecesText, G.PiecesOk;
    var q := qs[0];
    var inside := G.PiecesText(q.pieces) + [34] + G.StringText(qs[1..]) + rest;
    assert G.StringText(qs) + rest == G.GapText(q.gap) + ([34] + inside);
    GapThen(q.gap, 34, inside);
  }

  lemma NotClosedYet(d: G.Doc, rest: Bytes)
    requires d.Group? && G.DocOk(d) && d.entries != []
    ensures !Next(G.RenderFrom(d, 0) + rest, G.Close(d.named))
  {
    hide Skip, G.GapText, G.Render, G.StringText, G.StringOk;
    var e := d.entries[0];
    var tail := G.GapText(e.after) + (if 1 < |d.entries| then [44] + G.RenderFrom(d, 1) else [G.Close(d.named)]) + rest;
    if d.named {
      assert G.RenderFrom(d, 0) + rest == G.StringText(e.key) + (G.GapText(e.colon) + [58] + G.Render(e.value) + tail);
      StringStart(e.key, G.GapText(e.colon) + [58] + G.Render(e.value) + tail);
    } else {
      assert G.RenderFrom(d, 0) + rest == G.Render(e.value) + tail;
      ValueStart(e.value, tail);
    }
  }

  /** The text from an entry on: the entry, its gap, and what remains. */
  lemma EntryText(d: G.Doc, i: nat, rest: Bytes)
    requires d.Group? && i < |d.entries|
    ensures var e := d.entries[i];
            G.RenderFrom(d, i) + rest
            == G.KeyText(e, d.named) + (G.Render(e.value) + (G.GapText(e.after) + Remaining(d, i + 1, rest)))
  {
    hide G.GapText, G.Render, G.KeyText;
    var e := d.entries[i];
    var k, v, a := G.KeyText(e, d.named), G.Render(e.value), G.GapText(e.after);
    var z := if i + 1 < |d.entries| then [44] + G.RenderFrom(d, i + 1) else [G.Close(d.named)];
    assert z + rest == Remaining(d, i + 1, rest);
    assert k + (v + (a + z)) + rest == k + (v + (a + (z + rest)));
  }

  /** Behind an entry stands a comma or what closes the group. */
  lemma AfterEntry(d: G.Doc, i: nat, rest: Bytes)
    requires d.Group? && G.DocOk(d) && i < |d.entries|
    ensures var s, r := G.GapText(d.entries[i].after) + Remaining(d, i + 1, rest), Remaining(d, i + 1, rest);
            && Ends(s) && Skip(s) == r && r != [] && Next(s, r[0]) && (forall b :: b != r[0] ==> !Next(s, b))
            && r[0] == (if i + 1 < |d.entries| then 44 else G.Close(d.named))
            && r[1..] == if i + 1 < |d.entries| then G.RenderFrom(d, i + 1) + rest else rest
  {
    hide Skip, G.GapText, G.GapOk, G.RenderFrom, G.StringOk;
    var r := Remaining(d, i + 1, rest);
    assert r == [r[0]] + r[1..];
    GapThen(d.entries[i].after, r[0], r[1..]);
  }

  lemma EntryRead(d: G.Doc, i: nat, tail: Bytes)
    requires d.Group? && G.DocOk(d) && i < |d.entries| && Ends(tail)
    ensures var e := d.entries[i];
            Member(G.KeyText(e, d.named) + (G.Render(e.value) + tail), d.named)
            == Match(KeyActs(e, d.named) + ActsOf(e.value), tail)
    decreases d, 0
  {
    hide Skip, Value, Strings, G.GapText, G.GapOk, G.Render, G.StringText, G.StringMeans, G.StringOk, ActsOf, Ends;
    var e := d.entries[i];
    ValueRead(e.value, tail);
    var value := G.Render(e.value) + tail;
    if d.named {
      var colon := G.GapText(e.colon) + ([58] + value);
      assert G.KeyText(e, true) + value == G.StringText(e.key) + colon;
      GapThen(e.colon, 58, value);
      StringsRead(e.key, colon);
    } else {
      assert G.KeyText(e, false) + value == value;
      assert [] + ActsOf(e.value) == ActsOf(e.value);
    }
  }

  lemma {:induction false} MembersRead(d: G.Doc, i: nat, rest: Bytes)
    requires d.Group? && G.DocOk(d) && i < |d.entries|
    ensures Members(G.RenderFrom(d, i) + rest, d.named) == Match(ActsFrom(d, i), rest)
    decreases d, |d.entries| - i
  {
    hide Skip, Member, G.GapText, G.RenderFrom, G.Render, G.KeyText, KeyActs, ActsOf, Remaining, Ends, G.GapOk, G.StringOk;
    var e := d.entries[i];
    EntryText(d, i, rest);
    AfterEntry(d, i, rest);
    EntryRead(d, i, G.GapText(e.after) + Remaining(d, i + 1, rest));
    if i + 1 < |d.entries| {
      MembersRead(d, i + 1, rest);
    } else {
      LastActs(d);
    }
  }

  lemma LastActs(d: G.Doc)
    requires d.Group? && G.DocOk(d)
    ensures ActsFrom(d, |d.entries|) == [End]
  {
  }

  // ---------- the tree ----------

  /** A value is entered under the name at hand. */
  lemma DocBuilt(c: Context, d: G.Doc)
    requires RT.Ready(c) && G.DocOk(d)
    ensures Run(c, ActsOf(d)) == Enter(c, G.TreeOf(d))
    decreases d, if d.Group? then |d.entries| + 1 else 0
  {
    hide Run, ActsFrom, G.ChildrenOf, G.StringMeans, G.LiteralText;
    match d
    case Word(_, word) =>
      RT.RunOne(c, Literal(G.LiteralText(word)));
    case Text(strings) =>
      var data := G.StringMeans(strings);
      RT.RunConcat(c, Chars(data), [StringVal]);
      RT.RunChars(c, data);
      assert [] + data == data;
      RT.RunOne(c.(str := data), StringVal);
    case Group(_, _, _, _) =>
      RT.RunConcat(c, [Begin], ActsFrom(d, 0));
      RT.RunOne(c, Begin);
      assert G.ChildrenOf(d)[..0] == [];
      EntriesBuilt(c.(stack := c.stack + [Frame(c.name, [])], name := []), d, 0, c.stack, c.name);
      RT.LeaveEnters(c, G.TreeOf(d));
  }

  /** The entries from place i on are entered, and then the group is left. */
  lemma {:induction false} EntriesBuilt(c: Context, d: G.Doc, i: nat, below: seq<Frame>, key: Bytes)
    requires d.Group? && G.DocOk(d) && i <= |d.entries| && c.str == [] && c.name == []
    requires c.stack == below + [Frame(key, G.ChildrenOf(d)[..i])]
    ensures Run(c, ActsFrom(d, i)) == Leave(c.(stack := below + [Frame(key, G.ChildrenOf(d))]))
    decreases d, |d.entries| - i
  {
    hide Run, ActsOf, KeyActs, Leave, G.TreeOf, G.StringOk;
    var children := G.ChildrenOf(d);
    if i == |d.entries| {
      assert children[..i] == children;
      RT.RunOne(c, End);
    } else {
      var e := d.entries[i];
      var a, b := KeyActs(e, d.named), ActsOf(e.value);
      RT.RunConcat(c, a + b, ActsFrom(d, i + 1));
      RT.RunConcat(c, a, b);
      KeyBuilt(c, e, d.named);
      var named := c.(name := children[i].key);
      DocBuilt(named, e.value);
      RT.EnterNext(named, children, i, below, key);
      EntriesBuilt(Enter(named, children[i].tree), d, i + 1, below, key);
    }
  }

  lemma KeyBuilt(c: Context, e: G.Entry, named: bool)
    requires c.str == [] && c.name == [] && (named ==> G.StringOk(e.key))
    ensures Run(c, KeyActs(e, named)) == c.(name := if named then G.StringMeans(e.key) else [])
  {
    hide Run, G.StringMeans;
    if named {
      var key := G.StringMeans(e.key);
      RT.RunConcat(c, Chars(key), [Name]);
      RT.RunChars(c, key);
      assert [] + key == key;
      RT.RunOne(c.(str := key), Name);
    } else {
      RT.RunNothing(c);
    }
  }

  lemma RootBuilt(d: G.Doc)
    requires d.Group? && G.DocOk(d)
    ensures Run(Empty(), ActsOf(d)).root == G.ChildrenOf(d)
  {
    hide Run, ActsFrom, G.ChildrenOf;
    var c := Empty();
    RT.RunConcat(c, [Begin], ActsFrom(d, 0));
    RT.RunOne(c, Begin);
    assert G.ChildrenOf(d)[..0] == [] && [] + [Frame([], [])] == [Frame([], [])];
    EntriesBuilt(c.(stack := [Frame([], [])]), d, 0, [], []);
    assert [] + [Frame([], G.ChildrenOf(d))] == [Frame([], G.ChildrenOf(d))];
  }

  // ---------- the results ----------

  /** A comment that the text breaks off. */
  function LastComment(text: Option<Bytes>): (s: Bytes)
  {
    match text
    case None => []
    case Some(t) => [47, 47] + t
  }

  lemma {:induction false} LineToEnd(t: Bytes)
    requires G.InLine(t)
    ensures LineLength(t) == |t|
    decreases |t|
  {
    if t != [] {
      LineToEnd(t[1..]);
    }
  }

  lemma EndSkipped(g: G.Gap, last: Option<Bytes>)
    requires G.GapOk(g) && (last.Some? ==> G.InLine(last.value))
    ensures Skip(G.GapText(g) + LastComment(last)) == []
  {
    hide G.GapText, G.GapOk;
    GapSkipped(g, LastComment(last));
    if last.Some? {
      var s := LastComment(last);
      assert s[0] == 47 && s[1] == 47 && s[2..] == last.value;
      LineToEnd(last.value);
      assert s[CommentLength(s)..] == [];
    }
  }

  /**
   Every text of the grammar is accepted and read as its tree: an array or object, with strings, numbers and words inside,
   with blanks and comments anywhere between the tokens, and with a comment at the end that may lack the end of its line.
   */
  lemma DocRead(d: G.Doc, end: G.Gap, last: Option<Bytes>)
    requires d.Group? && G.DocOk(d) && G.GapOk(end) && (last.Some? ==> G.InLine(last.value))
    ensures Read(G.Render(d) + (G.GapText(end) + LastComment(last))) == Some(G.TreeOf(d))
  {
    hide Skip, Group, G.Render, G.GapText, G.GapOk, ActsOf, Run, G.ChildrenOf, LastComment, G.InLine;
    GroupRead(d, G.GapText(end) + LastComment(last));
    EndSkipped(end, last);
    RootBuilt(d);
  }

  // ---------- the writer ----------

  predicate CapitalHex(b: Byte)
  {
    48 <= b <= 57 || 65 <= b <= 70
  }

  /**
   The writer writes a byte as a piece that stands for it: as it is from 32 on, save for quote, slash and backslash; these
   and backspace, form feed, newline and return with a letter; and other control characters with four digits.
   */
  lemma EscapedPiece(b: Byte) returns (x: G.Piece)
    ensures G.PieceOk(x) && G.Means(x) == [b] && Escape(b) == G.PieceText(x)
    ensures x.Plain? <==> b >= 32 && b !in {34, 47, 92}
    ensures x.Escape? <==> b in {8, 10, 12, 13, 34, 47, 92}
    ensures x.Code? ==> x.hex[..2] == [48, 48] && CapitalHex(x.hex[2]) && CapitalHex(x.hex[3])
  {
    if b >= 32 && b !in {34, 47, 92} {
      x := G.Plain(b);
    } else if b in {8, 10, 12, 13, 34, 47, 92} {
      x := G.Escape(if b == 8 then 98 else if b == 10 then 110 else if b == 12 then 102 else if b == 13 then 114 else b);
    } else {
      x := G.Code([48, 48, HexDigit(b / 16), HexDigit(b % 16)]);
      HexBack(b);
    }
  }

  lemma HexBack(b: Byte)
    requires b < 32
    ensures var hex := [48, 48, HexDigit(b / 16), HexDigit(b % 16)];
            G.IsHex(hex[2]) && G.IsHex(hex[3]) && G.CodeOf(hex) == b
    ensures b / 4096 == 0 && b / 256 % 16 == 0 && b / 16 % 16 == b / 16 && HexDigit(0) == 48
  {
  }
}
