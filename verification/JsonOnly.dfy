/**
 The JSON reader accepts no other texts (avboost/include/boost/json_parser_read.hpp): what it accepts is a text of the
 grammar, so that it is read as the tree that the grammar gives it.
 */
module JsonOnly {
  import opened Common
  import opened JsonWrite
  import opened JsonRead
  import opened JsonAccept
  import G = JsonGrammar
  import RT = JsonRoundTrip

  // ---------- gaps ----------

  /** A line with its end, or the end of the text. */
  lemma {:induction false} LineOf(s: Bytes) returns (text: Bytes, eol: Bytes)
    ensures LineLength(s) == |text| + |eol| && s[..LineLength(s)] == text + eol && G.InLine(text)
    ensures eol == [10] || eol == [13] || eol == [13, 10] || (eol == [] && text == s)
    decreases |s|
  {
    if s == [] {
      text, eol := [], [];
    } else if s[0] == 13 && |s| > 1 && s[1] == NEWLINE {
      text, eol := [], [13, 10];
    } else if s[0] == 13 || s[0] == NEWLINE {
      text, eol := [], [s[0]];
    } else {
      var t, e := LineOf(s[1..]);
      text, eol := [s[0]] + t, e;
      assert s[..LineLength(s)] == [s[0]] + s[1..][..LineLength(s[1..])];
      assert [s[0]] + (t + e) == text + eol;
    }
  }

  lemma {:induction false} CloseOf(s: Bytes) returns (text: Bytes)
    requires Closed(s)
    ensures CloseLength(s) == |text| + 2 && s[..CloseLength(s)] == text + [42, 47] && G.NotClosed(text)
    ensures text != [] ==> text[0] == s[0]
    decreases |s|
  {
    if s[0] == 42 && s[1] == SLASH {
      text := [];
      assert s[..2] == [42, 47];
    } else {
      var t := CloseOf(s[1..]);
      text := [s[0]] + t;
      assert s[..CloseLength(s)] == [s[0]] + s[1..][..CloseLength(s[1..])];
      assert [s[0]] + (t + [42, 47]) == text + [42, 47];
      forall i | 0 <= i < |text| - 1
        ensures text[i] != 42 || text[i + 1] != 47
      {
        if i > 0 {
          assert t[i - 1] != 42 || t[i - 1 + 1] != 47;
        }
      }
    }
  }

  /** A comment is one of the grammar, or runs to the end of the text. */
  lemma CommentOf(s: Bytes) returns (x: G.Space, last: Option<Bytes>)
    requires CommentLength(s) > 0
    ensures if last.Some? then G.InLine(last.value) && s == LastComment(last) && s[CommentLength(s)..] == []
            else G.SpaceOk(x) && s == G.SpaceText(x) + s[CommentLength(s)..]
  {
    hide LineLength, Closed, CloseLength;
    var n := CommentLength(s);
    x, last := G.White(32), None;
    assert s == s[..n] + s[n..];
    if s[1] == SLASH {
      var text, eol := LineOf(s[2..]);
      assert s[..n] == [47, 47] + s[2..][..n - 2];
      if eol == [] {
        last := Some(text);
        assert s == [47, 47] + s[2..];
      } else {
        x := G.LineComment(text, eol);
        assert [47, 47] + (text + eol) == [47, 47] + text + eol;
      }
    } else {
      var text := CloseOf(s[2..]);
      x := G.BlockComment(text);
      assert s[..n] == [47, 42] + s[2..][..n - 2];
      assert [47, 42] + (text + [42, 47]) == [47, 42] + text + [42, 47];
    }
  }

  /** What is skipped is a gap, with a comment that the text breaks off if nothing is left. */
  lemma {:induction false} SkippedOf(s: Bytes) returns (g: G.Gap, last: Option<Bytes>)
    ensures G.GapOk(g) && s == G.GapText(g) + (LastComment(last) + Skip(s))
    ensures last.Some? ==> Skip(s) == [] && G.InLine(last.value)
    decreases |s|
  {
    hide CommentLength, G.SpaceText, G.SpaceOk, G.InLine;
    g, last := [], None;
    assert G.GapText([]) == [];
    if s != [] && Blank(s[0]) {
      g, last := SkippedOf(s[1..]);
      IsWhite(s[0]);
      g := OneMore(G.White(s[0]), g, s[1..], last);
      assert s == [s[0]] + s[1..];
    } else if s != [] && CommentLength(s) > 0 {
      var x, l := CommentOf(s);
      var n := CommentLength(s);
      if l.Some? {
        last := l;
        NothingLeft();
        assert s == LastComment(l) + [];
      } else {
        g, last := SkippedOf(s[n..]);
        g := OneMore(x, g, s[n..], last);
      }
    } else {
      assert s == [] + ([] + s);
    }
  }

  lemma NothingLeft()
    ensures Skip([]) == []
  {
  }

  lemma IsWhite(b: Byte)
    requires Blank(b)
    ensures G.SpaceOk(G.White(b)) && G.SpaceText(G.White(b)) == [b]
  {
  }

  lemma OneMore(x: G.Space, g: G.Gap, s: Bytes, last: Option<Bytes>) returns (g': G.Gap)
    requires G.SpaceOk(x) && G.GapOk(g) && s == G.GapText(g) + (LastComment(last) + Skip(s))
    ensures G.GapOk(g') && G.SpaceText(x) + s == G.GapText(g') + (LastComment(last) + Skip(s))
  {
    hide Skip, G.SpaceText, G.SpaceOk, LastComment;
    g' := [x] + g;
    assert g'[1..] == g;
    var tail := LastComment(last) + Skip(s);
    assert G.SpaceText(x) + (G.GapText(g) + tail) == G.SpaceText(x) + G.GapText(g) + tail;
  }

  /** Before a character stands a gap. */
  lemma GapOf(s: Bytes) returns (g: G.Gap)
    requires Skip(s) != []
    ensures G.GapOk(g) && s == G.GapText(g) + Skip(s)
  {
    hide Skip, G.GapText, G.GapOk;
    var last;
    g, last := SkippedOf(s);
    assert [] + Skip(s) == Skip(s);
  }

  // ---------- strings ----------

  lemma PieceOf(s: Bytes) returns (p: G.Piece)
    requires s != [] && s[0] != QUOTE && Character(s).Some?
    ensures G.PieceOk(p) && s[..Character(s).value.1] == G.PieceText(p)
  {
    hide HexValue, Encode;
    if s[0] != BACKSLASH {
      p := G.Plain(s[0]);
    } else if s[1] != 117 {
      p := G.Escape(s[1]);
    } else {
      p := G.Code(s[2..6]);
      HexAgrees(s[2]);
      HexAgrees(s[3]);
      HexAgrees(s[4]);
      HexAgrees(s[5]);
      assert s[..6] == [92, 117] + s[2..6];
    }
  }

  lemma {:induction false} PiecesOf(s: Bytes) returns (ps: seq<G.Piece>)
    requires Inside(s).Match?
    ensures G.PiecesOk(ps) && s == G.PiecesText(ps) + ([34] + Inside(s).rest)
    decreases |s|
  {
    hide Character, G.PieceText, G.PieceOk, Chars;
    if s[0] == QUOTE {
      ps := [];
      assert s == [] + ([34] + s[1..]);
    } else {
      var p := PieceOf(s);
      var n := Character(s).value.1;
      var more := PiecesOf(s[n..]);
      ps := [p] + more;
      assert ps[1..] == more;
      var tail := [34] + Inside(s).rest;
      assert s == s[..n] + s[n..];
      assert G.PieceText(p) + (G.PiecesText(more) + tail) == G.PieceText(p) + G.PiecesText(more) + tail;
    }
  }

  lemma {:induction false} StringsOf(s: Bytes) returns (qs: seq<G.Quoted>)
    requires Strings(s).Match?
    ensures G.StringOk(qs) && s == G.StringText(qs) + Strings(s).rest
    decreases |s|
  {
    hide Skip, Inside, G.GapText, G.GapOk, G.PiecesOk, G.PiecesText;
    var g := GapOf(s);
    var t := Skip(s);
    assert t == [34] + t[1..];
    var ps := PiecesOf(t[1..]);
    var rest := Inside(t[1..]).rest;
    var q := G.Quoted(g, ps);
    var more: seq<G.Quoted> := [];
    if Next(rest, QUOTE) {
      more := StringsOf(rest);
    } else {
      assert G.StringText(more) + rest == rest;
    }
    qs := [q] + more;
    assert qs[1..] == more;
    var end := Strings(s).rest;
    assert rest == G.StringText(more) + end;
    StringJoins(G.GapText(g), G.PiecesText(ps), G.StringText(more), end);
  }

  lemma StringJoins(g: Bytes, ps: Bytes, more: Bytes, end: Bytes)
    ensures g + ([34] + (ps + ([34] + (more + end)))) == g + ([34] + ps + [34] + more) + end
  {
  }

  // ---------- numbers and words ----------

  lemma {:induction false} DigitsOf(s: Bytes) returns (ds: seq<G.Digit>)
    ensures G.DigitsOk(ds) && s == G.DigitsText(ds) + Digits(s) && (ds != [] <==> StartsDigit(s))
    decreases |s|
  {
    hide Skip, G.GapText, G.GapOk;
    ds := [];
    if StartsDigit(s) {
      var g := GapOf(s);
      var t := Skip(s);
      var more := DigitsOf(t[1..]);
      ds := [G.Digit(g, t[0])] + more;
      assert ds[1..] == more;
      assert t == [t[0]] + t[1..];
      DigitJoins(G.GapText(g), [t[0]], G.DigitsText(more), Digits(s));
    } else {
      assert [] + s == s;
    }
  }

  lemma DigitJoins(g: Bytes, d: Bytes, more: Bytes, end: Bytes)
    ensures g + (d + (more + end)) == g + (d + more) + end
  {
  }

  lemma FractionOf(s: Bytes) returns (point: G.Gap, frac: seq<G.Digit>)
    ensures G.GapOk(point) && G.DigitsOk(frac)
    ensures s == (if frac == [] then [] else G.GapText(point) + ([46] + G.DigitsText(frac))) + Fraction(s)
  {
    hide Skip, Digits, G.GapText, G.GapOk, G.DigitsOk, G.DigitsText, StartsDigit;
    NoGap();
    NoDigits();
    PartsIff(s);
    point, frac := [], [];
    if StartsFraction(s) {
      point := GapOf(s);
      var t := Skip(s);
      assert t == [46] + t[1..];
      frac := DigitsOf(t[1..]);
      DigitsIff(t[1..]);
      DigitJoins(G.GapText(point), [46], G.DigitsText(frac), Digits(t[1..]));
    } else {
      assert [] + s == s;
    }
  }

  lemma NoDigits()
    ensures G.DigitsOk([]) && G.DigitsText([]) == []
  {
  }

  lemma SignOf(t: Bytes) returns (signed: Option<G.Sign>, text: Bytes)
    ensures text == match signed { case None => [] case Some(x) => G.GapText(x.gap) + [x.sign] }
    ensures signed.Some? ==> G.GapOk(signed.value.gap) && (signed.value.sign == 43 || signed.value.sign == 45)
    ensures t == text + if Next(t, 43) || Next(t, 45) then Skip(t)[1..] else t
  {
    hide Skip, G.GapText, G.GapOk;
    if Next(t, 43) || Next(t, 45) {
      var g := GapOf(t);
      signed, text := Some(G.Sign(g, Skip(t)[0])), G.GapText(g) + [Skip(t)[0]];
      assert Skip(t) == [Skip(t)[0]] + Skip(t)[1..];
      assert G.GapText(g) + ([Skip(t)[0]] + Skip(t)[1..]) == G.GapText(g) + [Skip(t)[0]] + Skip(t)[1..];
    } else {
      signed, text := None, [];
      assert [] + t == t;
    }
  }

  /** The exponent, as a number that has no other part. */
  lemma ExponentOf(s: Bytes) returns (n: G.Num)
    ensures G.GapOk(n.mark) && G.DigitsOk(n.exp) && (n.e == 101 || n.e == 69)
    ensures n.signed.Some? ==> G.GapOk(n.signed.value.gap) && (n.signed.value.sign == 43 || n.signed.value.sign == 45)
    ensures s == G.ExponentText(n) + Exponent(s)
  {
    hide Skip, Digits, G.GapText, G.GapOk, G.DigitsOk, G.DigitsText, StartsDigit;
    NoGap();
    NoDigits();
    PartsIff(s);
    n := G.Num(false, [], [], [], [], 101, None, []);
    if StartsExponent(s) {
      var g := GapOf(s);
      var t := Skip(s)[1..];
      var signed, sign := SignOf(t);
      var u := if Next(t, 43) || Next(t, 45) then Skip(t)[1..] else t;
      var ds := DigitsOf(u);
      DigitsIff(u);
      n := G.Num(false, [], [], [], g, Skip(s)[0], signed, ds);
      assert Skip(s) == [n.e] + t;
      ExponentJoins(G.GapText(g), n.e, sign, G.DigitsText(ds), Digits(u));
    } else {
      assert [] + s == s;
    }
  }

  lemma ExponentJoins(g: Bytes, e: Byte, sign: Bytes, ds: Bytes, end: Bytes)
    ensures g + ([e] + (sign + (ds + end))) == g + ([e] + (sign + ds)) + end
  {
  }

  /** The digits before a fraction or an exponent. */
  lemma WholeOf(g: G.Gap, u: Bytes) returns (whole: seq<G.Digit>, rest: Bytes)
    requires G.GapOk(g) && u != [] && IsDigit(u[0])
    ensures rest == if u[0] == 48 then u[1..] else Digits(u[1..])
    ensures whole != [] && G.DigitsOk(whole) && (whole[0].d == 48 ==> |whole| == 1) && whole[0].gap == g
    ensures G.GapText(g) + u == G.DigitsText(whole) + rest
  {
    hide Skip, Digits, G.GapText, G.GapOk;
    rest := if u[0] == 48 then u[1..] else Digits(u[1..]);
    var more: seq<G.Digit> := [];
    if u[0] != 48 {
      more := DigitsOf(u[1..]);
    } else {
      NoDigits();
      assert [] + u[1..] == u[1..];
    }
    whole := [G.Digit(g, u[0])] + more;
    assert whole[1..] == more;
    assert u == [u[0]] + u[1..];
    DigitJoins(G.GapText(g), [u[0]], G.DigitsText(more), rest);
  }

  lemma NumberOf(t: Bytes) returns (n: G.Num)
    requires Number(t).Some? && Skip(t) == t
    ensures G.NumOk(n) && t == G.NumText(n) + Number(t).value
  {
    hide Skip, Digits, Fraction, Exponent, G.GapText, G.GapOk, G.DigitsOk, G.DigitsText, G.ExponentText;
    var neg := Next(t, 45);
    var t1 := if neg then t[1..] else t;
    var u := Skip(t1);
    var g: G.Gap := [];
    NoGap();
    if neg {
      g := GapOf(t1);
    } else {
      assert t1 == [] + t1;
    }
    var whole, w := WholeOf(g, u);
    var point, frac := FractionOf(w);
    var x := ExponentOf(Fraction(w));
    n := G.Num(neg, whole, point, frac, x.mark, x.e, x.signed, x.exp);
    SameExponent(n, x);
    var sign: Bytes := if neg then [45] else [];
    assert t == sign + t1;
    NumberJoins(sign, G.DigitsText(whole), G.FractionText(n), G.ExponentText(n), Exponent(Fraction(w)));
  }

  lemma SameExponent(n: G.Num, x: G.Num)
    requires n.mark == x.mark && n.e == x.e && n.signed == x.signed && n.exp == x.exp
    ensures G.ExponentText(n) == G.ExponentText(x)
  {
  }

  lemma NumberJoins(sign: Bytes, whole: Bytes, frac: Bytes, exp: Bytes, end: Bytes)
    ensures sign + (whole + (frac + (exp + end))) == sign + (whole + (frac + exp)) + end
  {
  }

  lemma {:induction false} SkipTwice(s: Bytes)
    ensures Skip(Skip(s)) == Skip(s)
    decreases |s|
  {
    hide CommentLength;
    if s != [] && Blank(s[0]) {
      SkipTwice(s[1..]);
    } else if s != [] && CommentLength(s) > 0 {
      SkipTwice(s[CommentLength(s)..]);
    }
  }

  lemma LiteralOf(s: Bytes) returns (g: G.Gap, x: G.Literal)
    requires Word(s).Match?
    ensures G.GapOk(g) && G.LiteralOk(x) && s == G.GapText(g) + (G.LiteralText(x) + Word(s).rest)
  {
    hide Skip, Number, G.GapText, G.GapOk, G.NumText, G.NumOk, G.Ascii;
    var t := Skip(s);
    SkipTwice(s);
    WordBytes();
    if Number(t).Some? {
      var n := NumberOf(t);
      x := G.Number(n);
    } else if [116, 114, 117, 101] <= t {
      x := G.True;
      assert t == t[..4] + t[4..];
    } else if [102, 97, 108, 115, 101] <= t {
      x := G.False;
      assert t == t[..5] + t[5..];
    } else {
      x := G.Null;
      assert t == t[..4] + t[4..];
    }
    g := GapOf(s);
  }

  // ---------- values ----------

  ghost predicate EntriesOk(es: seq<G.Entry>, named: bool)
  {
    forall i :: 0 <= i < |es| ==>
      && (named ==> G.StringOk(es[i].key)) && GapsOk(es[i]) && G.DocOk(es[i].value)
  }

  ghost predicate GapsOk(e: G.Entry)
  {
    G.GapOk(e.colon) && G.GapOk(e.after)
  }

  function EntriesText(es: seq<G.Entry>, named: bool): (s: Bytes)
    requires es != []
  {
    G.RenderFrom(G.Group([], named, [], es), 0)
  }

  /** What stands before the first entries does not matter to the text of the rest. */
  lemma {:induction false} Shifted(a: G.Doc, b: G.Doc, i: nat)
    requires a.Group? && b.Group? && a.named == b.named && a.entries != [] && a.entries[1..] == b.entries
    requires i < |b.entries|
    ensures G.RenderFrom(a, i + 1) == G.RenderFrom(b, i)
    decreases |b.entries| - i
  {
    hide G.Render, G.KeyText, G.GapText;
    assert a.entries[i + 1] == b.entries[i];
    if i + 1 < |b.entries| {
      Shifted(a, b, i + 1);
    }
  }

  lemma EntriesMore(e: G.Entry, es: seq<G.Entry>, named: bool)
    ensures EntriesText([e] + es, named)
         == G.KeyText(e, named) + (G.Render(e.value) + (G.GapText(e.after)
            + (if es != [] then [44] + EntriesText(es, named) else [G.Close(named)])))
  {
    hide G.Render, G.KeyText, G.GapText;
    var a, b := G.Group([], named, [], [e] + es), G.Group([], named, [], es);
    assert a.entries[0] == e && a.entries[1..] == es;
    if es != [] {
      Shifted(a, b, 0);
    }
  }

  lemma GroupText(g: G.Gap, named: bool, inside: G.Gap, es: seq<G.Entry>)
    ensures G.Render(G.Group(g, named, inside, es))
         == G.GapText(g) + ([G.Open(named)] + (if es == [] then G.GapText(inside) + [G.Close(named)]
                                              else EntriesText(es, named)))
  {
    hide G.GapText;
    if es != [] {
      SameEntries(G.Group(g, named, inside, es), G.Group([], named, [], es), 0);
    }
  }

  lemma {:induction false} SameEntries(a: G.Doc, b: G.Doc, i: nat)
    requires a.Group? && b.Group? && a.named == b.named && a.entries == b.entries && i < |a.entries|
    ensures G.RenderFrom(a, i) == G.RenderFrom(b, i)
    decreases |a.entries| - i
  {
    hide G.Render, G.KeyText, G.GapText;
    if i + 1 < |a.entries| {
      SameEntries(a, b, i + 1);
    }
  }

  lemma DocOf(s: Bytes) returns (d: G.Doc)
    requires Value(s).Match?
    ensures G.DocOk(d) && s == G.Render(d) + Value(s).rest
    decreases |s|, 1
  {
    hide Skip, Strings, Word, G.GapText, G.GapOk, G.StringText, G.StringOk, G.LiteralText, G.LiteralOk, Members;
    if Next(s, QUOTE) {
      var qs := StringsOf(s);
      d := G.Text(qs);
    } else if Next(s, OPEN_OBJECT) || Next(s, OPEN_ARRAY) {
      d := GroupOf(s);
    } else {
      var g, x := LiteralOf(s);
      d := G.Word(g, x);
      assert G.GapText(g) + G.LiteralText(x) + Word(s).rest == G.GapText(g) + (G.LiteralText(x) + Word(s).rest);
    }
  }

  lemma GroupIsOk(g: G.Gap, named: bool, inside: G.Gap, es: seq<G.Entry>)
    requires G.GapOk(g) && G.GapOk(inside) && EntriesOk(es, named)
    ensures G.DocOk(G.Group(g, named, inside, es))
  {
    hide G.GapOk, G.StringOk;
  }

  lemma GroupOf(s: Bytes) returns (d: G.Doc)
    requires (Next(s, OPEN_OBJECT) || Next(s, OPEN_ARRAY)) && Group(s).Match?
    ensures d.Group? && G.DocOk(d) && s == G.Render(d) + Group(s).rest
    decreases |s|, 0
  {
    hide Skip, Members, G.GapText, G.GapOk, G.StringOk, EntriesText, EntriesOk, G.DocOk, G.Render;
    var named := Next(s, OPEN_OBJECT);
    var g := GapOf(s);
    var t := Skip(s)[1..];
    assert Skip(s) == [G.Open(named)] + t;
    var inside: G.Gap := [];
    var es: seq<G.Entry> := [];
    NoGap();
    NoEntriesOk(named);
    var end := Group(s).rest;
    if Next(t, G.Close(named)) {
      inside := GapOf(t);
      assert Skip(t) == [G.Close(named)] + end;
      EmptyJoins(G.GapText(g), [G.Open(named)], G.GapText(inside), [G.Close(named)], end);
    } else {
      es := EntriesOf(t, named);
      GroupJoins(G.GapText(g), [G.Open(named)], EntriesText(es, named), end);
    }
    d := G.Group(g, named, inside, es);
    GroupIsOk(g, named, inside, es);
    GroupText(g, named, inside, es);
  }

  lemma NoEntriesOk(named: bool)
    ensures EntriesOk([], named)
  {
  }

  lemma EmptyJoins(g: Bytes, open: Bytes, inside: Bytes, close: Bytes, end: Bytes)
    ensures g + (open + (inside + (close + end))) == g + (open + (inside + close)) + end
  {
  }

  lemma GroupJoins(g: Bytes, open: Bytes, es: Bytes, end: Bytes)
    ensures g + (open + (es + end)) == g + (open + es) + end
  {
  }

  /** An entry, up to the gap behind it. */
  lemma EntryOf(s: Bytes, named: bool) returns (key: seq<G.Quoted>, colon: G.Gap, value: G.Doc)
    requires Member(s, named).Match?
    ensures (named ==> G.StringOk(key)) && G.GapOk(colon) && G.DocOk(value)
    ensures s == G.KeyText(G.Entry(key, colon, value, []), named) + (G.Render(value) + Member(s, named).rest)
    decreases |s|, if named then 0 else 2
  {
    hide Skip, Strings, Value, G.GapText, G.GapOk, G.StringText, G.StringOk, G.Render;
    key, colon := [], [];
    NoGap();
    if !named {
      value := DocOf(s);
      assert [] + s == s;
    } else {
      key := StringsOf(s);
      var rest := Strings(s).rest;
      colon := GapOf(rest);
      var t := Skip(rest)[1..];
      assert Skip(rest) == [58] + t;
      value := DocOf(t);
      EntryJoins(G.StringText(key), G.GapText(colon), t);
    }
  }

  lemma EntryJoins(key: Bytes, colon: Bytes, t: Bytes)
    ensures key + (colon + ([58] + t)) == key + (colon + [58]) + t
  {
  }

  lemma EntriesOf(s: Bytes, named: bool) returns (es: seq<G.Entry>)
    requires Members(s, named).Match?
    ensures es != [] && EntriesOk(es, named) && s == EntriesText(es, named) + Members(s, named).rest
    decreases |s|, 3
  {
    hide Skip, Member, G.GapText, G.GapOk, G.StringOk, G.KeyText, G.Render, EntriesText, G.DocOk;
    var key, colon, value := EntryOf(s, named);
    var rest := Member(s, named).rest;
    var after := GapOf(rest);
    var e := G.Entry(key, colon, value, after);
    SameKey(key, colon, value, after, named);
    var t := Skip(rest)[1..];
    assert Skip(rest) == [Skip(rest)[0]] + t;
    var more: seq<G.Entry> := [];
    if Next(rest, COMMA) {
      more := EntriesOf(t, named);
      EntriesJoin(G.KeyText(e, named), G.Render(value), G.GapText(after), [44], EntriesText(more, named),
                  Members(s, named).rest);
    } else {
      EntriesJoin(G.KeyText(e, named), G.Render(value), G.GapText(after), [G.Close(named)], [], t);
      assert [] + t == t && [G.Close(named)] + [] == [G.Close(named)];
    }
    es := [e] + more;
    EntriesMore(e, more, named);
  }

  lemma SameKey(key: seq<G.Quoted>, colon: G.Gap, value: G.Doc, after: G.Gap, named: bool)
    ensures G.KeyText(G.Entry(key, colon, value, []), named) == G.KeyText(G.Entry(key, colon, value, after), named)
  {
  }

  lemma EntriesJoin(k: Bytes, v: Bytes, a: Bytes, c: Bytes, more: Bytes, end: Bytes)
    ensures k + (v + (a + (c + (more + end)))) == k + (v + (a + (c + more))) + end
  {
  }

  // ---------- the result ----------

  /** The text consists of an array or object, a gap, and perhaps a comment that it breaks off. */
  ghost predicate IsText(s: Bytes, d: G.Doc, end: G.Gap, last: Option<Bytes>)
  {
    && d.Group? && G.DocOk(d) && G.GapOk(end) && (last.Some? ==> G.InLine(last.value))
    && s == G.Render(d) + (G.GapText(end) + LastComment(last))
  }

  lemma TextOf(s: Bytes) returns (d: G.Doc, end: G.Gap, last: Option<Bytes>)
    requires Read(s).Some?
    ensures IsText(s, d, end, last)
  {
    hide Skip, Group, G.Render, G.DocOk, G.GapText, G.GapOk, Run, LastComment, G.InLine;
    d := GroupOf(s);
    var rest := Group(s).rest;
    end, last := SkippedOf(rest);
    assert LastComment(last) + [] == LastComment(last);
  }

  /**
   A text is accepted if and only if it is one of the grammar, and then it is read as the tree that the grammar gives
   it.
   */
  lemma ReadIff(s: Bytes)
    ensures Read(s).Some? <==> exists d, end, last :: IsText(s, d, end, last)
    ensures forall d, end, last :: IsText(s, d, end, last) ==> Read(s) == Some(G.TreeOf(d))
  {
    hide Read, IsText;
    if Read(s).Some? {
      var d, end, last := TextOf(s);
    }
    forall d, end, last | IsText(s, d, end, last)
      ensures d.Group? && G.DocOk(d) && Read(s) == Some(G.TreeOf(d))
    {
      TextRead(s, d, end, last);
    }
  }

  lemma TextRead(s: Bytes, d: G.Doc, end: G.Gap, last: Option<Bytes>)
    requires IsText(s, d, end, last)
    ensures G.DocOk(d) && d.Group? && Read(s) == Some(G.TreeOf(d))
  {
    hide Read, G.DocOk, G.Render, G.GapText, LastComment;
    DocRead(d, end, last);
  }

  /** The number 1, a blank, and the digit 2. */
  function OneTwo(): (n: G.Num)
  {
    G.Num(false, [G.Digit([], 49), G.Digit([G.White(32)], 50)], [], [], [], 101, None, [])
  }

  function OneTwoIn(): (d: G.Doc)
  {
    G.Group([], false, [], [G.Entry([], [], G.Word([], G.Number(OneTwo())), [])])
  }

  /** Two numbers with a blank between them are taken for one, which keeps the blank. */
  lemma SplitNumber()
    ensures Read(G.Ascii("[1 2]")) == Some(Tree([], [Child([], Tree(G.Ascii("1 2"), []))]))
  {
    hide Read, G.Render, G.NumText, G.DocOk, OneTwo, G.Ascii;
    SplitText();
    SplitOk();
    var d := OneTwoIn();
    DocRead(d, [], None);
    assert G.GapText([]) + LastComment(None) == [];
    assert G.Render(d) + [] == G.Render(d);
    assert G.ChildrenOf(d) == [Child([], Tree(G.Ascii("1 2"), []))];
  }

  lemma SplitOk()
    ensures G.NumOk(OneTwo()) && G.DocOk(OneTwoIn())
  {
  }

  lemma SplitDigits()
    ensures G.DigitsText(OneTwo().whole) == [49, 32, 50]
  {
    var n := OneTwo();
    var space: G.Gap := [G.White(32)];
    assert space[1..] == [] && G.GapText(space) == [32] && G.GapText([]) == [];
    assert n.whole[1..] == [G.Digit(space, 50)] && n.whole[1..][1..] == [];
    assert G.DigitsText(n.whole[1..]) == [32, 50];
  }

  lemma SplitText()
    ensures G.NumText(OneTwo()) == G.Ascii("1 2") && G.Render(OneTwoIn()) == G.Ascii("[1 2]")
  {
    hide G.DigitsText, G.DigitsOk;
    SplitDigits();
    assert G.NumText(OneTwo()) == [49, 32, 50];
    RenderOne(OneTwo());
  }

  lemma RenderOne(n: G.Num)
    ensures G.Render(G.Group([], false, [], [G.Entry([], [], G.Word([], G.Number(n)), [])])) == [91] + (G.NumText(n) + [93])
  {
    hide G.NumText;
    var d := G.Group([], false, [], [G.Entry([], [], G.Word([], G.Number(n)), [])]);
    assert G.GapText([]) == [];
    assert G.Render(d.entries[0].value) == G.NumText(n);
    assert G.RenderFrom(d, 0) == G.NumText(n) + [93];
  }
}
