/**
 Writing a property tree and reading it back (json_parser_write.hpp and json_parser_read.hpp): for every tree that can be
 written, indented or compact, the reader recovers the tree.
 */
module JsonRoundTrip {
  import opened Common
  import opened JsonWrite
  import opened JsonRead

  // ---------- blanks ----------

  ghost predicate AllBlank(s: Bytes)
  {
    forall i :: 0 <= i < |s| ==> Blank(s[i])
  }

  lemma {:induction false} SkipBlanks(blanks: Bytes, s: Bytes)
    requires AllBlank(blanks)
    ensures Skip(blanks + s) == Skip(s)
    decreases |blanks|
  {
    if blanks == [] {
      assert blanks + s == s;
    } else {
      SkipBlanks(blanks[1..], s);
      assert (blanks + s)[0] == blanks[0] && (blanks + s)[1..] == blanks[1..] + s;
    }
  }

  /** A character that ends blanks. */
  predicate Solid(b: Byte)
  {
    !Blank(b) && b != SLASH
  }

  lemma SkipNothing(s: Bytes)
    requires s != [] && Solid(s[0])
    ensures Skip(s) == s
  {
  }

  lemma SkipTo(blanks: Bytes, s: Bytes)
    requires AllBlank(blanks) && s != [] && Solid(s[0])
    ensures Skip(blanks + s) == s && Next(blanks + s, s[0])
    ensures forall b :: b != s[0] ==> !Next(blanks + s, b)
  {
    SkipBlanks(blanks, s);
    SkipNothing(s);
  }

  lemma LayoutIsBlank(pretty: bool, indent: nat)
    ensures AllBlank(Line(pretty)) && AllBlank(Margin(pretty, indent)) && AllBlank(Spaces(4 * indent))
  {
  }

  lemma BlankConcat(a: Bytes, b: Bytes)
    requires AllBlank(a) && AllBlank(b)
    ensures AllBlank(a + b)
  {
  }

  /** The grammar does not look at blanks before what it matches. */
  lemma SameStart(s: Bytes, t: Bytes)
    requires Skip(s) == Skip(t)
    ensures Strings(s) == Strings(t) && Word(s) == Word(t)
    ensures Next(s, OPEN_OBJECT) || Next(s, OPEN_ARRAY) ==> Group(s) == Group(t)
    ensures Value(s) == Value(t)
  {
    hide Skip, Inside, Members;
  }

  lemma SameMembers(s: Bytes, t: Bytes, named: bool)
    requires Skip(s) == Skip(t)
    ensures Members(s, named) == Members(t, named)
  {
    hide Skip, Value, Strings;
    SameStart(s, t);
  }

  // ---------- strings ----------

  /** Every escape sequence stands for its character. */
  lemma EscapeRead(b: Byte, tail: Bytes)
    ensures Escape(b) != [] && Escape(b)[0] != QUOTE
    ensures Character(Escape(b) + tail) == Some(([b], |Escape(b)|))
  {
    var s := Escape(b) + tail;
    assert forall i :: 0 <= i < |Escape(b)| ==> s[i] == Escape(b)[i];
    if !Plain(b) && b != 8 && b != 12 && b != 10 && b != 13 && b != SLASH && b != QUOTE && b != BACKSLASH {
      assert b < 32;
      HexRead(b);
    }
  }

  lemma HexRead(b: Byte)
    requires b < 32
    ensures b / 4096 == 0 && b / 256 % 16 == 0
    ensures HexValue(HexDigit(0)) == Some(0)
    ensures HexValue(HexDigit(b / 16 % 16)) == Some(b / 16 % 16) && HexValue(HexDigit(b % 16)) == Some(b % 16)
    ensures b / 16 % 16 * 16 + b % 16 == b
  {
  }

  lemma {:induction false} InsideRead(s: Bytes, rest: Bytes)
    ensures Inside(Escapes(s) + ([QUOTE] + rest)) == Match(Chars(s), rest)
    decreases |s|
  {
    hide Character, Escape;
    if s == [] {
      assert Escapes(s) + ([QUOTE] + rest) == [QUOTE] + rest;
      assert ([QUOTE] + rest)[1..] == rest;
    } else {
      var e, tail := Escape(s[0]), Escapes(s[1..]) + ([QUOTE] + rest);
      EscapeRead(s[0], tail);
      InsideRead(s[1..], rest);
      assert Escapes(s) + ([QUOTE] + rest) == e + tail;
      assert (e + tail)[|e|..] == tail && (e + tail)[0] == e[0];
      assert Chars([s[0]]) + Chars(s[1..]) == Chars(s);
    }
  }

  lemma StringRead(blanks: Bytes, s: Bytes, rest: Bytes)
    requires AllBlank(blanks) && !Next(rest, QUOTE)
    ensures Next(blanks + (Quoted(s) + rest), QUOTE)
    ensures Strings(blanks + (Quoted(s) + rest)) == Match(Chars(s), rest)
  {
    hide Skip, Inside, Escapes;
    var text := Quoted(s) + rest;
    assert text == [QUOTE] + (Escapes(s) + ([QUOTE] + rest));
    assert text[0] == QUOTE && text[1..] == Escapes(s) + ([QUOTE] + rest);
    SkipTo(blanks, text);
    InsideRead(s, rest);
  }

  // ---------- the actions that a tree calls for ----------

  function Acts(t: Tree, indent: nat): (acts: seq<Action>)
    decreases t, |t.children| + 1
  {
    if IsValue(t, indent) then Chars(t.data) + [StringVal] else [Begin] + (ElementActs(t, 0, indent) + [End])
  }

  function NameActs(t: Tree, i: nat, indent: nat): (acts: seq<Action>)
    requires i < |t.children|
  {
    if IsArray(t, indent) then [] else Chars(t.children[i].key) + [Name]
  }

  function ElementActs(t: Tree, i: nat, indent: nat): (acts: seq<Action>)
    requires i <= |t.children|
    decreases t, |t.children| - i
  {
    if i == |t.children| then []
    else NameActs(t, i, indent) + Acts(t.children[i].tree, indent + 1) + ElementActs(t, i + 1, indent)
  }

  // ---------- the grammar on a written tree ----------

  lemma TextStart(t: Tree, indent: nat, pretty: bool, rest: Bytes)
    ensures Text(t, indent, pretty) != []
    ensures var b := (Text(t, indent, pretty) + rest)[0];
            Solid(b) && b == if IsValue(t, indent) then QUOTE else if IsArray(t, indent) then OPEN_ARRAY else OPEN_OBJECT
  {
    hide Elements, Closing, Escapes;
  }

  /** A value between blanks. */
  lemma ValueRead(blanks: Bytes, t: Tree, indent: nat, pretty: bool, rest: Bytes)
    requires AllBlank(blanks) && indent > 0 && !Next(rest, QUOTE)
    ensures Value(blanks + (Text(t, indent, pretty) + rest)) == Match(Acts(t, indent), rest)
    decreases t, |t.children| + 3
  {
    hide Skip, Strings, Group, Elements, ElementActs, Opening, Closing, Escapes;
    var text := Text(t, indent, pretty) + rest;
    TextStart(t, indent, pretty, rest);
    SkipTo(blanks, text);
    if IsValue(t, indent) {
      StringRead(blanks, t.data, rest);
    } else {
      GroupRead(blanks, t, indent, pretty, rest);
    }
  }

  /** An object or an array between blanks; what follows does not matter. */
  lemma GroupRead(blanks: Bytes, t: Tree, indent: nat, pretty: bool, rest: Bytes)
    requires AllBlank(blanks) && !IsValue(t, indent)
    ensures var s := blanks + (Text(t, indent, pretty) + rest);
            && (Next(s, OPEN_OBJECT) || Next(s, OPEN_ARRAY))
            && Group(s) == Match(Acts(t, indent), rest)
    decreases t, |t.children| + 2
  {
    hide Skip, Members, Elements, ElementActs, Closing;
    var text, s := Text(t, indent, pretty) + rest, blanks + (Text(t, indent, pretty) + rest);
    TextStart(t, indent, pretty, rest);
    SkipTo(blanks, text);
    var named := !IsArray(t, indent);
    var tail := Elements(t, 0, indent, pretty) + (Closing(t, indent, pretty) + rest);
    OpeningTail(t, indent, pretty, rest);
    LayoutIsBlank(pretty, indent);
    SkipBlanks(Line(pretty), tail);
    SameMembers(Line(pretty) + tail, tail, named);
    if t.children == [] {
      NoneInside(t, indent, pretty, rest);
    } else {
      FirstInside(t, indent, pretty, rest);
      MembersRead(t, 0, indent, pretty, rest);
    }
  }

  lemma OpeningTail(t: Tree, indent: nat, pretty: bool, rest: Bytes)
    requires !IsValue(t, indent)
    ensures (Text(t, indent, pretty) + rest)[1..]
         == Line(pretty) + (Elements(t, 0, indent, pretty) + (Closing(t, indent, pretty) + rest))
  {
    hide Elements, Closing, Line;
    var open, line := [if IsArray(t, indent) then OPEN_ARRAY else OPEN_OBJECT], Line(pretty);
    var tail := line + (Elements(t, 0, indent, pretty) + (Closing(t, indent, pretty) + rest));
    assert Text(t, indent, pretty) + rest == open + tail;
  }

  lemma ClosingStart(t: Tree, indent: nat, pretty: bool, blanks: Bytes, rest: Bytes)
    requires AllBlank(blanks)
    ensures var s, close := blanks + (Closing(t, indent, pretty) + rest), if IsArray(t, indent) then CLOSE_ARRAY else CLOSE_OBJECT;
            Next(s, close) && Skip(s) == [close] + rest && Skip(s)[1..] == rest && !Next(s, COMMA) && !Next(s, QUOTE)
  {
    hide Skip;
    LayoutIsBlank(pretty, indent);
    var close := if IsArray(t, indent) then CLOSE_ARRAY else CLOSE_OBJECT;
    var margin := if IsArray(t, indent) then Spaces(4 * indent) else Margin(pretty, indent);
    BlankConcat(blanks, margin);
    assert blanks + (Closing(t, indent, pretty) + rest) == blanks + margin + ([close] + rest);
    SkipTo(blanks + margin, [close] + rest);
  }

  lemma NoneInside(t: Tree, indent: nat, pretty: bool, rest: Bytes)
    requires t.children == [] && !IsValue(t, indent)
    ensures var s := Line(pretty) + (Elements(t, 0, indent, pretty) + (Closing(t, indent, pretty) + rest));
            Next(s, CLOSE_OBJECT) && Skip(s)[1..] == rest && Acts(t, indent) == [Begin, End] && !IsArray(t, indent)
  {
    LayoutIsBlank(pretty, indent);
    ClosingStart(t, indent, pretty, Line(pretty), rest);
    assert Elements(t, 0, indent, pretty) + (Closing(t, indent, pretty) + rest) == Closing(t, indent, pretty) + rest;
  }

  /** The first child does not look like the end. */
  lemma FirstInside(t: Tree, indent: nat, pretty: bool, rest: Bytes)
    requires t.children != []
    ensures var s := Line(pretty) + (Elements(t, 0, indent, pretty) + (Closing(t, indent, pretty) + rest));
            !Next(s, if IsArray(t, indent) then CLOSE_ARRAY else CLOSE_OBJECT)
  {
    hide Skip, Text, Closing, Elements, Tail, IsArray, Line, Lead;
    ElementsHead(t, 0, indent, pretty, rest);
    LeadStart(t, indent, pretty, Tail(t, 0, indent, pretty, rest));
  }

  lemma LeadStart(t: Tree, indent: nat, pretty: bool, tail: Bytes)
    requires t.children != []
    ensures var s := Line(pretty) + (Lead(t, 0, indent, pretty) + (Text(t.children[0].tree, indent + 1, pretty) + tail));
            !Next(s, if IsArray(t, indent) then CLOSE_ARRAY else CLOSE_OBJECT)
  {
    hide Skip, Text, IsArray, Escapes;
    LayoutIsBlank(pretty, indent + 1);
    LayoutIsBlank(pretty, indent);
    var c, blanks := t.children[0], Line(pretty) + Margin(pretty, indent + 1);
    var value := Text(c.tree, indent + 1, pretty);
    BlankConcat(Line(pretty), Margin(pretty, indent + 1));
    TextStart(c.tree, indent + 1, pretty, tail);
    if IsArray(t, indent) {
      assert Line(pretty) + (Margin(pretty, indent + 1) + [] + (value + tail)) == blanks + (value + tail);
      SkipTo(blanks, value + tail);
    } else {
      var inner := Label(c, indent, pretty) + (value + tail);
      assert inner[0] == QUOTE;
      assert Line(pretty) + (Margin(pretty, indent + 1) + Label(c, indent, pretty) + (value + tail)) == blanks + inner;
      SkipTo(blanks, inner);
    }
  }

  /** What follows the value of a child. */
  ghost function Tail(t: Tree, i: nat, indent: nat, pretty: bool, rest: Bytes): (s: Bytes)
    requires i < |t.children|
  {
    Trail(t, i, pretty) + (Elements(t, i + 1, indent, pretty) + (Closing(t, indent, pretty) + rest))
  }

  lemma TailMore(t: Tree, i: nat, indent: nat, pretty: bool, rest: Bytes)
    requires i + 1 < |t.children|
    ensures var s := Tail(t, i, indent, pretty, rest);
            && Next(s, COMMA) && !Next(s, QUOTE)
            && Skip(Skip(s)[1..]) == Skip(Elements(t, i + 1, indent, pretty) + (Closing(t, indent, pretty) + rest))
  {
    hide Skip, Elements, Closing;
    var next := Elements(t, i + 1, indent, pretty) + (Closing(t, indent, pretty) + rest);
    var s := Tail(t, i, indent, pretty, rest);
    assert s == [COMMA] + (Line(pretty) + next);
    assert [] + s == s;
    SkipTo([], s);
    LayoutIsBlank(pretty, indent);
    SkipBlanks(Line(pretty), next);
  }

  lemma TailLast(t: Tree, i: nat, indent: nat, pretty: bool, rest: Bytes)
    requires i + 1 == |t.children|
    ensures var s, close := Tail(t, i, indent, pretty, rest), if IsArray(t, indent) then CLOSE_ARRAY else CLOSE_OBJECT;
            Next(s, close) && !Next(s, COMMA) && !Next(s, QUOTE) && Skip(s)[1..] == rest
  {
    hide Skip, Closing;
    LayoutIsBlank(pretty, indent);
    ClosingStart(t, indent, pretty, Line(pretty), rest);
    assert Tail(t, i, indent, pretty, rest) == Line(pretty) + (Closing(t, indent, pretty) + rest);
  }

  lemma ElementsHead(t: Tree, i: nat, indent: nat, pretty: bool, rest: Bytes)
    requires i < |t.children|
    ensures Elements(t, i, indent, pretty) + (Closing(t, indent, pretty) + rest)
         == Lead(t, i, indent, pretty) + (Text(t.children[i].tree, indent + 1, pretty) + Tail(t, i, indent, pretty, rest))
  {
    hide Text, Lead, Trail, Closing;
    Regroup([], Lead(t, i, indent, pretty), Text(t.children[i].tree, indent + 1, pretty), Trail(t, i, pretty),
            Elements(t, i + 1, indent, pretty));
  }

  /** One child is read with its name, up to what follows it. */
  lemma MemberRead(t: Tree, i: nat, indent: nat, pretty: bool, after: Bytes)
    requires i < |t.children| && !Next(after, QUOTE)
    ensures Member(Lead(t, i, indent, pretty) + (Text(t.children[i].tree, indent + 1, pretty) + after), !IsArray(t, indent))
         == Match(NameActs(t, i, indent) + Acts(t.children[i].tree, indent + 1), after)
    decreases t, 0
  {
    hide Skip, Strings, Value, Text, Escapes, Acts;
    var c := t.children[i];
    var margin, value := Margin(pretty, indent + 1), Text(c.tree, indent + 1, pretty);
    LayoutIsBlank(pretty, indent + 1);
    if IsArray(t, indent) {
      assert margin + [] == margin;
      ValueRead(margin, c.tree, indent + 1, pretty, after);
    } else {
      var gap := Gap(c, indent, pretty);
      GapIsBlank(c, indent, pretty);
      var tail := [COLON] + (gap + (value + after));
      assert margin + (Quoted(c.key) + [COLON] + gap) + (value + after) == margin + (Quoted(c.key) + tail);
      assert [] + tail == tail;
      SkipTo([], tail);
      assert tail[1..] == gap + (value + after);
      StringRead(margin, c.key, tail);
      ValueRead(gap, c.tree, indent + 1, pretty, after);
    }
  }

  /** Between the colon and the value. */
  ghost function Gap(c: Child, indent: nat, pretty: bool): (s: Bytes)
  {
    if !pretty then [] else if c.tree.children == [] then [SPACE] else [NEWLINE] + Spaces(4 * (indent + 1))
  }

  lemma GapIsBlank(c: Child, indent: nat, pretty: bool)
    ensures AllBlank(Gap(c, indent, pretty))
            && Label(c, indent, pretty) == Quoted(c.key) + [COLON] + Gap(c, indent, pretty)
  {
    hide Quoted;
  }

  /** The children from place i on, and the end. */
  lemma {:induction false} MembersRead(t: Tree, i: nat, indent: nat, pretty: bool, rest: Bytes)
    requires i < |t.children|
    ensures Members(Elements(t, i, indent, pretty) + (Closing(t, indent, pretty) + rest), !IsArray(t, indent))
         == Match(ElementActs(t, i, indent) + [End], rest)
    decreases t, |t.children| - i
  {
    hide Skip, Member, Elements, Closing, Text, Lead, Tail, Acts, NameActs, IsArray;
    var tail, named := Tail(t, i, indent, pretty, rest), !IsArray(t, indent);
    var acts := NameActs(t, i, indent) + Acts(t.children[i].tree, indent + 1);
    ElementsHead(t, i, indent, pretty, rest);
    if i + 1 < |t.children| {
      TailMore(t, i, indent, pretty, rest);
      MemberRead(t, i, indent, pretty, tail);
      var next := Elements(t, i + 1, indent, pretty) + (Closing(t, indent, pretty) + rest);
      SameMembers(Skip(tail)[1..], next, named);
      MembersRead(t, i + 1, indent, pretty, rest);
      assert acts + (ElementActs(t, i + 1, indent) + [End]) == acts + ElementActs(t, i + 1, indent) + [End];
    } else {
      TailLast(t, i, indent, pretty, rest);
      MemberRead(t, i, indent, pretty, tail);
      assert ElementActs(t, i, indent) == acts;
    }
  }

  // ---------- the actions build the tree ----------

  lemma {:induction false} RunConcat(c: Context, a: seq<Action>, b: seq<Action>)
    ensures Run(c, a + b) == Run(Run(c, a), b)
    decreases |a|
  {
    hide Apply;
    if a == [] {
      assert a + b == b;
    } else {
      assert (a + b)[0] == a[0] && (a + b)[1..] == a[1..] + b;
      RunConcat(Apply(c, a[0]), a[1..], b);
    }
  }

  lemma RunOne(c: Context, a: Action)
    ensures Run(c, [a]) == Apply(c, a)
  {
    hide Apply;
    assert [a][1..] == [];
  }

  lemma {:induction false} RunChars(c: Context, s: Bytes)
    ensures Run(c, Chars(s)) == c.(str := c.str + s)
    decreases |s|
  {
    if s == [] {
      assert c.str + s == c.str;
    } else {
      var c' := c.(str := c.str + [s[0]]);
      assert Chars(s)[1..] == Chars(s[1..]) && Apply(c, Chars(s)[0]) == c';
      RunChars(c', s[1..]);
      assert c.str + [s[0]] + s[1..] == c.str + s;
    }
  }

  /** Between two values nothing is pending. */
  ghost predicate Ready(c: Context)
  {
    c.str == [] && c.stack != []
  }

  /** What the text keeps of a tree: data only where there are no children. */
  function Strip(t: Tree): (r: Tree)
    decreases t, 1
  {
    if t.children == [] then t else Tree([], StripAll(t))
  }

  function StripAll(t: Tree): (children: seq<Child>)
    ensures |children| == |t.children|
    decreases t, 0
  {
    seq(|t.children|, i requires 0 <= i < |t.children| => Child(t.children[i].key, Strip(t.children[i].tree)))
  }

  /** Nothing is lost just if the tree can be written. */
  lemma {:induction false} StripIff(t: Tree, depth: nat)
    requires depth > 0
    ensures Strip(t) == t <==> Writable(t, depth)
    decreases t, 1
  {
    if t.children != [] {
      StripAllIff(t, depth);
    }
  }

  lemma {:induction false} StripAllIff(t: Tree, depth: nat)
    ensures StripAll(t) == t.children <==> forall i :: 0 <= i < |t.children| ==> Writable(t.children[i].tree, depth + 1)
    decreases t, 0
  {
    forall i | 0 <= i < |t.children|
      ensures StripAll(t)[i] == t.children[i] <==> Writable(t.children[i].tree, depth + 1)
    {
      StripIff(t.children[i].tree, depth + 1);
    }
    if forall i :: 0 <= i < |t.children| ==> Writable(t.children[i].tree, depth + 1) {
      assert StripAll(t) == t.children;
    }
  }

  /** The actions of a value enter it under the name at hand. */
  lemma TreeBuilt(c: Context, t: Tree, indent: nat)
    requires Ready(c) && indent > 0
    ensures Run(c, Acts(t, indent)) == Enter(c, Strip(t))
    decreases t, |t.children| + 2
  {
    hide Run, ElementActs, StripAll;
    if IsValue(t, indent) {
      RunConcat(c, Chars(t.data), [StringVal]);
      RunChars(c, t.data);
      RunOne(c.(str := t.data), StringVal);
      assert [] + t.data == t.data;
    } else {
      var c1 := c.(stack := c.stack + [Frame(c.name, [])], name := []);
      RunConcat(c, [Begin], ElementActs(t, 0, indent) + [End]);
      RunOne(c, Begin);
      RunConcat(c1, ElementActs(t, 0, indent), [End]);
      assert StripAll(t)[..0] == [];
      ElementsBuilt(c1, t, 0, indent, c.stack, c.name);
      var c2 := c1.(stack := c.stack + [Frame(c.name, StripAll(t))]);
      RunOne(c2, End);
      LeaveEnters(c, Strip(t));
    }
  }

  lemma LeaveEnters(c: Context, t: Tree)
    requires Ready(c) && t.data == []
    ensures Leave(c.(stack := c.stack + [Frame(c.name, t.children)], name := [])) == Enter(c, t)
  {
    var k := |c.stack| - 1;
    var stack := c.stack + [Frame(c.name, t.children)];
    assert stack[..k] == c.stack[..k] && stack[k] == c.stack[k];
  }

  /** The actions of the children from place i on enter them into the frame. */
  lemma {:induction false} ElementsBuilt(c: Context, t: Tree, i: nat, indent: nat, below: seq<Frame>, key: Bytes)
    requires i <= |t.children| && c.str == [] && c.name == []
    requires c.stack == below + [Frame(key, StripAll(t)[..i])]
    ensures Run(c, ElementActs(t, i, indent)) == c.(stack := below + [Frame(key, StripAll(t))])
    decreases t, |t.children| - i
  {
    hide Run, Acts;
    if i == |t.children| {
      assert StripAll(t)[..i] == StripAll(t);
      RunNothing(c);
    } else {
      var child := t.children[i];
      var a, b := NameActs(t, i, indent), Acts(child.tree, indent + 1);
      RunConcat(c, a + b, ElementActs(t, i + 1, indent));
      RunConcat(c, a, b);
      NameBuilt(c, t, i, indent);
      var named := c.(name := child.key);
      TreeBuilt(named, child.tree, indent + 1);
      EnterNext(named, StripAll(t), i, below, key);
      ElementsBuilt(Enter(named, Strip(child.tree)), t, i + 1, indent, below, key);
    }
  }

  lemma RunNothing(c: Context)
    ensures Run(c, []) == c
  {
  }

  lemma NameBuilt(c: Context, t: Tree, i: nat, indent: nat)
    requires i < |t.children| && c.str == [] && c.name == []
    ensures Run(c, NameActs(t, i, indent)) == c.(name := t.children[i].key)
  {
    hide Run;
    var key := t.children[i].key;
    if IsArray(t, indent) {
      RunNothing(c);
    } else {
      RunConcat(c, Chars(key), [Name]);
      RunChars(c, key);
      RunOne(c.(str := key), Name);
      assert [] + key == key;
    }
  }

  lemma EnterNext(c: Context, children: seq<Child>, i: nat, below: seq<Frame>, key: Bytes)
    requires i < |children| && c.name == children[i].key && c.str == []
    requires c.stack == below + [Frame(key, children[..i])]
    ensures Enter(c, children[i].tree) == c.(name := [], stack := below + [Frame(key, children[..i + 1])])
  {
    assert c.stack[..|below|] == below;
    assert children[..i + 1] == children[..i] + [children[i]];
  }

  // ---------- the results ----------

  /** The text of any tree is matched, and the actions called are those of the tree. */
  lemma TextMatched(t: Tree, pretty: bool)
    ensures Root(Text(t, 0, pretty) + [NEWLINE]) == Some(Acts(t, 0))
  {
    hide Skip, Group, Text, Acts;
    assert [] + (Text(t, 0, pretty) + [NEWLINE]) == Text(t, 0, pretty) + [NEWLINE];
    GroupRead([], t, 0, pretty, [NEWLINE]);
    OnlyNewline();
  }

  lemma OnlyNewline()
    ensures Skip([NEWLINE]) == []
  {
    assert [NEWLINE][1..] == [];
  }

  lemma RootBuilt(t: Tree)
    ensures Run(Empty(), Acts(t, 0)).root == StripAll(t)
  {
    hide Run, ElementActs, StripAll;
    var c, c1 := Empty(), Empty().(stack := [Frame([], [])]);
    RunConcat(c, [Begin], ElementActs(t, 0, 0) + [End]);
    RunOne(c, Begin);
    RunConcat(c1, ElementActs(t, 0, 0), [End]);
    assert StripAll(t)[..0] == [] && [] + [Frame([], [])] == [Frame([], [])];
    ElementsBuilt(c1, t, 0, 0, [], []);
    assert [] + [Frame([], StripAll(t))] == [Frame([], StripAll(t))];
    RunOne(c1.(stack := [Frame([], StripAll(t))]), End);
  }

  /**
   The text of any tree, indented or compact, can be read, and it is read as that tree if and only if the tree is one
   that the writer accepts.
   */
  lemma RoundTripIff(t: Tree, pretty: bool)
    ensures Read(Text(t, 0, pretty) + [NEWLINE]).Some?
    ensures Read(Text(t, 0, pretty) + [NEWLINE]) == Some(t) <==> Writable(t, 0)
  {
    hide Root, Run, Text, Acts, StripAll;
    TextMatched(t, pretty);
    RootBuilt(t);
    StripAllIff(t, 0);
    NoChildren(t);
  }

  lemma NoChildren(t: Tree)
    ensures t.children == [] ==> StripAll(t) == []
  {
  }
}
