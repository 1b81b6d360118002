/**
 Writing a property tree as JSON (avboost/include/boost/json_parser_write.hpp, for one-byte characters).
 */
module JsonWrite {
  import opened Common

  type Bytes = seq<Byte>

  /** A property tree: data, and children under keys that may repeat, in order. */
  datatype Tree = Tree(data: Bytes, children: seq<Child>)

  datatype Child = Child(key: Bytes, tree: Tree)

  const QUOTE: Byte := 34
  const BACKSLASH: Byte := 92
  const SLASH: Byte := 47
  const COMMA: Byte := 44
  const COLON: Byte := 58
  const OPEN_ARRAY: Byte := 91
  const CLOSE_ARRAY: Byte := 93
  const OPEN_OBJECT: Byte := 123
  const CLOSE_OBJECT: Byte := 125
  const SPACE: Byte := 32
  const NEWLINE: Byte := 10

  // ---------- strings ----------

  function HexDigit(d: nat): (h: Byte)
    requires d < 16
  {
    if d < 10 then 48 + d else 55 + d
  }

  /** Characters that are written as they are. */
  predicate Plain(b: Byte)
  {
    b == 0x20 || b == 0x21 || 0x23 <= b <= 0x2E || 0x30 <= b <= 0x5B || 0x5D <= b
  }

  function Escape(b: Byte): (s: Bytes)
  {
    if Plain(b) then [b]
    else if b == 8 then [BACKSLASH, 98]
    else if b == 12 then [BACKSLASH, 102]
    else if b == 10 then [BACKSLASH, 110]
    else if b == 13 then [BACKSLASH, 114]
    else if b == SLASH then [BACKSLASH, SLASH]
    else if b == QUOTE then [BACKSLASH, QUOTE]
    else if b == BACKSLASH then [BACKSLASH, BACKSLASH]
    else [BACKSLASH, 117, HexDigit(b / 4096), HexDigit(b / 256 % 16), HexDigit(b / 16 % 16), HexDigit(b % 16)]
  }

  function Escapes(s: Bytes): (r: Bytes)
  {
    if s == [] then [] else Escape(s[0]) + Escapes(s[1..])
  }

  method CreateEscapes(s: Bytes) returns (result: Bytes)
    ensures result == Escapes(s)
  {
    hide Escape;
    result := [];
    assert s[0..] == s;
    for i := 0 to |s|
      invariant result + Escapes(s[i..]) == Escapes(s)
    {
      assert s[i..][1..] == s[i + 1..];
      assert result + (Escape(s[i]) + Escapes(s[i + 1..])) == result + Escape(s[i]) + Escapes(s[i + 1..]);
      result := result + Escape(s[i]);
    }
  }

  function Quoted(s: Bytes): (r: Bytes)
  {
    [QUOTE] + Escapes(s) + [QUOTE]
  }

  // ---------- trees ----------

  function Spaces(n: nat): (s: Bytes)
  {
    seq(n, _ => SPACE)
  }

  predicate AllUnnamed(children: seq<Child>)
  {
    forall i :: 0 <= i < |children| ==> children[i].key == []
  }

  /** A tree without children is a string, one whose keys are all empty an array; the root is always an object. */
  predicate IsValue(t: Tree, indent: nat)
  {
    indent > 0 && t.children == []
  }

  predicate IsArray(t: Tree, indent: nat)
  {
    indent > 0 && t.children != [] && AllUnnamed(t.children)
  }

  function Text(t: Tree, indent: nat, pretty: bool): (s: Bytes)
    decreases t, |t.children| + 1
  {
    if IsValue(t, indent) then Quoted(t.data)
    else Opening(t, indent, pretty) + (Elements(t, 0, indent, pretty) + Closing(t, indent, pretty))
  }

  function Opening(t: Tree, indent: nat, pretty: bool): (s: Bytes)
  {
    [if IsArray(t, indent) then OPEN_ARRAY else OPEN_OBJECT] + Line(pretty)
  }

  /** An array is closed behind spaces even in a compact text. */
  function Closing(t: Tree, indent: nat, pretty: bool): (s: Bytes)
  {
    if IsArray(t, indent) then Spaces(4 * indent) + [CLOSE_ARRAY] else Margin(pretty, indent) + [CLOSE_OBJECT]
  }

  function Line(pretty: bool): (s: Bytes)
  {
    if pretty then [NEWLINE] else []
  }

  function Margin(pretty: bool, indent: nat): (s: Bytes)
  {
    if pretty then Spaces(4 * indent) else []
  }

  /** The name of a member, up to its value. */
  function Label(c: Child, indent: nat, pretty: bool): (s: Bytes)
  {
    Quoted(c.key) + [COLON]
    + (if !pretty then [] else if c.tree.children == [] then [SPACE] else [NEWLINE] + Spaces(4 * (indent + 1)))
  }

  /** What comes before the value of a child. */
  function Lead(t: Tree, i: nat, indent: nat, pretty: bool): (s: Bytes)
    requires i < |t.children|
  {
    Margin(pretty, indent + 1) + (if IsArray(t, indent) then [] else Label(t.children[i], indent, pretty))
  }

  /** What comes after it. */
  function Trail(t: Tree, i: nat, pretty: bool): (s: Bytes)
  {
    (if i + 1 < |t.children| then [COMMA] else []) + Line(pretty)
  }

  /** The children from place i on. */
  function Elements(t: Tree, i: nat, indent: nat, pretty: bool): (s: Bytes)
    requires i <= |t.children|
    decreases t, |t.children| - i
  {
    if i == |t.children| then []
    else
      Lead(t, i, indent, pretty)
      + (Text(t.children[i].tree, indent + 1, pretty) + (Trail(t, i, pretty) + Elements(t, i + 1, indent, pretty)))
  }

  /** The helper that writes to the stream. */
  method WriteHelper(stream: Bytes, t: Tree, indent: nat, pretty: bool) returns (stream': Bytes)
    ensures stream' == stream + Text(t, indent, pretty)
    decreases t, 1
  {
    hide Escapes, Spaces, Elements, Opening, Closing, IsArray;
    if IsValue(t, indent) {
      var data := CreateEscapes(t.data);
      stream' := stream + ([QUOTE] + data + [QUOTE]);
    } else {
      stream' := stream + Opening(t, indent, pretty);
      ghost var before, all := stream', Elements(t, 0, indent, pretty);
      for i := 0 to |t.children|
        invariant stream' + Elements(t, i, indent, pretty) == before + all
      {
        stream' := WriteElement(stream', t, i, indent, pretty);
      }
      NoElements(t, indent, pretty, stream');
      stream' := stream' + Closing(t, indent, pretty);
    }
  }

  lemma NoElements(t: Tree, indent: nat, pretty: bool, stream: Bytes)
    ensures stream + Elements(t, |t.children|, indent, pretty) == stream
  {
  }

  /** One child with what comes before and after it. */
  method WriteElement(stream: Bytes, t: Tree, i: nat, indent: nat, pretty: bool) returns (stream': Bytes)
    requires i < |t.children|
    ensures stream' + Elements(t, i + 1, indent, pretty) == stream + Elements(t, i, indent, pretty)
    decreases t, 0
  {
    hide Text, Lead, Trail;
    stream' := WriteLead(stream, t, i, indent, pretty);
    stream' := WriteHelper(stream', t.children[i].tree, indent + 1, pretty);
    stream' := stream' + Trail(t, i, pretty);
    Regroup(stream, Lead(t, i, indent, pretty), Text(t.children[i].tree, indent + 1, pretty), Trail(t, i, pretty),
            Elements(t, i + 1, indent, pretty));
  }

  method WriteLead(stream: Bytes, t: Tree, i: nat, indent: nat, pretty: bool) returns (stream': Bytes)
    requires i < |t.children|
    ensures stream' == stream + Lead(t, i, indent, pretty)
  {
    hide Margin, Label;
    stream' := stream + Margin(pretty, indent + 1);
    if !IsArray(t, indent) {
      stream' := WriteLabel(stream', t.children[i], indent, pretty);
    }
  }

  lemma Regroup(s: Bytes, a: Bytes, b: Bytes, c: Bytes, d: Bytes)
    ensures s + a + b + c + d == s + (a + (b + (c + d)))
  {
  }

  method WriteLabel(stream: Bytes, c: Child, indent: nat, pretty: bool) returns (stream': Bytes)
    ensures stream' == stream + Label(c, indent, pretty)
  {
    hide Escapes, Spaces;
    var key := CreateEscapes(c.key);
    stream' := stream + ([QUOTE] + key + [QUOTE]) + [COLON];
    if pretty {
      if c.tree.children == [] {
        stream' := stream' + [SPACE];
      } else {
        stream' := stream' + ([NEWLINE] + Spaces(4 * (indent + 1)));
      }
    }
  }

  // ---------- what can be written ----------

  /** Data and children do not go together, and the root has no data. */
  predicate Writable(t: Tree, depth: nat)
    decreases t
  {
    && (depth == 0 ==> t.data == [])
    && (t.data == [] || t.children == [])
    && forall i :: 0 <= i < |t.children| ==> Writable(t.children[i].tree, depth + 1)
  }

  method VerifyJson(t: Tree, depth: nat) returns (ok: bool)
    ensures ok == Writable(t, depth)
    decreases t
  {
    if depth == 0 && t.data != [] {
      return false;
    }
    if t.data != [] && t.children != [] {
      return false;
    }
    for i := 0 to |t.children|
      invariant forall k :: 0 <= k < i ==> Writable(t.children[k].tree, depth + 1)
    {
      var good := VerifyJson(t.children[i].tree, depth + 1);
      if !good {
        return false;
      }
    }
    ok := true;
  }

  /** The text of a tree, or nothing for one that cannot be written. */
  method WriteJson(t: Tree, pretty: bool) returns (r: Option<Bytes>)
    ensures r == if Writable(t, 0) then Some(Text(t, 0, pretty) + [NEWLINE]) else None
  {
    var ok := VerifyJson(t, 0);
    if !ok {
      return None;
    }
    var text := WriteHelper([], t, 0, pretty);
    assert text == Text(t, 0, pretty);
    r := Some(text + [NEWLINE]);
  }
}
