/**
 Reading JSON into a property tree (avboost/include/boost/json_parser_read.hpp, for one-byte characters). The grammar
 calls actions while it matches; the actions build the tree with a stack. An error of any kind is None; the grammar
 decides by the next character, so that it never matches again what it has matched.
 */
module JsonRead {
  import opened Common
  import opened JsonWrite

  // ---------- actions ----------

  datatype Action = Begin | End | Char(byte: Byte) | Name | StringVal | Literal(text: Bytes)

  /** An object or array under construction, and the key it will be entered under. */
  datatype Frame = Frame(key: Bytes, children: seq<Child>)

  datatype Context = Context(str: Bytes, name: Bytes, root: seq<Child>, stack: seq<Frame>)

  function Empty(): (c: Context)
  {
    Context([], [], [], [])
  }

  /** Enters a child into the object or array at the top of the stack. */
  function Enter(c: Context, tree: Tree): (c': Context)
    requires c.stack != []
  {
    var k := |c.stack| - 1;
    var top := c.stack[k];
    c.(stack := c.stack[..k] + [top.(children := top.children + [Child(c.name, tree)])], name := [], str := [])
  }

  function Leave(c: Context): (c': Context)
    requires c.stack != []
  {
    var k := |c.stack| - 1;
    var top := c.stack[k];
    if k == 0 then c.(stack := [], root := top.children)
    else
      var parent := c.stack[k - 1];
      c.(stack := c.stack[..k - 1] + [parent.(children := parent.children + [Child(top.key, Tree([], top.children))])])
  }

  /** What an action does; without an object at hand, what the original asserts does not hold and nothing is done. */
  function Apply(c: Context, a: Action): (c': Context)
  {
    match a
    case Begin => if c.stack == [] then c.(stack := [Frame([], c.root)])
                  else c.(stack := c.stack + [Frame(c.name, [])], name := [])
    case End => if c.stack == [] then c else Leave(c)
    case Char(b) => c.(str := c.str + [b])
    case Name => c.(name := c.str, str := [])
    case StringVal => if c.stack == [] then c else Enter(c, Tree(c.str, []))
    case Literal(text) => if c.stack == [] then c else Enter(c, Tree(text, []))
  }

  function Run(c: Context, acts: seq<Action>): (c': Context)
    decreases |acts|
  {
    if acts == [] then c else Run(Apply(c, acts[0]), acts[1..])
  }

  /** The context that the actions change. */
  class Builder {
    var str: Bytes
    var name: Bytes
    var root: seq<Child>
    var stack: seq<Frame>

    ghost function State(): (c: Context)
      reads this
    {
      Context(str, name, root, stack)
    }

    constructor ()
      ensures State() == Empty()
    {
      str, name, root, stack := [], [], [], [];
    }

    /** Adds a child to the object or array at hand. */
    method Add(key: Bytes, tree: Tree)
      requires stack != []
      modifies this`stack
      ensures stack == old(var k := |stack| - 1; var top := stack[k];
                           stack[..k] + [top.(children := top.children + [Child(key, tree)])])
    {
      var k := |stack| - 1;
      stack := stack[..k] + [stack[k].(children := stack[k].children + [Child(key, tree)])];
    }

    method Perform(a: Action)
      modifies this
      ensures State() == Apply(old(State()), a)
    {
      match a
      case Begin =>
        if stack == [] {
          stack := [Frame([], root)];
        } else {
          stack := stack + [Frame(name, [])];
          name := [];
        }
      case End =>
        if stack != [] {
          var k := |stack| - 1;
          var top := stack[k];
          stack := stack[..k];
          if k == 0 {
            root := top.children;
          } else {
            Add(top.key, Tree([], top.children));
          }
        }
      case Char(b) =>
        str := str + [b];
      case Name =>
        name, str := str, [];
      case StringVal =>
        if stack != [] {
          Add(name, Tree(str, []));
          name, str := [], [];
        }
      case Literal(text) =>
        if stack != [] {
          Add(name, Tree(text, []));
          name, str := [], [];
        }
    }

    /** Performs the actions of a match. */
    method Replay(acts: seq<Action>)
      modifies this
      ensures State() == Run(old(State()), acts)
    {
      hide Apply;
      assert acts[0..] == acts;
      for i := 0 to |acts|
        invariant Run(State(), acts[i..]) == Run(old(State()), acts)
      {
        assert acts[i..][1..] == acts[i + 1..];
        Perform(acts[i]);
      }
    }
  }

  // ---------- white space and comments ----------

  predicate Blank(b: Byte)
  {
    9 <= b <= 13 || b == SPACE
  }

  /** How long a comment that starts here is; zero if none does or if it is not closed. */
  function CommentLength(s: Bytes): (n: nat)
    ensures n <= |s|
  {
    if |s| < 2 || s[0] != SLASH then 0
    else if s[1] == SLASH then 2 + LineLength(s[2..])
    else if s[1] == 42 && Closed(s[2..]) then 2 + CloseLength(s[2..])
    else 0
  }

  /** Up to and with the end of the line. */
  function LineLength(s: Bytes): (n: nat)
    ensures n <= |s|
  {
    if s == [] then 0
    else if s[0] == 13 && |s| > 1 && s[1] == NEWLINE then 2
    else if s[0] == 13 || s[0] == NEWLINE then 1
    else 1 + LineLength(s[1..])
  }

  predicate Closed(s: Bytes)
  {
    |s| >= 2 && ((s[0] == 42 && s[1] == SLASH) || Closed(s[1..]))
  }

  function CloseLength(s: Bytes): (n: nat)
    requires Closed(s)
    ensures 2 <= n <= |s|
  {
    if s[0] == 42 && s[1] == SLASH then 2 else 1 + CloseLength(s[1..])
  }

  function Skip(s: Bytes): (r: Bytes)
    ensures |r| <= |s|
    decreases |s|
  {
    if s == [] then s
    else if Blank(s[0]) then Skip(s[1..])
    else if CommentLength(s) > 0 then Skip(s[CommentLength(s)..])
    else s
  }

  // ---------- the grammar ----------

  datatype Match = Match(acts: seq<Action>, rest: Bytes) | Fail

  /** The next character after blanks. */
  predicate Next(s: Bytes, b: Byte)
  {
    Skip(s) != [] && Skip(s)[0] == b
  }

  predicate IsDigit(b: Byte)
  {
    48 <= b <= 57
  }

  function HexValue(b: Byte): (v: Option<nat>)
    ensures v.Some? ==> v.value < 16
  {
    if IsDigit(b) then Some(b - 48)
    else if 65 <= b <= 70 then Some(b - 55)
    else if 97 <= b <= 102 then Some(b - 87)
    else None
  }

  /** The UTF-8 form of a code; a surrogate gets four bytes. */
  function Encode(u: nat): (s: Bytes)
    requires u < 65536
  {
    if u < 0x80 then [u]
    else if u < 0x800 then [0xC0 + u / 64, 0x80 + u % 64]
    else if u < 0xD800 || u >= 0xE000 then [0xE0 + u / 4096, 0x80 + u % 4096 / 64, 0x80 + u % 64]
    else [0xF0, 0x80 + u / 4096, 0x80 + u % 4096 / 64, 0x80 + u % 64]
  }

  function Chars(s: Bytes): (acts: seq<Action>)
    ensures |acts| == |s| && forall i :: 0 <= i < |s| ==> acts[i] == Char(s[i])
  {
    seq(|s|, i requires 0 <= i < |s| => Char(s[i]))
  }

  /** One character of a string or one escape sequence: what it stands for and how long it is. */
  function Character(s: Bytes): (r: Option<(Bytes, nat)>)
    requires s != []
    ensures r.Some? ==> 1 <= r.value.1 <= |s|
  {
    if s[0] != BACKSLASH then Some(([s[0]], 1))
    else if |s| < 2 then None
    else if s[1] == QUOTE || s[1] == BACKSLASH || s[1] == SLASH then Some(([s[1]], 2))
    else if s[1] == 98 then Some(([8], 2))
    else if s[1] == 102 then Some(([12], 2))
    else if s[1] == 110 then Some(([10], 2))
    else if s[1] == 114 then Some(([13], 2))
    else if s[1] == 116 then Some(([9], 2))
    else if s[1] == 117 && |s| >= 6 then
      var a, b, c, d := HexValue(s[2]), HexValue(s[3]), HexValue(s[4]), HexValue(s[5]);
      if a.Some? && b.Some? && c.Some? && d.Some? then
        Some((Encode(a.value * 4096 + b.value * 256 + c.value * 16 + d.value), 6))
      else None
    else None
  }

  /** The inside of a string, up to and with the closing quote. */
  function Inside(s: Bytes): (r: Match)
    ensures r.Match? ==> |r.rest| < |s|
    decreases |s|
  {
    if s == [] then Fail
    else if s[0] == QUOTE then Match([], s[1..])
    else
      match Character(s)
      case None => Fail
      case Some((bytes, n)) =>
        match Inside(s[n..])
        case Fail => Fail
        case Match(acts, rest) => Match(Chars(bytes) + acts, rest)
  }

  /** One string or several in a row. */
  function Strings(s: Bytes): (r: Match)
    ensures r.Match? ==> |r.rest| < |s|
    decreases |s|
  {
    if !Next(s, QUOTE) then Fail
    else
      match Inside(Skip(s)[1..])
      case Fail => Fail
      case Match(acts, rest) =>
        if !Next(rest, QUOTE) then Match(acts, rest)
        else
          match Strings(rest)
          case Fail => Fail
          case Match(more, rest') => Match(acts + more, rest')
  }

  /** Digits, possibly with blanks between them. */
  function Digits(s: Bytes): (rest: Bytes)
    ensures |rest| <= |s|
    decreases |s|
  {
    var t := Skip(s);
    if t != [] && IsDigit(t[0]) then Digits(t[1..]) else s
  }

  function Fraction(s: Bytes): (rest: Bytes)
    ensures |rest| <= |s|
  {
    if !Next(s, 46) then s
    else
      var t := Skip(s)[1..];
      if Digits(t) == t then s else Digits(t)
  }

  function Exponent(s: Bytes): (rest: Bytes)
    ensures |rest| <= |s|
  {
    if !Next(s, 101) && !Next(s, 69) then s
    else
      var t := Skip(s)[1..];
      var u := if Next(t, 43) || Next(t, 45) then Skip(t)[1..] else t;
      if Digits(u) == u then s else Digits(u)
  }

  /** What is left after a number, if there is one. */
  function Number(s: Bytes): (rest: Option<Bytes>)
    ensures rest.Some? ==> |rest.value| < |s|
  {
    var t := if Next(s, 45) then Skip(s)[1..] else s;
    var u := Skip(t);
    if u == [] || !IsDigit(u[0]) then None
    else Some(Exponent(Fraction(if u[0] == 48 then u[1..] else Digits(u[1..]))))
  }

  /** Numbers and words are kept as they are written. */
  function Word(s: Bytes): (r: Match)
    ensures r.Match? ==> |r.rest| < |s|
  {
    var t := Skip(s);
    var number := Number(t);
    if number.Some? then Match([Literal(t[..|t| - |number.value|])], number.value)
    else if [116, 114, 117, 101] <= t then Match([Literal(t[..4])], t[4..])
    else if [102, 97, 108, 115, 101] <= t then Match([Literal(t[..5])], t[5..])
    else if [110, 117, 108, 108] <= t then Match([Literal(t[..4])], t[4..])
    else Fail
  }

  function Append(acts: seq<Action>, r: Match): (r': Match)
  {
    match r
    case Fail => Fail
    case Match(more, rest) => Match(acts + more, rest)
  }

  function Value(s: Bytes): (r: Match)
    ensures r.Match? ==> |r.rest| < |s|
    decreases |s|, 1
  {
    if Next(s, QUOTE) then
      match Strings(s)
      case Fail => Fail
      case Match(acts, rest) => Match(acts + [StringVal], rest)
    else if Next(s, OPEN_OBJECT) || Next(s, OPEN_ARRAY) then Group(s)
    else Word(s)
  }

  /** An object or an array. */
  function Group(s: Bytes): (r: Match)
    requires Next(s, OPEN_OBJECT) || Next(s, OPEN_ARRAY)
    ensures r.Match? ==> |r.rest| < |s|
    decreases |s|, 0
  {
    var named := Next(s, OPEN_OBJECT);
    var t := Skip(s)[1..];
    if Next(t, if named then CLOSE_OBJECT else CLOSE_ARRAY) then Match([Begin, End], Skip(t)[1..])
    else Append([Begin], Members(t, named))
  }

  /** The members of an object, or the items of an array, and what closes it. */
  function Members(s: Bytes, named: bool): (r: Match)
    ensures r.Match? ==> |r.rest| < |s|
    decreases |s|, 3
  {
    match Member(s, named)
    case Fail => Fail
    case Match(acts, rest) =>
      if Next(rest, COMMA) then Append(acts, Members(Skip(rest)[1..], named))
      else if Next(rest, if named then CLOSE_OBJECT else CLOSE_ARRAY) then Match(acts + [End], Skip(rest)[1..])
      else Fail
  }

  function Member(s: Bytes, named: bool): (r: Match)
    ensures r.Match? ==> |r.rest| < |s|
    decreases |s|, if named then 0 else 2
  {
    if !named then Value(s)
    else
      match Strings(s)
      case Fail => Fail
      case Match(acts, rest) =>
        if !Next(rest, COLON) then Fail else Append(acts + [Name], Value(Skip(rest)[1..]))
  }

  /** The whole text: an object or an array, and nothing behind it. */
  function Root(s: Bytes): (r: Option<seq<Action>>)
  {
    if !Next(s, OPEN_OBJECT) && !Next(s, OPEN_ARRAY) then None
    else
      match Group(s)
      case Fail => None
      case Match(acts, rest) => if Skip(rest) == [] then Some(acts) else None
  }

  function Read(s: Bytes): (r: Option<Tree>)
  {
    match Root(s)
    case None => None
    case Some(acts) => Some(Tree([], Run(Empty(), acts).root))
  }

  /** Parses the text and builds the tree. */
  method ReadJson(s: Bytes) returns (r: Option<Tree>)
    ensures r == Read(s)
  {
    hide Root, Run;
    var acts := Root(s);
    if acts.None? {
      return None;
    }
    var builder := new Builder();
    builder.Replay(acts.value);
    r := Some(Tree([], builder.root));
  }
}
