/**
 Sending a mail (libmailexchange/smtp.hpp). One coroutine runs the dialogue with the server, a second one offers the
 recipients; any failure starts the whole dialogue again after a pause, up to a limit. Each continuation holds a copy of
 the object, so a run is a sequence of states, one after each completion of a network operation or of a timer.
 What the network does is arbitrary: operations fail at any point and replies arrive in any pieces.
 */
module Smtp {

  // ---------- reading a reply ----------

  predicate White(c: char)
  {
    c == ' ' || c == '\t' || c == '\n' || c == '\r' || c == 11 as char || c == 12 as char
  }

  function TrimRight(s: string): (r: string)
    ensures r <= s && (r != [] ==> !White(r[|r| - 1])) && forall i :: |r| <= i < |s| ==> White(s[i])
  {
    if s == [] || !White(s[|s| - 1]) then s else TrimRight(s[..|s| - 1])
  }

  /** The length of the first line. */
  function LineEnd(s: string): (n: nat)
    ensures n <= |s| && (n < |s| ==> s[n] == '\n') && forall i :: 0 <= i < n ==> s[i] != '\n'
  {
    if s == [] || s[0] == '\n' then 0 else 1 + LineEnd(s[1..])
  }

  /** A line that starts with the code and a mark, and what follows. */
  predicate Marked(line: string, code: string, mark: char)
  {
    |line| > |code| && line[..|code|] == code && line[|code|] == mark
  }

  function Text(line: string, code: string): (t: string)
  {
    if |line| > |code| then line[|code| + 1..] else ""
  }

  datatype Reply = Reply(ok: bool, texts: seq<string>, rest: string)

  function Joined(texts: seq<string>, r: Reply): (r': Reply)
  {
    r.(texts := texts + r.texts)
  }

  /** What is made of the buffered input: whether the reply has the code, the texts of its lines, and what is left. */
  function Check(buf: string, code: string): (r: Reply)
    decreases |buf|
  {
    var n := LineEnd(buf);
    var line := TrimRight(buf[..n]);
    var rest := if n == |buf| then "" else buf[n + 1..];
    if Marked(line, code, ' ') then Reply(true, [Text(line, code)], rest)
    else if line != "" && !Marked(line, code, '-') then Reply(false, [], rest)
    else
      var texts := if line == "" then [] else [Text(line, code)];
      if n == |buf| then Reply(false, texts, "") else Joined(texts, Check(rest, code))
  }

  /** The loop over the lines. */
  method CheckResponse(buf: string, code: string) returns (r: Reply)
    ensures r == Check(buf, code)
  {
    hide LineEnd, TrimRight, Marked, Text;
    var rest, eof := buf, false;
    var texts: seq<string> := [];
    while !eof
      invariant eof ==> Check(buf, code) == Reply(false, texts, "") && rest == ""
      invariant !eof ==> Check(buf, code) == Joined(texts, Check(rest, code))
      decreases !eof, |rest|
    {
      var n := LineEnd(rest);
      var line := TrimRight(rest[..n]);
      BlankUnmarked(code);
      eof := n == |rest|;
      rest := if eof then "" else rest[n + 1..];
      if line == "" {
        JoinTwice(texts, [], Check(rest, code));
        continue;
      }
      if Marked(line, code, ' ') {
        return Reply(true, texts + [Text(line, code)], rest);
      } else if Marked(line, code, '-') {
        JoinTwice(texts, [Text(line, code)], Check(rest, code));
        texts := texts + [Text(line, code)];
        continue;
      }
      return Reply(false, texts, rest);
    }
    r := Reply(false, texts, rest);
  }

  lemma JoinTwice(a: seq<string>, b: seq<string>, r: Reply)
    ensures Joined(a, Joined(b, r)) == Joined(a + b, r) && Joined([], r) == r && a + [] == a
  {
    assert a + (b + r.texts) == a + b + r.texts;
  }

  function Lines(buf: string): (lines: seq<string>)
    decreases |buf|
  {
    var n := LineEnd(buf);
    if n == |buf| then [TrimRight(buf)] else [TrimRight(buf[..n])] + Lines(buf[n + 1..])
  }

  /** A reply has the code if its lines, blank ones aside, carry the code and all but the last of them continue. */
  ghost predicate Accepts(lines: seq<string>, code: string)
  {
    exists k :: 0 <= k < |lines| && Marked(lines[k], code, ' ') && forall j :: 0 <= j < k ==> Continues(lines[j], code)
  }

  predicate Continues(line: string, code: string)
  {
    line == "" || Marked(line, code, '-')
  }

  lemma {:induction false} CheckIff(buf: string, code: string)
    ensures Check(buf, code).ok <==> Accepts(Lines(buf), code)
    decreases |buf|
  {
    hide LineEnd, TrimRight, Marked, Text, Accepts;
    var n := LineEnd(buf);
    var line := TrimRight(buf[..n]);
    if n == |buf| {
      assert buf[..n] == buf;
      OnlyLine(line, code);
      BlankUnmarked(code);
    } else {
      var more := Lines(buf[n + 1..]);
      CheckIff(buf[n + 1..], code);
      FirstLine(line, more, code);
      BlankUnmarked(code);
    }
  }

  lemma OnlyLine(line: string, code: string)
    ensures Accepts([line], code) <==> Marked(line, code, ' ')
  {
    assert [line][0] == line;
  }

  lemma BlankUnmarked(code: string)
    ensures !Marked("", code, ' ') && forall line :: Marked(line, code, ' ') ==> !Marked(line, code, '-')
  {
  }

  lemma FirstLine(line: string, more: seq<string>, code: string)
    ensures Accepts([line] + more, code) <==> Marked(line, code, ' ') || (Continues(line, code) && Accepts(more, code))
  {
    var lines := [line] + more;
    if Accepts(lines, code) {
      var k :| 0 <= k < |lines| && Marked(lines[k], code, ' ') && forall j :: 0 <= j < k ==> Continues(lines[j], code);
      if k > 0 {
        assert Continues(lines[0], code);
        assert more[k - 1] == lines[k] && forall j :: 0 <= j < k - 1 ==> more[j] == lines[j + 1];
      }
    }
    if Marked(line, code, ' ') {
      assert lines[0] == line;
    } else if Continues(line, code) && Accepts(more, code) {
      var k :| 0 <= k < |more| && Marked(more[k], code, ' ') && forall j :: 0 <= j < k ==> Continues(more[j], code);
      assert lines[k + 1] == more[k] && forall j :: 0 <= j < k ==> lines[j + 1] == more[j];
    }
  }

  lemma {:induction false} LineEndAt(line: string, rest: string)
    requires '\n' !in line
    ensures LineEnd(line + "\n" + rest) == |line|
    decreases |line|
  {
    if line == [] {
      assert (line + "\n" + rest)[0] == '\n';
    } else {
      assert (line + "\n" + rest)[0] == line[0] && (line + "\n" + rest)[1..] == line[1..] + "\n" + rest;
      LineEndAt(line[1..], rest);
    }
  }

  /** A reply of one line is accepted with its text. */
  lemma OneLineReply(code: string, text: string)
    requires text != [] && !White(text[|text| - 1]) && '\n' !in code && '\n' !in text
    ensures Check(code + " " + text + "\n", code) == Reply(true, [text], "")
  {
    var line := code + " " + text;
    var buf := line + "\n";
    LineEndAt(line, "");
    assert buf + "" == buf && buf[..|line|] == line && buf[|line| + 1..] == "";
    assert TrimRight(line) == line;
    assert line[..|code|] == code && line[|code| + 1..] == text;
  }

  // ---------- the texts and the rest ----------

  /** The texts of lines that continue a reply: what stands behind the code and the hyphen, blank lines left out. */
  function Texts(lines: seq<string>, code: string): (ts: seq<string>)
  {
    if lines == [] then [] else (if lines[0] == "" then [] else [Text(lines[0], code)]) + Texts(lines[1..], code)
  }

  lemma TextIsBehind(line: string, code: string, mark: char)
    ensures Marked(line, code, mark) <==> exists t :: line == code + [mark] + t
    ensures Marked(line, code, mark) ==> line == code + [mark] + Text(line, code)
  {
    if Marked(line, code, mark) {
      assert line == code + [mark] + line[|code| + 1..];
    }
  }

  /** What is left of the input when line k has been read. */
  ghost predicate Behind(buf: string, k: nat, rest: string)
  {
    var lines := Lines(buf);
    if k + 1 >= |lines| then rest == ""
    else
      && |rest| < |buf| && buf[|buf| - |rest|..] == rest && buf[|buf| - |rest| - 1] == '\n'
      && Lines(buf) == lines[..k + 1] + Lines(rest)
  }

  lemma {:induction false} SomeLine(buf: string)
    ensures Lines(buf) != []
    decreases |buf|
  {
  }

  /** Reading stops at line k, the one that decides, or at the end if none does, and r is what is made of the lines. */
  ghost predicate Stops(lines: seq<string>, code: string, k: nat, ok: bool, texts: seq<string>)
  {
    && k <= |lines| && (forall j :: 0 <= j < k ==> Continues(lines[j], code))
    && (k < |lines| ==> !Continues(lines[k], code))
    && (ok <==> k < |lines| && Marked(lines[k], code, ' '))
    && texts == Texts(lines[..k], code) + (if ok then [Text(lines[k], code)] else [])
  }

  lemma {:induction false} CheckStops(buf: string, code: string) returns (k: nat)
    ensures Stops(Lines(buf), code, k, Check(buf, code).ok, Check(buf, code).texts)
    ensures Behind(buf, k, Check(buf, code).rest)
    decreases |buf|
  {
    hide LineEnd, TrimRight, Marked, Text, Behind, Stops, Lines, Check, Continues;
    var n := LineEnd(buf);
    var line := TrimRight(buf[..n]);
    FirstOfLines(buf, n);
    CheckFirst(buf, n, code);
    if n == |buf| {
      StopsFirst(line, [], code);
      k := if Continues(line, code) then 1 else 0;
      AllRead(buf, k);
    } else {
      var more := buf[n + 1..];
      if Continues(line, code) {
        var m := CheckStops(more, code);
        k := m + 1;
        StopsLater(line, Lines(more), code, m, Check(more, code).ok, Check(more, code).texts);
        BehindMore(buf, n, m, Check(more, code).rest);
      } else {
        k := 0;
        StopsFirst(line, Lines(more), code);
        FirstBehind(buf, n);
      }
    }
  }

  lemma CheckFirst(buf: string, n: nat, code: string)
    requires n == LineEnd(buf)
    ensures var line, r := TrimRight(buf[..n]), Check(buf, code);
            && (!Continues(line, code) ==> r.ok == Marked(line, code, ' '))
            && (!Continues(line, code) ==> r.texts == if Marked(line, code, ' ') then [Text(line, code)] else [])
            && (!Continues(line, code) ==> r.rest == if n == |buf| then "" else buf[n + 1..])
            && (Continues(line, code) ==>
                  var texts := if line == "" then [] else [Text(line, code)];
                  r == if n == |buf| then Reply(false, texts, "") else Joined(texts, Check(buf[n + 1..], code)))
  {
    hide LineEnd, TrimRight, Text;
  }

  lemma StopsFirst(line: string, more: seq<string>, code: string)
    ensures !Continues(line, code) ==>
            && Stops([line] + more, code, 0, Marked(line, code, ' '), if Marked(line, code, ' ') then [Text(line, code)] else [])
    ensures Continues(line, code) ==> Stops([line], code, 1, false, if line == "" then [] else [Text(line, code)])
    ensures [line] + [] == [line]
  {
    BlankUnmarked(code);
    assert ([line] + more)[..0] == [] && [line][..1] == [line] && [line][1..] == [];
  }

  lemma StopsLater(line: string, more: seq<string>, code: string, m: nat, ok: bool, texts: seq<string>)
    requires Continues(line, code) && Stops(more, code, m, ok, texts)
    ensures Stops([line] + more, code, m + 1, ok, (if line == "" then [] else [Text(line, code)]) + texts)
  {
    hide Marked, Text;
    var lines := [line] + more;
    assert forall j :: 0 < j < |lines| ==> lines[j] == more[j - 1];
    ContinuedTexts(line, more, m, code);
  }

  lemma AllRead(buf: string, k: nat)
    requires LineEnd(buf) == |buf|
    ensures Behind(buf, k, "")
  {
  }

  lemma ContinuedTexts(line: string, more: seq<string>, m: nat, code: string)
    requires m <= |more|
    ensures Texts(([line] + more)[..m + 1], code)
         == (if line == "" then [] else [Text(line, code)]) + Texts(more[..m], code)
  {
    assert ([line] + more)[..m + 1] == [line] + more[..m];
    assert ([line] + more[..m])[1..] == more[..m];
  }

  lemma FirstBehind(buf: string, n: nat)
    requires n == LineEnd(buf) < |buf|
    ensures Behind(buf, 0, buf[n + 1..])
  {
    hide Lines, TrimRight, LineEnd;
    var rest := buf[n + 1..];
    SomeLine(rest);
    FirstOfLines(buf, n);
    assert Lines(buf)[..1] == [TrimRight(buf[..n])];
    assert buf[|buf| - |rest|..] == rest && buf[|buf| - |rest| - 1] == '\n';
  }

  lemma LoneLine(buf: string)
    requires LineEnd(buf) == |buf|
    ensures Lines(buf) == [TrimRight(buf)] && buf[..|buf|] == buf
  {
    hide LineEnd, TrimRight;
  }

  lemma MoreLines(buf: string)
    requires LineEnd(buf) < |buf|
    ensures Lines(buf) == [TrimRight(buf[..LineEnd(buf)])] + Lines(buf[LineEnd(buf) + 1..])
  {
    hide LineEnd, TrimRight;
  }

  lemma FirstOfLines(buf: string, n: nat)
    requires n == LineEnd(buf)
    ensures n < |buf| ==> Lines(buf) == [TrimRight(buf[..n])] + Lines(buf[n + 1..])
    ensures n == |buf| ==> Lines(buf) == [TrimRight(buf[..n])]
  {
    hide LineEnd, TrimRight, Lines;
    if n == |buf| {
      LoneLine(buf);
    } else {
      MoreLines(buf);
    }
  }

  lemma BehindMore(buf: string, n: nat, m: nat, rest: string)
    requires n == LineEnd(buf) < |buf| && Behind(buf[n + 1..], m, rest)
    ensures Behind(buf, m + 1, rest)
  {
    hide Lines, LineEnd, TrimRight;
    var more := buf[n + 1..];
    FirstOfLines(buf, n);
    var lines := Lines(buf);
    if m + 1 < |Lines(more)| {
      assert lines[..m + 2] == [lines[0]] + Lines(more)[..m + 1];
      var d := |more| - |rest|;
      assert buf[n + 1 + d..] == more[d..] && buf[n + d] == more[d - 1];
    }
  }
}
