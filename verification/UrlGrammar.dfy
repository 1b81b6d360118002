/**
 The texts that are accepted as URLs (avhttp/include/avhttp/url.hpp, url::from_string), after section 3 of RFC 3986: a
 scheme, an authority with optional user info and port, and optional path, query and fragment; and what becomes of each
 part.
 */
module UrlGrammar {
  import opened Common
  import opened Url

  /** The parts of a text; an empty path is none. */
  datatype Form = Form(scheme: string, user: Option<string>, host: string, ipv6: bool, port: Option<string>, path: string,
                       query: Option<string>, fragment: Option<string>)

  ghost predicate FormOk(f: Form)
  {
    && Without(f.scheme, ":") && HostShape(f.host, f.ipv6)
    && (if f.user.Some? then UserShape(f.user.value) else f.ipv6 || !AtFirst(f.host))
    && (f.port.Some? ==> f.port.value != "" && AllDigits(f.port.value))
    && (f.path == "" || (f.path[0] == '/' && Without(f.path, "?#")))
    && (f.query.Some? ==> Without(f.query.value, "#"))
  }

  function Optional(before: string, part: Option<string>, after: string): (s: string)
  {
    match part
    case None => ""
    case Some(text) => before + text + after
  }

  function AfterPath(f: Form): (s: string)
  {
    Optional("?", f.query, "") + Optional("#", f.fragment, "")
  }

  function AfterHost(f: Form): (s: string)
  {
    Optional(":", f.port, "") + (f.path + AfterPath(f))
  }

  function AfterUser(f: Form): (s: string)
  {
    (if f.ipv6 then "[" + f.host + "]" else f.host) + AfterHost(f)
  }

  function FormText(f: Form): (s: string)
  {
    f.scheme + "://" + (Optional("", f.user, "@") + AfterUser(f))
  }

  const CAPITALS := "ABCDEFGHIJKLMNOPQRSTUVWXYZ"
  const SMALL := "abcdefghijklmnopqrstuvwxyz"

  /** The same text with small letters for capitals. */
  ghost predicate InSmall(s: string, r: string)
  {
    |r| == |s| && forall i :: 0 <= i < |s| ==> SmallOf(s[i], r[i])
  }

  ghost predicate SmallOf(c: char, d: char)
  {
    if c in CAPITALS then exists k :: 0 <= k < 26 && CAPITALS[k] == c && SMALL[k] == d else d == c
  }

  lemma LetterIsSmall(c: char)
    ensures SmallOf(c, Lower(c))
  {
    if 'A' <= c <= 'Z' {
      var k := (c - 'A') as int;
      CapitalAt(k);
    } else {
      NoCapital(c);
    }
  }

  lemma CapitalAt(k: int)
    requires 0 <= k < 26
    ensures CAPITALS[k] == 'A' + k as char && SMALL[k] == 'a' + k as char
  {
  }

  lemma NoCapital(c: char)
    requires c < 'A' || c > 'Z'
    ensures c !in CAPITALS
  {
    forall k | 0 <= k < 26
      ensures CAPITALS[k] != c
    {
      CapitalAt(k);
    }
  }

  lemma LowerIsSmall(s: string)
    ensures InSmall(s, LowerAll(s))
  {
    hide SmallOf, Lower;
    forall i | 0 <= i < |s|
      ensures SmallOf(s[i], LowerAll(s)[i])
    {
      LetterIsSmall(s[i]);
    }
  }

  function OrEmpty(part: Option<string>): (s: string)
  {
    match part
    case None => ""
    case Some(text) => text
  }

  /** The URL of a text: the scheme in small letters, and a slash for no path. */
  ghost predicate Means(f: Form, u: Url)
  {
    && InSmall(f.scheme, u.protocol) && u.user == OrEmpty(f.user) && u.host == f.host && u.ipv6 == f.ipv6
    && u.port == OrEmpty(f.port) && u.path == (if f.path == "" then "/" else f.path)
    && u.query == OrEmpty(f.query) && u.fragment == OrEmpty(f.fragment)
  }

  // ---------- every such text is accepted ----------

  lemma SchemeRead(p: string, t: string)
    requires Without(p, ":")
    ensures ProtocolOf(p + "://" + t) == Some(Part(LowerAll(p), t))
  {
    var s := p + "://" + t;
    assert s == p + ("://" + t);
    SpanOver(p, "://" + t, ":");
    assert s[..|p|] == p && s[|p| + 3..] == t;
  }

  ghost predicate Follows(t: string, stop: string)
  {
    t == "" || t[0] in stop
  }

  lemma HostGiven(host: string, ipv6: bool, t: string)
    requires HostShape(host, ipv6) && Follows(t, HOST_STOP)
    ensures HostOf((if ipv6 then "[" + host + "]" else host) + t) == Some(HostPart(host, ipv6, t))
  {
    hide HostOf, Without, Follows;
    if ipv6 {
      BracketGiven(host, t);
    } else {
      PlainGiven(host, t);
    }
  }

  lemma BracketGiven(host: string, t: string)
    requires Without(host, "]") && Follows(t, HOST_STOP)
    ensures HostOf("[" + host + "]" + t) == Some(HostPart(host, true, t))
  {
    hide Span, HOST_STOP, Without;
    var s := "[" + host + "]" + t;
    assert s[1..] == host + ("]" + t);
    SpanOver(host, "]" + t, "]");
    assert s[|host| + 2..] == t && s[1..|host| + 1] == host;
    NothingBefore(t, HOST_STOP);
  }

  lemma NothingBefore(t: string, stop: string)
    requires Follows(t, stop)
    ensures Span(t, stop) == 0
  {
  }

  lemma PlainGiven(host: string, t: string)
    requires Without(host, HOST_STOP) && !StartsWith(host, '[') && Follows(t, HOST_STOP)
    ensures HostOf(host + t) == Some(HostPart(host, false, t))
  {
    hide Span, Without;
    var s := host + t;
    SpanOver(host, t, HOST_STOP);
    assert s[..|host|] == host && s[|host|..] == t;
    assert host == "" ==> s == t;
  }

  lemma PortGiven(port: Option<string>, t: string)
    requires (port.Some? ==> port.value != "" && AllDigits(port.value)) && Follows(t, PORT_STOP)
    ensures PortOf(Optional(":", port, "") + t) == Some(Part(OrEmpty(port), t))
  {
    match port
    case None => assert "" + t == t;
    case Some(p) =>
      var s := ":" + p + "" + t;
      assert s[1..] == p + t;
      forall i | 0 <= i < |p|
        ensures p[i] !in PORT_STOP
      {
        assert IsDigit(p[i]);
      }
      SpanOver(p, t, PORT_STOP);
      assert s[1..|p| + 1] == p && s[|p| + 1..] == t;
  }

  lemma PathGiven(path: string, t: string)
    requires (path == "" || (path[0] == '/' && Without(path, "?#"))) && Follows(t, PATH_STOP)
    ensures PathOf(path + t) == Part(if path == "" then "/" else path, t)
  {
    if path == "" {
      assert path + t == t;
    } else {
      SpanOver(path, t, PATH_STOP);
      assert (path + t)[..|path|] == path && (path + t)[|path|..] == t;
    }
  }

  lemma QueryGiven(query: Option<string>, t: string)
    requires (query.Some? ==> Without(query.value, "#")) && Follows(t, "#")
    ensures QueryOf(Optional("?", query, "") + t) == Part(OrEmpty(query), t)
  {
    match query
    case None => assert "" + t == t;
    case Some(q) =>
      var s := "?" + q + "" + t;
      assert s[1..] == q + t;
      SpanOver(q, t, "#");
      assert s[1..|q| + 1] == q && s[|q| + 1..] == t;
  }

  lemma FragmentGiven(fragment: Option<string>)
    ensures FragmentOf(Optional("#", fragment, "")) == OrEmpty(fragment) && Follows(Optional("#", fragment, ""), "#")
  {
    match fragment
    case None =>
    case Some(x) => assert ("#" + x + "")[1..] == x;
  }

  lemma TailGiven(f: Form, protocol: string)
    requires FormOk(f)
    ensures TailOf(protocol, OrEmpty(f.user), HostPart(f.host, f.ipv6, AfterHost(f)))
         == Some(Url(protocol, OrEmpty(f.user), f.host, f.ipv6, OrEmpty(f.port), if f.path == "" then "/" else f.path,
                     OrEmpty(f.query), OrEmpty(f.fragment)))
    ensures Follows(AfterHost(f), HOST_STOP)
  {
    hide Without, AllDigits, PortOf, PathOf, QueryOf, FragmentOf, UserShape, HostShape, AtFirst;
    FragmentGiven(f.fragment);
    QueryGiven(f.query, Optional("#", f.fragment, ""));
    EndsOf(f);
    PathGiven(f.path, AfterPath(f));
    PortGiven(f.port, f.path + AfterPath(f));
  }

  /** How the ends of a text begin. */
  lemma EndsOf(f: Form)
    requires FormOk(f)
    ensures Follows(AfterPath(f), PATH_STOP) && Follows(f.path + AfterPath(f), PORT_STOP)
    ensures Follows(AfterHost(f), HOST_STOP)
  {
    hide Without, AllDigits, UserShape, HostShape, AtFirst;
    assert f.path == "" ==> f.path + AfterPath(f) == AfterPath(f);
    assert f.port.None? ==> AfterHost(f) == f.path + AfterPath(f);
    assert f.query.None? ==> AfterPath(f) == Optional("#", f.fragment, "");
  }

  /** Without user info none is found. */
  lemma NoneGiven(f: Form)
    requires FormOk(f) && f.user.None?
    ensures UserOf(AfterUser(f)) == Part("", AfterUser(f))
  {
    hide UserOf, Span, AllDigits, UserShape, AfterHost;
    var s, t := AfterUser(f), AfterHost(f);
    EndsOf(f);
    if f.ipv6 {
      assert s[0] == '[';
      NoUser(s, 0);
    } else {
      var n := Span(f.host, "@[");
      HostSpan(f.host, n);
      if n < |f.host| {
        assert s[n] == f.host[n] == '[';
        NoUser(s, n);
      } else if t == "" {
        NoStop(s);
      } else if t[0] != ':' {
        assert s[n] == t[0];
        NoUser(s, n);
      } else {
        PortIsNoPassword(f);
        assert s[n..] == t && s[n] == ':';
        NoAt(s, n);
      }
    }
  }

  lemma NoStop(s: string)
    requires forall i :: 0 <= i < |s| ==> s[i] !in USER_STOP
    ensures UserOf(s) == Part("", s)
  {
    SpanUnique(s, USER_STOP, |s|);
  }

  lemma NoAt(s: string, n: nat)
    requires n < |s| && s[n] == ':' && forall i :: 0 <= i < n ==> s[i] !in USER_STOP
    requires var m := Span(s[n..], AT_STOP); m < |s[n..]| ==> s[n..][m] != '@'
    ensures UserOf(s) == Part("", s)
  {
    SpanUnique(s, USER_STOP, n);
  }

  lemma NoPortEnds(f: Form)
    requires FormOk(f)
    ensures f.port.None? ==> !StartsWith(AfterHost(f), ':')
  {
    hide Without, AllDigits, UserShape, HostShape, AtFirst;
    EndsOf(f);
    assert "" + (f.path + AfterPath(f)) == f.path + AfterPath(f);
  }

  lemma PortIsNoPassword(f: Form)
    requires FormOk(f) && StartsWith(AfterHost(f), ':')
    ensures var t := AfterHost(f); var m := Span(t, AT_STOP); m < |t| ==> t[m] != '@'
  {
    hide Span, UserShape, HostShape, AtFirst, AT_STOP, PORT_STOP, Without, AllDigits, AfterPath, Follows;
    EndsOf(f);
    NoPortEnds(f);
    var rest := f.path + AfterPath(f);
    var port := Optional(":", f.port, "");
    assert port == ":" + f.port.value;
    ColonAndDigits(f.port.value);
    NoAtBehind(rest);
    SpanOver(port, rest, AT_STOP);
  }

  lemma ColonAndDigits(port: string)
    requires AllDigits(port)
    ensures Without(":" + port, AT_STOP)
  {
    var s := ":" + port;
    forall i | 0 <= i < |s|
      ensures s[i] !in AT_STOP
    {
      assert i > 0 ==> IsDigit(port[i - 1]);
    }
  }

  lemma NoAtBehind(rest: string)
    requires Follows(rest, PORT_STOP)
    ensures rest == "" || (rest[0] in AT_STOP && rest[0] != '@')
  {
  }

  /** Every text of the grammar is accepted, and each part becomes the field of the URL that it stands for. */
  lemma FormRead(f: Form)
    requires FormOk(f)
    ensures Parse(FormText(f)).Some? && Means(f, Parse(FormText(f)).value)
  {
    hide ProtocolOf, UserOf, HostOf, TailOf, Without, AllDigits, Span, LowerAll, UserShape, HostShape, AtFirst, AfterHost,
         InSmall;
    var rest := Optional("", f.user, "@") + AfterUser(f);
    SchemeRead(f.scheme, rest);
    LowerIsSmall(f.scheme);
    if f.user.Some? {
      assert rest == f.user.value + "@" + AfterUser(f);
      UserRead(f.user.value, AfterUser(f));
    } else {
      assert rest == AfterUser(f);
      NoneGiven(f);
    }
    TailGiven(f, LowerAll(f.scheme));
    HostGiven(f.host, f.ipv6, AfterHost(f));
  }

  // ---------- no other text is accepted ----------

  lemma UserTaken(t: string) returns (user: Option<string>)
    ensures t == Optional("", user, "@") + UserOf(t).rest && UserOf(t).text == OrEmpty(user)
    ensures user.Some? ==> UserShape(user.value)
    ensures user.None? ==> UserOf(t).rest == t && !(Span(t, USER_STOP) < |t| && t[Span(t, USER_STOP)] == '@')
  {
    hide Span, UserShape;
    var r := UserOf(t);
    UserIsShaped(t);
    if r.rest == t {
      user := None;
      assert "" + t == t;
    } else {
      user := Some(r.text);
      assert t == r.text + "@" + r.rest;
      assert "" + r.text + "@" == r.text + "@";
    }
  }

  /** A host that was not taken for user info has no at sign before a bracket. */
  lemma HostUnmistaken(t: string)
    requires HostOf(t).Some? && !HostOf(t).value.ipv6
    requires !(Span(t, USER_STOP) < |t| && t[Span(t, USER_STOP)] == '@')
    ensures !AtFirst(HostOf(t).value.text)
  {
    hide Span, AtFirst, HostOf, Without;
    PlainHost(t);
    AtIsUser(t, HostOf(t).value.text);
  }

  lemma PlainHost(t: string)
    requires HostOf(t).Some? && !HostOf(t).value.ipv6
    ensures HostOf(t).value.text <= t && Without(HostOf(t).value.text, HOST_STOP)
  {
    hide Span, HOST_STOP;
  }

  lemma AtIsUser(t: string, host: string)
    requires host <= t && Without(host, HOST_STOP)
    ensures AtFirst(host) ==> Span(t, USER_STOP) < |t| && t[Span(t, USER_STOP)] == '@'
  {
    hide Span;
    var n := Span(host, "@[");
    if n < |host| && host[n] == '@' {
      HostSpan(host, n);
      assert t[n] == host[n];
      SpanUnique(t, USER_STOP, n);
    }
  }

  lemma HostTaken(t: string)
    requires HostOf(t).Some?
    ensures var h := HostOf(t).value;
            t == (if h.ipv6 then "[" + h.text + "]" else h.text) + h.rest && Follows(h.rest, HOST_STOP)
  {
    if StartsWith(t, '[') {
      var n := Span(t[1..], "]");
      assert t[1..][n] == ']' && t == "[" + t[1..n + 1] + "]" + t[n + 2..];
    } else {
      var n := Span(t, HOST_STOP);
      assert t == t[..n] + t[n..];
    }
  }

  lemma PortTaken(t: string) returns (port: Option<string>)
    requires PortOf(t).Some? && Follows(t, HOST_STOP)
    ensures (port.Some? ==> port.value != "" && AllDigits(port.value)) && Follows(PortOf(t).value.rest, PORT_STOP)
    ensures t == Optional(":", port, "") + PortOf(t).value.rest
  {
    var r := PortOf(t).value;
    if StartsWith(t, ':') {
      var n := Span(t[1..], PORT_STOP);
      port := Some(r.text);
      assert t == ":" + t[1..n + 1] + "" + t[n + 1..];
      assert n + 1 < |t| ==> t[n + 1] == t[1..][n];
    } else {
      port := None;
      assert t == "" + t;
    }
  }

  lemma PathTaken(t: string) returns (path: string)
    requires Follows(t, PORT_STOP)
    ensures (path == "" || (path[0] == '/' && Without(path, "?#"))) && Follows(PathOf(t).rest, PATH_STOP)
    ensures t == path + PathOf(t).rest
  {
    if StartsWith(t, '/') {
      path := PathOf(t).text;
    } else {
      path := "";
    }
  }

  lemma OnlyFragment(t: string)
    requires Follows(t, PATH_STOP) && !StartsWith(t, '?')
    ensures Follows(t, "#")
  {
  }

  lemma QueryTaken(t: string) returns (query: Option<string>)
    requires Follows(t, PATH_STOP)
    ensures (query.Some? ==> Without(query.value, "#")) && Follows(QueryOf(t).rest, "#")
    ensures t == Optional("?", query, "") + QueryOf(t).rest
  {
    hide Span, PATH_STOP;
    if StartsWith(t, '?') {
      var n := Span(t[1..], "#");
      query := Some(QueryOf(t).text);
      assert t == "?" + t[1..n + 1] + "" + t[n + 1..];
      assert n + 1 < |t| ==> t[n + 1] == t[1..][n];
    } else {
      query := None;
      assert t == "" + t;
      OnlyFragment(t);
    }
  }

  lemma FragmentTaken(t: string) returns (fragment: Option<string>)
    requires Follows(t, "#")
    ensures t == Optional("#", fragment, "")
  {
    if t == "" {
      fragment := None;
    } else {
      fragment := Some(t[1..]);
      assert t == "#" + t[1..] + "";
    }
  }

  lemma SchemeTaken(s: string)
    requires ProtocolOf(s).Some?
    ensures var n := Span(s, ":"); Without(s[..n], ":") && s == s[..n] + "://" + ProtocolOf(s).value.rest
  {
    var n := Span(s, ":");
    assert s == s[..n] + s[n..n + 3] + s[n + 3..] && s[n..n + 3] == "://";
  }

  lemma FormOf(s: string) returns (f: Form)
    requires Parse(s).Some?
    ensures FormOk(f) && s == FormText(f)
  {
    hide ProtocolOf, UserOf, HostOf, PortOf, PathOf, QueryOf, FragmentOf, Without, AllDigits, Span, LowerAll, UserShape,
         HostShape, AtFirst;
    SchemeTaken(s);
    var t := ProtocolOf(s).value.rest;
    var user := UserTaken(t);
    var t1 := UserOf(t).rest;
    var h := HostOf(t1).value;
    HostTaken(t1);
    HostIsShaped(t1);
    if user.None? && !h.ipv6 {
      HostUnmistaken(t1);
    }
    var port := PortTaken(h.rest);
    var t2 := PortOf(h.rest).value.rest;
    var path := PathTaken(t2);
    var t3 := PathOf(t2).rest;
    var query := QueryTaken(t3);
    var fragment := FragmentTaken(QueryOf(t3).rest);
    f := Form(s[..Span(s, ":")], user, h.text, h.ipv6, port, path, query, fragment);
  }

  /** A text is accepted if and only if it is one of the grammar. */
  lemma AcceptedIff(s: string)
    ensures Parse(s).Some? <==> exists f :: FormOk(f) && s == FormText(f)
  {
    hide Parse, FormOk, FormText;
    if Parse(s).Some? {
      var f := FormOf(s);
    }
    if exists f :: FormOk(f) && s == FormText(f) {
      var f :| FormOk(f) && s == FormText(f);
      FormRead(f);
    }
  }
}
