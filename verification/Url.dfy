/**
 Splitting a URL into its components and writing it down again (avhttp/include/avhttp/url.hpp, url::from_string and
 url::to_string; section 3 of RFC 3986). A string is the contents of a C string, without its final zero.
 */
module Url {
  import opened Common

  datatype Url = Url(protocol: string, user: string, host: string, ipv6: bool, port: string, path: string, query: string,
                     fragment: string)

  /** How many characters come before the first one in `stop`. */
  function Span(s: string, stop: string): (n: nat)
    ensures n <= |s| && (n < |s| ==> s[n] in stop) && forall i :: 0 <= i < n ==> s[i] !in stop
  {
    if s == [] || s[0] in stop then 0 else 1 + Span(s[1..], stop)
  }

  predicate StartsWith(s: string, c: char)
  {
    s != [] && s[0] == c
  }

  function Lower(c: char): (r: char)
  {
    if 'A' <= c <= 'Z' then c - 'A' + 'a' else c
  }

  function LowerAll(s: string): (r: string)
    ensures |r| == |s|
  {
    seq(|s|, i requires 0 <= i < |s| => Lower(s[i]))
  }

  predicate IsDigit(c: char)
  {
    '0' <= c <= '9'
  }

  predicate AllDigits(s: string)
  {
    forall i :: 0 <= i < |s| ==> IsDigit(s[i])
  }

  // ---------- the components, each with what is left behind it ----------

  const USER_STOP: string := "@:[/?#"
  const AT_STOP: string := "@/?#"
  const HOST_STOP: string := ":/?#"
  const PORT_STOP: string := "/?#"
  const PATH_STOP: string := "?#"

  datatype Part = Part(text: string, rest: string)

  function ProtocolOf(s: string): (r: Option<Part>)
  {
    var n := Span(s, ":");
    if n + 3 <= |s| && s[n] == ':' && s[n + 1] == '/' && s[n + 2] == '/' then Some(Part(LowerAll(s[..n]), s[n + 3..]))
    else None
  }

  function UserOf(s: string): (r: Part)
  {
    var n := Span(s, USER_STOP);
    if n < |s| && s[n] == '@' then Part(s[..n], s[n + 1..])
    else if n < |s| && s[n] == ':' then
      var m := n + Span(s[n..], AT_STOP);
      if m < |s| && s[m] == '@' then Part(s[..m], s[m + 1..]) else Part("", s)
    else Part("", s)
  }

  datatype HostPart = HostPart(text: string, ipv6: bool, rest: string)

  function HostOf(s: string): (r: Option<HostPart>)
  {
    if StartsWith(s, '[') then
      var n := Span(s[1..], "]");
      if n == |s| - 1 then None
      else
        var rest := s[n + 2..];
        if Span(rest, HOST_STOP) != 0 then None else Some(HostPart(s[1..n + 1], true, rest))
    else
      var n := Span(s, HOST_STOP);
      Some(HostPart(s[..n], false, s[n..]))
  }

  function PortOf(s: string): (r: Option<Part>)
  {
    if StartsWith(s, ':') then
      var n := Span(s[1..], PORT_STOP);
      if n == 0 || !AllDigits(s[1..n + 1]) then None else Some(Part(s[1..n + 1], s[n + 1..]))
    else Some(Part("", s))
  }

  function PathOf(s: string): (r: Part)
  {
    if StartsWith(s, '/') then
      var n := Span(s, PATH_STOP);
      Part(s[..n], s[n..])
    else Part("/", s)
  }

  function QueryOf(s: string): (r: Part)
  {
    if StartsWith(s, '?') then
      var n := Span(s[1..], "#");
      Part(s[1..n + 1], s[n + 1..])
    else Part("", s)
  }

  function FragmentOf(s: string): (r: string)
  {
    if StartsWith(s, '#') then s[1..] else ""
  }

  /** Everything behind the host. */
  function TailOf(protocol: string, user: string, h: HostPart): (r: Option<Url>)
  {
    match PortOf(h.rest)
    case None => None
    case Some(port) =>
      var path := PathOf(port.rest);
      var query := QueryOf(path.rest);
      Some(Url(protocol, user, h.text, h.ipv6, port.text, path.text, query.text, FragmentOf(query.rest)))
  }

  function Parse(s: string): (r: Option<Url>)
  {
    match ProtocolOf(s)
    case None => None
    case Some(protocol) =>
      var user := UserOf(protocol.rest);
      match HostOf(user.rest)
      case None => None
      case Some(host) => TailOf(protocol.text, user.text, host)
  }

  // ---------- writing ----------

  function HostText(u: Url): (s: string)
  {
    if u.ipv6 then "[" + u.host + "]" else u.host
  }

  function PortText(u: Url): (s: string)
  {
    if u.port == "" then "" else ":" + u.port
  }

  function QueryText(u: Url): (s: string)
  {
    if u.query == "" then "" else "?" + u.query
  }

  function FragmentText(u: Url): (s: string)
  {
    if u.fragment == "" then "" else "#" + u.fragment
  }

  function UserText(u: Url): (s: string)
  {
    if u.user == "" then "" else u.user + "@"
  }

  function ProtocolText(u: Url): (s: string)
  {
    if u.protocol == "" then "" else u.protocol + "://"
  }

  function AfterPort(u: Url): (s: string)
  {
    u.path + (QueryText(u) + FragmentText(u))
  }

  function AfterUser(u: Url): (s: string)
  {
    HostText(u) + (PortText(u) + AfterPort(u))
  }

  function Write(u: Url): (s: string)
  {
    ProtocolText(u) + (UserText(u) + AfterUser(u))
  }

  // ---------- what a parsed URL looks like ----------

  ghost predicate Without(s: string, stop: string)
  {
    forall i :: 0 <= i < |s| ==> s[i] !in stop
  }

  /** Nothing that ends the user part comes before its first colon. */
  ghost predicate UserShape(user: string)
  {
    Without(user, USER_STOP) || (Without(user, AT_STOP) && Span(user, USER_STOP) < |user| && user[Span(user, USER_STOP)] == ':')
  }

  ghost predicate HostShape(host: string, ipv6: bool)
  {
    if ipv6 then Without(host, "]") else Without(host, HOST_STOP) && !StartsWith(host, '[')
  }

  ghost predicate Shaped(u: Url)
  {
    && Without(u.protocol, ":") && LowerAll(u.protocol) == u.protocol
    && UserShape(u.user) && HostShape(u.host, u.ipv6)
    && AllDigits(u.port)
    && StartsWith(u.path, '/') && Without(u.path, PATH_STOP) && Without(u.query, "#")
  }

  lemma {:induction false} SpanUnique(s: string, stop: string, n: nat)
    requires n <= |s| && (n < |s| ==> s[n] in stop) && forall i :: 0 <= i < n ==> s[i] !in stop
    ensures Span(s, stop) == n
  {
    if n > 0 {
      assert s[0] !in stop;
      SpanUnique(s[1..], stop, n - 1);
    }
  }

  /** A stretch without stops, up to a stop or the end. */
  lemma SpanOver(a: string, b: string, stop: string)
    requires Without(a, stop) && (b == [] || b[0] in stop)
    ensures Span(a + b, stop) == |a|
  {
    SpanUnique(a + b, stop, |a|);
  }

  lemma LowerTwice(s: string)
    requires Without(s, ":")
    ensures LowerAll(LowerAll(s)) == LowerAll(s) && Without(LowerAll(s), ":")
  {
    forall i | 0 <= i < |s|
      ensures Lower(Lower(s[i])) == Lower(s[i]) && Lower(s[i]) !in ":"
    {
      assert s[i] !in ":";
    }
  }

  lemma UserIsShaped(s: string)
    ensures UserShape(UserOf(s).text)
  {
    var n := Span(s, USER_STOP);
    if n < |s| && s[n] == ':' {
      var m := n + Span(s[n..], AT_STOP);
      if m < |s| && s[m] == '@' {
        var user := s[..m];
        forall i | 0 <= i < m
          ensures user[i] !in AT_STOP
        {
          if i >= n {
            assert s[n..][i - n] == s[i];
          }
        }
        assert s[n..][0] == ':';
        SpanUnique(user, USER_STOP, n);
      }
    }
  }

  lemma HostIsShaped(s: string)
    requires HostOf(s).Some?
    ensures HostShape(HostOf(s).value.text, HostOf(s).value.ipv6)
  {
  }

  lemma PathIsShaped(s: string)
    ensures StartsWith(PathOf(s).text, '/') && Without(PathOf(s).text, PATH_STOP)
  {
  }

  lemma QueryIsShaped(s: string)
    ensures Without(QueryOf(s).text, "#")
  {
  }

  lemma PortIsShaped(s: string)
    requires PortOf(s).Some?
    ensures AllDigits(PortOf(s).value.text)
  {
  }

  /** What every parsed URL looks like. */
  lemma ParsedShape(s: string)
    requires Parse(s).Some?
    ensures Shaped(Parse(s).value)
  {
    hide Span, UserOf, HostOf, PortOf, PathOf, QueryOf, LowerAll, UserShape, HostShape, Without, AllDigits;
    ProtocolIsShaped(s);
    var protocol := ProtocolOf(s).value;
    UserIsShaped(protocol.rest);
    var user := UserOf(protocol.rest);
    HostIsShaped(user.rest);
    var host := HostOf(user.rest).value;
    PortIsShaped(host.rest);
    var port := PortOf(host.rest).value;
    PathIsShaped(port.rest);
    QueryIsShaped(PathOf(port.rest).rest);
  }

  lemma ProtocolIsShaped(s: string)
    requires ProtocolOf(s).Some?
    ensures Without(ProtocolOf(s).value.text, ":") && LowerAll(ProtocolOf(s).value.text) == ProtocolOf(s).value.text
  {
    LowerTwice(s[..Span(s, ":")]);
  }

  // ---------- reading back what was written ----------

  lemma ProtocolRead(p: string, t: string)
    requires Without(p, ":") && LowerAll(p) == p
    ensures ProtocolOf(p + "://" + t) == Some(Part(p, t))
  {
    var s := p + "://" + t;
    assert s == p + ("://" + t);
    SpanOver(p, "://" + t, ":");
    assert s[..|p|] == p && s[|p| + 3..] == t;
  }

  lemma UserRead(user: string, t: string)
    requires UserShape(user)
    ensures UserOf(user + "@" + t) == Part(user, t)
  {
    var s := user + "@" + t;
    assert s == user + ("@" + t);
    if Without(user, USER_STOP) {
      SpanOver(user, "@" + t, USER_STOP);
      assert s[..|user|] == user && s[|user| + 1..] == t;
    } else {
      var n := Span(user, USER_STOP);
      SpanUnique(s, USER_STOP, n);
      assert s[n..] == user[n..] + ("@" + t);
      SpanOver(user[n..], "@" + t, AT_STOP);
      assert s[..|user|] == user && s[|user| + 1..] == t;
    }
  }

  /** What comes behind the host. */
  ghost predicate HostEnds(t: string)
  {
    StartsWith(t, ':') || StartsWith(t, '/')
  }

  lemma HostRead(host: string, ipv6: bool, t: string)
    requires HostShape(host, ipv6) && HostEnds(t)
    ensures HostOf((if ipv6 then "[" + host + "]" else host) + t) == Some(HostPart(host, ipv6, t))
  {
    if ipv6 {
      var s := "[" + host + "]" + t;
      assert s[1..] == host + ("]" + t);
      SpanOver(host, "]" + t, "]");
      assert s[|host| + 2..] == t && s[1..|host| + 1] == host;
    } else {
      var s := host + t;
      SpanOver(host, t, HOST_STOP);
      assert s[..|host|] == host && s[|host|..] == t;
    }
  }

  lemma PortRead(port: string, t: string)
    requires AllDigits(port) && StartsWith(t, '/')
    ensures PortOf((if port == "" then "" else ":" + port) + t) == Some(Part(port, t))
  {
    if port == "" {
      assert "" + t == t;
    } else {
      var s := ":" + port + t;
      assert s[1..] == port + t;
      forall i | 0 <= i < |port|
        ensures port[i] !in PORT_STOP
      {
        assert IsDigit(port[i]);
      }
      SpanOver(port, t, PORT_STOP);
      assert s[1..|port| + 1] == port && s[|port| + 1..] == t;
    }
  }

  lemma PathRead(path: string, t: string)
    requires StartsWith(path, '/') && Without(path, PATH_STOP) && (t == "" || t[0] in PATH_STOP)
    ensures PathOf(path + t) == Part(path, t)
  {
    SpanOver(path, t, PATH_STOP);
    assert (path + t)[..|path|] == path && (path + t)[|path|..] == t;
  }

  lemma QueryRead(query: string, t: string)
    requires Without(query, "#") && (t == "" || t[0] == '#')
    ensures QueryOf((if query == "" then "" else "?" + query) + t) == Part(query, t)
  {
    if query == "" {
      assert "" + t == t;
    } else {
      var s := "?" + query + t;
      assert s[1..] == query + t;
      SpanOver(query, t, "#");
      assert s[1..|query| + 1] == query && s[|query| + 1..] == t;
    }
  }

  lemma TailRead(u: Url)
    requires Shaped(u)
    ensures TailOf(u.protocol, u.user, HostPart(u.host, u.ipv6, PortText(u) + AfterPort(u))) == Some(u)
    ensures HostEnds(PortText(u) + AfterPort(u))
  {
    hide Without, AllDigits, PortOf, PathOf, QueryOf;
    PortRead(u.port, AfterPort(u));
    PathRead(u.path, QueryText(u) + FragmentText(u));
    QueryRead(u.query, FragmentText(u));
  }

  /** In the host, an at sign comes before any opening bracket. */
  ghost predicate AtFirst(host: string)
  {
    var n := Span(host, "@[");
    n < |host| && host[n] == '@'
  }

  /** The written URL, from behind the protocol, is taken apart as it was put together. */
  lemma RestRead(u: Url)
    requires Shaped(u) && (u.user != "" || u.ipv6 || !AtFirst(u.host))
    ensures UserOf(UserText(u) + AfterUser(u)) == Part(u.user, AfterUser(u))
  {
    hide UserOf, Span;
    if u.user != "" {
      assert UserText(u) + AfterUser(u) == u.user + "@" + AfterUser(u);
      UserRead(u.user, AfterUser(u));
    } else {
      assert UserText(u) + AfterUser(u) == AfterUser(u);
      TailRead(u);
      NoUserRead(u, PortText(u) + AfterPort(u));
    }
  }

  lemma NoUser(s: string, n: nat)
    requires n < |s| && s[n] in "[/?#" && forall i :: 0 <= i < n ==> s[i] !in USER_STOP
    ensures UserOf(s) == Part("", s)
  {
    SpanUnique(s, USER_STOP, n);
  }

  lemma NoPassword(s: string, n: nat)
    requires n < |s| && s[n] == ':' && forall i :: 0 <= i < n ==> s[i] !in USER_STOP
    requires var m := Span(s[n..], AT_STOP); m < |s[n..]| && s[n..][m] == '/'
    ensures UserOf(s) == Part("", s)
  {
    SpanUnique(s, USER_STOP, n);
  }

  lemma NoUserRead(u: Url, t: string)
    requires Shaped(u) && u.user == "" && (u.ipv6 || !AtFirst(u.host)) && t == PortText(u) + AfterPort(u) && HostEnds(t)
    ensures UserOf(HostText(u) + t) == Part("", HostText(u) + t)
  {
    hide UserOf, Span, LowerAll, AllDigits, UserShape, AfterPort;
    var s := HostText(u) + t;
    if u.ipv6 {
      assert s[0] == '[';
      NoUser(s, 0);
    } else {
      var n := Span(u.host, "@[");
      HostSpan(u.host, n);
      if n < |u.host| {
        assert s[n] == u.host[n] == '[';
        NoUser(s, n);
      } else if u.port == "" {
        NoPort(u, t);
        assert s[n] == t[0] == '/';
        NoUser(s, n);
      } else {
        PortHasNoAt(u, t);
        assert s[n..] == t;
        NoPassword(s, n);
      }
    }
  }

  lemma NoPort(u: Url, t: string)
    requires Shaped(u) && u.port == "" && t == PortText(u) + AfterPort(u)
    ensures StartsWith(t, '/')
  {
  }

  lemma HostSpan(host: string, n: nat)
    requires Without(host, HOST_STOP) && n <= |host| && forall i :: 0 <= i < n ==> host[i] !in "@["
    ensures forall i :: 0 <= i < n ==> host[i] !in USER_STOP
  {
    forall i | 0 <= i < n
      ensures host[i] !in USER_STOP
    {
      assert host[i] !in HOST_STOP && host[i] !in "@[";
    }
  }

  /** A port and the path behind it are not mistaken for a password. */
  lemma PortHasNoAt(u: Url, t: string)
    requires Shaped(u) && u.port != "" && t == PortText(u) + AfterPort(u)
    ensures StartsWith(t, ':') && var m := Span(t, AT_STOP); m < |t| && t[m] == '/'
  {
    var port := ":" + u.port;
    assert t == port + AfterPort(u);
    forall i | 0 <= i < |port|
      ensures port[i] !in AT_STOP
    {
      assert i > 0 ==> IsDigit(u.port[i - 1]);
    }
    SpanOver(port, AfterPort(u), AT_STOP);
  }

  lemma WrittenIsRead(u: Url)
    requires Shaped(u) && u.protocol != "" && (u.user != "" || u.ipv6 || !AtFirst(u.host))
    ensures Parse(Write(u)) == Some(u)
  {
    hide ProtocolOf, UserOf, HostOf, TailOf, Without, AllDigits, Span, LowerAll, UserShape, HostShape, AtFirst;
    assert Write(u) == u.protocol + "://" + (UserText(u) + AfterUser(u));
    ProtocolRead(u.protocol, UserText(u) + AfterUser(u));
    RestRead(u);
    TailRead(u);
    HostRead(u.host, u.ipv6, PortText(u) + AfterPort(u));
  }

  // ---------- exactly when ----------

  lemma ProtocolNotEmpty(s: string)
    requires ProtocolOf(s).Some? && (StartsWith(s, ':') ==> |s| >= 2 && s[1] != '/')
    ensures ProtocolOf(s).value.text != ""
  {
    hide LowerAll;
  }

  /** Without a protocol, the text cannot be read back: what stands before its first colon is not empty. */
  lemma NoProtocol(u: Url)
    requires Shaped(u) && u.protocol == "" && Parse(Write(u)).Some?
    ensures Parse(Write(u)).value.protocol != ""
  {
    hide ProtocolOf, UserOf, HostOf, UserText, AfterUser, Shaped, PortOf, PathOf, QueryOf;
    assert Write(u) == UserText(u) + AfterUser(u);
    ColonFirst(u);
    ProtocolNotEmpty(Write(u));
  }

  lemma ColonFirst(u: Url)
    requires Shaped(u) && u.protocol == ""
    ensures var s := UserText(u) + AfterUser(u); StartsWith(s, ':') ==> |s| >= 2 && s[1] != '/'
  {
    hide Span, LowerAll;
    var s := UserText(u) + AfterUser(u);
    if u.user != "" {
      assert s[0] == u.user[0];
      if |u.user| > 1 {
        assert s[1] == u.user[1] && u.user[1] !in "/";
      } else {
        assert s[1] == '@';
      }
    } else if u.ipv6 {
      assert s[0] == '[';
    } else if u.host != "" {
      assert s[0] == u.host[0] && u.host[0] !in HOST_STOP;
    } else if u.port != "" {
      assert s[1] == u.port[0] && IsDigit(u.port[0]);
    } else {
      assert s[0] == u.path[0];
    }
  }

  /** A host that begins like a user part is taken for one. */
  lemma HostMistaken(u: Url)
    requires Shaped(u) && u.user == "" && !u.ipv6 && AtFirst(u.host)
    ensures var n, r := Span(u.host, "@["), AfterUser(u); n < |r| && UserOf(r) == Part(u.host[..n], r[n + 1..])
  {
    var n, r := Span(u.host, "@["), AfterUser(u);
    HostSpan(u.host, n);
    assert r[n] == u.host[n];
    SpanUnique(r, USER_STOP, n);
    assert r[..n] == u.host[..n];
  }

  lemma BracketedText(s: string, h: HostPart)
    requires HostOf(s) == Some(h) && StartsWith(s, '[')
    ensures h.ipv6 && |h.text| + 1 <= |s| && h.text == s[1..|h.text| + 1]
  {
    hide Span, HOST_STOP;
    var n := Span(s[1..], "]");
    assert n < |s| - 1;
    assert h == HostPart(s[1..n + 1], true, s[n + 2..]);
    assert |s[1..n + 1]| == n;
  }

  lemma PlainText(s: string, h: HostPart)
    requires HostOf(s) == Some(h) && !StartsWith(s, '[')
    ensures !h.ipv6 && h.text == s[..Span(s, HOST_STOP)]
  {
    hide Span, HOST_STOP;
  }

  /** What is left of such a host is another host. */
  lemma HostShrinks(u: Url, h: HostPart)
    requires Shaped(u) && u.user == "" && !u.ipv6 && AtFirst(u.host) && Span(u.host, "@[") == 0
    requires HostOf(AfterUser(u)[1..]) == Some(h)
    ensures h.text != u.host
  {
    hide LowerAll, AllDigits, UserShape, AfterPort, HostOf, Span, PortText, HostEnds;
    TailRead(u);
    var t := PortText(u) + AfterPort(u);
    assert AfterUser(u)[1..] == u.host[1..] + t;
    if StartsWith(u.host[1..] + t, '[') {
      BracketedText(u.host[1..] + t, h);
      BracketedDiffers(u.host, t, h.text);
    } else {
      PlainText(u.host[1..] + t, h);
      PlainDiffers(u.host, t);
    }
  }

  lemma PlainDiffers(host: string, t: string)
    requires host != "" && Without(host, HOST_STOP) && HostEnds(t)
    ensures (host[1..] + t)[..Span(host[1..] + t, HOST_STOP)] != host
  {
    hide Span;
    SpanOver(host[1..], t, HOST_STOP);
  }

  lemma NoBracketEnds(t: string)
    requires HostEnds(t)
    ensures !StartsWith(t, '[') && "" + t == t
  {
  }

  /** Behind the bracket stands what follows the host before the host is repeated. */
  lemma BracketedDiffers(host: string, t: string, text: string)
    requires host != "" && Without(host, HOST_STOP) && HostEnds(t) && StartsWith(host[1..] + t, '[')
    requires |text| + 1 <= |host[1..] + t| && text == (host[1..] + t)[1..|text| + 1]
    ensures text != host
  {
    var all := host[1..] + t;
    NoBracketEnds(t);
    if |host| > 1 && |text| == |host| {
      assert text[|host| - 2] == all[|host| - 1] == t[0];
    }
  }

  lemma MistakenIsDifferent(u: Url)
    requires Shaped(u) && u.protocol != "" && u.user == "" && !u.ipv6 && AtFirst(u.host)
    ensures !ReadsSame(u)
  {
    hide ProtocolOf, UserOf, HostOf, Without, AllDigits, Span, LowerAll, UserShape, HostShape, AtFirst, AfterUser;
    assert Write(u) == u.protocol + "://" + AfterUser(u);
    ProtocolRead(u.protocol, AfterUser(u));
    HostMistaken(u);
    var n := Span(u.host, "@[");
    var user := UserOf(AfterUser(u));
    if n == 0 {
      assert user.rest == AfterUser(u)[1..];
      if HostOf(user.rest).Some? {
        HostShrinks(u, HostOf(user.rest).value);
      }
    } else {
      assert |user.text| == n;
    }
  }

  /** Equality as the original compares URLs: whether the host is bracketed does not matter. */
  predicate Equal(u: Url, v: Url)
  {
    && u.protocol == v.protocol && u.user == v.user && u.host == v.host && u.port == v.port && u.path == v.path
    && u.query == v.query && u.fragment == v.fragment
  }

  ghost predicate ReadsSame(u: Url)
  {
    Parse(Write(u)).Some? && Equal(Parse(Write(u)).value, u)
  }

  /**
   A URL that was parsed is read back from its text exactly when it has a protocol and either user info, a bracketed host, or
   a host in which no at sign comes before the first opening bracket. This is so for equality of all fields and for that
   of the original.
   */
  lemma RoundTripIff(s: string)
    requires Parse(s).Some?
    ensures var u := Parse(s).value;
            Parse(Write(u)) == Some(u) <==> u.protocol != "" && (u.user != "" || u.ipv6 || !AtFirst(u.host))
    ensures var u := Parse(s).value; ReadsSame(u) <==> Parse(Write(u)) == Some(u)
  {
    hide ProtocolOf, UserOf, HostOf, TailOf, AtFirst, Shaped, Write;
    var u := Parse(s).value;
    ParsedShape(s);
    if u.protocol == "" {
      if Parse(Write(u)).Some? {
        NoProtocol(u);
      }
    } else if u.user != "" || u.ipv6 || !AtFirst(u.host) {
      WrittenIsRead(u);
    } else {
      MistakenIsDifferent(u);
    }
  }

  /** In particular: with a protocol, and user info or a host without at signs. */
  lemma RoundTrip(s: string)
    requires Parse(s).Some?
    ensures var u := Parse(s).value; u.protocol != "" && (u.user != "" || '@' !in u.host) ==> Parse(Write(u)) == Some(u)
  {
    hide Parse, Write;
    RoundTripIff(s);
    var u := Parse(s).value;
    var n := Span(u.host, "@[");
    assert n < |u.host| ==> u.host[n] in u.host;
  }

  /** The host of this URL is "b@c"; its text is read back with user "b" and host "c". */
  lemma AtSignExample()
    ensures Parse("a://@b@c/").Some? && Parse("a://@b@c/").value.host == "b@c"
    ensures Parse(Write(Parse("a://@b@c/").value)) != Parse("a://@b@c/")
  {
    hide ProtocolOf, UserOf, HostOf, PortOf, PathOf, QueryOf, FragmentOf, Write, Span, ReadsSame;
    AtFirstProtocol();
    AtFirstUser();
    AtFirstHost();
    NoPortHere();
    RoundTripIff("a://@b@c/");
  }

  lemma AtFirstProtocol()
    ensures ProtocolOf("a://@b@c/") == Some(Part("a", "@b@c/"))
  {
    assert LowerAll("a") == "a";
    ProtocolRead("a", "@b@c/");
    assert "a" + "://" + "@b@c/" == "a://@b@c/";
  }

  lemma AtFirstHost()
    ensures HostOf("b@c/") == Some(HostPart("b@c", false, "/")) && AtFirst("b@c")
  {
    SpanUnique("b@c/", HOST_STOP, 3);
    assert "b@c/"[..3] == "b@c" && "b@c/"[3..] == "/";
    SpanUnique("b@c", "@[", 1);
  }

  lemma AtFirstUser()
    ensures UserOf("@b@c/") == Part("", "b@c/")
  {
    SpanUnique("@b@c/", USER_STOP, 0);
    assert "@b@c/"[1..] == "b@c/" && "@b@c/"[..0] == "";
  }

  lemma NoPortHere()
    ensures PortOf("/") == Some(Part("", "/"))
  {
  }

  // ---------- the loops ----------

  /** The length of the initial part without characters of `stop`, from place p on. */
  method CountSpan(s: string, p: nat, stop: string) returns (n: nat)
    requires p <= |s|
    ensures n == Span(s[p..], stop) && p + n <= |s|
  {
    n := 0;
    while p + n < |s| && s[p + n] !in stop
      invariant p + n <= |s| && forall i :: p <= i < p + n ==> s[i] !in stop
    {
      n := n + 1;
    }
    SpanUnique(s[p..], stop, n);
  }

  method ReadProtocol(s: string) returns (ok: bool, protocol: string, p: nat)
    ensures p <= |s| && ProtocolOf(s) == if ok then Some(Part(protocol, s[p..])) else None
  {
    var n := CountSpan(s, 0, ":");
    assert s[0..] == s;
    protocol, p := s[..n], n;
    var i := 0;
    while i < |protocol|
      invariant 0 <= i <= |protocol| == n
      invariant forall k :: 0 <= k < n ==> protocol[k] == if k < i then Lower(s[k]) else s[k]
    {
      protocol := protocol[i := Lower(protocol[i])];
      i := i + 1;
    }
    assert protocol == LowerAll(s[..n]);
    ok := n + 3 <= |s| && s[n] == ':' && s[n + 1] == '/' && s[n + 2] == '/';
    if ok {
      p := n + 3;
    }
  }

  method ReadUser(s: string, p: nat) returns (user: string, q: nat)
    requires p <= |s|
    ensures q <= |s| && UserOf(s[p..]) == Part(user, s[q..])
  {
    hide Span;
    var n := CountSpan(s, p, USER_STOP);
    user, q := "", p;
    if p + n < |s| && s[p + n] == '@' {
      user, q := s[p..p + n], p + n + 1;
      assert s[p..][..n] == user && s[p..][n + 1..] == s[q..];
    } else if p + n < |s| && s[p + n] == ':' {
      var m := CountSpan(s, p + n, AT_STOP);
      assert s[p..][n..] == s[p + n..];
      if p + n + m < |s| && s[p + n + m] == '@' {
        user, q := s[p..p + n + m], p + n + m + 1;
        assert s[p..][..n + m] == user && s[p..][n + m + 1..] == s[q..];
      }
    }
  }

  method ReadHost(s: string, p: nat) returns (ok: bool, host: string, ipv6: bool, q: nat)
    requires p <= |s|
    ensures q <= |s| && HostOf(s[p..]) == if ok then Some(HostPart(host, ipv6, s[q..])) else None
  {
    hide Span;
    host, ipv6, q := "", false, p;
    if p < |s| && s[p] == '[' {
      var n := CountSpan(s, p + 1, "]");
      assert s[p..][1..] == s[p + 1..];
      if p + 1 + n == |s| {
        return false, "", false, p;
      }
      host, ipv6, q := s[p + 1..p + 1 + n], true, p + n + 2;
      assert s[p..][1..n + 1] == host && s[p..][n + 2..] == s[q..];
      var k := CountSpan(s, q, HOST_STOP);
      ok := k == 0;
    } else {
      var n := CountSpan(s, p, HOST_STOP);
      ok, host, q := true, s[p..p + n], p + n;
      assert s[p..][..n] == host && s[p..][n..] == s[q..];
    }
  }

  method ReadPort(s: string, p: nat) returns (ok: bool, port: string, q: nat)
    requires p <= |s|
    ensures q <= |s| && PortOf(s[p..]) == if ok then Some(Part(port, s[q..])) else None
  {
    hide Span;
    ok, port, q := true, "", p;
    if p < |s| && s[p] == ':' {
      var n := CountSpan(s, p + 1, PORT_STOP);
      assert s[p..][1..] == s[p + 1..];
      if n == 0 {
        return false, "", p;
      }
      port, q := s[p + 1..p + 1 + n], p + 1 + n;
      assert s[p..][1..n + 1] == port && s[p..][n + 1..] == s[q..];
      for i := 0 to |port|
        invariant forall k :: 0 <= k < i ==> IsDigit(port[k])
      {
        if !IsDigit(port[i]) {
          assert !AllDigits(port);
          return false, "", p;
        }
      }
    }
  }

  method ReadPath(s: string, p: nat) returns (path: string, q: nat)
    requires p <= |s|
    ensures q <= |s| && PathOf(s[p..]) == Part(path, s[q..])
  {
    hide Span;
    path, q := "/", p;
    if p < |s| && s[p] == '/' {
      var n := CountSpan(s, p, PATH_STOP);
      path, q := s[p..p + n], p + n;
      assert s[p..][..n] == path && s[p..][n..] == s[q..];
    }
  }

  method ReadQuery(s: string, p: nat) returns (query: string, q: nat)
    requires p <= |s|
    ensures q <= |s| && QueryOf(s[p..]) == Part(query, s[q..])
  {
    hide Span;
    query, q := "", p;
    if p < |s| && s[p] == '?' {
      var n := CountSpan(s, p + 1, "#");
      assert s[p..][1..] == s[p + 1..];
      query, q := s[p + 1..p + 1 + n], p + 1 + n;
      assert s[p..][1..n + 1] == query && s[p..][n + 1..] == s[q..];
    }
  }

  method ReadFragment(s: string, p: nat) returns (fragment: string)
    requires p <= |s|
    ensures fragment == FragmentOf(s[p..])
  {
    fragment := "";
    if p < |s| && s[p] == '#' {
      fragment := s[p + 1..];
      assert s[p..][1..] == fragment;
    }
  }

  /** Takes a URL apart, moving through the string component by component. */
  method FromString(s: string) returns (r: Option<Url>)
    ensures r == Parse(s)
  {
    hide ProtocolOf, UserOf, HostOf, PortOf, PathOf, QueryOf, FragmentOf;
    var ok, protocol, p := ReadProtocol(s);
    if !ok {
      return None;
    }
    var user, p1 := ReadUser(s, p);
    var ok1, host, ipv6, p2 := ReadHost(s, p1);
    if !ok1 {
      return None;
    }
    var ok2, port, p3 := ReadPort(s, p2);
    if !ok2 {
      return None;
    }
    var path, p4 := ReadPath(s, p3);
    var query, p5 := ReadQuery(s, p4);
    var fragment := ReadFragment(s, p5);
    return Some(Url(protocol, user, host, ipv6, port, path, query, fragment));
  }

  /** The part of the text up to the host. */
  method WriteAuthority(u: Url) returns (s: string)
    ensures s == ProtocolText(u) + UserText(u) + HostText(u)
  {
    s := "";
    if u.protocol != "" {
      s := u.protocol;
      s := s + "://";
    }
    assert s == ProtocolText(u);
    ghost var before := s;
    if u.user != "" {
      s := s + u.user;
      s := s + "@";
    }
    assert s == before + UserText(u);
    before := s;
    if u.ipv6 {
      s := s + "[";
    }
    s := s + u.host;
    if u.ipv6 {
      s := s + "]";
    }
    assert s == before + HostText(u);
  }

  /** The part of the text from the port on. */
  method WriteRest(u: Url, start: string) returns (s: string)
    ensures s == start + PortText(u) + u.path + QueryText(u) + FragmentText(u)
  {
    s := start;
    if u.port != "" {
      s := s + ":";
      s := s + u.port;
    }
    assert s == start + PortText(u);
    if u.path != "" {
      s := s + u.path;
    }
    ghost var before := start + PortText(u) + u.path;
    assert s == before;
    if u.query != "" {
      s := s + "?";
      s := s + u.query;
    }
    assert s == before + QueryText(u);
    before := s;
    if u.fragment != "" {
      s := s + "#";
      s := s + u.fragment;
    }
    assert s == before + FragmentText(u);
  }

  lemma WriteParts(u: Url)
    ensures ProtocolText(u) + UserText(u) + HostText(u) + PortText(u) + u.path + QueryText(u) + FragmentText(u) == Write(u)
  {
    hide ProtocolText, UserText, HostText, PortText, QueryText, FragmentText;
  }

  /** Writes a URL, component by component. */
  method ToString(u: Url) returns (s: string)
    ensures s == Write(u)
  {
    hide ProtocolText, UserText, HostText, PortText, QueryText, FragmentText, Write;
    s := WriteAuthority(u);
    s := WriteRest(u, s);
    WriteParts(u);
  }
}
