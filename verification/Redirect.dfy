// Redirects of GET requests in native/transport.c: endpoints, the resolution of a
// Location, the rewriting of the request under the header policy, and the loop
// that sends, follows and stops.
//
// What connections and writes come to, and the streams that peers send, are
// nondeterministic; memory suffices.

module Redirect {
  import opened Options
  import opened Text
  import Response

  const MAX_LOCATION: nat := 4096
  const MAX_HOST: nat := 1024
  const MAX_TARGET: nat := 16384
  const MAX_REDIRECTS: nat := 8

  datatype Endpoint = Endpoint(tls: bool, host: string, port: int, target: string)

  // What the resolution of a Location yields and relies on.
  ghost predicate ValidEndpoint(e: Endpoint) {
    && 0 < |e.host| < MAX_HOST && Visible(e.host)
    && 1 <= e.port <= 65535
    && 0 < |e.target| < MAX_TARGET && e.target[0] == '/' && Visible(e.target)
  }

  predicate RedirectStatus(status: int) {
    status == 301 || status == 302 || status == 303 || status == 307 || status == 308
  }

  predicate SameOrigin(a: Endpoint, b: Endpoint) {
    a.tls == b.tls && a.port == b.port && CaseEq(a.host, b.host)
  }

  // drop_fragment
  function DropFragment(s: string): (t: string)
    ensures t <= s && '#' !in t && (|t| < |s| ==> s[|t|] == '#')
  {
    var n := IndexOf(s, '#');
    assert forall i :: 0 <= i < |s[..n]| ==> s[..n][i] == s[i];
    s[..n]
  }

  // A port: digits of a number from 1 to 65535.
  function ParsePort(s: string): (r: Option<int>)
    ensures r.Some? ==> 1 <= r.value <= 65535
  {
    if s == "" || !Digits(s) || DigitsValue(s) == 0 || DigitsValue(s) > 65535 then None else Some(DigitsValue(s))
  }

  // parse_port_text
  method ParsePortText(text: string) returns (port: Option<int>)
    ensures port == ParsePort(text)
  {
    if text == "" {
      return None;
    }
    var value := 0;
    var cursor := 0;
    while cursor < |text|
      invariant 0 <= cursor <= |text| && Digits(text[..cursor])
      invariant value == DigitsValue(text[..cursor]) <= 65535
    {
      if !IsDigit(text[cursor]) {
        return None;
      }
      assert text[..cursor + 1][..cursor] == text[..cursor];
      value := value * 10 + (text[cursor] as int - '0' as int);
      cursor := cursor + 1;
      if value > 65535 {
        if Digits(text) {
          PrefixValue(text, cursor);
        }
        return None;
      }
    }
    assert text[..cursor] == text;
    port := if value > 0 then Some(value) else None;
  }

  // parse_authority
  function ParseAuthority(authority: string, defaultPort: int): (r: Option<(string, int)>)
    ensures r.Some? ==> 0 < |r.value.0| < MAX_HOST && r.value.0 <= authority
    ensures r.Some? && 1 <= defaultPort <= 65535 ==> 1 <= r.value.1 <= 65535
  {
    if authority == "" || |authority| >= MAX_HOST || '@' in authority || authority[0] == '[' || ']' in authority then None
    else
      var after := AfterLast(authority, ':');
      if after == 0 then Some((authority, defaultPort))
      else if after == 1 then None
      else match ParsePort(authority[after..])
        case None => None
        case Some(port) => Some((authority[..after - 1], port))
  }

  // set_target
  function SetTarget(e: Endpoint, target: string): (r: Option<Endpoint>)
    ensures r.Some? ==> r.value == e.(target := if target == "" then "/" else target) && |r.value.target| < MAX_TARGET
  {
    var t := if target == "" then "/" else target;
    if |t| < MAX_TARGET then Some(e.(target := t)) else None
  }

  // What follows the authority of an absolute reference, as a target.
  function TargetOf(tail: string): string {
    if tail == "" then "/" else if tail[0] == '?' then "/" + tail else tail
  }

  // The part of parse_absolute_location after the scheme.
  function ParseRest(rest: string, tls: bool): Option<Endpoint> {
    var n := IndexOfAny(rest, {'/', '?'});
    if n == 0 || n >= MAX_HOST then None
    else match ParseAuthority(rest[..n], if tls then 443 else 80)
      case None => None
      case Some((host, port)) => SetTarget(Endpoint(tls, host, port, ""), TargetOf(rest[n..]))
  }

  predicate IsAbsolute(location: string) {
    CasePrefix("http://", location) || CasePrefix("https://", location) || "//" <= location
  }

  function ParseAbsolute(location: string, defaultTls: bool): Option<Endpoint>
    requires IsAbsolute(location)
  {
    if CasePrefix("http://", location) then ParseRest(location[7..], false)
    else if CasePrefix("https://", location) then ParseRest(location[8..], true)
    else ParseRest(location[2..], defaultTls)
  }

  // request_target
  function RequestTarget(request: string): (r: Option<string>)
    ensures r.Some? ==> 0 < |r.value| < MAX_TARGET && ' ' !in r.value
  {
    if !("GET " <= request) then None
    else
      var start := request[4..];
      var n := IndexOf(start, ' ');
      if n == |start| || n == 0 || n >= MAX_TARGET then None
      else
        assert forall i :: 0 <= i < n ==> start[..n][i] == start[i];
        Some(start[..n])
  }

  // A query-only or relative reference, put after the path or the directory of
  // the current target.
  function Merge(target: string, location: string): (r: Option<string>)
    requires location != ""
    ensures r.Some? ==> 0 < |r.value| < MAX_TARGET
  {
    var path := target[..IndexOf(target, '?')];
    if location[0] == '?' then
      if |path + location| < MAX_TARGET then Some(path + location) else None
    else
      var n := if AfterLast(path, '/') > 0 then AfterLast(path, '/') else 1;
      if n + |location| < MAX_TARGET then Some((if n <= |path| then path[..n] else path) + location) else None
  }

  // resolve_location
  function Resolve(current: Endpoint, request: string, raw: string): Option<Endpoint> {
    if !Visible(raw) || |raw| >= MAX_LOCATION then None
    else
      var location := DropFragment(raw);
      if location == "" then None
      else if IsAbsolute(location) then ParseAbsolute(location, current.tls)
      else if location[0] == '/' then SetTarget(current, location)
      else match RequestTarget(request)
        case None => None
        case Some(target) => match Merge(target, location)
          case None => None
          case Some(merged) => SetTarget(current, merged)
  }

  lemma {:induction false} RestIsValid(rest: string, tls: bool)
    requires Visible(rest)
    ensures ParseRest(rest, tls).Some? ==> ValidEndpoint(ParseRest(rest, tls).value)
  {
    var n := IndexOfAny(rest, {'/', '?'});
    VisiblePart(rest, 0, n);
    VisiblePart(rest, n, |rest|);
    TargetIsValid(rest[n..]);
    if ParseRest(rest, tls).Some? {
      var hp := ParseAuthority(rest[..n], if tls then 443 else 80).value;
      HostIsVisible(hp.0, rest[..n]);
    }
  }

  lemma {:induction false} HostIsVisible(host: string, authority: string)
    requires host <= authority && Visible(authority)
    ensures Visible(host)
  {
    assert forall i :: 0 <= i < |host| ==> host[i] == authority[i];
  }

  lemma {:induction false} VisiblePart(s: string, from: nat, to: nat)
    requires Visible(s) && from <= to <= |s|
    ensures Visible(s[from..to])
  {
    assert forall i :: 0 <= i < to - from ==> s[from..to][i] == s[from + i];
  }

  lemma {:induction false} TargetIsValid(tail: string)
    requires Visible(tail) && (tail != "" ==> tail[0] == '/' || tail[0] == '?')
    ensures Visible(TargetOf(tail)) && TargetOf(tail)[0] == '/'
  {
  }

  lemma {:induction false} AbsoluteIsValid(location: string, tls: bool)
    requires Visible(location) && IsAbsolute(location) && ParseAbsolute(location, tls).Some?
    ensures ValidEndpoint(ParseAbsolute(location, tls).value)
  {
    if CasePrefix("http://", location) {
      RestIsValid(location[7..], false);
    } else if CasePrefix("https://", location) {
      RestIsValid(location[8..], true);
    } else {
      RestIsValid(location[2..], tls);
    }
  }

  // Whatever a server sends, the new endpoint is valid.
  lemma {:induction false} ResolveIsValid(current: Endpoint, request: string, raw: string)
    requires ValidEndpoint(current) && RequestTarget(request) == Some(current.target)
    ensures Resolve(current, request, raw).Some? ==> ValidEndpoint(Resolve(current, request, raw).value)
  {
    if Visible(raw) && |raw| < MAX_LOCATION && Resolve(current, request, raw).Some? {
      var location := DropFragment(raw);
      if IsAbsolute(location) {
        AbsoluteIsValid(location, current.tls);
      } else if location[0] != '/' {
        MergeIsValid(current.target, location);
      }
    }
  }

  lemma {:induction false} MergeIsValid(target: string, location: string)
    requires target != "" && target[0] == '/' && Visible(target) && location != "" && Visible(location)
    ensures var r := Merge(target, location); r.Some? ==> r.value[0] == '/' && Visible(r.value)
  {
    var path := target[..IndexOf(target, '?')];
    assert path[0] == '/';
  }

  // A reference that is not a query replaces what follows the last slash of the
  // current path, the merge of section 5.2.3 of RFC 3986; a query replaces the query.
  lemma {:induction false} MergeMeans(target: string, location: string) returns (dir: string, file: string)
    requires target != "" && target[0] == '/' && location != "" && Merge(target, location).Some?
    ensures dir + file == target[..IndexOf(target, '?')]
    ensures dir != "" && dir[|dir| - 1] == '/' && '/' !in file
    ensures Merge(target, location) == Some(if location[0] == '?' then dir + file + location else dir + location)
  {
    var path := target[..IndexOf(target, '?')];
    var n := AfterLast(path, '/');
    assert path[0] == '/';
    dir, file := path[..n], path[n..];
    assert dir + file == path;
    assert forall i :: 0 <= i < |file| ==> file[i] == path[n + i];
  }

  // endpoint_authority
  function Authority(e: Endpoint): string
  {
    if e.port == (if e.tls then 443 else 80) then e.host else e.host + ":" + Signed(e.port)
  }

  lemma {:induction false} PortReadsBack(n: nat)
    requires 1 <= n <= 65535
    ensures ParsePort(Decimal(n)) == Some(n)
  {
    DecimalReadsBack(n);
  }

  // A name that an authority and an absolute reference can hold.
  ghost predicate PlainHost(host: string) {
    forall i :: 0 <= i < |host| ==> host[i] !in {':', '@', '[', ']', '/', '?', '#'}
  }

  lemma {:induction false} AuthorityReadsBack(e: Endpoint)
    requires ValidEndpoint(e) && PlainHost(e.host) && |Authority(e)| < MAX_HOST
    ensures ParseAuthority(Authority(e), if e.tls then 443 else 80) == Some((e.host, e.port))
  {
    AuthorityIsPlain(e);
    if Authority(e) != e.host {
      PortIsRead(e.host, e.port, Signed(e.port));
      assert Authority(e) == e.host + [':'] + Signed(e.port);
    } else {
      assert e.port == if e.tls then 443 else 80;
    }
  }

  lemma {:induction false} PortIsRead(host: string, port: nat, digits: string)
    requires 1 <= port <= 65535 && host != "" && digits == Decimal(port)
    ensures var a := host + [':'] + digits; var n := AfterLast(a, ':');
            n == |host| + 1 && n > 1 && a[..n - 1] == host && ParsePort(a[n..]) == Some(port)
  {
    AfterLastIs(host, ':', digits);
    PortReadsBack(port);
  }

  lemma {:induction false} AuthorityIsPlain(e: Endpoint)
    requires ValidEndpoint(e) && PlainHost(e.host)
    ensures var a := Authority(e); a != "" && Visible(a) && a[0] != '[' && '@' !in a && ']' !in a
    ensures forall i :: 0 <= i < |Authority(e)| ==> Authority(e)[i] !in {'/', '?'} && Authority(e)[i] != '#'
  {
    var a, h, port := Authority(e), e.host, Signed(e.port);
    forall i | 0 <= i < |a|
      ensures 33 <= a[i] as int <= 126 && a[i] !in {'/', '?'} && a[i] !in {'@', '[', ']', '#'}
    {
      if i < |h| {
        assert a[i] == h[i];
      } else if i > |h| {
        assert a[i] == port[i - |h| - 1];
      }
    }
  }

  lemma {:induction false} RestReadsBack(e: Endpoint)
    requires ValidEndpoint(e) && PlainHost(e.host) && |Authority(e)| < MAX_HOST
    ensures ParseRest(Authority(e) + e.target, e.tls) == Some(e)
  {
    AuthorityReadsBack(e);
    AuthorityIsPlain(e);
    IndexOfAnyIs(Authority(e), e.target, {'/', '?'});
  }

  // An endpoint written as an absolute reference is resolved to itself.
  lemma {:induction false} ResolveReadsBack(current: Endpoint, request: string, e: Endpoint)
    requires ValidEndpoint(e) && PlainHost(e.host) && |Authority(e)| < MAX_HOST && '#' !in e.target
    requires |Scheme(e) + Authority(e) + e.target| < MAX_LOCATION
    ensures Resolve(current, request, Scheme(e) + Authority(e) + e.target) == Some(e)
  {
    var rest, raw := Authority(e) + e.target, Scheme(e) + Authority(e) + e.target;
    AuthorityIsPlain(e);
    assert Visible(raw) && DropFragment(raw) == raw by {
      TextOfReference(Scheme(e), Authority(e), e.target);
      IndexOfIs(raw, "", '#');
      assert raw + "" == raw;
    }
    assert raw == Scheme(e) + rest;
    RestReadsBack(e);
    SchemeIsRead(e, rest, current.tls);
  }

  lemma {:induction false} TextOfReference(a: string, b: string, c: string)
    requires Visible(a) && Visible(b) && Visible(c) && '#' !in a && '#' !in b && '#' !in c
    ensures Visible(a + b + c) && forall i :: 0 <= i < |a + b + c| ==> (a + b + c)[i] != '#'
  {
  }

  lemma {:induction false} SchemeIsRead(e: Endpoint, rest: string, tls: bool)
    ensures IsAbsolute(Scheme(e) + rest) && ParseAbsolute(Scheme(e) + rest, tls) == ParseRest(rest, e.tls)
  {
    var n, raw := |Scheme(e)|, Scheme(e) + rest;
    assert raw[n..] == rest && raw[..n] == Scheme(e);
    if e.tls {
      assert raw[..7][4] == 's';
    }
  }

  function Scheme(e: Endpoint): string {
    if e.tls then "https://" else "http://"
  }

  // The names in a list, one per line.
  function Names(list: string): (ns: seq<string>)
    decreases |list|
  {
    var n := IndexOf(list, '\n');
    if n == |list| then [list] else [list[..n]] + Names(list[n + 1..])
  }

  ghost predicate NamedByOne(line: string, names: seq<string>) {
    exists k :: 0 <= k < |names| && names[k] != "" && Named(line, names[k])
  }

  lemma {:induction false} NamedByCons(line: string, name: string, names: seq<string>)
    ensures NamedByOne(line, [name] + names) <==> (name != "" && Named(line, name)) || NamedByOne(line, names)
  {
    var all := [name] + names;
    if k :| 0 <= k < |names| && names[k] != "" && Named(line, names[k]) {
      assert all[k + 1] == names[k];
    }
    assert all[0] == name;
  }

  // header_line_named_in_list
  method NamedInList(line: string, list: string) returns (named: bool)
    ensures named <==> NamedByOne(line, Names(list))
  {
    var cursor := list;
    while cursor != ""
      invariant NamedByOne(line, Names(list)) <==> NamedByOne(line, Names(cursor))
      decreases |cursor|
    {
      var n := IndexOf(cursor, '\n');
      NamesStep(line, cursor);
      if n != 0 && Named(line, cursor[..n]) {
        return true;
      }
      if n == |cursor| {
        return false;
      }
      cursor := cursor[n + 1..];
    }
    named := false;
  }

  lemma {:induction false} NamesStep(line: string, list: string)
    ensures var n := IndexOf(list, '\n');
            NamedByOne(line, Names(list)) <==>
              || (n != 0 && Named(line, list[..n]))
              || (n < |list| && NamedByOne(line, Names(list[n + 1..])))
  {
    var n := IndexOf(list, '\n');
    if n == |list| {
      assert list[..n] == list && [list] + [] == [list];
      NamedByCons(line, list, []);
    } else {
      NamedByCons(line, list[..n], Names(list[n + 1..]));
    }
  }

  predicate IsHost(line: string) { Named(line, "Host") }

  // Lines that may not go to another origin.
  ghost predicate Sensitive(line: string, names: string) {
    Named(line, "Authorization") || Named(line, "Cookie") || NamedByOne(line, Names(names))
  }

  // The header lines of `s`, up to the empty line or the end; None if one is not terminated.
  function HeaderLines(s: string): (r: Option<seq<string>>)
    decreases |s|
  {
    if s == "" then Some([])
    else
      var n := FirstCrlf(s);
      if n == |s| then None
      else if n == 0 then Some([])
      else match HeaderLines(s[n + 2..])
        case None => None
        case Some(lines) => Some([s[..n]] + lines)
  }

  // The request without its first line; None if that is not terminated.
  function Headers(request: string): Option<string> {
    var n := FirstCrlf(request);
    if n == |request| then None else Some(request[n + 2..])
  }

  // What becomes of the header lines: Host is replaced, and without `keep` the
  // sensitive lines are dropped.
  ghost function NewLines(lines: seq<string>, authority: string, keep: bool, names: string): seq<string> {
    if lines == [] then []
    else
      (if IsHost(lines[0]) then [HostLine(authority)]
       else if !keep && Sensitive(lines[0], names) then []
       else [lines[0]])
      + NewLines(lines[1..], authority, keep, names)
  }

  predicate HasHost(lines: seq<string>) {
    exists i :: 0 <= i < |lines| && IsHost(lines[i])
  }

  function JoinLines(lines: seq<string>): string {
    if lines == [] then "" else lines[0] + "\r\n" + JoinLines(lines[1..])
  }

  // All header lines of the rewritten request.
  ghost function AllLines(lines: seq<string>, authority: string, keep: bool, names: string): seq<string> {
    NewLines(lines, authority, keep, names) + if HasHost(lines) then [] else [HostLine(authority)]
  }

  function HostLine(authority: string): string {
    "Host: " + authority
  }

  function RequestLine(e: Endpoint): string {
    "GET " + e.target + " HTTP/1.0"
  }

  // The rewritten request.
  ghost function Rewritten(lines: seq<string>, e: Endpoint, keep: bool, names: string): string {
    RequestLine(e) + "\r\n" + (JoinLines(AllLines(lines, Authority(e), keep, names)) + "\r\n")
  }

  lemma {:induction false} JoinConcat(a: seq<string>, b: seq<string>)
    ensures JoinLines(a + b) == JoinLines(a) + JoinLines(b)
  {
    if a == [] {
      assert a + b == b;
    } else {
      assert (a + b)[1..] == a[1..] + b;
      JoinConcat(a[1..], b);
    }
  }

  // A line that can be read back.
  ghost predicate Readable(lines: seq<string>) {
    forall i :: 0 <= i < |lines| ==> lines[i] != "" && IsLine(lines[i])
  }

  lemma {:induction false} LinesAreReadable(s: string)
    requires HeaderLines(s).Some?
    ensures Readable(HeaderLines(s).value)
    decreases |s|
  {
    var n := FirstCrlf(s);
    if s != "" && 0 < n < |s| {
      LinesAreReadable(s[n + 2..]);
      forall i | 0 <= i < n
        ensures !CrlfAt(s[..n], i)
      {
        assert !CrlfAt(s, i);
      }
    }
  }

  lemma {:induction false} ReadFirstLine(line: string, rest: string)
    requires line != "" && IsLine(line) && HeaderLines(rest).Some?
    ensures HeaderLines(line + "\r\n" + rest) == Some([line] + HeaderLines(rest).value)
  {
    FirstCrlfIs(line, rest);
    var s := line + "\r\n" + rest;
    assert s[..|line|] == line && s[|line| + 2..] == rest;
  }

  lemma {:induction false} ReadNoLine()
    ensures HeaderLines("\r\n") == Some([])
  {
    FirstCrlfIs("", "");
    assert "" + "\r\n" + "" == "\r\n";
  }

  // Joined lines are read back as they were.
  lemma {:induction false} JoinReadsBack(lines: seq<string>)
    requires Readable(lines)
    ensures HeaderLines(JoinLines(lines) + "\r\n") == Some(lines)
  {
    if lines == [] {
      ReadNoLine();
      assert JoinLines(lines) + "\r\n" == "\r\n";
    } else {
      var tail := JoinLines(lines[1..]);
      JoinReadsBack(lines[1..]);
      ReadFirstLine(lines[0], tail + "\r\n");
      assert (lines[0] + "\r\n" + tail) + "\r\n" == lines[0] + "\r\n" + (tail + "\r\n");
      assert lines == [lines[0]] + lines[1..];
    }
  }

  // The output of a rewriting splits into the new request line, the lines, and an
  // empty line, and its target is that of the endpoint.
  lemma {:induction false} RewrittenReadsBack(lines: seq<string>, e: Endpoint, keep: bool, names: string)
    requires Readable(lines) && ValidEndpoint(e)
    ensures RequestTarget(Rewritten(lines, e, keep, names)) == Some(e.target)
    ensures Headers(Rewritten(lines, e, keep, names)).Some?
    ensures HeaderLines(Headers(Rewritten(lines, e, keep, names)).value) == Some(AllLines(lines, Authority(e), keep, names))
  {
    AllLinesReadable(lines, e, keep, names);
    AssembledReadsBack(e, AllLines(lines, Authority(e), keep, names));
  }

  lemma {:induction false} AssembledReadsBack(e: Endpoint, all: seq<string>)
    requires Readable(all) && ValidEndpoint(e)
    ensures var r := RequestLine(e) + "\r\n" + (JoinLines(all) + "\r\n");
            RequestTarget(r) == Some(e.target) && Headers(r).Some? && HeaderLines(Headers(r).value) == Some(all)
  {
    var rest := JoinLines(all) + "\r\n";
    JoinReadsBack(all);
    HeadersReadBack(e, rest);
    TargetOfRequest(e, rest);
  }

  lemma {:induction false} TargetOfRequest(e: Endpoint, rest: string)
    requires ValidEndpoint(e)
    ensures RequestTarget(RequestLine(e) + "\r\n" + rest) == Some(e.target)
  {
    TargetReadsBack(e, " HTTP/1.0\r\n" + rest);
    assert RequestLine(e) + "\r\n" + rest == "GET " + e.target + (" HTTP/1.0\r\n" + rest);
  }

  lemma {:induction false} HeadersReadBack(e: Endpoint, rest: string)
    requires ValidEndpoint(e)
    ensures Headers(RequestLine(e) + "\r\n" + rest) == Some(rest)
  {
    VisibleIsLine(e);
    FirstCrlfIs(RequestLine(e), rest);
    assert (RequestLine(e) + "\r\n" + rest)[|RequestLine(e)| + 2..] == rest;
  }

  lemma {:induction false} TargetReadsBack(e: Endpoint, rest: string)
    requires ValidEndpoint(e) && rest != "" && rest[0] == ' '
    ensures RequestTarget("GET " + e.target + rest) == Some(e.target)
  {
    var r := "GET " + e.target + rest;
    var start := r[4..];
    assert start == e.target + rest;
    assert forall i :: 0 <= i < |e.target| ==> start[i] == e.target[i];
    assert start[|e.target|] == ' ';
    assert IndexOf(start, ' ') == |e.target|;
    assert start[..|e.target|] == e.target;
    assert "GET " <= r;
  }

  lemma {:induction false} VisibleIsLine(e: Endpoint)
    requires ValidEndpoint(e)
    ensures IsLine(RequestLine(e)) && IsLine(HostLine(Authority(e)))
  {
    var d := Signed(e.port);
    forall i | 0 <= i < |RequestLine(e)|
      ensures RequestLine(e)[i] != '\r'
    {
    }
    forall i | 0 <= i < |HostLine(Authority(e))|
      ensures HostLine(Authority(e))[i] != '\r'
    {
    }
  }

  lemma {:induction false} AllLinesReadable(lines: seq<string>, e: Endpoint, keep: bool, names: string)
    requires Readable(lines) && ValidEndpoint(e)
    ensures Readable(AllLines(lines, Authority(e), keep, names))
  {
    VisibleIsLine(e);
    NewLinesReadable(lines, Authority(e), keep, names);
  }

  lemma {:induction false} NewLinesReadable(lines: seq<string>, authority: string, keep: bool, names: string)
    requires Readable(lines) && IsLine(HostLine(authority))
    ensures Readable(NewLines(lines, authority, keep, names))
  {
    if lines != [] {
      NewLinesReadable(lines[1..], authority, keep, names);
    }
  }

  function LinesOf(request: string): Option<seq<string>> {
    match Headers(request)
    case None => None
    case Some(headers) => HeaderLines(headers)
  }

  // The size of the buffer that a rewriting allocates.
  function Capacity(request: string, e: Endpoint): nat {
    |request| + |e.target| + |e.host| + 128
  }

  lemma {:induction false} NewLinesConcat(a: seq<string>, b: seq<string>, authority: string, keep: bool, names: string)
    ensures NewLines(a + b, authority, keep, names) ==
            NewLines(a, authority, keep, names) + NewLines(b, authority, keep, names)
  {
    if a == [] {
      assert a + b == b;
    } else {
      assert (a + b)[1..] == a[1..] + b;
      NewLinesConcat(a[1..], b, authority, keep, names);
    }
  }

  // `cursor` is what is left of the request after its header lines `done`.
  ghost predicate Reading(request: string, cursor: string, done: seq<string>) {
    && (HeaderLines(cursor).Some? <==> LinesOf(request).Some?)
    && (LinesOf(request).Some? ==> LinesOf(request).value == done + HeaderLines(cursor).value)
  }

  lemma {:induction false} ReadStep(request: string, cursor: string, done: seq<string>)
    requires Reading(request, cursor, done) && cursor != "" && 0 < FirstCrlf(cursor) < |cursor|
    ensures var n := FirstCrlf(cursor); Reading(request, cursor[n + 2..], done + [cursor[..n]])
  {
    var n := FirstCrlf(cursor);
    if LinesOf(request).Some? {
      var rest := HeaderLines(cursor[n + 2..]).value;
      assert done + ([cursor[..n]] + rest) == (done + [cursor[..n]]) + rest;
    }
  }

  // What one line adds to the output.
  ghost function Piece(line: string, authority: string, keep: bool, names: string): string {
    if IsHost(line) then HostLine(authority) + "\r\n"
    else if !keep && Sensitive(line, names) then ""
    else line + "\r\n"
  }

  lemma {:induction false} JoinPiece(done: seq<string>, line: string, authority: string, keep: bool, names: string)
    ensures JoinLines(NewLines(done + [line], authority, keep, names)) ==
            JoinLines(NewLines(done, authority, keep, names)) + Piece(line, authority, keep, names)
    ensures HasHost(done + [line]) <==> HasHost(done) || IsHost(line)
  {
    NewLinesConcat(done, [line], authority, keep, names);
    JoinConcat(NewLines(done, authority, keep, names), NewLines([line], authority, keep, names));
    assert [line][1..] == [];
    var l := NewLines([line], authority, keep, names);
    if l != [] {
      assert l[1..] == [] && JoinLines(l) == l[0] + "\r\n" + "";
    }
    assert (done + [line])[|done|] == line;
    assert forall i :: 0 <= i < |done| ==> (done + [line])[i] == done[i];
  }

  // The output after the lines `done`.
  ghost function Output(done: seq<string>, e: Endpoint, keep: bool, names: string): string
  {
    RequestLine(e) + "\r\n" + JoinLines(NewLines(done, Authority(e), keep, names))
  }

  // The output never gets longer than the whole.
  lemma {:induction false} OutputFits(done: seq<string>, lines: seq<string>, e: Endpoint, keep: bool, names: string)
    requires done <= lines
    ensures |Output(done, e, keep, names)| < |Rewritten(lines, e, keep, names)|
  {
    var rest := lines[|done|..];
    assert lines == done + rest;
    NewLinesConcat(done, rest, Authority(e), keep, names);
    JoinConcat(NewLines(done, Authority(e), keep, names), NewLines(rest, Authority(e), keep, names));
    RewrittenEnds(lines, e, keep, names);
  }

  // Copy one header line under the policy, if there is room for it and a NUL.
  method CopyLine(out: string, line: string, authority: string, keep: bool, names: string, capacity: nat)
      returns (ok: bool, out': string)
    requires |out| < capacity
    ensures ok <==> |out + Piece(line, authority, keep, names)| < capacity
    ensures ok ==> out' == out + Piece(line, authority, keep, names)
  {
    out' := out;
    if IsHost(line) {
      ok := |HostLine(authority) + "\r\n"| < capacity - |out|;
      if ok {
        out' := out + (HostLine(authority) + "\r\n");
      }
      return;
    }
    var listed := NamedInList(line, names);
    if !keep && (Named(line, "Authorization") || Named(line, "Cookie") || listed) {
      ok := true;
    } else {
      ok := |line| + 2 < capacity - |out|;
      if ok {
        out' := out + (line + "\r\n");
      }
    }
  }

  // The loop of rewrite_get_request_with_policy.
  method CopyLines(request: string, start: string, e: Endpoint, keep: bool, names: string, capacity: nat)
      returns (ok: bool, out: string, replaced: bool, ghost lines: seq<string>)
    requires Headers(request) == Some(start) && |RequestLine(e)| + 2 < capacity
    ensures ok ==> LinesOf(request) == Some(lines) && replaced == HasHost(lines)
    ensures ok ==> out == Output(lines, e, keep, names) && |out| < capacity
    ensures !ok && LinesOf(request).Some? ==> |Rewritten(LinesOf(request).value, e, keep, names)| >= capacity
  {
    out, replaced, lines := RequestLine(e) + "\r\n", false, [];
    var cursor := start;
    assert JoinLines([]) == "" && out + "" == out;
    while cursor != ""
      invariant Reading(request, cursor, lines) && replaced == HasHost(lines)
      invariant out == Output(lines, e, keep, names) && |out| < capacity
      decreases |cursor|
    {
      var m := FirstCrlf(cursor);
      if m == |cursor| {
        return false, out, replaced, lines;
      }
      if m == 0 {
        break;
      }
      var line := cursor[..m];
      ReadStep(request, cursor, lines);
      JoinPiece(lines, line, Authority(e), keep, names);
      ghost var before := out;
      ok, out := CopyLine(out, line, Authority(e), keep, names, capacity);
      OutputStep(lines, line, e, keep, names, before);
      lines := lines + [line];
      if !ok {
        if LinesOf(request).Some? {
          OutputFits(lines, LinesOf(request).value, e, keep, names);
        }
        return false, out, replaced, lines;
      }
      replaced := replaced || IsHost(line);
      cursor := cursor[m + 2..];
    }
    assert lines + [] == lines;
    ok := true;
  }

  lemma {:induction false} OutputStep(done: seq<string>, line: string, e: Endpoint, keep: bool, names: string, out: string)
    requires out == Output(done, e, keep, names)
    ensures Output(done + [line], e, keep, names) == out + Piece(line, Authority(e), keep, names)
  {
    JoinPiece(done, line, Authority(e), keep, names);
  }

  // rewrite_get_request_with_policy: it succeeds exactly when all lines are
  // terminated and the result with its NUL fits the buffer.
  method Rewrite(request: string, e: Endpoint, keep: bool, names: string) returns (r: Option<string>)
    ensures r.Some? <==>
            && LinesOf(request).Some? && 0 < |Authority(e)| < MAX_HOST + 16
            && |Rewritten(LinesOf(request).value, e, keep, names)| < Capacity(request, e)
    ensures r.Some? ==> r.value == Rewritten(LinesOf(request).value, e, keep, names)
  {
    var n := FirstCrlf(request);
    if n == |request| {
      return None;
    }
    var capacity := Capacity(request, e);
    var authority := Authority(e);
    if authority == "" || |authority| >= MAX_HOST + 16 || |RequestLine(e) + "\r\n"| >= capacity {
      return None;
    }
    ghost var lines;
    var ok, out, replaced;
    ok, out, replaced, lines := CopyLines(request, request[n + 2..], e, keep, names, capacity);
    if !ok {
      return None;
    }
    RewrittenEnds(lines, e, keep, names);
    if !replaced {
      var hostLine := HostLine(authority) + "\r\n";
      if |hostLine| >= capacity - |out| {
        return None;
      }
      out := out + hostLine;
    }
    r := if |out| + 2 >= capacity then None else Some(out + "\r\n");
  }

  lemma {:induction false} JoinAll(lines: seq<string>, authority: string, keep: bool, names: string)
    ensures JoinLines(AllLines(lines, authority, keep, names)) ==
            JoinLines(NewLines(lines, authority, keep, names)) + if HasHost(lines) then "" else HostLine(authority) + "\r\n"
  {
    var u, host := NewLines(lines, authority, keep, names), [HostLine(authority)];
    if HasHost(lines) {
      assert u + [] == u;
    } else {
      JoinConcat(u, host);
      assert host[1..] == [] && JoinLines(host) == HostLine(authority) + "\r\n" + "";
    }
  }

  lemma {:induction false} RewrittenEnds(lines: seq<string>, e: Endpoint, keep: bool, names: string)
    ensures Rewritten(lines, e, keep, names) ==
            Output(lines, e, keep, names) + (if HasHost(lines) then "" else HostLine(Authority(e)) + "\r\n") + "\r\n"
  {
    JoinAll(lines, Authority(e), keep, names);
    var start, u := RequestLine(e) + "\r\n", JoinLines(NewLines(lines, Authority(e), keep, names));
    var host := if HasHost(lines) then "" else HostLine(Authority(e)) + "\r\n";
    assert start + ((u + host) + "\r\n") == ((start + u) + host) + "\r\n";
  }

  function HostCount(lines: seq<string>): nat {
    if lines == [] then 0 else (if IsHost(lines[0]) then 1 else 0) + HostCount(lines[1..])
  }

  lemma {:induction false} HostCountMeans(lines: seq<string>)
    ensures HasHost(lines) <==> HostCount(lines) > 0
  {
    if lines != [] {
      HostCountMeans(lines[1..]);
      assert forall i :: 1 <= i < |lines| ==> lines[i] == lines[1..][i - 1];
    }
  }

  lemma {:induction false} NewLinesLength(lines: seq<string>, authority: string, keep: bool, names: string)
    ensures HostCount(lines) == 0 ==> |JoinLines(NewLines(lines, authority, keep, names))| <= |JoinLines(lines)|
    ensures HostCount(lines) == 1 ==> |JoinLines(NewLines(lines, authority, keep, names))| <= |JoinLines(lines)| + |authority| + 1
  {
    if lines != [] {
      NewLinesLength(lines[1..], authority, keep, names);
      var first := NewLines(lines, authority, keep, names);
      var rest := NewLines(lines[1..], authority, keep, names);
      if first != rest {
        assert first[1..] == rest;
      }
    }
  }

  lemma {:induction false} LinesLength(s: string)
    requires HeaderLines(s).Some?
    ensures |JoinLines(HeaderLines(s).value)| <= |s|
    decreases |s|
  {
    var n := FirstCrlf(s);
    if s != "" && 0 < n < |s| {
      LinesLength(s[n + 2..]);
      var rest := HeaderLines(s[n + 2..]).value;
      assert ([s[..n]] + rest)[1..] == rest;
    }
  }

  // With at most one Host line, the buffer is never exhausted.
  lemma {:induction false} RewriteFits(request: string, e: Endpoint, keep: bool, names: string)
    requires ValidEndpoint(e) && LinesOf(request).Some? && HostCount(LinesOf(request).value) <= 1
    ensures 0 < |Authority(e)| < MAX_HOST + 16
    ensures |Rewritten(LinesOf(request).value, e, keep, names)| < Capacity(request, e)
  {
    var lines := LinesOf(request).value;
    DecimalLength(e.port);
    RewrittenEnds(lines, e, keep, names);
    NewLinesLength(lines, Authority(e), keep, names);
    LinesLength(Headers(request).value);
    HostCountMeans(lines);
  }

  // A request as it was sent.
  datatype Sent = Sent(endpoint: Endpoint, request: string)

  // What one request ends in: a failure, or a head and the bytes that follow it.
  datatype Reply = Failure(code: int) | Head(head: Response.ResponseHead, body: string)

  // A reply that asks for another request.
  predicate IsRedirect(s: Sent, reply: Reply) {
    "GET " <= s.request && reply.Head? && RedirectStatus(reply.head.status) && reply.head.location.Some?
  }

  // One hop: the Location of the reply, resolved, and the request rewritten for it
  // under the policy for its origin.
  ghost predicate Hop(a: Sent, reply: Reply, b: Sent, names: string) {
    && IsRedirect(a, reply)
    && LinesOf(a.request).Some?
    && Resolve(a.endpoint, a.request, reply.head.location.value) == Some(b.endpoint)
    && b.request == Rewritten(LinesOf(a.request).value, b.endpoint, SameOrigin(a.endpoint, b.endpoint), names)
  }

  ghost predicate GetRun(trace: seq<Sent>, replies: seq<Reply>, names: string) {
    forall k, l {:trigger Hop(trace[k], replies[k], trace[l], names)} ::
      0 <= k && l == k + 1 < |trace| && k < |replies| ==> Hop(trace[k], replies[k], trace[l], names)
  }

  ghost predicate WellFormed(s: Sent) {
    ValidEndpoint(s.endpoint) && RequestTarget(s.request) == Some(s.endpoint.target)
  }

  lemma {:induction false} KeepIgnoresNames(lines: seq<string>, authority: string, a: string, b: string)
    ensures NewLines(lines, authority, true, a) == NewLines(lines, authority, true, b)
  {
    if lines != [] {
      KeepIgnoresNames(lines[1..], authority, a, b);
    }
  }

  // A connection to a peer that sends some stream in some pieces.
  method Open() returns (c: Response.Connection)
    ensures fresh(c) && c.Valid() && !c.broken
  {
    var stream: string := *;
    var pieces: seq<nat> := *;
    if !Response.Cut(pieces, |stream|) {
      pieces := Response.Ones(|stream|);
    }
    c := new Response.Connection(stream, pieces);
  }

  // The codes of a request that fails: connecting, TLS, writing, reading, a time-out, a
  // bad head, the proxy.
  predicate FailureCode(code: int, tls: bool) {
    code in {4, 6, 7, 11, 13, 14} || (tls && code == 5)
  }

  // open_connection and write_all
  method Connect(tls: bool) returns (code: int)
    ensures code == 0 || (FailureCode(code, tls) && code != 7 && code != 13)
  {
    code := *;
    if code != 0 && !(code in {4, 6, 11, 14} || (tls && code == 5)) {
      code := 4;
    }
  }

  // one_request: connecting or writing fails, or the head is read, with `prefix`.
  method OneRequest(s: Sent) returns (reply: Reply, c: Response.Connection, prefix: string)
    ensures fresh(c) && (reply.Failure? ==> FailureCode(reply.code, s.endpoint.tls))
    ensures reply.Head? ==> c.Valid() && !c.broken && reply.body == prefix + c.rest && 100 <= reply.head.status <= 599
  {
    prefix := "";
    c := Open();
    var code := Connect(s.endpoint.tls);
    if code != 0 {
      return Failure(code), c, prefix;
    }
    var r, end := Response.ReadResponseHead(c);
    match r
    case Failed(_) => reply := Failure(c.failureCode);
    case Success(head, bytes) =>
      prefix := bytes;
      reply := Head(head, prefix + c.rest);
  }

  // What follows the last head. `failed` tells whether a read or a file operation fails.
  method Finish(c: Response.Connection, head: Response.ResponseHead, prefix: string, capture: bool)
      returns (code: int, ghost failed: bool)
    requires c.Valid() && !c.broken
    modifies c
    ensures if failed then code == 7 || (capture && code >= 11)
            else code == Response.Verdict(head, capture, |prefix + old(c.rest)|)
  {
    var output := new Response.Output();
    code := Response.Deliver(c, output, capture, head, prefix);
    failed := c.broken || output.failed;
  }

  // The exit code for a failed request. `capture` tells whether the body goes to a
  // file of its own.
  function ExitCode(code: int, tls: bool, capture: bool): int {
    if !capture && (code == 4 || code == 14) && tls then 5
    else if !capture && code >= 11 then 7
    else code
  }

  // Whether a redirect can be followed.
  ghost predicate CanFollow(s: Sent, reply: Reply, names: string)
    requires IsRedirect(s, reply)
  {
    match Resolve(s.endpoint, s.request, reply.head.location.value)
    case None => false
    case Some(e) =>
      && LinesOf(s.request).Some? && 0 < |Authority(e)| < MAX_HOST + 16
      && |Rewritten(LinesOf(s.request).value, e, SameOrigin(s.endpoint, e), names)| < Capacity(s.request, e)
  }

  // One turn of the loop after a redirect: the next request, if it can be made.
  method Next(s: Sent, reply: Reply, names: string) returns (next: Option<Sent>)
    requires IsRedirect(s, reply)
    ensures next.Some? <==> CanFollow(s, reply, names)
    ensures next.Some? ==> Hop(s, reply, next.value, names)
  {
    var e := Resolve(s.endpoint, s.request, reply.head.location.value);
    if e.None? {
      return None;
    }
    var same := SameOrigin(s.endpoint, e.value);
    var request := Rewrite(s.request, e.value, same, if same then "" else names);
    if LinesOf(s.request).Some? {
      KeepIgnoresNames(LinesOf(s.request).value, Authority(e.value), "", names);
    }
    next := match request case None => None case Some(r) => Some(Sent(e.value, r));
  }

  // How a run of the loop of send_request ends, by its last request and reply.
  ghost predicate EndsWith(code: int, s: Sent, reply: Reply, names: string, capture: bool, count: nat, failed: bool) {
    if reply.Failure? then
      FailureCode(reply.code, s.endpoint.tls) && code == ExitCode(reply.code, s.endpoint.tls, capture)
    else if IsRedirect(s, reply) then code == 8 && (count == MAX_REDIRECTS + 1 || !CanFollow(s, reply, names))
    else if failed then code == 7 || (capture && code >= 11)
    else code == Response.Verdict(reply.head, capture, |reply.body|)
  }

  // send_request. `trace` lists the requests that were sent and `replies` what each
  // of them ended in; `failed` tells of a failure to read or store the last body.
  method SendRequest(host: string, port: int, request: string, bodyLength: int, hasBody: bool, tls: bool,
      names: string, capture: bool)
      returns (code: int, trace: seq<Sent>, replies: seq<Reply>, ghost failed: bool)
    ensures |replies| == |trace| <= MAX_REDIRECTS + 1
    ensures |trace| > 0 ==> trace[0].request == request && trace[0].endpoint.(target := "") == Endpoint(tls, host, port, "")
    ensures |trace| > 0 && "GET " <= request ==> RequestTarget(request) == Some(trace[0].endpoint.target)
    ensures GetRun(trace, replies, names)
    ensures !("GET " <= request) ==> |trace| <= 1
    ensures trace == [] ==> code == 2 || code == 3
    ensures trace != [] ==> EndsWith(code, trace[|trace| - 1], replies[|trace| - 1], names, capture, |trace|, failed)
    ensures code == 8 <==> trace != [] && IsRedirect(trace[|trace| - 1], replies[|trace| - 1])
    ensures !capture ==> 0 <= code <= 8
  {
    trace, replies, failed := [], [], false;
    if bodyLength < 0 || (bodyLength != 0 && !hasBody) {
      code := 2;
      return;
    }
    var isGet := "GET " <= request;
    if !isGet && !("POST " <= request) {
      code := 2;
      return;
    }
    if isGet && bodyLength != 0 {
      code := 2;
      return;
    }
    if |host| >= MAX_HOST {
      code := 3;
      return;
    }
    var target := RequestTarget(request);
    if target.None? && isGet {
      code := 3;
      return;
    }
    var start := Sent(Endpoint(tls, host, port, if target.Some? then target.value else ""), request);
    code, trace, replies, failed := Hops(start, names, capture);
  }

  // The loop of send_request.
  method Hops(start: Sent, names: string, capture: bool)
      returns (code: int, trace: seq<Sent>, replies: seq<Reply>, ghost failed: bool)
    ensures |replies| == |trace| && 0 < |trace| <= MAX_REDIRECTS + 1 && trace[0] == start
    ensures GetRun(trace, replies, names)
    ensures !("GET " <= start.request) ==> |trace| == 1
    ensures EndsWith(code, trace[|trace| - 1], replies[|trace| - 1], names, capture, |trace|, failed)
  {
    trace, replies, failed := [], [], false;
    var current := start;
    var redirects := 0;
    while true
      invariant 0 <= redirects == |trace| == |replies| <= MAX_REDIRECTS
      invariant GetRun(trace + [current], replies, names)
      invariant (trace + [current])[0] == start
      invariant !("GET " <= start.request) ==> trace == []
      decreases MAX_REDIRECTS - redirects
    {
      var reply, c, prefix := OneRequest(current);
      trace, replies := trace + [current], replies + [reply];
      if reply.Failure? {
        code := ExitCode(reply.code, current.endpoint.tls, capture);
        return;
      }
      if !IsRedirect(current, reply) {
        code, failed := Finish(c, reply.head, prefix, capture);
        return;
      }
      if redirects >= MAX_REDIRECTS {
        code := 8;
        return;
      }
      var next := Next(current, reply, names);
      if next.None? {
        code := 8;
        return;
      }
      RunGrows(trace, replies, next.value, names);
      current := next.value;
      redirects := redirects + 1;
    }
  }

  lemma {:induction false} RunGrows(trace: seq<Sent>, replies: seq<Reply>, next: Sent, names: string)
    requires trace != [] && |replies| == |trace| && GetRun(trace, replies, names)
    requires Hop(trace[|trace| - 1], replies[|trace| - 1], next, names)
    ensures GetRun(trace + [next], replies, names)
  {
    var run := trace + [next];
    forall k, l | 0 <= k && l == k + 1 < |run|
      ensures Hop(run[k], replies[k], run[l], names)
    {
      assert run[k] == trace[k] && run[l] == if l < |trace| then trace[l] else next;
    }
  }

  ghost predicate HostsName(lines: seq<string>, authority: string) {
    forall i :: 0 <= i < |lines| && IsHost(lines[i]) ==> lines[i] == HostLine(authority)
  }

  // No line but a Host line is sensitive.
  ghost predicate NoCredentials(lines: seq<string>, names: string) {
    forall i :: 0 <= i < |lines| && Sensitive(lines[i], names) ==> IsHost(lines[i])
  }

  ghost function Others(lines: seq<string>): seq<string> {
    if lines == [] then [] else (if IsHost(lines[0]) then [] else [lines[0]]) + Others(lines[1..])
  }

  lemma {:induction false} HostLineIsHost(authority: string)
    ensures IsHost(HostLine(authority))
  {
    assert HostLine(authority)[..4] == "Host";
  }

  lemma {:induction false} NewLinesPolicy(lines: seq<string>, authority: string, keep: bool, names: string)
    ensures var r := NewLines(lines, authority, keep, names);
            && HostsName(r, authority)
            && (!keep || NoCredentials(lines, names) ==> NoCredentials(r, names))
            && (keep ==> Others(r) == Others(lines))
  {
    if lines != [] {
      var rest := lines[1..];
      NewLinesPolicy(rest, authority, keep, names);
      HostLineIsHost(authority);
      var r, u := NewLines(lines, authority, keep, names), NewLines(rest, authority, keep, names);
      assert forall i :: 0 <= i < |rest| ==> rest[i] == lines[i + 1];
      if r != u {
        assert r[1..] == u;
        assert forall i :: 0 <= i < |u| ==> u[i] == r[i + 1];
      }
    }
  }

  lemma {:induction false} NewLinesHost(lines: seq<string>, authority: string, keep: bool, names: string)
    ensures HasHost(lines) ==> HasHost(NewLines(lines, authority, keep, names))
  {
    if i :| 0 <= i < |lines| && IsHost(lines[i]) {
      var u := NewLines(lines[1..], authority, keep, names);
      var r := NewLines(lines, authority, keep, names);
      if i == 0 {
        HostLineIsHost(authority);
        assert r[0] == HostLine(authority);
      } else {
        assert lines[1..][i - 1] == lines[i];
        NewLinesHost(lines[1..], authority, keep, names);
        var k :| 0 <= k < |u| && IsHost(u[k]);
        assert r[|r| - |u| + k] == u[k];
      }
    }
  }

  lemma {:induction false} AllLinesPolicy(lines: seq<string>, authority: string, keep: bool, names: string)
    ensures var r := AllLines(lines, authority, keep, names);
            && HostsName(r, authority) && HasHost(r)
            && (!keep || NoCredentials(lines, names) ==> NoCredentials(r, names))
            && (keep ==> Others(r) == Others(lines))
  {
    var u, host := NewLines(lines, authority, keep, names), HostLine(authority);
    NewLinesPolicy(lines, authority, keep, names);
    NewLinesHost(lines, authority, keep, names);
    HostLineIsHost(authority);
    if HasHost(lines) {
      assert u + [] == u;
    } else {
      assert (u + [host])[|u|] == host;
      OthersConcat(u, [host]);
      assert [host][1..] == [];
    }
  }

  lemma {:induction false} OthersConcat(a: seq<string>, b: seq<string>)
    ensures Others(a + b) == Others(a) + Others(b)
  {
    if a == [] {
      assert a + b == b;
    } else {
      assert (a + b)[1..] == a[1..] + b;
      OthersConcat(a[1..], b);
    }
  }

  // What a hop hands on: the lines, rewritten for the new endpoint.
  ghost predicate Relays(a: Sent, b: Sent, names: string) {
    && LinesOf(a.request).Some?
    && LinesOf(b.request) ==
       Some(AllLines(LinesOf(a.request).value, Authority(b.endpoint), SameOrigin(a.endpoint, b.endpoint), names))
  }

  ghost predicate RelayRun(trace: seq<Sent>, names: string) {
    forall k, l {:trigger Relays(trace[k], trace[l], names)} :: 0 <= k && l == k + 1 < |trace| ==> Relays(trace[k], trace[l], names)
  }

  lemma {:induction false} HopRelays(a: Sent, reply: Reply, b: Sent, names: string)
    requires Hop(a, reply, b, names) && WellFormed(a)
    ensures WellFormed(b) && Relays(a, b, names)
  {
    ResolveIsValid(a.endpoint, a.request, reply.head.location.value);
    LinesAreReadable(Headers(a.request).value);
    RewrittenReadsBack(LinesOf(a.request).value, b.endpoint, SameOrigin(a.endpoint, b.endpoint), names);
  }

  // In a run from a well-formed request, every request names the target of its
  // endpoint, which starts with a slash, and every hop hands on the lines.
  lemma {:induction false} RunTargets(trace: seq<Sent>, replies: seq<Reply>, names: string, k: nat)
    requires GetRun(trace, replies, names) && k < |trace| <= |replies| && WellFormed(trace[0])
    ensures WellFormed(trace[k]) && trace[k].endpoint.target[0] == '/'
    ensures k > 0 ==> Relays(trace[k - 1], trace[k], names)
  {
    var n := 0;
    while n < k
      invariant n <= k && WellFormed(trace[n]) && (n > 0 ==> Relays(trace[n - 1], trace[n], names))
    {
      HopRelays(trace[n], replies[n], trace[n + 1], names);
      n := n + 1;
    }
  }

  lemma {:induction false} RelayAt(trace: seq<Sent>, replies: seq<Reply>, names: string, k: nat, l: nat)
    requires GetRun(trace, replies, names) && l == k + 1 < |trace| <= |replies| && WellFormed(trace[0])
    ensures Relays(trace[k], trace[l], names)
  {
    RunTargets(trace, replies, names, l);
  }

  lemma {:induction false} RunRelays(trace: seq<Sent>, replies: seq<Reply>, names: string)
    requires GetRun(trace, replies, names) && trace != [] && |trace| <= |replies| && WellFormed(trace[0])
    ensures RelayRun(trace, names)
  {
    forall k: nat, l: nat | l == k + 1 < |trace|
      ensures Relays(trace[k], trace[l], names)
    {
      RelayAt(trace, replies, names, k, l);
    }
  }

  // What one hop does to the header lines.
  lemma {:induction false} HopPolicy(a: Sent, b: Sent, names: string) returns (before: seq<string>, after: seq<string>)
    requires Relays(a, b, names)
    ensures LinesOf(a.request) == Some(before) && LinesOf(b.request) == Some(after)
    ensures HasHost(after) && HostsName(after, Authority(b.endpoint))
    ensures SameOrigin(a.endpoint, b.endpoint) ==> Others(after) == Others(before)
    ensures !SameOrigin(a.endpoint, b.endpoint) ==> NoCredentials(after, names)
    ensures NoCredentials(before, names) ==> NoCredentials(after, names)
  {
    var keep := SameOrigin(a.endpoint, b.endpoint);
    before := LinesOf(a.request).value;
    after := AllLines(before, Authority(b.endpoint), keep, names);
    AllLinesPolicy(before, Authority(b.endpoint), keep, names);
  }

  // Every redirected request has a Host line, and all of them name its endpoint.
  lemma {:induction false} RunHosts(trace: seq<Sent>, names: string, k: nat)
    requires RelayRun(trace, names) && 0 < k < |trace|
    ensures LinesOf(trace[k].request).Some?
    ensures HasHost(LinesOf(trace[k].request).value)
    ensures HostsName(LinesOf(trace[k].request).value, Authority(trace[k].endpoint))
  {
    var before, after := HopPolicy(trace[k - 1], trace[k], names);
  }

  // While all hops stay on one origin, the other header lines survive in order.
  lemma {:induction false} RunKeepsHeaders(trace: seq<Sent>, names: string, k: nat)
    requires RelayRun(trace, names) && 0 < k < |trace|
    requires forall i, j :: 0 <= i && j == i + 1 <= k ==> SameOrigin(trace[i].endpoint, trace[j].endpoint)
    ensures LinesOf(trace[0].request).Some? && LinesOf(trace[k].request).Some?
    ensures Others(LinesOf(trace[k].request).value) == Others(LinesOf(trace[0].request).value)
  {
    var before, after := HopPolicy(trace[k - 1], trace[k], names);
    if k > 1 {
      RunKeepsHeaders(trace, names, k - 1);
    }
  }

  ghost predicate Clean(s: Sent, names: string) {
    LinesOf(s.request).Some? && NoCredentials(LinesOf(s.request).value, names)
  }

  lemma {:induction false} HopCleans(a: Sent, b: Sent, names: string)
    requires Relays(a, b, names)
    ensures !SameOrigin(a.endpoint, b.endpoint) ==> Clean(b, names)
    ensures Clean(a, names) ==> Clean(b, names)
  {
    var before, after := HopPolicy(a, b, names);
  }

  // After a hop to another origin, no later request holds a sensitive line.
  lemma {:induction false} RunDropsCredentials(trace: seq<Sent>, names: string, j: nat, k: nat)
    requires RelayRun(trace, names) && 0 < j <= k < |trace|
    requires !SameOrigin(trace[j - 1].endpoint, trace[j].endpoint)
    ensures Clean(trace[k], names)
    decreases k
  {
    HopCleans(trace[k - 1], trace[k], names);
    if j < k {
      RunDropsCredentials(trace, names, j, k - 1);
    }
  }
}
