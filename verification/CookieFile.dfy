// The lines of a cookie file in old/lib/cookie.c: get_netscape_format prints one and
// parse_netscape reads one.

module CookieFile {
  import opened Options
  import opened Text
  import opened CookieMatch

  // ---------- Printing ----------

  function Flag(b: bool): string {
    if b then "TRUE" else "FALSE"
  }

  function PrintedDomain(co: Cookie): string {
    match co.domain
    case None => "unknown"
    case Some(d) => if co.tailmatch && (d == "" || d[0] != '.') then "." + d else d
  }

  function PrintedFields(co: Cookie): seq<string> {
    [PrintedDomain(co), Flag(co.tailmatch), if co.path.Some? then co.path.value else "/", Flag(co.secure),
     Signed(co.expires), co.name, co.value]
  }

  function Join(fs: seq<string>): string {
    if fs == [] then "" else if |fs| == 1 then fs[0] else fs[0] + "\t" + Join(fs[1..])
  }

  // get_netscape_format
  function Format(co: Cookie): string {
    (if co.httpOnly then "#HttpOnly_" else "") + Join(PrintedFields(co))
  }

  // ---------- Reading ----------

  function FieldEnd(s: string): nat {
    IndexOfAny(s, {'\t', '\r', '\n'})
  }

  // The fields of a line, up to its end.
  function Fields(s: string): (fs: seq<string>)
    ensures fs != []
    decreases |s|
  {
    var n := FieldEnd(s);
    if n < |s| && s[n] == '\t' then [s[..n]] + Fields(s[n + 1..]) else [s[..n]]
  }

  // A field that case-insensitively starts TRUE, as curl_strnequal tells.
  predicate IsTrue(s: string) {
    |s| <= 4 && CaseEq(s, "TRUE"[..|s|])
  }

  // A field that starts TRUE or FALSE stands where the path should.
  predicate LooksBoolean(s: string) {
    s <= "TRUE" || s <= "FALSE"
  }

  // The fields, with a path put in if it was left out.
  function WithPath(fs: seq<string>): seq<string> {
    if |fs| > 2 && LooksBoolean(fs[2]) then fs[..2] + ["/"] + fs[2..] else fs
  }

  function DropDot(s: string): string {
    if s != "" && s[0] == '.' then s[1..] else s
  }

  function LeadingDigits(s: string): (d: string)
    ensures d <= s && Digits(d) && (|d| < |s| ==> !IsDigit(s[|d|]))
  {
    if s == "" || !IsDigit(s[0]) then ""
    else
      var d := LeadingDigits(s[1..]);
      assert [s[0]] + d <= s && forall i :: 0 < i <= |d| ==> ([s[0]] + d)[i] == d[i - 1];
      [s[0]] + d
  }

  // curlx_str_number
  function Number(s: string): Option<int> {
    var d := LeadingDigits(s);
    if d == "" || DigitsValue(d) > OFFSET_MAX then None else Some(DigitsValue(d))
  }

  // invalid_octets
  predicate HasControl(s: string) {
    exists i :: 0 <= i < |s| && (s[i] < ' ' || s[i] as int == 127)
  }

  // The cookie of seven fields, or of six and no value. `trusted` is a secure origin
  // or a running jar.
  function FromFields(gs: seq<string>, httpOnly: bool, trusted: bool): Option<Cookie> {
    if |gs| != 6 && |gs| != 7 then None
    else
      var name, value := gs[5], if |gs| == 7 then gs[6] else "";
      if (IsTrue(gs[3]) && !trusted) || Number(gs[4]).None? || HasControl(name) || HasControl(value) then None
      else Some(Cookie(name, value, Some(SanitizePath(gs[2])), Some(DropDot(gs[0])), Number(gs[4]).value, 0,
                       IsTrue(gs[1]), IsTrue(gs[3]), false, httpOnly,
                       "__Secure-" <= name, !("__Secure-" <= name) && "__Host-" <= name))
  }

  predicate MarkedHttpOnly(line: string) { "#HttpOnly_" <= line }

  function Body(line: string): string {
    if MarkedHttpOnly(line) then line[10..] else line
  }

  // What a line means.
  function Parsed(line: string, trusted: bool): Option<Cookie> {
    var body := Body(line);
    if body != "" && body[0] == '#' then None
    else FromFields(WithPath(Fields(body)), MarkedHttpOnly(line), trusted)
  }

  // The fields read so far, in a cookie.
  ghost predicate Filled(co: Cookie, gs: seq<string>, n: nat, trusted: bool) {
    && n <= |gs|
    && co.creationTime == 0 && !co.live
    && (n > 0 ==> co.domain == Some(DropDot(gs[0])))
    && (n > 1 ==> co.tailmatch == IsTrue(gs[1]))
    && (n > 2 ==> co.path == Some(SanitizePath(gs[2])))
    && (n > 3 ==> co.secure == IsTrue(gs[3]) && (co.secure ==> trusted))
    && (n > 4 ==> Number(gs[4]) == Some(co.expires))
    && (if n > 5 then
          && co.name == gs[5] && co.prefixSecure == ("__Secure-" <= co.name)
          && co.prefixHost == (!("__Secure-" <= co.name) && "__Host-" <= co.name)
        else true)
    && (n > 6 ==> co.value == gs[6])
  }

  // What follows the fields read so far: the first two are as they stand in the line.
  ghost predicate Unread(rest: string, fs: seq<string>, n: nat) {
    if n <= 2 then n < |fs| && Fields(rest) == fs[n..]
    else n < |WithPath(fs)| && Fields(rest) == WithPath(fs)[n..]
  }

  lemma {:induction false} FieldsStep(rest: string, fs: seq<string>, n: nat)
    requires Unread(rest, fs, n) && n != 2
    ensures var k := FieldEnd(rest);
            && WithPath(fs)[n] == rest[..k]
            && (if k < |rest| && rest[k] == '\t' then Unread(rest[k + 1..], fs, n + 1) else n + 1 == |WithPath(fs)|)
  {
    var gs := WithPath(fs);
    var k := FieldEnd(rest);
    var part := if n <= 2 then fs[n..] else gs[n..];
    assert part[0] == rest[..k];
    if k < |rest| && rest[k] == '\t' {
      assert part[1..] == Fields(rest[k + 1..]);
    } else {
      assert |part| == 1;
    }
  }

  // The third field, which may not be a path.
  lemma {:induction false} PathStep(rest: string, fs: seq<string>)
    requires Unread(rest, fs, 2)
    ensures var k := FieldEnd(rest);
            if LooksBoolean(rest[..k]) then
              WithPath(fs)[2] == "/" && Unread(rest, fs, 3)
            else
              && WithPath(fs)[2] == rest[..k]
              && (if k < |rest| && rest[k] == '\t' then Unread(rest[k + 1..], fs, 3) else 3 == |WithPath(fs)|)
  {
    var gs := WithPath(fs);
    var k := FieldEnd(rest);
    var part := fs[2..];
    assert part[0] == rest[..k];
    if LooksBoolean(rest[..k]) {
      assert gs[3..] == fs[2..];
    } else if k < |rest| && rest[k] == '\t' {
      assert part[1..] == Fields(rest[k + 1..]);
      assert part[1..] == gs[3..];
    } else {
      assert |part| == 1;
    }
  }

  // The switch of parse_netscape for one field other than the third. It stops on a
  // secure cookie that is not trusted and on a bad number.
  method ReadField(co: Cookie, n: nat, text: string, trusted: bool, ghost gs: seq<string>) returns (ok: bool, co': Cookie)
    requires n != 2 && n < |gs| && gs[n] == text && Filled(co, gs, n, trusted)
    ensures ok ==> Filled(co', gs, n + 1, trusted)
    ensures co'.httpOnly == co.httpOnly
    ensures !ok ==> (n == 3 && IsTrue(text) && !trusted) || (n == 4 && Number(text).None?)
  {
    ok, co' := true, co;
    match n {
      case 0 => co' := co.(domain := Some(DropDot(text)));
      case 1 => co' := co.(tailmatch := IsTrue(text));
      case 3 =>
        co' := co.(secure := IsTrue(text));
        ok := !IsTrue(text) || trusted;
      case 4 =>
        ok := Number(text).Some?;
        if ok {
          co' := co.(expires := Number(text).value);
        }
      case 5 =>
        co' := co.(name := text, prefixSecure := "__Secure-" <= text,
                   prefixHost := !("__Secure-" <= text) && "__Host-" <= text);
      case 6 => co' := co.(value := text);
      case _ =>
    }
  }

  // The third field: tells whether it was a path.
  method ReadPath(co: Cookie, text: string, trusted: bool, ghost gs: seq<string>) returns (isPath: bool, co': Cookie)
    requires 2 < |gs| && gs[2] == (if LooksBoolean(text) then "/" else text) && Filled(co, gs, 2, trusted)
    ensures isPath == !LooksBoolean(text)
    ensures Filled(co', gs, 3, trusted) && co'.httpOnly == co.httpOnly
  {
    isPath := !LooksBoolean(text);
    co' := co.(path := Some(if isPath then SanitizePath(text) else "/"));
  }

  lemma {:induction false} StopsReading(gs: seq<string>, n: nat, httpOnly: bool, trusted: bool)
    requires n < |gs| && ((n == 3 && IsTrue(gs[3]) && !trusted) || (n == 4 && Number(gs[4]).None?))
    ensures FromFields(gs, httpOnly, trusted).None?
  {
  }

  // One turn of the loop of parse_netscape.
  method ReadOne(rest: string, fields: nat, co: Cookie, trusted: bool, ghost fs: seq<string>)
      returns (ok: bool, fields': nat, co': Cookie)
    requires Unread(rest, fs, fields) && Filled(co, WithPath(fs), fields, trusted)
    ensures co'.httpOnly == co.httpOnly
    ensures ok ==> Filled(co', WithPath(fs), fields', trusted)
    ensures ok ==> var k := FieldEnd(rest);
                   if k < |rest| && rest[k] == '\t' then Unread(rest[k + 1..], fs, fields') else fields' == |WithPath(fs)|
    ensures !ok ==> FromFields(WithPath(fs), co.httpOnly, trusted).None?
  {
    var text := rest[..FieldEnd(rest)];
    ok, fields', co' := true, fields, co;
    var isPath := false;
    if fields == 2 {
      PathStep(rest, fs);
      isPath, co' := ReadPath(co, text, trusted, WithPath(fs));
      if !isPath {
        fields' := 3;
      }
    }
    if !isPath {
      FieldsStep(rest, fs, fields');
      ghost var n := fields';
      ok, co' := ReadField(co', fields', text, trusted, WithPath(fs));
      if !ok {
        StopsReading(WithPath(fs), n, co.httpOnly, trusted);
      }
    }
    fields' := fields' + 1;
  }

  // The loop of parse_netscape.
  method ReadFields(body: string, httpOnly: bool, trusted: bool) returns (ok: bool, fields: nat, co: Cookie)
    ensures ok ==> fields == |WithPath(Fields(body))| && Filled(co, WithPath(Fields(body)), fields, trusted) && co.httpOnly == httpOnly
    ensures !ok ==> FromFields(WithPath(Fields(body)), httpOnly, trusted).None?
  {
    ghost var fs := Fields(body);
    co := Cookie("", "", None, None, 0, 0, false, false, false, httpOnly, false, false);
    fields := 0;
    var rest, more := body, true;
    assert fs[0..] == fs;
    while more
      invariant Filled(co, WithPath(fs), fields, trusted) && co.httpOnly == httpOnly
      invariant if more then Unread(rest, fs, fields) else fields == |WithPath(fs)|
      decreases more, |rest|
    {
      ok, fields, co := ReadOne(rest, fields, co, trusted, fs);
      if !ok {
        return;
      }
      var k := FieldEnd(rest);
      more := k < |rest| && rest[k] == '\t';
      rest := if more then rest[k + 1..] else "";
    }
    ok := true;
  }

  // parse_netscape
  method ParseNetscape(line: string, secureOrigin: bool, running: bool) returns (r: Option<Cookie>)
    ensures r == Parsed(line, secureOrigin || running)
  {
    var body := Body(line);
    if body != "" && body[0] == '#' {
      return None;
    }
    var ok, fields, co := ReadFields(body, MarkedHttpOnly(line), secureOrigin || running);
    if !ok {
      return None;
    }
    if fields == 6 {
      co := co.(value := "");
      fields := fields + 1;
    }
    if fields != 7 || HasControl(co.name) || HasControl(co.value) {
      return None;
    }
    r := Some(co);
  }

  // ---------- The round trip ----------

  // What a file keeps of a cookie.
  predicate SameContent(a: Cookie, b: Cookie) {
    && a.name == b.name && a.value == b.value && a.path == b.path && a.domain == b.domain
    && a.expires == b.expires && a.tailmatch == b.tailmatch && a.secure == b.secure && a.httpOnly == b.httpOnly
  }

  // Cookies that a file can hold.
  predicate Storable(co: Cookie) {
    && co.domain.Some? && co.path.Some?
    && co.expires >= 0
    && SanitizePath(co.path.value) == co.path.value
    && (co.domain.value != "" ==> co.domain.value[0] != '.' && (co.domain.value[0] == '#' ==> co.tailmatch))
  }

  predicate Clean(co: Cookie) {
    && !HasControl(co.name) && !HasControl(co.value)
    && (co.domain.Some? ==> !HasControl(co.domain.value))
    && (co.path.Some? ==> !HasControl(co.path.value))
    && co.expires <= OFFSET_MAX
  }

  // A text that a field can hold.
  ghost predicate Plain(s: string) {
    forall i :: 0 <= i < |s| ==> s[i] !in {'\t', '\r', '\n'}
  }

  lemma {:induction false} CleanIsPlain(s: string)
    requires !HasControl(s)
    ensures Plain(s)
  {
  }

  lemma {:induction false} FieldsOfJoin(fs: seq<string>)
    requires fs != [] && forall i :: 0 <= i < |fs| ==> Plain(fs[i])
    ensures Fields(Join(fs)) == fs
  {
    if |fs| == 1 {
      IndexOfAnyIs(fs[0], "", {'\t', '\r', '\n'});
      assert fs[0] + "" == fs[0];
    } else {
      var rest := Join(fs[1..]);
      FieldsOfJoin(fs[1..]);
      SplitField(fs[0], rest);
      assert fs == [fs[0]] + fs[1..];
    }
  }

  lemma {:induction false} SplitField(text: string, rest: string)
    requires Plain(text)
    ensures Fields(text + "\t" + rest) == [text] + Fields(rest)
  {
    IndexOfAnyIs(text, "\t" + rest, {'\t', '\r', '\n'});
    var s := text + "\t" + rest;
    assert s == text + ("\t" + rest);
    assert s[|text|] == '\t' && s[..|text|] == text && s[|text| + 1..] == rest;
  }

  lemma {:induction false} PrintedArePlain(co: Cookie)
    requires Clean(co)
    ensures forall i :: 0 <= i < 7 ==> Plain(PrintedFields(co)[i])
  {
    CleanIsPlain(co.name);
    CleanIsPlain(co.value);
    if co.domain.Some? {
      CleanIsPlain(co.domain.value);
    }
    if co.path.Some? {
      CleanIsPlain(co.path.value);
    }
  }

  lemma {:induction false} NumberReadsBack(n: nat)
    requires n <= OFFSET_MAX
    ensures Number(Decimal(n)) == Some(n)
  {
    DecimalReadsBack(n);
    AllDigitsLead(Decimal(n));
  }

  lemma {:induction false} AllDigitsLead(s: string)
    requires Digits(s)
    ensures LeadingDigits(s) == s
  {
    var d := LeadingDigits(s);
    assert |d| == |s|;
    assert s[..|d|] == d;
  }

  lemma {:induction false} NumberOfExpires(n: int)
    requires n <= OFFSET_MAX
    ensures Number(Signed(n)) == if n >= 0 then Some(n) else None
  {
    if n >= 0 {
      NumberReadsBack(n);
    } else {
      assert Signed(n)[0] == '-';
    }
  }

  // Where the printed fields start in the line.
  lemma {:induction false} BodyOfFormat(co: Cookie)
    ensures var body := Join(PrintedFields(co));
            && body != "" && (PrintedDomain(co) != "" ==> body[0] == PrintedDomain(co)[0])
            && (PrintedDomain(co) == "" ==> body[0] == '\t')
            && (co.httpOnly || body[0] != '#' ==> MarkedHttpOnly(Format(co)) == co.httpOnly && Body(Format(co)) == body)
  {
    var fs := PrintedFields(co);
    var body := Join(fs);
    assert body == fs[0] + "\t" + Join(fs[1..]);
    if co.httpOnly {
      assert Format(co)[10..] == body;
    } else {
      assert Format(co) == body;
    }
  }

  // What the printed fields are read as.
  lemma {:induction false} PrintedAreRead(co: Cookie)
    requires Clean(co)
    ensures Fields(Join(PrintedFields(co))) == PrintedFields(co)
    ensures IsTrue(Flag(co.tailmatch)) == co.tailmatch && IsTrue(Flag(co.secure)) == co.secure
    ensures Number(PrintedFields(co)[4]) == if co.expires >= 0 then Some(co.expires) else None
  {
    PrintedArePlain(co);
    FieldsOfJoin(PrintedFields(co));
    NumberOfExpires(co.expires);
    assert "FALSE" != "TRUE" && "TRUE"[..4] == "TRUE";
  }

  // The body of a printed line, read.
  lemma {:induction false} BodyIsRead(co: Cookie)
    requires Clean(co) && co.path.Some? && co.domain.Some?
    ensures ReadAs(co, FromFields(WithPath(Fields(Join(PrintedFields(co)))), co.httpOnly, true))
  {
    PrintedAreRead(co);
    var fs := PrintedFields(co);
    if LooksBoolean(co.path.value) {
      assert |WithPath(fs)| == 8;
    }
  }

  lemma {:induction false} BooleanIsNoPath(s: string)
    requires LooksBoolean(s)
    ensures SanitizePath(s) != s
  {
  }

  // A domain that is printed behind a comment sign is lost.
  lemma {:induction false} CommentIsLost(co: Cookie)
    requires co.domain.Some? && co.domain.value != "" && co.domain.value[0] == '#' && !co.tailmatch
    ensures Parsed(Format(co), true).None? || !SameContent(Parsed(Format(co), true).value, co)
  {
    BodyOfFormat(co);
    if !co.httpOnly {
      assert Format(co) == Join(PrintedFields(co));
    }
  }

  // A cookie free of control bytes comes back from a file, read as the loader does,
  // exactly if it is storable.
  lemma {:induction false} RoundTrip(co: Cookie)
    requires Clean(co)
    ensures Storable(co) <==> Parsed(Format(co), true).Some? && SameContent(Parsed(Format(co), true).value, co)
  {
    if co.domain.Some? && co.path.Some? {
      if co.domain.value != "" && co.domain.value[0] == '#' && !co.tailmatch {
        CommentIsLost(co);
      } else {
        var r := UncommentedIsRead(co);
        ReadAsItself(co, r);
      }
    }
  }

  // What reading a cookie with a domain and a path gives back, if anything.
  ghost predicate ReadAs(co: Cookie, r: Option<Cookie>)
    requires co.domain.Some? && co.path.Some?
  {
    if co.expires < 0 || LooksBoolean(co.path.value) then r.None?
    else
      && r.Some?
      && SameContent(r.value, co.(path := Some(SanitizePath(co.path.value)), domain := Some(DropDot(PrintedDomain(co)))))
  }

  lemma {:induction false} UncommentedIsRead(co: Cookie) returns (r: Option<Cookie>)
    requires Clean(co) && co.domain.Some? && co.path.Some?
    requires co.domain.value != "" && co.domain.value[0] == '#' ==> co.tailmatch
    ensures r == Parsed(Format(co), true) && ReadAs(co, r)
  {
    BodyOfFormat(co);
    BodyIsRead(co);
    r := FromFields(WithPath(Fields(Join(PrintedFields(co)))), co.httpOnly, true);
  }

  lemma {:induction false} ReadAsItself(co: Cookie, r: Option<Cookie>)
    requires co.domain.Some? && co.path.Some? && ReadAs(co, r)
    requires co.domain.value != "" && co.domain.value[0] == '#' ==> co.tailmatch
    ensures Storable(co) <==> r.Some? && SameContent(r.value, co)
  {
    DomainIsRead(co);
    if LooksBoolean(co.path.value) {
      BooleanIsNoPath(co.path.value);
    }
  }

  lemma {:induction false} DomainIsRead(co: Cookie)
    requires co.domain.Some?
    ensures DropDot(PrintedDomain(co)) == co.domain.value <==> co.domain.value == "" || co.domain.value[0] != '.'
  {
    var d := co.domain.value;
    if co.tailmatch && (d == "" || d[0] != '.') {
      assert ("." + d)[1..] == d;
    }
  }
}
