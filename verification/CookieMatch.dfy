// Which cookies of old/lib/cookie.c go to which host and path, the buckets that
// they are kept in, and the order that they are sent in.
//
// Whether a name is a numeric address is a parameter, blind to case.

module CookieMatch {
  import opened Lists
  import opened Options
  import opened Text

  const HASH_SIZE: nat := 63
  const OFFSET_MAX: int := 9223372036854775807

  datatype Cookie = Cookie(
    name: string,
    value: string,
    path: Option<string>,
    domain: Option<string>,
    expires: int,        // 0 for a session cookie
    creationTime: nat,
    tailmatch: bool,
    secure: bool,
    live: bool,          // from a server, not from a file
    httpOnly: bool,
    prefixSecure: bool,
    prefixHost: bool)

  type IpTest = string -> bool

  ghost predicate CaseBlind(ip: IpTest) {
    forall a, b :: CaseEq(a, b) ==> ip(a) == ip(b)
  }

  // ---------- Domains ----------

  // cookie_tailmatch
  predicate TailMatch(domain: string, host: string) {
    var n := |host| - |domain|;
    n >= 0 && CaseEq(domain, host[n..]) && (n == 0 || host[n - 1] == '.')
  }

  // The domain match of section 5.1.3 of RFC 6265 for host names.
  lemma {:induction false} TailMatchMeans(domain: string, host: string)
    ensures TailMatch(domain, host) <==>
            CaseEq(domain, host) || exists sub, tail :: host == sub + "." + tail && CaseEq(domain, tail)
  {
    var n := |host| - |domain|;
    if TailMatch(domain, host) {
      if n == 0 {
        assert host[n..] == host;
      } else {
        assert host == host[..n - 1] + "." + host[n..];
      }
    }
    if CaseEq(domain, host) {
      assert host[0..] == host;
    }
    if sub, tail :| host == sub + "." + tail && CaseEq(domain, tail) {
      assert host[n..] == tail && host[n - 1] == '.';
    }
  }

  // memrchr: the position after the last dot in the first `end` characters, or 0.
  function AfterDot(s: string, end: nat): (n: nat)
    requires end <= |s|
    ensures n <= end && (n > 0 ==> s[n - 1] == '.')
    ensures forall i :: n <= i < end ==> s[i] != '.'
  {
    if end == 0 || s[end - 1] == '.' then end else AfterDot(s, end - 1)
  }

  // get_top_domain: where the last two labels start.
  function TopStart(domain: string): (n: nat)
    ensures n <= |domain|
  {
    var last := AfterDot(domain, |domain|);
    if last == 0 then 0 else AfterDot(domain, last - 1)
  }

  function TopDomain(domain: string): string {
    domain[TopStart(domain)..]
  }

  function Upper(c: char): char {
    if 'a' <= c <= 'z' then c - 32 as char else c
  }

  // A character code as a machine word.
  function Word(c: char): bv64 {
    (c as int) as bv64
  }

  function HashFrom(s: string, h: bv64): bv64 {
    if s == "" then h else HashFrom(s[1..], (h + (h << 5)) ^ Word(Upper(s[0])))
  }

  // cookie_hash_domain
  method HashDomain(domain: string) returns (bucket: nat)
    ensures bucket == HashOf(domain)
  {
    var h: bv64 := 5381;
    var cursor := domain;
    while cursor != ""
      invariant HashFrom(cursor, h) == HashFrom(domain, 5381)
      decreases |cursor|
    {
      h := (h + (h << 5)) ^ Word(Upper(cursor[0]));
      cursor := cursor[1..];
    }
    bucket := (h as int) % HASH_SIZE;
  }

  function HashOf(domain: string): (bucket: nat)
    ensures bucket < HASH_SIZE
  {
    (HashFrom(domain, 5381) as int) % HASH_SIZE
  }

  // cookiehash
  function BucketOf(domain: Option<string>, ip: IpTest): (bucket: nat)
    ensures bucket < HASH_SIZE
  {
    if domain.None? || ip(domain.value) then 0 else HashOf(TopDomain(domain.value))
  }

  lemma {:induction false} HashBlind(a: string, b: string, h: bv64)
    requires CaseEq(a, b)
    ensures HashFrom(a, h) == HashFrom(b, h)
  {
    if a != "" {
      assert Lower(a[0]) == Lower(b[0]);
      UpperIsLower(a[0], b[0]);
      HashBlind(a[1..], b[1..], (h + (h << 5)) ^ Word(Upper(a[0])));
    }
  }

  lemma {:induction false} UpperIsLower(c: char, d: char)
    requires Lower(c) == Lower(d)
    ensures Upper(c) == Upper(d)
  {
  }

  // Positions of dots do not depend on case.
  lemma {:induction false} DotBlind(a: string, b: string, end: nat)
    requires CaseEq(a, b) && end <= |a|
    ensures AfterDot(a, end) == AfterDot(b, end)
  {
    var m, n := AfterDot(a, end), AfterDot(b, end);
    if m > 0 {
      assert Lower(b[m - 1]) == '.';
    }
    if n > 0 {
      assert Lower(a[n - 1]) == '.';
    }
  }

  lemma {:induction false} CasePart(a: string, b: string, from: nat, to: nat)
    requires CaseEq(a, b) && from <= to <= |a|
    ensures CaseEq(a[from..to], b[from..to])
  {
  }

  lemma {:induction false} TopBlind(a: string, b: string)
    requires CaseEq(a, b)
    ensures CaseEq(TopDomain(a), TopDomain(b))
  {
    DotBlind(a, b, |a|);
    var last := AfterDot(a, |a|);
    if last > 0 {
      DotBlind(a, b, last - 1);
    }
    CasePart(a, b, TopStart(a), |a|);
  }

  // Names that differ in case only share a bucket.
  lemma {:induction false} BucketBlind(a: string, b: string, ip: IpTest)
    requires CaseEq(a, b) && CaseBlind(ip)
    ensures BucketOf(Some(a), ip) == BucketOf(Some(b), ip)
  {
    TopBlind(a, b);
    HashBlind(TopDomain(a), TopDomain(b), 5381);
  }

  // The last dot of a name is that of its tail, or the one before the tail.
  lemma {:induction false} DotOfTail(s: string, n: nat, end: nat)
    requires 0 < n <= n + end <= |s| && s[n - 1] == '.'
    ensures AfterDot(s, n + end) == n + AfterDot(s[n..], end)
  {
    var m := AfterDot(s[n..], end);
    assert s[n + m - 1] == '.';
    forall i | n + m <= i < n + end
      ensures s[i] != '.'
    {
      assert s[i] == s[n..][i - n];
    }
  }

  lemma {:induction false} TopStartOfTail(host: string, n: nat)
    requires 0 < n <= |host| && host[n - 1] == '.' && AfterDot(host[n..], |host| - n) > 0
    ensures TopStart(host) == n + TopStart(host[n..])
  {
    DotOfTail(host, n, |host| - n);
    DotOfTail(host, n, AfterDot(host[n..], |host| - n) - 1);
  }

  // The part of a host after a dot has the same last two labels, if it holds a dot.
  lemma {:induction false} TopOfTail(host: string, n: nat)
    requires 0 < n <= |host| && host[n - 1] == '.' && AfterDot(host[n..], |host| - n) > 0
    ensures TopDomain(host) == TopDomain(host[n..])
  {
    TopStartOfTail(host, n);
    TailOfTail(host, n, TopStart(host[n..]));
  }

  lemma {:induction false} TailOfTail(s: string, n: nat, k: nat)
    requires n + k <= |s|
    ensures s[n + k..] == s[n..][k..]
  {
  }

  // A host that tail-matches a domain with a dot is kept in its bucket.
  lemma {:induction false} TailInBucket(domain: string, host: string, ip: IpTest)
    requires TailMatch(domain, host) && CaseBlind(ip) && !ip(domain) && !ip(host) && '.' in domain
    ensures BucketOf(Some(domain), ip) == BucketOf(Some(host), ip)
  {
    var n := |host| - |domain|;
    var tail := host[n..];
    if n > 0 {
      DotBlind(domain, tail, |domain|);
      TopOfTail(host, n);
    } else {
      assert tail == host;
    }
    TopBlind(domain, tail);
    HashBlind(TopDomain(domain), TopDomain(tail), 5381);
  }

  // ---------- Paths ----------

  function UriPath(uri: string): string {
    if uri == "" || uri[0] != '/' then "/" else uri
  }

  // pathmatch
  predicate PathMatch(path: string, uri: string) {
    if |path| == 1 then true
    else
      var u := UriPath(uri);
      path <= u && (|path| == |u| || u[|path|] == '/')
  }

  // The path match of section 5.1.4 of RFC 6265.
  predicate RfcPathMatch(path: string, uri: string) {
    path <= uri && (path == uri || (path != "" && path[|path| - 1] == '/') || uri[|path|] == '/')
  }

  // The two agree except where a path that ends in a slash stops within a segment.
  lemma {:induction false} PathMatchIsRfc(path: string, uri: string)
    requires path != "" && path[0] == '/'
    ensures (PathMatch(path, uri) == RfcPathMatch(path, UriPath(uri))) <==>
            !(|path| > 1 && path[|path| - 1] == '/' && path < UriPath(uri) && UriPath(uri)[|path|] != '/')
  {
    var u := UriPath(uri);
    if path <= u && |path| == |u| {
      assert path == u;
    }
  }

  // sanitize_cookie_path
  function SanitizePath(text: string): (path: string)
    ensures path != "" && path[0] == '/'
  {
    var t := if text == "" || text[0] != '"' then text
             else if |text| > 1 && text[|text| - 1] == '"' then text[1..|text| - 1]
             else text[1..];
    if t == "" || t[0] != '/' then "/"
    else if |t| > 1 && t[|t| - 1] == '/' then t[..|t| - 1]
    else t
  }

  // Paths that sanitize_cookie_path leaves as they are.
  lemma {:induction false} SanitizeFixes(path: string)
    ensures SanitizePath(path) == path <==>
            path != "" && path[0] == '/' && (|path| == 1 || path[|path| - 1] != '/')
  {
  }

  // Sanitizing drops one slash only, so the deviation is reachable.
  lemma {:induction false} DeviationIsReachable()
    ensures SanitizePath("/a//") == "/a/"
    ensures RfcPathMatch("/a/", "/a/b") && !PathMatch("/a/", "/a/b")
  {
    assert "/a/" <= "/a/b" && "/a/"[|"/a/"| - 1] == '/';
  }

  // ---------- Selection ----------

  // The conditions of Curl_cookie_getlist.
  predicate Qualifies(c: Cookie, host: string, path: string, secure: bool, ip: IpTest) {
    && (c.secure ==> secure)
    && (c.domain.None?
        || (c.tailmatch && !ip(host) && TailMatch(c.domain.value, host))
        || ((!c.tailmatch || ip(host)) && CaseEq(host, c.domain.value)))
    && (c.path.None? || PathMatch(c.path.value, path))
  }

  ghost function Selected(host: string, path: string, secure: bool, ip: IpTest): Cookie -> bool {
    (c: Cookie) => Qualifies(c, host, path, secure, ip)
  }

  // A cookie that the search of one bucket cannot miss.
  predicate Findable(c: Cookie, ip: IpTest) {
    c.domain.Some? && (c.tailmatch ==> '.' in c.domain.value && !ip(c.domain.value))
  }

  // Every cookie is in the bucket of its domain.
  ghost predicate Placed(bs: seq<seq<Cookie>>, ip: IpTest) {
    forall b, k {:trigger BucketOf(bs[b][k].domain, ip)} ::
      0 <= b < |bs| && 0 <= k < |bs[b]| ==> BucketOf(bs[b][k].domain, ip) == b
  }

  lemma {:induction false} MatchIsInBucket(c: Cookie, host: string, path: string, secure: bool, ip: IpTest)
    requires CaseBlind(ip) && Findable(c, ip) && Qualifies(c, host, path, secure, ip)
    ensures BucketOf(c.domain, ip) == BucketOf(Some(host), ip)
  {
    if c.tailmatch && !ip(host) && TailMatch(c.domain.value, host) {
      TailInBucket(c.domain.value, host, ip);
    } else {
      BucketBlind(host, c.domain.value, ip);
    }
  }

  // The search of one bucket finds what a search of the whole store finds.
  lemma {:induction false} OneBucketSuffices(bs: seq<seq<Cookie>>, host: string, path: string, secure: bool, ip: IpTest)
    requires |bs| == HASH_SIZE && Placed(bs, ip) && CaseBlind(ip)
    requires forall b, k :: 0 <= b < |bs| && 0 <= k < |bs[b]| ==> Findable(bs[b][k], ip)
    ensures var p := Selected(host, path, secure, ip);
            Filter(Flatten(bs), p) == Filter(bs[BucketOf(Some(host), ip)], p)
  {
    var p, n := Selected(host, path, secure, ip), BucketOf(Some(host), ip);
    forall b, k | 0 <= b < |bs| && 0 <= k < |bs[b]| && p(bs[b][k])
      ensures b == n
    {
      MatchIsInBucket(bs[b][k], host, path, secure, ip);
    }
    FlattenAt(bs, n);
    var before, after := Flatten(bs[..n]), Flatten(bs[n + 1..]);
    NoneSelected(bs[..n], p);
    NoneSelected(bs[n + 1..], p);
    FilterAppend(before + bs[n], after, p);
    FilterAppend(before, bs[n], p);
  }

  lemma {:induction false} NoneSelected(bs: seq<seq<Cookie>>, p: Cookie -> bool)
    requires forall b, k :: 0 <= b < |bs| && 0 <= k < |bs[b]| ==> !p(bs[b][k])
    ensures Filter(Flatten(bs), p) == []
  {
    FlattenForall(bs, c => !p(c));
    FilterBounds(Flatten(bs), p);
  }

  lemma {:induction false} HashStep(c: char, s: string, h: bv64, next: bv64)
    requires next == (h + (h << 5)) ^ Word(Upper(c))
    ensures HashFrom([c] + s, h) == HashFrom(s, next)
  {
    assert ([c] + s)[1..] == s;
  }

  lemma {:induction false} SomeWords()
    ensures Word(Upper('a')) == 65 && Word(Upper('b')) == 66 && Word(Upper('.')) == 46
  {
  }

  lemma {:induction false} SomeHashes()
    ensures HashFrom(['a'] + "", 5381) == 177636
    ensures HashFrom(['b'] + (['.'] + (['a'] + "")), 5381) == 193450056
  {
    SomeWords();
    HashStep('a', "", 5381, 177636);
    HashStep('b', ['.'] + (['a'] + ""), 5381, 177639);
    HashStep('.', ['a'] + "", 177639, 5862121);
    HashStep('a', "", 5862121, 193450056);
  }

  lemma {:induction false} SomeInts()
    ensures (177636 as bv64) as int == 177636 && (193450056 as bv64) as int == 193450056
  {
  }

  // Without a dot in its domain, a cookie for all sub-domains can be missed.
  lemma {:induction false} SingleLabelIsMissed(c: Cookie, path: string)
    requires c.domain == Some("a") && c.tailmatch && !c.secure && c.path.None?
    ensures Qualifies(c, "b.a", path, false, s => false)
    ensures BucketOf(c.domain, s => false) == 39 && BucketOf(Some("b.a"), s => false) == 51
  {
    assert "b.a"[2..] == "a" && "a"[0..] == "a" && "b.a"[0..] == "b.a";
    assert "a" == ['a'] + "" && "b.a" == ['b'] + (['.'] + (['a'] + ""));
    assert TopStart("a") == 0;
    assert AfterDot("b.a", 3) == 2 && AfterDot("b.a", 1) == 0;
    SomeHashes();
    SomeInts();
  }

  // ---------- Order ----------

  function Length(s: Option<string>): nat {
    match s case None => 0 case Some(t) => |t|
  }

  // cookie_sort: longer paths, domains and names first, then the newer cookie.
  predicate Before(a: Cookie, b: Cookie) {
    if Length(a.path) != Length(b.path) then Length(a.path) > Length(b.path)
    else if Length(a.domain) != Length(b.domain) then Length(a.domain) > Length(b.domain)
    else if |a.name| != |b.name| then |a.name| > |b.name|
    else a.creationTime > b.creationTime
  }

  ghost predicate InOrder(s: seq<Cookie>) {
    forall i, j :: 0 <= i < j < |s| ==> Before(s[i], s[j])
  }

  ghost predicate DistinctTimes(s: seq<Cookie>) {
    forall i, j :: 0 <= i < j < |s| ==> s[i].creationTime != s[j].creationTime
  }

  lemma {:induction false} Inserted(s: seq<Cookie>, n: nat, c: Cookie)
    requires InOrder(s) && n <= |s|
    requires (forall i :: 0 <= i < n ==> Before(s[i], c)) && (forall i :: n <= i < |s| ==> Before(c, s[i]))
    ensures InOrder(s[..n] + [c] + s[n..])
  {
    var t := s[..n] + [c] + s[n..];
    forall i, j | 0 <= i < j < |t|
      ensures Before(t[i], t[j])
    {
      assert t[i] == if i < n then s[i] else if i == n then c else s[i - 1];
      assert t[j] == if j < n then s[j] else if j == n then c else s[j - 1];
    }
  }

  lemma {:induction false} AfterThat(s: seq<Cookie>, n: nat, c: Cookie)
    requires InOrder(s) && n < |s| && !Before(s[n], c) && s[n].creationTime != c.creationTime
    ensures forall i :: n <= i < |s| ==> Before(c, s[i])
  {
    assert Before(c, s[n]);
    forall i | n <= i < |s|
      ensures Before(c, s[i])
    {
      assert n < i ==> Before(s[n], s[i]);
    }
  }

  // The place of a cookie in an ordered list.
  method Insert(s: seq<Cookie>, c: Cookie) returns (t: seq<Cookie>)
    requires InOrder(s) && forall i :: 0 <= i < |s| ==> s[i].creationTime != c.creationTime
    ensures InOrder(t) && multiset(t) == multiset(s) + multiset{c}
  {
    var n := 0;
    while n < |s| && Before(s[n], c)
      invariant 0 <= n <= |s|
      invariant forall i :: 0 <= i < n ==> Before(s[i], c)
    {
      n := n + 1;
    }
    if n < |s| {
      AfterThat(s, n, c);
    }
    Inserted(s, n, c);
    t := s[..n] + [c] + s[n..];
    assert s == s[..n] + s[n..];
  }

  // The qsort call.
  method Sort(s: seq<Cookie>) returns (t: seq<Cookie>)
    requires DistinctTimes(s)
    ensures InOrder(t) && multiset(t) == multiset(s)
  {
    t := [];
    var i := 0;
    while i < |s|
      invariant 0 <= i <= |s| && InOrder(t) && multiset(t) == multiset(s[..i])
    {
      assert s[..i + 1] == s[..i] + [s[i]];
      forall k | 0 <= k < |t|
        ensures t[k].creationTime != s[i].creationTime
      {
        assert t[k] in multiset(s[..i]);
      }
      t := Insert(t, s[i]);
      i := i + 1;
    }
    assert s[..i] == s;
  }

  // There is one order only.
  lemma {:induction false} OrderIsUnique(s: seq<Cookie>, t: seq<Cookie>)
    requires InOrder(s) && InOrder(t) && multiset(s) == multiset(t)
    ensures s == t
  {
    if s == [] {
      assert |multiset(t)| == 0;
    } else {
      FirstIsFirst(s, t);
      assert s == [s[0]] + s[1..] && t == [t[0]] + t[1..];
      assert multiset(s[1..]) == multiset(s) - multiset{s[0]};
      assert multiset(t[1..]) == multiset(t) - multiset{t[0]};
      OrderIsUnique(s[1..], t[1..]);
    }
  }

  lemma {:induction false} FirstIsFirst(s: seq<Cookie>, t: seq<Cookie>)
    requires s != [] && InOrder(s) && InOrder(t) && multiset(s) == multiset(t)
    ensures t != [] && s[0] == t[0]
  {
    assert s[0] in multiset(t);
    var j :| 0 <= j < |t| && t[j] == s[0];
    assert t[0] in multiset(s);
    var i :| 0 <= i < |s| && s[i] == t[0];
  }

  // ---------- The order of RFC 6265 ----------

  // Section 5.4 of RFC 6265: longer paths first, then the older cookie.
  predicate RfcBefore(a: Cookie, b: Cookie) {
    if Length(a.path) != Length(b.path) then Length(a.path) > Length(b.path) else a.creationTime < b.creationTime
  }

  ghost predicate InRfcOrder(s: seq<Cookie>) {
    forall i, j :: 0 <= i < j < |s| ==> RfcBefore(s[i], s[j])
  }

  // If `a` is older than `b` with an equally long path, it has a longer domain, or an
  // equally long one and a longer name.
  predicate OlderIsLonger(a: Cookie, b: Cookie) {
    Length(a.path) == Length(b.path) && a.creationTime < b.creationTime ==>
      || Length(a.domain) > Length(b.domain)
      || (Length(a.domain) == Length(b.domain) && |a.name| > |b.name|)
  }

  ghost predicate LengthFollowsAge(s: multiset<Cookie>) {
    forall a, b {:trigger OlderIsLonger(a, b)} :: a in s && b in s ==> OlderIsLonger(a, b)
  }

  // Two cookies stand the same way in both orders exactly if length follows age.
  lemma {:induction false} PairIsRfc(a: Cookie, b: Cookie)
    requires a.creationTime != b.creationTime
    ensures (Before(a, b) <==> RfcBefore(a, b)) <==> OlderIsLonger(a, b) && OlderIsLonger(b, a)
  {
  }

  // What cookie_sort makes of a list is in the order of the RFC exactly if length
  // follows age in it.
  lemma {:induction false} OrderIsRfc(s: seq<Cookie>, t: seq<Cookie>)
    requires DistinctTimes(t) && InOrder(t) && multiset(s) == multiset(t)
    ensures InRfcOrder(t) <==> LengthFollowsAge(multiset(s))
  {
    if InRfcOrder(t) {
      forall a, b | a in multiset(t) && b in multiset(t)
        ensures OlderIsLonger(a, b)
      {
        var i :| 0 <= i < |t| && t[i] == a;
        var j :| 0 <= j < |t| && t[j] == b;
        if i < j {
          assert Before(t[i], t[j]);
        } else if j < i {
          assert RfcBefore(t[j], t[i]);
        }
      }
    }
    if LengthFollowsAge(multiset(t)) {
      forall i, j | 0 <= i < j < |t|
        ensures RfcBefore(t[i], t[j])
      {
        assert Before(t[i], t[j]) && t[i].creationTime != t[j].creationTime;
        assert t[i] in multiset(t) && t[j] in multiset(t);
        assert OlderIsLonger(t[j], t[i]);
      }
    }
  }

  // Of two cookies that differ in their names and times only, the newer goes first.
  lemma {:induction false} NewerGoesFirst(c: Cookie, t: seq<Cookie>)
    requires InOrder(t) && multiset(t) == multiset{c.(name := "a", creationTime := 1), c.(name := "b", creationTime := 2)}
    ensures t == [c.(name := "b", creationTime := 2), c.(name := "a", creationTime := 1)] && !InRfcOrder(t)
  {
    var a, b := c.(name := "a", creationTime := 1), c.(name := "b", creationTime := 2);
    assert multiset([b, a]) == multiset(t);
    assert Before(b, a);
    OrderIsUnique([b, a], t);
    assert !RfcBefore(t[0], t[1]);
  }
}
