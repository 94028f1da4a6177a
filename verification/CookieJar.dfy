// The cookie jar of old/lib/cookie.c: buckets of cookies, replacement, expiry with a
// cached next time, and the selection of the cookies for a request.
//
// Cookies arrive parsed. The clock, the public-suffix check and allocation are
// parameters; creation times and counts do not wrap.

module CookieJar {
  import opened Lists
  import opened Options
  import opened Text
  import opened CookieMatch

  const MAX_SENT: nat := 150

  // ---------- Which cookie replaces which ----------

  predicate SameKey(a: Cookie, b: Cookie) {
    && a.name == b.name
    && a.path == b.path
    && match (a.domain, b.domain)
       case (Some(d), Some(e)) => CaseEq(d, e) && a.tailmatch == b.tailmatch
       case (None, None) => true
       case _ => false
  }

  lemma {:induction false} SameKeyShared(a: Cookie, b: Cookie, c: Cookie)
    requires SameKey(a, c) && SameKey(b, c)
    ensures SameKey(a, b) && SameKey(b, a)
  {
  }

  predicate DomainsOverlap(a: Option<string>, b: Option<string>) {
    match (a, b)
    case (Some(d), Some(e)) => TailMatch(d, e) || TailMatch(e, d)
    case (None, None) => true
    case _ => false
  }

  // A path up to its second slash.
  function FirstSegment(path: string): string {
    if path == "" then "" else path[..1 + IndexOf(path[1..], '/')]
  }

  // A cookie that is not secure, from an origin that is not, may not overlay one that is.
  predicate Overlays(kept: Cookie, co: Cookie, secureOrigin: bool) {
    && kept.name == co.name
    && DomainsOverlap(kept.domain, co.domain)
    && kept.path.Some? && co.path.Some?
    && kept.secure && !co.secure && !secureOrigin
    && FirstSegment(kept.path.value) <= co.path.value
  }

  // The same key overlays.
  lemma {:induction false} SameOverlays(kept: Cookie, co: Cookie)
    requires SameKey(kept, co) && kept.secure && !co.secure && kept.path.Some?
    ensures Overlays(kept, co, false)
  {
    if kept.domain.Some? {
      assert co.domain.value[0..] == co.domain.value;
    }
  }

  function FirstSame(cs: seq<Cookie>, co: Cookie): (n: nat)
    ensures n <= |cs|
    ensures n < |cs| ==> SameKey(cs[n], co)
    ensures forall i :: 0 <= i < n ==> !SameKey(cs[i], co)
  {
    if cs == [] || SameKey(cs[0], co) then 0 else 1 + FirstSame(cs[1..], co)
  }

  ghost predicate Refuses(cs: seq<Cookie>, co: Cookie, secureOrigin: bool) {
    || (exists i {:trigger Overlays(cs[i], co, secureOrigin)} :: 0 <= i < |cs| && Overlays(cs[i], co, secureOrigin))
    || (FirstSame(cs, co) < |cs| && !co.live && cs[FirstSame(cs, co)].live)
  }

  // replace_existing, on the bucket of the new cookie.
  method ReplaceExisting(cs: seq<Cookie>, co: Cookie, secureOrigin: bool)
      returns (ok: bool, cs': seq<Cookie>, co': Cookie, replaced: bool)
    ensures ok <==> !Refuses(cs, co, secureOrigin)
    ensures replaced == (ok && FirstSame(cs, co) < |cs|)
    ensures ok && replaced ==>
              && cs' == Without(cs, FirstSame(cs, co))
              && co' == co.(creationTime := cs[FirstSame(cs, co)].creationTime)
    ensures ok && !replaced ==> cs' == cs && co' == co
  {
    cs', co', replaced := cs, co, false;
    var found := |cs|;
    var n := 0;
    while n < |cs|
      invariant 0 <= n <= |cs|
      invariant forall i :: 0 <= i < n ==> !Overlays(cs[i], co, secureOrigin)
      invariant found == if FirstSame(cs, co) < n then FirstSame(cs, co) else |cs|
      invariant found < |cs| ==> co.live || !cs[found].live
    {
      if Overlays(cs[n], co, secureOrigin) {
        return false, cs, co, false;
      }
      if found == |cs| && SameKey(cs[n], co) {
        assert n == FirstSame(cs, co);
        if !co.live && cs[n].live {
          return false, cs, co, false;
        }
        found := n;
      }
      n := n + 1;
    }
    ok := true;
    if found < |cs| {
      cs', co', replaced := Without(cs, found), co.(creationTime := cs[found].creationTime), true;
    }
  }

  // ---------- What holds of all cookies in a jar ----------

  ghost predicate Apart(a: Cookie, b: Cookie) {
    a.creationTime != b.creationTime && !SameKey(a, b) && !SameKey(b, a)
  }

  ghost predicate AllApart(cs: seq<Cookie>) {
    forall i, j {:trigger Apart(cs[i], cs[j])} :: 0 <= i < j < |cs| ==> Apart(cs[i], cs[j])
  }

  ghost function ApartFrom(c: Cookie): Cookie -> bool { (d: Cookie) => Apart(c, d) }

  // Created by `last`, and not expiring before `next`.
  ghost function Within(next: int, last: nat): Cookie -> bool {
    (c: Cookie) => c.creationTime <= last && (c.expires != 0 ==> next <= c.expires)
  }

  ghost predicate StoreOk(cs: seq<Cookie>, next: int, last: nat) {
    AllApart(cs) && forall i {:trigger Within(next, last)(cs[i])} :: 0 <= i < |cs| ==> Within(next, last)(cs[i])
  }

  lemma {:induction false} FilterApart(cs: seq<Cookie>, p: Cookie -> bool)
    requires AllApart(cs)
    ensures AllApart(Filter(cs, p))
  {
    if cs != [] {
      var rest := cs[1..];
      assert forall i :: 0 <= i < |rest| ==> rest[i] == cs[i + 1];
      FilterApart(rest, p);
      FilterForall(rest, p, ApartFrom(cs[0]));
    }
  }

  ghost function Unexpired(now: int): Cookie -> bool {
    (c: Cookie) => c.expires == 0 || c.expires >= now
  }

  ghost function Lasting(): Cookie -> bool { (c: Cookie) => c.expires != 0 }

  // The least expiry time in a list, or `next`.
  function Earliest(cs: seq<Cookie>, next: int): (e: int)
    ensures e <= next && forall i :: 0 <= i < |cs| && cs[i].expires != 0 ==> e <= cs[i].expires
    ensures e == next || exists i :: 0 <= i < |cs| && cs[i].expires != 0 && e == cs[i].expires
  {
    if cs == [] then next
    else
      var c, e := cs[|cs| - 1], Earliest(cs[..|cs| - 1], next);
      if c.expires != 0 && c.expires < e then c.expires else e
  }

  lemma {:induction false} EarliestAppend(a: seq<Cookie>, b: seq<Cookie>, next: int)
    ensures Earliest(a + b, next) == Earliest(b, Earliest(a, next))
  {
    if b == [] {
      assert a + b == a;
    } else {
      assert (a + b)[..|a + b| - 1] == a + b[..|b| - 1];
      EarliestAppend(a, b[..|b| - 1], next);
    }
  }

  lemma {:induction false} EarliestOne(a: seq<Cookie>, co: Cookie, next: int)
    ensures var e := Earliest(a, next);
            Earliest(a + [co], next) == if co.expires != 0 && co.expires < e then co.expires else e
  {
    assert (a + [co])[..|a|] == a;
  }

  lemma {:induction false} FilterOne(cs: seq<Cookie>, n: nat, p: Cookie -> bool)
    requires n < |cs|
    ensures Filter(cs[..n + 1], p) == Filter(cs[..n], p) + if p(cs[n]) then [cs[n]] else []
  {
    assert cs[..n + 1] == cs[..n] + [cs[n]];
    FilterAppend(cs[..n], [cs[n]], p);
    assert [cs[n]][1..] == [];
  }

  // The inner loop of remove_expired.
  method Sweep(cs: seq<Cookie>, now: int, next: int) returns (kept: seq<Cookie>, next': int)
    ensures kept == Filter(cs, Unexpired(now)) && next' == Earliest(kept, next)
  {
    kept, next' := [], next;
    var n := 0;
    while n < |cs|
      invariant 0 <= n <= |cs|
      invariant kept == Filter(cs[..n], Unexpired(now)) && next' == Earliest(kept, next)
    {
      var co := cs[n];
      FilterOne(cs, n, Unexpired(now));
      EarliestOne(kept, co, next);
      if co.expires == 0 || co.expires >= now {
        kept := kept + [co];
        if co.expires != 0 && co.expires < next' {
          next' := co.expires;
        }
      }
      n := n + 1;
    }
    assert cs[..n] == cs;
  }

  // All buckets, the first `n` of them filtered.
  ghost predicate FilteredTo(bs: seq<seq<Cookie>>, before: seq<seq<Cookie>>, n: nat, p: Cookie -> bool) {
    && |bs| == |before| && n <= |bs|
    && (forall b :: 0 <= b < n ==> bs[b] == Filter(before[b], p))
    && (forall b :: n <= b < |bs| ==> bs[b] == before[b])
  }

  lemma {:induction false} LengthStep(bs: seq<seq<Cookie>>, n: nat, cs: seq<Cookie>)
    requires n < |bs|
    ensures |Flatten(bs[n := cs])| == |Flatten(bs)| - |bs[n]| + |cs|
  {
    FlattenAt(bs, n);
    FlattenUpdate(bs, n, cs);
  }

  lemma {:induction false} FlattenLast(bs: seq<seq<Cookie>>, n: nat)
    requires n < |bs|
    ensures Flatten(bs[..n + 1]) == Flatten(bs[..n]) + bs[n]
  {
    FlattenAt(bs[..n + 1], n);
    assert bs[..n + 1][..n] == bs[..n] && bs[..n + 1][n + 1..] == [];
    assert Flatten(bs[..n]) + bs[n] + [] == Flatten(bs[..n]) + bs[n];
  }

  // The loops of remove_expired and Curl_cookie_clearsess over all buckets.
  method SweepAll(bs: seq<seq<Cookie>>, now: int, count: int) returns (bs': seq<seq<Cookie>>, next: int, count': int)
    ensures FilteredTo(bs', bs, |bs|, Unexpired(now)) && next == Earliest(Flatten(bs'), OFFSET_MAX)
    ensures count' - |Flatten(bs')| == count - |Flatten(bs)|
  {
    bs', next, count' := bs, OFFSET_MAX, count;
    var i := 0;
    while i < |bs|
      invariant FilteredTo(bs', bs, i, Unexpired(now)) && next == Earliest(Flatten(bs'[..i]), OFFSET_MAX)
      invariant count' - |Flatten(bs')| == count - |Flatten(bs)|
    {
      var kept, e := Sweep(bs'[i], now, next);
      LengthStep(bs', i, kept);
      count' := count' - (|bs'[i]| - |kept|);
      assert bs'[i := kept][..i] == bs'[..i];
      bs', next := bs'[i := kept], e;
      FlattenLast(bs', i);
      EarliestAppend(Flatten(bs'[..i]), kept, OFFSET_MAX);
      i := i + 1;
    }
    assert bs'[..i] == bs';
  }

  method DropSessions(bs: seq<seq<Cookie>>, count: int) returns (bs': seq<seq<Cookie>>, count': int)
    ensures FilteredTo(bs', bs, |bs|, Lasting())
    ensures count' - |Flatten(bs')| == count - |Flatten(bs)|
  {
    bs', count' := bs, count;
    var i := 0;
    while i < |bs|
      invariant FilteredTo(bs', bs, i, Lasting())
      invariant count' - |Flatten(bs')| == count - |Flatten(bs)|
    {
      var kept := DropSession(bs'[i]);
      LengthStep(bs', i, kept);
      count' := count' - (|bs'[i]| - |kept|);
      bs' := bs'[i := kept];
      i := i + 1;
    }
  }

  method DropSession(cs: seq<Cookie>) returns (kept: seq<Cookie>)
    ensures kept == Filter(cs, Lasting())
  {
    kept := [];
    var n := 0;
    while n < |cs|
      invariant 0 <= n <= |cs| && kept == Filter(cs[..n], Lasting())
    {
      FilterOne(cs, n, Lasting());
      if cs[n].expires != 0 {
        kept := kept + [cs[n]];
      }
      n := n + 1;
    }
    assert cs[..n] == cs;
  }

  // The state of a jar, without its count.
  ghost predicate JarOk(bs: seq<seq<Cookie>>, next: int, last: nat, ip: IpTest) {
    |bs| == HASH_SIZE && CaseBlind(ip) && Placed(bs, ip) && StoreOk(Flatten(bs), next, last)
  }

  // Filtering keeps it, if no expiry of what is left is before `next'`.
  lemma {:induction false} FilteredOk(bs: seq<seq<Cookie>>, bs': seq<seq<Cookie>>, p: Cookie -> bool, next: int,
      next': int, last: nat, ip: IpTest)
    requires JarOk(bs, next, last, ip) && FilteredTo(bs', bs, |bs|, p)
    requires next' <= next || next' <= Earliest(Flatten(bs'), OFFSET_MAX)
    ensures JarOk(bs', next', last, ip) && Flatten(bs') == Filter(Flatten(bs), p)
  {
    FlattenFilter(bs, bs', p);
    FilterApart(Flatten(bs), p);
    FilterForall(Flatten(bs), p, Within(next, last));
    forall b, k | 0 <= b < |bs'| && 0 <= k < |bs'[b]|
      ensures BucketOf(bs'[b][k].domain, ip) == b
    {
      FilterForall(bs[b], p, (c: Cookie) => BucketOf(c.domain, ip) == b);
    }
  }

  // Nothing is expired before the recorded time.
  lemma {:induction false} NothingExpired(bs: seq<seq<Cookie>>, next: int, last: nat, ip: IpTest, now: int)
    requires JarOk(bs, next, last, ip) && now < next
    ensures FilteredTo(bs, bs, |bs|, Unexpired(now))
  {
    forall b | 0 <= b < |bs|
      ensures Filter(bs[b], Unexpired(now)) == bs[b]
    {
      FlattenAt(bs, b);
      var before := |Flatten(bs[..b])|;
      forall k | 0 <= k < |bs[b]|
        ensures Unexpired(now)(bs[b][k])
      {
        assert Flatten(bs)[before + k] == bs[b][k];
        assert Within(next, last)(Flatten(bs)[before + k]);
      }
      FilterAll(bs[b], Unexpired(now));
    }
  }

  // ---------- Storing one cookie ----------

  ghost predicate EachApart(cs: seq<Cookie>, c: Cookie) {
    forall i {:trigger Apart(cs[i], c)} :: 0 <= i < |cs| ==> Apart(cs[i], c)
  }

  lemma {:induction false} TakeOut(a: seq<Cookie>, x: Cookie, b: seq<Cookie>, next: int, last: nat)
    requires StoreOk(a + [x] + b, next, last)
    ensures StoreOk(a + b, next, last) && EachApart(a + b, x) && x.creationTime <= last
  {
    var s, t := a + [x] + b, a + b;
    assert s[|a|] == x && Within(next, last)(s[|a|]);
    forall i | 0 <= i < |t|
      ensures Within(next, last)(t[i]) && Apart(t[i], x)
    {
      var k := if i < |a| then i else i + 1;
      assert t[i] == s[k] && Within(next, last)(s[k]);
      assert if k < |a| then Apart(s[k], s[|a|]) else Apart(s[|a|], s[k]);
    }
    forall i, j | 0 <= i < j < |t|
      ensures Apart(t[i], t[j])
    {
      var k, l := if i < |a| then i else i + 1, if j < |a| then j else j + 1;
      assert t[i] == s[k] && t[j] == s[l] && Apart(s[k], s[l]);
    }
  }

  lemma {:induction false} PutIn(a: seq<Cookie>, x: Cookie, b: seq<Cookie>, next: int, next': int, last: nat)
    requires StoreOk(a + b, next, last) && EachApart(a + b, x)
    requires next' <= next && Within(next', last)(x)
    ensures StoreOk(a + [x] + b, next', last)
  {
    var s, t := a + [x] + b, a + b;
    assert s[|a|] == x;
    forall k | 0 <= k < |s|
      ensures Within(next', last)(s[k])
    {
      if k != |a| {
        assert s[k] == t[if k < |a| then k else k - 1];
        assert Within(next, last)(t[if k < |a| then k else k - 1]);
      }
    }
    forall k, l | 0 <= k < l < |s|
      ensures Apart(s[k], s[l])
    {
      if k == |a| {
        assert s[l] == t[l - 1] && Apart(t[l - 1], x);
      } else if l == |a| {
        assert s[k] == t[k] && Apart(t[k], x);
      } else {
        var i, j := if k < |a| then k else k - 1, if l < |a| then l else l - 1;
        assert s[k] == t[i] && s[l] == t[j] && Apart(t[i], t[j]);
      }
    }
  }

  lemma {:induction false} PlacedUpdate(bs: seq<seq<Cookie>>, k: nat, cs: seq<Cookie>, ip: IpTest)
    requires Placed(bs, ip) && k < |bs| && forall i :: 0 <= i < |cs| ==> BucketOf(cs[i].domain, ip) == k
    ensures Placed(bs[k := cs], ip)
  {
  }

  // A bucket as a part of the whole store, around one of its cookies.
  lemma {:induction false} Around(before: seq<Cookie>, w: seq<Cookie>, n: nat, after: seq<Cookie>)
    requires n < |w|
    ensures before + w + after == (before + w[..n]) + [w[n]] + (w[n + 1..] + after)
    ensures before + Without(w, n) + after == (before + w[..n]) + (w[n + 1..] + after)
  {
  }

  lemma {:induction false} RemoveOne(bs: seq<seq<Cookie>>, k: nat, n: nat, next: int, last: nat, ip: IpTest)
    requires JarOk(bs, next, last, ip) && k < |bs| && n < |bs[k]|
    ensures var bs', x := bs[k := Without(bs[k], n)], bs[k][n];
            && JarOk(bs', next, last, ip) && EachApart(Flatten(bs'), x) && x.creationTime <= last
            && multiset(Flatten(bs)) == multiset(Flatten(bs')) + multiset{x}
            && |Flatten(bs')| == |Flatten(bs)| - 1
  {
    var w := bs[k];
    var before, after := Flatten(bs[..k]), Flatten(bs[k + 1..]);
    FlattenAt(bs, k);
    FlattenUpdate(bs, k, Without(w, n));
    Around(before, w, n, after);
    TakeOut(before + w[..n], w[n], w[n + 1..] + after, next, last);
    PlacedUpdate(bs, k, Without(w, n), ip);
  }

  lemma {:induction false} AppendOne(bs: seq<seq<Cookie>>, k: nat, x: Cookie, next: int, next': int, last: nat, ip: IpTest)
    requires JarOk(bs, next, last, ip) && k < |bs| && BucketOf(x.domain, ip) == k
    requires EachApart(Flatten(bs), x) && next' <= next && Within(next', last)(x)
    ensures var bs' := bs[k := bs[k] + [x]];
            JarOk(bs', next', last, ip) && multiset(Flatten(bs')) == multiset(Flatten(bs)) + multiset{x}
            && |Flatten(bs')| == |Flatten(bs)| + 1
  {
    var before, after := Flatten(bs[..k]), Flatten(bs[k + 1..]);
    FlattenAt(bs, k);
    FlattenUpdate(bs, k, bs[k] + [x]);
    assert before + (bs[k] + [x]) + after == (before + bs[k]) + [x] + after;
    PutIn(before + bs[k], x, after, next, next', last);
    PlacedUpdate(bs, k, bs[k] + [x], ip);
  }

  lemma {:induction false} SameKeyBucket(a: Cookie, b: Cookie, ip: IpTest)
    requires SameKey(a, b) && CaseBlind(ip)
    ensures BucketOf(a.domain, ip) == BucketOf(b.domain, ip)
  {
    if a.domain.Some? {
      BucketBlind(a.domain.value, b.domain.value, ip);
    }
  }

  // A key that is not in its bucket is nowhere.
  lemma {:induction false} KeyIsInBucket(bs: seq<seq<Cookie>>, co: Cookie, ip: IpTest)
    requires |bs| == HASH_SIZE && CaseBlind(ip) && Placed(bs, ip)
    requires FirstSame(bs[BucketOf(co.domain, ip)], co) == |bs[BucketOf(co.domain, ip)]|
    ensures forall i :: 0 <= i < |Flatten(bs)| ==> !SameKey(Flatten(bs)[i], co)
  {
    var k := BucketOf(co.domain, ip);
    forall b, i | 0 <= b < |bs| && 0 <= i < |bs[b]|
      ensures !SameKey(bs[b][i], co)
    {
      if SameKey(bs[b][i], co) {
        SameKeyBucket(bs[b][i], co, ip);
        assert false;
      }
    }
    FlattenForall(bs, (c: Cookie) => !SameKey(c, co));
  }

  // A cookie with the key, and the creation time, of one that stays apart from the rest.
  lemma {:induction false} StandIn(cs: seq<Cookie>, x: Cookie, co: Cookie)
    requires EachApart(cs, x) && SameKey(x, co) && co.creationTime == x.creationTime
    ensures EachApart(cs, co)
  {
    forall i | 0 <= i < |cs|
      ensures Apart(cs[i], co)
    {
      assert Apart(cs[i], x);
      KeyStandsIn(cs[i], x, co);
    }
  }

  lemma {:induction false} KeyStandsIn(y: Cookie, x: Cookie, co: Cookie)
    requires SameKey(x, co) && !SameKey(y, x)
    ensures !SameKey(y, co) && !SameKey(co, y)
  {
    if SameKey(y, co) {
      SameKeyShared(y, x, co);
      assert false;
    }
    if SameKey(co, y) {
      SameKeyBack(co, y);
      SameKeyShared(y, x, co);
      assert false;
    }
  }

  lemma {:induction false} SameKeyBack(a: Cookie, b: Cookie)
    requires SameKey(a, b)
    ensures SameKey(b, a)
  {
  }

  // A new key with a new time.
  lemma {:induction false} Newcomer(cs: seq<Cookie>, co: Cookie, next: int, last: nat)
    requires StoreOk(cs, next, last) && co.creationTime > last
    requires forall i :: 0 <= i < |cs| ==> !SameKey(cs[i], co)
    ensures EachApart(cs, co)
  {
    forall i | 0 <= i < |cs|
      ensures Apart(cs[i], co)
    {
      assert Within(next, last)(cs[i]);
      if SameKey(co, cs[i]) {
        SameKeyBack(co, cs[i]);
        assert false;
      }
    }
  }

  lemma {:induction false} LaterOk(bs: seq<seq<Cookie>>, next: int, last: nat, last': nat, ip: IpTest)
    requires JarOk(bs, next, last, ip) && last <= last'
    ensures JarOk(bs, next, last', ip)
  {
    var cs := Flatten(bs);
    forall i | 0 <= i < |cs|
      ensures Within(next, last')(cs[i])
    {
      assert Within(next, last)(cs[i]);
    }
  }

  // What an insecure cookie may replace.
  lemma {:induction false} SecureIsKept(cs: seq<Cookie>, n: nat, co: Cookie, secureOrigin: bool)
    requires n < |cs| && SameKey(cs[n], co) && !Refuses(cs, co, secureOrigin)
    ensures cs[n].secure && cs[n].path.Some? ==> co.secure || secureOrigin
  {
    if cs[n].secure && cs[n].path.Some? && !co.secure && !secureOrigin {
      SameOverlays(cs[n], co);
      assert false;
    }
  }

  function First(cs: seq<Cookie>, n: nat): seq<Cookie> {
    if |cs| <= n then cs else cs[..n]
  }

  // The selecting loop of Curl_cookie_getlist.
  method Pick(cs: seq<Cookie>, host: string, path: string, secure: bool, ip: IpTest) returns (picks: seq<Cookie>)
    ensures picks == First(Filter(cs, Selected(host, path, secure, ip)), MAX_SENT)
  {
    ghost var p := Selected(host, path, secure, ip);
    picks := [];
    var n := 0;
    while n < |cs|
      invariant 0 <= n <= |cs| && picks == Filter(cs[..n], p) && |picks| < MAX_SENT
    {
      assert cs[..n + 1] == cs[..n] + [cs[n]];
      FilterAppend(cs[..n], [cs[n]], p);
      assert [cs[n]][1..] == [];
      if Qualifies(cs[n], host, path, secure, ip) {
        picks := picks + [cs[n]];
        if |picks| >= MAX_SENT {
          assert cs == cs[..n + 1] + cs[n + 1..];
          FilterAppend(cs[..n + 1], cs[n + 1..], p);
          return;
        }
      }
      n := n + 1;
    }
    assert cs[..n] == cs;
  }

  // What a request for a host may be sent, from the whole store.
  ghost function Sendable(cs: seq<Cookie>, now: int, host: string, path: string, secure: bool, ip: IpTest): seq<Cookie> {
    First(Filter(Filter(cs, Unexpired(now)), Selected(host, path, secure, ip)), MAX_SENT)
  }

  ghost predicate AllFindable(bs: seq<seq<Cookie>>, ip: IpTest) {
    forall b, k :: 0 <= b < |bs| && 0 <= k < |bs[b]| ==> Findable(bs[b][k], ip)
  }

  // The bucket of the host has all that may be sent.
  lemma {:induction false} BucketIsEnough(bs: seq<seq<Cookie>>, now: int, host: string, path: string, secure: bool, ip: IpTest)
    requires |bs| == HASH_SIZE && Placed(bs, ip) && CaseBlind(ip) && AllFindable(bs, ip)
    ensures Sendable(Flatten(bs), now, host, path, secure, ip) ==
            Sendable(bs[BucketOf(Some(host), ip)], now, host, path, secure, ip)
  {
    var p := Unexpired(now);
    var tt: seq<seq<Cookie>> := seq(|bs|, b requires 0 <= b < |bs| => Filter(bs[b], p));
    FlattenFilter(bs, tt, p);
    forall b, k | 0 <= b < |tt| && 0 <= k < |tt[b]|
      ensures BucketOf(tt[b][k].domain, ip) == b && Findable(tt[b][k], ip)
    {
      FilterForall(bs[b], p, (c: Cookie) => BucketOf(c.domain, ip) == b && Findable(c, ip));
    }
    OneBucketSuffices(tt, host, path, secure, ip);
  }

  // So an answer from the bucket is the one ordered list of what the whole store may send.
  lemma {:induction false} AnswerIsThatOfTheStore(bs: seq<seq<Cookie>>, now: int, host: string, path: string,
      secure: bool, ip: IpTest, list: seq<Cookie>, whole: seq<Cookie>)
    requires |bs| == HASH_SIZE && Placed(bs, ip) && CaseBlind(ip) && AllFindable(bs, ip)
    requires InOrder(list) && multiset(list) == multiset(Sendable(bs[BucketOf(Some(host), ip)], now, host, path, secure, ip))
    requires InOrder(whole) && multiset(whole) == multiset(Sendable(Flatten(bs), now, host, path, secure, ip))
    ensures list == whole
  {
    BucketIsEnough(bs, now, host, path, secure, ip);
    OrderIsUnique(list, whole);
  }

  lemma {:induction false} FlattenEmpty(bs: seq<seq<Cookie>>)
    requires forall b :: 0 <= b < |bs| ==> bs[b] == []
    ensures Flatten(bs) == []
  {
    if bs != [] {
      FlattenEmpty(bs[1..]);
    }
  }

  method Emptied(bs: seq<seq<Cookie>>) returns (bs': seq<seq<Cookie>>)
    ensures |bs'| == |bs| && forall b :: 0 <= b < |bs| ==> bs'[b] == []
  {
    bs' := bs;
    var i := 0;
    while i < |bs|
      invariant 0 <= i <= |bs| == |bs'| && forall b :: 0 <= b < i ==> bs'[b] == []
    {
      bs' := bs'[i := []];
      i := i + 1;
    }
  }

  // ---------- The jar ----------

  // A parsed cookie that Curl_cookie_add drops at once: its prefix asks for more
  // than it has, or it is a session cookie of a file read for a new session.
  predicate Unfit(c: Cookie, running: bool, newSession: bool) {
    || (c.prefixSecure && !c.secure)
    || (c.prefixHost && !(c.secure && c.path == Some("/") && !c.tailmatch))
    || (!running && newSession && c.expires == 0)
  }

  // `rest` is `base` without `gone`, the one cookie with the key of the new cookie, if
  // there is one. What is stored takes over its creation time.
  ghost predicate MakesWay(base: seq<Cookie>, rest: seq<Cookie>, co: Cookie, secureOrigin: bool, stored: Cookie,
      gone: Option<Cookie>) {
    match gone
    case None =>
      && rest == base && stored == co
      && forall i {:trigger SameKey(base[i], co)} :: 0 <= i < |base| ==> !SameKey(base[i], co)
    case Some(kept) =>
      && multiset(base) == multiset(rest) + multiset{kept}
      && SameKey(kept, co) && stored == co.(creationTime := kept.creationTime)
      && (kept.secure && kept.path.Some? ==> co.secure || secureOrigin)
  }

  // replace_existing on the whole store.
  method Supersede(bs: seq<seq<Cookie>>, co: Cookie, secureOrigin: bool, ghost next: int, last: nat, ip: IpTest)
      returns (ok: bool, bs': seq<seq<Cookie>>, co': Cookie, replaced: bool, ghost gone: Option<Cookie>)
    requires JarOk(bs, next, last, ip) && co.creationTime == last + 1
    ensures ok <==> !Refuses(bs[BucketOf(co.domain, ip)], co, secureOrigin)
    ensures JarOk(bs', next, last + 1, ip) && (!ok ==> bs' == bs)
    ensures ok ==> EachApart(Flatten(bs'), co') && MakesWay(Flatten(bs), Flatten(bs'), co, secureOrigin, co', gone)
    ensures replaced == gone.Some? && |Flatten(bs')| == |Flatten(bs)| - if replaced then 1 else 0
    ensures ok ==> co'.creationTime <= last + 1
  {
    var k := BucketOf(co.domain, ip);
    var cs;
    bs', gone := bs, None;
    ok, cs, co', replaced := ReplaceExisting(bs[k], co, secureOrigin);
    if ok && replaced {
      ghost var n := FirstSame(bs[k], co);
      bs' := bs[k := cs];
      gone := Some(bs[k][n]);
      RemoveOne(bs, k, n, next, last, ip);
      StandIn(Flatten(bs'), gone.value, co');
      SecureIsKept(bs[k], n, co, secureOrigin);
    } else if ok {
      KeyIsInBucket(bs, co, ip);
      Newcomer(Flatten(bs), co, next, last);
    }
    LaterOk(bs', next, last, last + 1, ip);
  }

  // How Curl_cookie_add ends.
  datatype Outcome = Unusable | PublicSuffix | Refused | OutOfMemory | Stored

  // What each end makes of the store `base`.
  ghost predicate Ends(outcome: Outcome, base: seq<Cookie>, rest: seq<Cookie>, cookies: seq<Cookie>,
      co: Cookie, secureOrigin: bool, stored: Cookie, gone: Option<Cookie>)
  {
    match outcome
    case Unusable => true
    case PublicSuffix => cookies == base
    case Refused => cookies == base
    case OutOfMemory => MakesWay(base, rest, co, secureOrigin, stored, gone) && cookies == rest
    case Stored =>
      MakesWay(base, rest, co, secureOrigin, stored, gone) && multiset(cookies) == multiset(rest) + multiset{stored}
  }

  ghost predicate HasKey(cs: seq<Cookie>, co: Cookie) {
    exists i {:trigger SameKey(cs[i], co)} :: 0 <= i < |cs| && SameKey(cs[i], co)
  }

  // A cookie makes way exactly if there is one with the key.
  lemma {:induction false} GoneMeans(base: seq<Cookie>, rest: seq<Cookie>, co: Cookie, secureOrigin: bool, stored: Cookie,
      gone: Option<Cookie>)
    requires MakesWay(base, rest, co, secureOrigin, stored, gone)
    ensures gone.Some? <==> HasKey(base, co)
  {
    if gone.Some? {
      assert gone.value in multiset(base);
      var i :| 0 <= i < |base| && base[i] == gone.value;
      assert SameKey(base[i], co);
    }
  }

  // An insecure cookie does not remove a secure one that has a path.
  lemma {:induction false} SecureStays(base: seq<Cookie>, rest: seq<Cookie>, co: Cookie, stored: Cookie,
      gone: Option<Cookie>, c: Cookie)
    requires MakesWay(base, rest, co, false, stored, gone) && !co.secure
    requires c in base && c.secure && c.path.Some?
    ensures c in rest
  {
    assert c in multiset(base);
    assert c in multiset(rest);
  }

  // The end of Curl_cookie_add.
  method Append(bs: seq<seq<Cookie>>, next: int, ghost last: nat, co: Cookie, ip: IpTest)
      returns (bs': seq<seq<Cookie>>, next': int)
    requires JarOk(bs, next, last, ip) && EachApart(Flatten(bs), co) && co.creationTime <= last
    ensures JarOk(bs', next', last, ip) && |Flatten(bs')| == |Flatten(bs)| + 1
    ensures multiset(Flatten(bs')) == multiset(Flatten(bs)) + multiset{co}
  {
    var k := BucketOf(co.domain, ip);
    next' := if co.expires != 0 && co.expires < next then co.expires else next;
    AppendOne(bs, k, co, next, next', last, ip);
    bs' := bs[k := bs[k] + [co]];
  }

  lemma {:induction false} PicksAreDistinct(bs: seq<seq<Cookie>>, n: nat, p: Cookie -> bool, next: int, last: nat, ip: IpTest)
    requires JarOk(bs, next, last, ip) && n < |bs|
    ensures DistinctTimes(First(Filter(bs[n], p), MAX_SENT))
  {
    var before := Flatten(bs[..n]);
    FlattenAt(bs, n);
    forall i, j | 0 <= i < j < |bs[n]|
      ensures Apart(bs[n][i], bs[n][j])
    {
      assert Flatten(bs)[|before| + i] == bs[n][i] && Flatten(bs)[|before| + j] == bs[n][j];
      assert Apart(Flatten(bs)[|before| + i], Flatten(bs)[|before| + j]);
    }
    FilterApart(bs[n], p);
    var f := Filter(bs[n], p);
    forall i, j | 0 <= i < j < |f|
      ensures f[i].creationTime != f[j].creationTime
    {
      assert Apart(f[i], f[j]);
    }
  }

  class Jar {
    var buckets: seq<seq<Cookie>>
    var nextExpiration: int
    var numCookies: int
    var lastCreated: nat
    var running: bool
    var newSession: bool
    const ip: IpTest

    ghost function Cookies(): seq<Cookie>
      reads this
    {
      Flatten(buckets)
    }

    // Each cookie is in its bucket; no two share a creation time, or a name, domain,
    // tail match and path; none expires before the recorded time.
    ghost predicate Shape()
      reads this
    {
      JarOk(buckets, nextExpiration, lastCreated, ip)
    }

    // By how much the count is off. It is 0 until an allocation fails.
    ghost function Drift(): int
      reads this
    {
      numCookies - |Cookies()|
    }

    constructor (isNumeric: IpTest)
      requires CaseBlind(isNumeric)
      ensures Shape() && Cookies() == [] && Drift() == 0 && nextExpiration == OFFSET_MAX
    {
      buckets := seq(HASH_SIZE, b => []);
      nextExpiration, numCookies, lastCreated := OFFSET_MAX, 0, 0;
      running, newSession := false, false;
      ip := isNumeric;
      new;
      FlattenEmpty(buckets);
    }

    // remove_expired
    method RemoveExpired(now: int)
      requires Shape()
      modifies `buckets, `nextExpiration, `numCookies
      ensures Shape() && Drift() == old(Drift())
      ensures Cookies() == Filter(old(Cookies()), Unexpired(now))
      ensures FilteredTo(buckets, old(buckets), |buckets|, Unexpired(now))
      ensures nextExpiration == if now < old(nextExpiration) && old(nextExpiration) != OFFSET_MAX
                                then old(nextExpiration) else Earliest(Cookies(), OFFSET_MAX)
    {
      if now < nextExpiration && nextExpiration != OFFSET_MAX {
        NothingExpired(buckets, nextExpiration, lastCreated, ip, now);
        FilteredOk(buckets, buckets, Unexpired(now), nextExpiration, nextExpiration, lastCreated, ip);
        return;
      }
      var bs, next, count := SweepAll(buckets, now, numCookies);
      FilteredOk(buckets, bs, Unexpired(now), nextExpiration, next, lastCreated, ip);
      buckets, nextExpiration, numCookies := bs, next, count;
    }

    // The end of Curl_cookie_add, from the replacement on.
    method Store(co: Cookie, secureOrigin: bool, memory: bool)
        returns (outcome: Outcome, ghost rest: seq<Cookie>, stored: Cookie, ghost gone: Option<Cookie>)
      requires Shape() && co.creationTime == lastCreated + 1
      modifies `buckets, `nextExpiration, `numCookies, `lastCreated
      ensures Shape() && lastCreated == old(lastCreated) + 1
      ensures Ends(outcome, old(Cookies()), rest, Cookies(), co, secureOrigin, stored, gone)
      ensures outcome.Refused? <==> Refuses(old(buckets)[BucketOf(co.domain, ip)], co, secureOrigin)
      ensures !outcome.Refused? ==> outcome == if memory then Stored else OutOfMemory
      ensures Drift() == old(Drift()) + if outcome.OutOfMemory? && gone.Some? then 1 else 0
    {
      var ok, bs, replaced;
      ok, bs, stored, replaced, gone := Supersede(buckets, co, secureOrigin, nextExpiration, lastCreated, ip);
      rest := Flatten(bs);
      buckets, lastCreated := bs, lastCreated + 1;
      if !ok {
        outcome := Refused;
      } else if !memory {
        outcome := OutOfMemory;
      } else {
        outcome := Stored;
        Grow(stored, replaced);
      }
    }

    // The cookie is appended to its bucket.
    method Grow(co: Cookie, replaced: bool)
      requires Shape() && EachApart(Cookies(), co) && co.creationTime <= lastCreated
      modifies `buckets, `nextExpiration, `numCookies
      ensures Shape() && multiset(Cookies()) == multiset(old(Cookies())) + multiset{co}
      ensures Drift() == old(Drift()) - if replaced then 1 else 0
    {
      var bs, next := Append(buckets, nextExpiration, lastCreated, co, ip);
      buckets, nextExpiration := bs, next;
      numCookies := numCookies + if replaced then 0 else 1;
    }

    // Curl_cookie_add, after parsing. `base` is the store without what had expired.
    method Add(parsed: Cookie, now: int, expire: bool, secureOrigin: bool, suffix: bool, memory: bool)
        returns (outcome: Outcome, ghost base: seq<Cookie>, ghost rest: seq<Cookie>, ghost stored: Cookie, ghost gone: Option<Cookie>)
      requires Shape()
      modifies `buckets, `nextExpiration, `numCookies, `lastCreated
      ensures Shape()
      ensures outcome.Unusable? <==> Unfit(parsed, running, newSession)
      ensures outcome.Unusable? ==> unchanged(this)
      ensures !outcome.Unusable? ==>
              && lastCreated == old(lastCreated) + 1
              && base == (if expire then Filter(old(Cookies()), Unexpired(now)) else old(Cookies()))
      ensures Ends(outcome, base, rest, Cookies(), parsed.(live := running, creationTime := old(lastCreated) + 1), secureOrigin,
                   stored, gone)
      ensures !outcome.Unusable? ==> (outcome.PublicSuffix? <==> suffix)
      ensures !outcome.Unusable? && !suffix ==>
                (outcome.Refused? <==>
                   (var w := old(buckets)[BucketOf(parsed.domain, ip)];
                    Refuses(if expire then Filter(w, Unexpired(now)) else w,
                            parsed.(live := running, creationTime := old(lastCreated) + 1), secureOrigin)))
      ensures outcome.Stored? ==> memory
      ensures outcome.OutOfMemory? ==> !memory
      ensures Drift() == old(Drift()) + if outcome.OutOfMemory? && gone.Some? then 1 else 0
    {
      base, rest, stored, gone := [], [], parsed, None;
      if Unfit(parsed, running, newSession) {
        outcome := Unusable;
        return;
      }
      var co := parsed.(live := running, creationTime := lastCreated + 1);
      if expire {
        RemoveExpired(now);
      }
      base := Cookies();
      if suffix {
        LaterOk(buckets, nextExpiration, lastCreated, lastCreated + 1, ip);
        lastCreated := lastCreated + 1;
        outcome := PublicSuffix;
      } else {
        outcome, rest, stored, gone := Store(co, secureOrigin, memory);
      }
    }

    // Curl_cookie_getlist: nothing if the bucket is empty; else what may be sent, in order.
    method GetList(host: string, path: string, secure: bool, now: int, memory: bool) returns (okay: bool, list: seq<Cookie>)
      requires Shape()
      modifies `buckets, `nextExpiration, `numCookies
      ensures Shape() && Drift() == old(Drift())
      ensures old(buckets)[BucketOf(Some(host), ip)] == [] ==> !okay && list == [] && unchanged(this)
      ensures old(buckets)[BucketOf(Some(host), ip)] != [] ==> Cookies() == Filter(old(Cookies()), Unexpired(now))
      ensures (okay || old(buckets)[BucketOf(Some(host), ip)] == []) ==>
                InOrder(list)
                && multiset(list) == multiset(Sendable(old(buckets)[BucketOf(Some(host), ip)], now, host, path, secure, ip))
      ensures !okay ==> list == [] && (old(buckets)[BucketOf(Some(host), ip)] == [] || !memory)
    {
      list := [];
      var n := BucketOf(Some(host), ip);
      if buckets[n] == [] {
        return false, list;
      }
      RemoveExpired(now);
      var picks := Pick(buckets[n], host, path, secure, ip);
      okay := true;
      if picks != [] {
        if !memory {
          return false, list;
        }
        PicksAreDistinct(buckets, n, Selected(host, path, secure, ip), nextExpiration, lastCreated, ip);
        list := Sort(picks);
      }
    }

    // Curl_cookie_clearall
    method ClearAll()
      requires Shape()
      modifies `buckets, `numCookies
      ensures Shape() && Cookies() == [] && Drift() == 0
    {
      buckets := Emptied(buckets);
      numCookies := 0;
      FlattenEmpty(buckets);
    }

    // Curl_cookie_clearsess
    method ClearSession()
      requires Shape()
      modifies `buckets, `numCookies
      ensures Shape() && Cookies() == Filter(old(Cookies()), Lasting()) && Drift() == old(Drift())
    {
      var bs, count := DropSessions(buckets, numCookies);
      FilteredOk(buckets, bs, Lasting(), nextExpiration, nextExpiration, lastCreated, ip);
      buckets, numCookies := bs, count;
    }

    // The start and the end of cookie_load.
    method BeginLoad(dropSessions: bool)
      requires Shape()
      modifies `running, `newSession
      ensures Shape() && !running && newSession == dropSessions
    {
      newSession, running := dropSessions, false;
    }

    method EndLoad(now: int)
      requires Shape()
      modifies `buckets, `nextExpiration, `numCookies, `running
      ensures Shape() && running && Drift() == old(Drift())
      ensures Cookies() == Filter(old(Cookies()), Unexpired(now))
    {
      RemoveExpired(now);
      running := true;
    }
  }

  lemma {:induction false} InStore(bs: seq<seq<Cookie>>, k: nat)
    requires k < |bs|
    ensures forall i :: 0 <= i < |bs[k]| ==> bs[k][i] in Flatten(bs)
  {
    FlattenAt(bs, k);
  }

  // A bucket without secure cookies refuses nothing that a server sets.
  lemma {:induction false} NoneRefused(cs: seq<Cookie>, co: Cookie)
    requires co.live && forall i :: 0 <= i < |cs| ==> !cs[i].secure
    ensures !Refuses(cs, co, false)
  {
    forall i | 0 <= i < |cs|
      ensures !Overlays(cs[i], co, false)
    {
    }
  }

  // A cookie is set in an empty jar.
  method SetOnce(jar: Jar, c: Cookie)
    requires jar.Shape() && jar.running && jar.Cookies() == []
    requires !c.secure && !c.prefixSecure && !c.prefixHost
    modifies jar
    ensures jar.Shape() && jar.running && jar.Drift() == old(jar.Drift()) && |jar.Cookies()| == 1
    ensures SameKey(jar.Cookies()[0], c) && !jar.Cookies()[0].secure
  {
    ghost var co := c.(live := true, creationTime := jar.lastCreated + 1);
    InStore(jar.buckets, BucketOf(c.domain, jar.ip));
    NoneRefused(jar.buckets[BucketOf(c.domain, jar.ip)], co);
    var outcome, base, rest, stored, gone := jar.Add(c, 0, false, false, false, true);
    assert multiset(jar.Cookies()) == multiset{co};
    assert jar.Cookies()[0] in multiset(jar.Cookies());
  }

  lemma {:induction false} NoneLeft(base: seq<Cookie>, rest: seq<Cookie>, kept: Cookie)
    requires |base| == 1 && multiset(base) == multiset(rest) + multiset{kept}
    ensures rest == []
  {
    assert |multiset(rest) + multiset{kept}| == |rest| + 1;
  }

  // It is set again when there is no memory: the old one is gone, and still counted.
  method SetAgain(jar: Jar, c: Cookie)
    requires jar.Shape() && jar.running && |jar.Cookies()| == 1
    requires SameKey(jar.Cookies()[0], c) && !jar.Cookies()[0].secure
    requires !c.secure && !c.prefixSecure && !c.prefixHost
    modifies jar
    ensures jar.Shape() && jar.running && jar.Cookies() == [] && jar.Drift() == old(jar.Drift()) + 1
  {
    ghost var x := jar.Cookies()[0];
    ghost var co := c.(live := true, creationTime := jar.lastCreated + 1);
    ghost var w := jar.buckets[BucketOf(c.domain, jar.ip)];
    InStore(jar.buckets, BucketOf(c.domain, jar.ip));
    forall i | 0 <= i < |w|
      ensures w[i] == x
    {
      assert w[i] in jar.Cookies();
    }
    NoneRefused(w, co);
    var outcome, base, rest, stored, gone := jar.Add(c, 0, false, false, false, false);
    assert outcome.OutOfMemory?;
    assert base[0] == x && SameKey(x, co);
    NoneLeft(base, rest, gone.value);
  }

  // So the count of a running jar can be wrong.
  method CountsTheLost(isNumeric: IpTest) returns (jar: Jar)
    requires CaseBlind(isNumeric)
    ensures fresh(jar) && jar.Shape() && jar.running
    ensures jar.Cookies() == [] && jar.numCookies == jar.Drift() == 1
  {
    jar := new Jar(isNumeric);
    jar.EndLoad(0);
    var c := Cookie("a", "b", Some("/"), Some("example.com"), 0, 0, false, false, true, false, false, false);
    SetOnce(jar, c);
    SetAgain(jar, c);
  }
}
