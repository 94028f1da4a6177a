// The connection pool of old/lib/conncache.c and the shutdown list of
// old/lib/cshutdn.c: connections indexed by destination, limits per destination
// and in total, and the eviction of idle connections to meet them.
//
// One multi, one pool and one shutdown list. Whether a graceful shutdown is done
// at once, and whether the event callback accepts a connection in shutdown, are
// nondeterministic.

module ConnectionPool {
  import opened Lists

  datatype Conn = Conn(
    id: nat,
    dest: string,
    attached: nat,       // transfers using the connection
    close: bool,
    connectOnly: bool,
    noReuse: bool,
    lastused: int        // milliseconds
  )

  predicate InUse(c: Conn) { c.attached > 0 }

  ghost function Used(): Conn -> bool { (c: Conn) => InUse(c) }

  ghost function To(dest: string): Conn -> bool { (c: Conn) => c.dest == dest }

  // Not evictable from its bundle: in use, or last used after `now`.
  ghost function Stuck(now: int): Conn -> bool { (c: Conn) => InUse(c) || c.lastused > now }

  // Not evictable when the pool as a whole is searched.
  ghost function Pinned(now: int): Conn -> bool {
    (c: Conn) => InUse(c) || c.close || c.connectOnly || c.lastused > now
  }

  // With a clock not behind any use, only the connections in use are stuck.
  lemma {:induction false} StuckIsUsed(s: seq<Conn>, now: int)
    requires forall i :: 0 <= i < |s| ==> s[i].lastused <= now
    ensures Filter(s, Stuck(now)) == Filter(s, Used())
  {
    if s != [] {
      StuckIsUsed(s[1..], now);
    }
  }

  function Marked(s: seq<Conn>): (t: seq<Conn>)
    ensures |t| == |s|
    ensures forall i :: 0 <= i < |s| ==> t[i] == s[i].(noReuse := true)
  {
    seq(|s|, i requires 0 <= i < |s| => s[i].(noReuse := true))
  }

  lemma {:induction false} MarkedUsed(s: seq<Conn>)
    ensures Filter(Marked(s), Used()) == Marked(Filter(s, Used()))
  {
    if s != [] {
      assert Marked(s)[1..] == Marked(s[1..]);
      MarkedUsed(s[1..]);
    }
  }

  type Bundles = map<string, seq<Conn>>

  function BundleOf(m: Bundles, dest: string): seq<Conn> {
    if dest in m then m[dest] else []
  }

  // The number of connections in all bundles.
  ghost function Sum(m: Bundles): nat
    decreases |m|
  {
    if m == map[] then 0
    else
      var d :| d in m;
      |m[d]| + Sum(m - {d})
  }

  lemma {:induction false} SumStep(m: Bundles, d: string)
    requires d in m
    ensures Sum(m) == |m[d]| + Sum(m - {d})
    decreases |m|
  {
    var e :| e in m && Sum(m) == |m[e]| + Sum(m - {e});
    if e != d {
      SumStep(m - {e}, d);
      SumStep(m - {d}, e);
      assert (m - {e}) - {d} == (m - {d}) - {e};
    }
  }

  lemma {:induction false} SumMono(a: Bundles, b: Bundles)
    requires forall d :: |BundleOf(a, d)| <= |BundleOf(b, d)|
    ensures Sum(a) <= Sum(b)
    decreases |a|
  {
    if a != map[] {
      var d :| d in a;
      SumStep(a, d);
      var b' := b - {d};
      if d in b {
        SumStep(b, d);
      } else {
        assert b' == b;
      }
      assert |BundleOf(a, d)| <= |BundleOf(b, d)|;
      forall e
        ensures |BundleOf(a - {d}, e)| <= |BundleOf(b', e)|
      {
        assert |BundleOf(a, e)| <= |BundleOf(b, e)|;
      }
      SumMono(a - {d}, b');
    }
  }

  // Each bundle cut down to the connections that satisfy `p`.
  ghost function Kept(m: Bundles, p: Conn -> bool): Bundles {
    map d | d in m :: Filter(m[d], p)
  }

  // Replace the bundle of `dest`; an empty bundle leaves the index.
  function Put(m: Bundles, dest: string, s: seq<Conn>): (m': Bundles)
    ensures BundleOf(m', dest) == s
    ensures forall d :: d != dest ==> BundleOf(m', d) == BundleOf(m, d)
  {
    if s == [] then m - {dest} else m[dest := s]
  }

  lemma {:induction false} SumPut(m: Bundles, dest: string, s: seq<Conn>)
    ensures Sum(Put(m, dest, s)) == Sum(m) - |BundleOf(m, dest)| + |s|
  {
    var m' := Put(m, dest, s);
    assert m' - {dest} == m - {dest};
    if dest in m {
      SumStep(m, dest);
    } else {
      assert m - {dest} == m;
    }
    if dest in m' {
      SumStep(m', dest);
    } else {
      assert m' - {dest} == m';
    }
  }

  // Removing a connection that fails `p` leaves the kept ones as they were.
  lemma {:induction false} KeptWithout(m: Bundles, dest: string, k: nat, p: Conn -> bool)
    requires k < |BundleOf(m, dest)| && !p(BundleOf(m, dest)[k])
    ensures var m' := Put(m, dest, Without(BundleOf(m, dest), k));
            forall d :: Filter(BundleOf(m', d), p) == Filter(BundleOf(m, d), p)
  {
    FilterWithout(BundleOf(m, dest), k, p);
  }

  lemma {:induction false} KeptSum(a: Bundles, b: Bundles, p: Conn -> bool)
    requires forall d :: Filter(BundleOf(a, d), p) == Filter(BundleOf(b, d), p)
    ensures Sum(Kept(a, p)) == Sum(Kept(b, p))
  {
    forall d
      ensures BundleOf(Kept(a, p), d) == BundleOf(Kept(b, p), d)
    {
      assert BundleOf(Kept(a, p), d) == Filter(BundleOf(a, d), p);
      assert BundleOf(Kept(b, p), d) == Filter(BundleOf(b, d), p);
    }
    SumMono(Kept(a, p), Kept(b, p));
    SumMono(Kept(b, p), Kept(a, p));
  }

  lemma {:induction false} KeptBounds(m: Bundles, p: Conn -> bool)
    ensures Sum(Kept(m, p)) <= Sum(m)
    ensures (forall d, i :: d in m && 0 <= i < |m[d]| ==> p(m[d][i])) ==> Sum(Kept(m, p)) == Sum(m)
  {
    forall d
      ensures |BundleOf(Kept(m, p), d)| <= |BundleOf(m, d)|
    {
      FilterBounds(BundleOf(m, d), p);
    }
    SumMono(Kept(m, p), m);
    if forall d, i :: d in m && 0 <= i < |m[d]| ==> p(m[d][i]) {
      forall d
        ensures |BundleOf(m, d)| <= |BundleOf(Kept(m, p), d)|
      {
        FilterBounds(BundleOf(m, d), p);
      }
      SumMono(m, Kept(m, p));
    }
  }

  datatype Verdict = LimitOk | LimitDest | LimitTotal

  datatype Target = Anywhere | At(dest: string)

  predicate Targets(c: Conn, t: Target) {
    t.Anywhere? || c.dest == t.dest
  }

  // The connections being shut down gracefully.
  class ShutdownList {
    var list: seq<Conn>
    const maxTotal: nat
    const socketCallback: bool

    // Only idle connections are shut down, and none that was connect-only.
    ghost predicate Valid()
      reads this
    {
      forall i :: 0 <= i < |list| ==> !InUse(list[i]) && !list[i].connectOnly
    }

    constructor (maxTotal: nat, socketCallback: bool)
      ensures Valid() && list == []
      ensures this.maxTotal == maxTotal && this.socketCallback == socketCallback
    {
      list := [];
      this.maxTotal, this.socketCallback := maxTotal, socketCallback;
    }

    // cshutdn_destroy_oldest: terminate the first connection that matches.
    method DestroyOldest(t: Target) returns (found: bool, ghost k: nat)
      requires Valid()
      modifies this
      ensures Valid()
      ensures found ==> k < |old(list)| && Targets(old(list)[k], t) && list == Without(old(list), k)
      ensures forall i :: 0 <= i < (if found then k else |old(list)|) ==> !Targets(old(list)[i], t)
      ensures !found ==> list == old(list)
    {
      var e := 0;
      while e < |list| && !Targets(list[e], t)
        invariant 0 <= e <= |list|
        invariant forall i :: 0 <= i < e ==> !Targets(list[i], t)
      {
        e := e + 1;
      }
      found, k := e < |list|, e;
      if found {
        list := Without(list, e);
      }
    }

    // Curl_cshutdn_dest_count
    method DestCount(dest: string) returns (n: nat)
      ensures n == |Filter(list, To(dest))|
    {
      n := 0;
      assert list[..0] == [];
      for i := 0 to |list|
        invariant n == |Filter(list[..i], To(dest))|
      {
        assert list[..i + 1] == list[..i] + [list[i]];
        FilterAppend(list[..i], [list[i]], To(dest));
        assert [list[i]][1..] == [];
        if list[i].dest == dest {
          n := n + 1;
        }
      }
      assert list[..|list|] == list;
    }

    // Curl_cshutdn_add: make room under the total limit, then append, unless the
    // event callback fails and the connection is terminated instead.
    method Add(c: Conn, connsInPool: nat)
      requires Valid() && !InUse(c) && !c.connectOnly
      modifies this
      ensures Valid()
      ensures var base := if 0 < maxTotal <= connsInPool + |old(list)| && old(list) != [] then old(list)[1..] else old(list);
              list == base + [c] || (socketCallback && list == base)
      ensures old(list) == [] ==> list in {[], [c]}
      ensures forall d :: |Filter(list, To(d))| <= |Filter(old(list), To(d))| + if d == c.dest then 1 else 0
    {
      if maxTotal > 0 && maxTotal <= connsInPool + |list| {
        var found, k := DestroyOldest(Anywhere);
        assert old(list) != [] ==> Targets(old(list)[0], Anywhere);
        assert found ==> list == old(list)[1..];
      }
      ghost var base := list;
      if socketCallback {
        var failed: bool := *;
        if failed {
          AddCounts(old(list), base, c);
          return;
        }
      }
      list := list + [c];
      assert [] + [c] == [c];
      AddCounts(old(list), base, c);
    }
  }

  lemma {:induction false} AddCounts(before: seq<Conn>, base: seq<Conn>, c: Conn)
    requires base == before || (before != [] && base == before[1..])
    ensures forall d :: |Filter(base, To(d))| <= |Filter(before, To(d))|
    ensures forall d :: |Filter(base + [c], To(d))| <= |Filter(before, To(d))| + if d == c.dest then 1 else 0
  {
    forall d
      ensures |Filter(base, To(d))| <= |Filter(before, To(d))|
      ensures |Filter(base + [c], To(d))| <= |Filter(before, To(d))| + if d == c.dest then 1 else 0
    {
      FilterAppend(base, [c], To(d));
      assert [c][1..] == [];
    }
  }

  lemma {:induction false} WithoutCounts(s: seq<Conn>, k: nat)
    requires k < |s|
    ensures forall d :: |Filter(Without(s, k), To(d))| <= |Filter(s, To(d))|
  {
    forall d
      ensures |Filter(Without(s, k), To(d))| <= |Filter(s, To(d))|
    {
      FilterWithout(s, k, To(d));
    }
  }

  class Pool {
    var bundles: Bundles
    var numConn: nat
    var nextId: nat
    const shared: bool              // owned by a share, not by the multi
    const maxHost: nat              // max_host_connections of the multi, 0 for none
    const maxTotal: nat             // max_total_connections, 0 for none
    const shutdown: ShutdownList

    ghost predicate Valid()
      reads this, shutdown
    {
      && shutdown.Valid() && shutdown.maxTotal == maxTotal
      && numConn == Sum(bundles)
      && (forall d :: d in bundles ==> bundles[d] != [])
      && (forall d, i :: d in bundles && 0 <= i < |bundles[d]| ==> bundles[d][i].dest == d)
    }

    // Connections to `dest`, open or shutting down.
    ghost function Load(dest: string): nat
      reads this, shutdown
    {
      |BundleOf(bundles, dest)| + |Filter(shutdown.list, To(dest))|
    }

    constructor (shared: bool, maxHost: nat, maxTotal: nat, socketCallback: bool)
      ensures Valid() && bundles == map[] && shutdown.list == [] && fresh(shutdown)
      ensures this.shared == shared && this.maxHost == maxHost && this.maxTotal == maxTotal
    {
      bundles, numConn, nextId := map[], 0, 0;
      this.shared, this.maxHost, this.maxTotal := shared, maxHost, maxTotal;
      shutdown := new ShutdownList(maxTotal, socketCallback);
    }

    // Curl_cpool_add (allocation does not fail)
    method Add(c: Conn) returns (id: nat)
      requires Valid()
      modifies this
      ensures Valid() && id == old(nextId) && nextId == id + 1
      ensures numConn == old(numConn) + 1
      ensures bundles == old(bundles)[c.dest := BundleOf(old(bundles), c.dest) + [c.(id := id)]]
    {
      id := nextId;
      var s := BundleOf(bundles, c.dest) + [c.(id := id)];
      SumPut(bundles, c.dest, s);
      bundles := bundles[c.dest := s];
      nextId, numConn := nextId + 1, numConn + 1;
    }

    // cpool_remove_conn
    method Remove(dest: string, k: nat)
      requires Valid() && k < |BundleOf(bundles, dest)|
      modifies this`bundles, this`numConn
      ensures Valid() && numConn == old(numConn) - 1
      ensures bundles == Put(old(bundles), dest, Without(BundleOf(old(bundles), dest), k))
    {
      var s := Without(bundles[dest], k);
      SumPut(bundles, dest, s);
      bundles := Put(bundles, dest, s);
      numConn := numConn - 1;
    }

    // cpool_conn_close followed by cpool_discard_conn, for a connection in the
    // pool. One in use is left alone unless it is aborted.
    method Close(dest: string, k: nat, aborted: bool)
      requires Valid() && k < |BundleOf(bundles, dest)|
      modifies this`bundles, this`numConn, shutdown
      ensures Valid()
      ensures InUse(BundleOf(old(bundles), dest)[k]) && !aborted ==>
                bundles == old(bundles) && numConn == old(numConn) && shutdown.list == old(shutdown.list)
      ensures !InUse(BundleOf(old(bundles), dest)[k]) || aborted ==>
                && numConn == old(numConn) - 1
                && bundles == Put(old(bundles), dest, Without(BundleOf(old(bundles), dest), k))
      ensures aborted || BundleOf(old(bundles), dest)[k].connectOnly ==> shutdown.list == old(shutdown.list)
      ensures old(shutdown.list) == [] ==> shutdown.list in {[], [BundleOf(old(bundles), dest)[k]]}
      ensures forall d :: |Filter(shutdown.list, To(d))| <= |Filter(old(shutdown.list), To(d))| + if d == dest then 1 else 0
    {
      var c := bundles[dest][k];
      if InUse(c) && !aborted {
        return;
      }
      Remove(dest, k);
      var terminate := aborted || c.connectOnly;
      if !terminate {
        terminate := *;
      }
      if !terminate {
        shutdown.Add(c, numConn);
      }
    }

    // cpool_evict_conn: a shared pool has no multi to shut the connection down.
    method Evict(dest: string, k: nat)
      requires Valid() && k < |BundleOf(bundles, dest)| && !InUse(BundleOf(bundles, dest)[k])
      modifies this`bundles, this`numConn, shutdown
      ensures Valid() && numConn == old(numConn) - 1
      ensures bundles == Put(old(bundles), dest, Without(BundleOf(old(bundles), dest), k))
      ensures old(shutdown.list) == [] ==> shutdown.list in {[], [BundleOf(old(bundles), dest)[k]]}
      ensures forall d :: |Filter(shutdown.list, To(d))| <= |Filter(old(shutdown.list), To(d))| + if d == dest then 1 else 0
    {
      if shared {
        Remove(dest, k);
      } else {
        Close(dest, k, false);
      }
    }

    // cpool_bundle_get_oldest_idle: the first of the evictable connections that
    // have been idle longest, or -1.
    static method OldestIdle(s: seq<Conn>, now: int) returns (best: int)
      ensures -1 <= best < |s|
      ensures best == -1 <==> forall i :: 0 <= i < |s| ==> Stuck(now)(s[i])
      ensures best >= 0 ==> !Stuck(now)(s[best])
      ensures best >= 0 ==> forall i :: 0 <= i < |s| && !InUse(s[i]) ==> s[best].lastused <= s[i].lastused
      ensures best >= 0 ==> forall i :: 0 <= i < best && !InUse(s[i]) ==> s[best].lastused < s[i].lastused
    {
      var highscore := -1;
      best := -1;
      for i := 0 to |s|
        invariant -1 <= best < i
        invariant highscore == if best == -1 then -1 else now - s[best].lastused
        invariant best == -1 <==> forall j :: 0 <= j < i ==> Stuck(now)(s[j])
        invariant best >= 0 ==> !Stuck(now)(s[best])
        invariant best >= 0 ==> forall j :: 0 <= j < i && !InUse(s[j]) ==> s[best].lastused <= s[j].lastused
        invariant best >= 0 ==> forall j :: 0 <= j < best && !InUse(s[j]) ==> s[best].lastused < s[j].lastused
      {
        if !InUse(s[i]) {
          var score := now - s[i].lastused;
          if score > highscore {
            highscore, best := score, i;
          }
        }
      }
    }

    // The connections of a bundle split into those evicted so far, all idle and
    // none used more recently than an idle one that stays, and the rest.
    static ghost predicate OldestGone(before: seq<Conn>, after: seq<Conn>, gone: seq<Conn>) {
      && multiset(before) == multiset(after) + multiset(gone)
      && (forall i :: 0 <= i < |gone| ==> !InUse(gone[i]))
      && (forall i, j :: 0 <= i < |gone| && 0 <= j < |after| && !InUse(after[j]) ==> gone[i].lastused <= after[j].lastused)
    }

    static lemma {:induction false} GoneStep(before: seq<Conn>, s: seq<Conn>, gone: seq<Conn>, k: nat)
      requires OldestGone(before, s, gone) && k < |s| && !InUse(s[k])
      requires forall i :: 0 <= i < |s| && !InUse(s[i]) ==> s[k].lastused <= s[i].lastused
      ensures OldestGone(before, Without(s, k), gone + [s[k]])
    {
      assert s == s[..k] + [s[k]] + s[k + 1..];
      var t := Without(s, k);
      assert forall j :: 0 <= j < |t| ==> t[j] == s[if j < k then j else j + 1];
    }

    // How many of a bundle stay: all if they are below the limit, else those that cannot
    // be evicted, and others up to one below it.
    static ghost function Spared(s: seq<Conn>, limit: nat, now: int): int {
      var stuck := |Filter(s, Stuck(now))|;
      if |s| < limit then |s| else if stuck < limit then limit - 1 else stuck
    }

    // All bundles are as they were, but for those that the bundle of `dest` has lost.
    static ghost predicate Narrowed(was: Bundles, m: Bundles, dest: string, now: int, gone: seq<Conn>) {
      && (forall d :: d != dest ==> BundleOf(m, d) == BundleOf(was, d))
      && Shrunk(BundleOf(was, dest), BundleOf(m, dest), now, gone)
    }

    static ghost predicate Shrunk(before: seq<Conn>, after: seq<Conn>, now: int, gone: seq<Conn>) {
      && Filter(after, Stuck(now)) == Filter(before, Stuck(now))
      && Filter(after, Used()) == Filter(before, Used())
      && OldestGone(before, after, gone)
    }

    // Evict the connection of a bundle that has been idle longest, if there is one.
    method EvictIdle(dest: string, now: int, ghost was: Bundles, ghost gone: seq<Conn>)
        returns (found: bool, ghost gone': seq<Conn>)
      requires Valid() && Narrowed(was, bundles, dest, now, gone)
      modifies this`bundles, this`numConn, shutdown
      ensures Valid() && Narrowed(was, bundles, dest, now, gone')
      ensures !found ==> bundles == old(bundles) && shutdown.list == old(shutdown.list)
      ensures !found ==> |Filter(BundleOf(bundles, dest), Stuck(now))| == |BundleOf(bundles, dest)|
      ensures found ==> |BundleOf(bundles, dest)| == |BundleOf(old(bundles), dest)| - 1
      ensures found ==> |Filter(shutdown.list, To(dest))| <= |Filter(old(shutdown.list), To(dest))| + 1
    {
      var s := BundleOf(bundles, dest);
      var k := OldestIdle(s, now);
      found, gone' := k != -1, gone;
      if !found {
        FilterBounds(s, Stuck(now));
        return;
      }
      FilterWithout(s, k, Stuck(now));
      FilterWithout(s, k, Used());
      GoneStep(BundleOf(was, dest), s, gone, k);
      gone' := gone + [s[k]];
      Evict(dest, k);
    }

    // Terminate the oldest connection to `dest` that is shutting down.
    method DropShutdown(dest: string)
      requires shutdown.Valid() && |Filter(shutdown.list, To(dest))| > 0
      modifies shutdown
      ensures shutdown.Valid()
      ensures |Filter(shutdown.list, To(dest))| == |Filter(old(shutdown.list), To(dest))| - 1
    {
      ghost var list := shutdown.list;
      var found, k := shutdown.DestroyOldest(At(dest));
      if !found {
        FilterBounds(list, To(dest));
        assert false;
      } else {
        FilterWithout(list, k, To(dest));
      }
    }

    // One round of the destination phase: what is shutting down goes first.
    method DestStep(dest: string, now: int, live: nat, shutdowns: nat, ghost was: Bundles, ghost gone: seq<Conn>)
        returns (found: bool, live': nat, shutdowns': nat, ghost gone': seq<Conn>)
      requires Valid() && Narrowed(was, bundles, dest, now, gone)
      requires live == |BundleOf(bundles, dest)| && shutdowns == |Filter(shutdown.list, To(dest))|
      modifies this`bundles, this`numConn, shutdown
      ensures Valid() && Narrowed(was, bundles, dest, now, gone')
      ensures live' == |BundleOf(bundles, dest)| && shutdowns' == |Filter(shutdown.list, To(dest))|
      ensures !found ==> shutdowns' == shutdowns == 0 && live' == live == |Filter(BundleOf(was, dest), Stuck(now))|
      ensures found && shutdowns > 0 ==> live' == live && shutdowns' == shutdowns - 1
      ensures found && shutdowns == 0 ==> live' == live - 1 && shutdowns' <= 1
    {
      found, live', gone' := true, live, gone;
      if shutdowns > 0 {
        DropShutdown(dest);
      } else if live == 0 {
        found := false;
      } else {
        found, gone' := EvictIdle(dest, now, was, gone);
        live' := if found then live - 1 else live;
      }
      shutdowns' := shutdown.DestCount(dest);
    }

    // The loop of the destination phase.
    method DestLoop(dest: string, now: int) returns (live: nat, shutdowns: nat, ghost gone: seq<Conn>)
      requires Valid() && maxHost > 0
      modifies this`bundles, this`numConn, shutdown
      ensures Valid() && Narrowed(old(bundles), bundles, dest, now, gone)
      ensures live == |BundleOf(bundles, dest)| && shutdowns == |Filter(shutdown.list, To(dest))|
      ensures var load := old(Load(dest));
              live + shutdowns == load || maxHost - 1 <= live + shutdowns < load
      ensures var size := |BundleOf(old(bundles), dest)|;
              live == size || maxHost - 1 <= live < size
      ensures live + shutdowns >= maxHost ==> shutdowns == 0 && live == |Filter(BundleOf(old(bundles), dest), Stuck(now))|
    {
      gone, live := [], |BundleOf(bundles, dest)|;
      shutdowns := shutdown.DestCount(dest);
      ghost var load, size := live + shutdowns, live;
      while live + shutdowns >= maxHost
        invariant Valid() && Narrowed(old(bundles), bundles, dest, now, gone)
        invariant live == |BundleOf(bundles, dest)| && shutdowns == |Filter(shutdown.list, To(dest))|
        invariant live + shutdowns == load || maxHost - 1 <= live + shutdowns < load
        invariant live == size || maxHost - 1 <= live < size
        decreases 2 * live + shutdowns
      {
        var found;
        found, live, shutdowns, gone := DestStep(dest, now, live, shutdowns, old(bundles), gone);
        if !found {
          break;
        }
      }
    }

    // The destination phase of Curl_cpool_check_limits.
    method DestPhase(dest: string, now: int) returns (ok: bool, ghost gone: seq<Conn>)
      requires Valid() && maxHost > 0
      modifies this`bundles, this`numConn, shutdown
      ensures Valid()
      ensures ok <==> |Filter(BundleOf(old(bundles), dest), Stuck(now))| < maxHost
      ensures ok ==> Load(dest) == if old(Load(dest)) < maxHost then old(Load(dest)) else maxHost - 1
      ensures !ok ==> Load(dest) >= maxHost
      ensures |BundleOf(bundles, dest)| == Spared(BundleOf(old(bundles), dest), maxHost, now)
      ensures forall d :: d != dest ==> BundleOf(bundles, d) == BundleOf(old(bundles), d)
      ensures Filter(BundleOf(bundles, dest), Used()) == Filter(BundleOf(old(bundles), dest), Used())
      ensures OldestGone(BundleOf(old(bundles), dest), BundleOf(bundles, dest), gone)
    {
      var live, shutdowns;
      live, shutdowns, gone := DestLoop(dest, now);
      ok := live + shutdowns < maxHost;
      FilterBounds(BundleOf(bundles, dest), Stuck(now));
    }

    static predicate Evictable(c: Conn) {
      !InUse(c) && !c.close && !c.connectOnly
    }

    // One bundle of cpool_get_oldest_idle: the first best index above `highscore`.
    static method BestIn(s: seq<Conn>, now: int, highscore: int) returns (best: int)
      requires highscore >= -1
      ensures -1 <= best < |s|
      ensures best == -1 ==> forall i :: 0 <= i < |s| && Evictable(s[i]) ==> now - s[i].lastused <= highscore
      ensures best >= 0 ==> Evictable(s[best]) && now - s[best].lastused > highscore
      ensures best >= 0 ==> forall i :: 0 <= i < |s| && Evictable(s[i]) ==> s[best].lastused <= s[i].lastused
    {
      var high := highscore;
      best := -1;
      for i := 0 to |s|
        invariant -1 <= best < i
        invariant high == if best == -1 then highscore else now - s[best].lastused
        invariant best >= 0 ==> Evictable(s[best]) && high > highscore
        invariant forall j :: 0 <= j < i && Evictable(s[j]) ==> now - s[j].lastused <= high
      {
        if Evictable(s[i]) && now - s[i].lastused > high {
          high, best := now - s[i].lastused, i;
        }
      }
    }

    // cpool_get_oldest_idle, over the bundles in any order.
    method OldestIdleAll(now: int) returns (found: bool, dest: string, k: nat)
      requires Valid()
      ensures found ==> k < |BundleOf(bundles, dest)| && !Pinned(now)(bundles[dest][k])
      ensures found ==> forall d, i :: d in bundles && 0 <= i < |bundles[d]| && Evictable(bundles[d][i]) ==>
                          bundles[dest][k].lastused <= bundles[d][i].lastused
      ensures !found ==> forall d, i :: d in bundles && 0 <= i < |bundles[d]| ==> Pinned(now)(bundles[d][i])
    {
      found, dest, k := false, "", 0;
      var highscore, rest := -1, bundles.Keys;
      while rest != {}
        invariant rest <= bundles.Keys && highscore >= -1
        invariant found ==> k < |BundleOf(bundles, dest)| && Evictable(bundles[dest][k])
        invariant highscore == if found then now - bundles[dest][k].lastused else -1
        invariant found ==> highscore > -1
        invariant forall d, i :: d in bundles && d !in rest && 0 <= i < |bundles[d]| && Evictable(bundles[d][i]) ==>
                                   now - bundles[d][i].lastused <= highscore
      {
        var d :| d in rest;
        rest := rest - {d};
        var best := BestIn(bundles[d], now, highscore);
        if best >= 0 {
          found, dest, k := true, d, best;
          highscore := now - bundles[d][best].lastused;
        }
      }
    }

    // No evictable connection was last used before `t`.
    static ghost predicate NoneBefore(m: Bundles, t: int) {
      forall d, i :: d in m && 0 <= i < |m[d]| && Evictable(m[d][i]) ==> t <= m[d][i].lastused
    }

    static lemma {:induction false} NoneBeforeWithout(m: Bundles, dest: string, k: nat, t: int)
      requires NoneBefore(m, t) && k < |BundleOf(m, dest)|
      ensures NoneBefore(Put(m, dest, Without(m[dest], k)), t)
    {
      var s, s' := m[dest], Without(m[dest], k);
      assert forall j :: 0 <= j < |s'| ==> s'[j] == s[if j < k then j else j + 1];
    }

    // Evict the connection that has been idle longest, if one can be evicted.
    method EvictOldest(now: int) returns (found: bool, ghost c: Conn)
      requires Valid() && shutdown.list == []
      modifies this`bundles, this`numConn, shutdown
      ensures Valid()
      ensures !found ==> bundles == old(bundles) && numConn == old(numConn) && shutdown.list == []
      ensures !found ==> Sum(Kept(bundles, Pinned(now))) == numConn
      ensures found ==> numConn == old(numConn) - 1 && |shutdown.list| <= 1
      ensures found ==> !Pinned(now)(c) && NoneBefore(bundles, c.lastused)
      ensures forall t :: NoneBefore(old(bundles), t) ==> NoneBefore(bundles, t)
      ensures forall d :: Load(d) <= old(Load(d))
      ensures forall d :: Filter(BundleOf(bundles, d), Used()) == Filter(BundleOf(old(bundles), d), Used())
      ensures forall d :: Filter(BundleOf(bundles, d), Pinned(now)) == Filter(BundleOf(old(bundles), d), Pinned(now))
    {
      var dest, k;
      found, dest, k := OldestIdleAll(now);
      c := Conn(0, "", 0, false, false, false, 0);
      if !found {
        KeptBounds(bundles, Pinned(now));
        return;
      }
      c := bundles[dest][k];
      KeptWithout(bundles, dest, k, Used());
      KeptWithout(bundles, dest, k, Pinned(now));
      forall t | NoneBefore(bundles, t)
        ensures NoneBefore(Put(bundles, dest, Without(bundles[dest], k)), t)
      {
        NoneBeforeWithout(bundles, dest, k, t);
      }
      assert NoneBefore(bundles, c.lastused);
      Evict(dest, k);
    }

    // The total phase of Curl_cpool_check_limits.
    method TotalPhase(now: int) returns (ok: bool, ghost gone: seq<Conn>)
      requires Valid() && maxTotal > 0
      modifies this`bundles, this`numConn, shutdown
      ensures Valid()
      ensures ok <==> Sum(Kept(old(bundles), Pinned(now))) < maxTotal
      ensures ok ==> numConn + |shutdown.list| ==
                     if old(numConn + |shutdown.list|) < maxTotal then old(numConn + |shutdown.list|) else maxTotal - 1
      ensures !ok ==> numConn + |shutdown.list| >= maxTotal
      ensures forall d :: Load(d) <= old(Load(d))
      ensures forall d :: Filter(BundleOf(bundles, d), Used()) == Filter(BundleOf(old(bundles), d), Used())
      ensures forall i :: 0 <= i < |gone| ==> !Pinned(now)(gone[i]) && NoneBefore(bundles, gone[i].lastused)
    {
      gone := [];
      var shutdowns := |shutdown.list|;
      while numConn + shutdowns >= maxTotal
        invariant Valid() && shutdowns == |shutdown.list|
        invariant numConn + shutdowns == old(numConn + |shutdown.list|) ||
                  maxTotal - 1 <= numConn + shutdowns < old(numConn + |shutdown.list|)
        invariant forall d :: Load(d) <= old(Load(d))
        invariant forall d :: Filter(BundleOf(bundles, d), Used()) == Filter(BundleOf(old(bundles), d), Used())
        invariant forall d :: Filter(BundleOf(bundles, d), Pinned(now)) == Filter(BundleOf(old(bundles), d), Pinned(now))
        invariant forall i :: 0 <= i < |gone| ==> !Pinned(now)(gone[i]) && NoneBefore(bundles, gone[i].lastused)
        decreases 2 * numConn + shutdowns
      {
        if shutdowns > 0 {
          ghost var list := shutdown.list;
          var found, k := shutdown.DestroyOldest(Anywhere);
          if !found {
            assert Targets(list[0], Anywhere);
            assert false;
            break;
          }
          WithoutCounts(list, k);
        } else {
          ghost var c;
          var found;
          found, c := EvictOldest(now);
          if !found {
            break;
          }
          gone := gone + [c];
        }
        shutdowns := |shutdown.list|;
      }
      ok := numConn + shutdowns < maxTotal;
      KeptSum(bundles, old(bundles), Pinned(now));
      KeptBounds(bundles, Pinned(now));
    }

    // Curl_cpool_check_limits. `mid` is the index between its two phases,
    // and `gone` what the first of them evicts.
    method CheckLimits(dest: string, now: int) returns (verdict: Verdict, ghost mid: Bundles, ghost gone: seq<Conn>)
      requires Valid()
      modifies this`bundles, this`numConn, shutdown
      ensures Valid()
      ensures verdict == LimitDest <==>
              maxHost > 0 && |Filter(BundleOf(old(bundles), dest), Stuck(now))| >= maxHost
      ensures (forall i :: 0 <= i < |BundleOf(old(bundles), dest)| ==> BundleOf(old(bundles), dest)[i].lastused <= now) ==>
                (verdict == LimitDest <==> maxHost > 0 && |Filter(BundleOf(old(bundles), dest), Used())| >= maxHost)
      ensures verdict == LimitTotal <==>
              verdict != LimitDest && maxTotal > 0 && Sum(Kept(mid, Pinned(now))) >= maxTotal
      ensures forall d :: d != dest || maxHost == 0 ==> BundleOf(mid, d) == BundleOf(old(bundles), d)
      ensures maxHost > 0 ==>
                && OldestGone(BundleOf(old(bundles), dest), BundleOf(mid, dest), gone)
                && |BundleOf(mid, dest)| == Spared(BundleOf(old(bundles), dest), maxHost, now)
      ensures verdict == LimitOk ==>
                && (maxHost > 0 ==> Load(dest) < maxHost)
                && (maxTotal > 0 ==> numConn + |shutdown.list| < maxTotal)
      ensures forall d :: Filter(BundleOf(bundles, d), Used()) == Filter(BundleOf(old(bundles), d), Used())
    {
      var ok := true;
      gone := [];
      if maxHost > 0 {
        ok, gone := DestPhase(dest, now);
      }
      ghost var bundle := BundleOf(old(bundles), dest);
      if forall i :: 0 <= i < |bundle| ==> bundle[i].lastused <= now {
        StuckIsUsed(bundle, now);
      }
      mid := bundles;
      if !ok {
        return LimitDest, mid, gone;
      }
      if maxTotal > 0 {
        ghost var more;
        ok, more := TotalPhase(now);
      }
      verdict := if ok then LimitOk else LimitTotal;
    }

    // The first round of Curl_cpool_nw_changed: no connection may be reused.
    method MarkStale()
      requires Valid()
      modifies this`bundles
      ensures Valid()
      ensures bundles.Keys == old(bundles).Keys
      ensures forall d :: d in bundles ==> bundles[d] == Marked(old(bundles)[d])
    {
      var rest := bundles.Keys;
      while rest != {}
        invariant rest <= bundles.Keys == old(bundles).Keys
        invariant forall d :: d in bundles ==> bundles[d] == if d in rest then old(bundles)[d] else Marked(old(bundles)[d])
      {
        var d :| d in rest;
        rest := rest - {d};
        bundles := bundles[d := Marked(bundles[d])];
      }
      SumMono(bundles, old(bundles));
      SumMono(old(bundles), bundles);
    }

    // The first connection of a bundle that is idle and may not be reused.
    static method FirstUseless(s: seq<Conn>) returns (i: nat)
      ensures i <= |s| && forall j :: 0 <= j < i ==> InUse(s[j]) || !s[j].noReuse
      ensures i < |s| ==> !InUse(s[i]) && s[i].noReuse
    {
      i := 0;
      while i < |s| && (InUse(s[i]) || !s[i].noReuse)
        invariant i <= |s| && forall j :: 0 <= j < i ==> InUse(s[j]) || !s[j].noReuse
      {
        i := i + 1;
      }
    }

    static lemma {:induction false} StaleWithout(m: Bundles, dest: string, k: nat)
      requires k < |BundleOf(m, dest)|
      ensures AllStale(m) ==> AllStale(Put(m, dest, Without(m[dest], k)))
    {
      var s, s' := m[dest], Without(m[dest], k);
      assert forall j :: 0 <= j < |s'| ==> s'[j] == s[if j < k then j else j + 1];
    }

    // cpool_reap_no_reuse for one that is idle
    method Reap(dest: string, k: nat)
      requires Valid() && k < |BundleOf(bundles, dest)| && !InUse(bundles[dest][k])
      modifies this`bundles, this`numConn, shutdown
      ensures Valid() && numConn == old(numConn) - 1
      ensures forall d :: Filter(BundleOf(bundles, d), Used()) == Filter(BundleOf(old(bundles), d), Used())
      ensures AllStale(old(bundles)) ==> AllStale(bundles)
    {
      KeptWithout(bundles, dest, k, Used());
      StaleWithout(bundles, dest, k);
      Close(dest, k, false);
    }

    // cpool_foreach with cpool_reap_no_reuse: close the first idle connection that
    // may not be reused, over the bundles in any order.
    method ReapOne() returns (found: bool)
      requires Valid()
      modifies this`bundles, this`numConn, shutdown
      ensures Valid()
      ensures !found ==> bundles == old(bundles) &&
                         forall d, i :: d in bundles && 0 <= i < |bundles[d]| ==> InUse(bundles[d][i]) || !bundles[d][i].noReuse
      ensures found ==> numConn == old(numConn) - 1
      ensures forall d :: Filter(BundleOf(bundles, d), Used()) == Filter(BundleOf(old(bundles), d), Used())
      ensures AllStale(old(bundles)) ==> AllStale(bundles)
    {
      var rest := bundles.Keys;
      while rest != {}
        invariant rest <= bundles.Keys && Valid() && bundles == old(bundles) && numConn == old(numConn)
        invariant forall d, i :: d in bundles && d !in rest && 0 <= i < |bundles[d]| ==>
                                   InUse(bundles[d][i]) || !bundles[d][i].noReuse
      {
        var d :| d in rest;
        rest := rest - {d};
        var s := bundles[d];
        var i := FirstUseless(s);
        if i < |s| {
          Reap(d, i);
          return true;
        }
      }
      found := false;
    }

    static ghost predicate AllStale(m: Bundles) {
      forall d, i :: d in m && 0 <= i < |m[d]| ==> m[d][i].noReuse
    }

    // Curl_cpool_nw_changed: exactly the connections in use remain, in order and
    // marked as not reusable.
    method NetworkChanged()
      requires Valid()
      modifies this`bundles, this`numConn, shutdown
      ensures Valid()
      ensures forall d :: BundleOf(bundles, d) == Marked(Filter(BundleOf(old(bundles), d), Used()))
    {
      MarkStale();
      ghost var marked := bundles;
      var found := true;
      while found
        invariant Valid() && AllStale(bundles)
        invariant forall d :: Filter(BundleOf(bundles, d), Used()) == Filter(BundleOf(marked, d), Used())
        invariant !found ==> forall d, i :: d in bundles && 0 <= i < |bundles[d]| ==> InUse(bundles[d][i])
        decreases found, numConn
      {
        found := ReapOne();
      }
      forall d
        ensures BundleOf(bundles, d) == Marked(Filter(BundleOf(old(bundles), d), Used()))
      {
        FilterAll(BundleOf(bundles, d), Used());
        MarkedUsed(BundleOf(old(bundles), d));
        assert BundleOf(marked, d) == Marked(BundleOf(old(bundles), d));
      }
    }
  }
}
