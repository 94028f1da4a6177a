// The race of connection attempts in old/lib/cf-ip-happy.c (sections 4 and 5 of
// RFC 8305).
//
// What an attempt answers when it is polled, whether a new one can be set up, and
// the time are given to each round of the loop, and every contract holds for all of
// them. The resolver is a pair of counts: how many addresses of each family it can
// name at the moment; it may name more at the next call. Termination is that of a
// call during which the clock stands still.

module HappyEyeballs {
  import opened Options

  datatype Family = V4 | V6

  datatype Code = Ok | WeirdServerReply | CouldntConnect | Failed(code: nat)

  datatype Dns = Dns(known4: nat, known6: nat)

  datatype Attempt = Attempt(
    id: nat,              // position in the log of started attempts
    result: Code,
    connected: bool,
    inconclusive: bool
  )

  // What an attempt may answer when it is polled.
  datatype Answer = Pending | Connects | Fails(code: Code)

  // The answers to one scan of the running list, and to setting up one more attempt.
  datatype Env = Env(answers: seq<Answer>, setup: Code, retry: Answer)

  function AnswerAt(answers: seq<Answer>, i: nat): Answer {
    if i < |answers| then answers[i] else Pending
  }

  // An attempt that has neither failed nor connected takes the answer.
  function Polled(a: Attempt, answer: Answer): Attempt {
    if !IsOngoing(a) then a
    else match answer
      case Pending => a
      case Connects => a.(connected := true)
      case Fails(code) => a.(result := code, inconclusive := a.inconclusive || code.WeirdServerReply?)
  }

  predicate Wins(a: Attempt) { a.result.Ok? && a.connected }

  // A started attempt, with how many addresses of the other family were untried, how
  // many attempts were ongoing, and what was left of the delay at that moment.
  datatype Start = Start(family: Family, index: nat, otherLeft: nat, ongoing: nat, wait: int)

  datatype Outcome =
    | AlreadyWon
    | Won
    | Waiting(timer: Option<int>)   // milliseconds to the next attempt
    | Exhausted(code: Code)
    | SetupFailed(code: Code)
    | TimedOut
    | Spins                         // polls again at once, with nothing started
    | Restarts                      // has restarted twice with no time between

  predicate IsOngoing(a: Attempt) { a.result.Ok? && !a.connected }

  predicate IsInconclusive(a: Attempt) { !a.result.Ok? && a.inconclusive }

  ghost function Ongoing(s: seq<Attempt>): nat {
    if s == [] then 0 else (if IsOngoing(s[0]) then 1 else 0) + Ongoing(s[1..])
  }

  ghost function Inconclusive(s: seq<Attempt>): nat {
    if s == [] then 0 else (if IsInconclusive(s[0]) then 1 else 0) + Inconclusive(s[1..])
  }

  lemma {:induction false} CountsConcat(s: seq<Attempt>, t: seq<Attempt>)
    ensures Ongoing(s + t) == Ongoing(s) + Ongoing(t)
    ensures Inconclusive(s + t) == Inconclusive(s) + Inconclusive(t)
  {
    if s == [] {
      assert s + t == t;
    } else {
      assert (s + t)[1..] == s[1..] + t;
      CountsConcat(s[1..], t);
    }
  }

  lemma {:induction false} CountsOne(a: Attempt)
    ensures Ongoing([a]) == if IsOngoing(a) then 1 else 0
    ensures Inconclusive([a]) == if IsInconclusive(a) then 1 else 0
  {
    assert [a][1..] == [];
  }

  lemma {:induction false} CountsSplit(s: seq<Attempt>, k: nat)
    requires k < |s|
    ensures Ongoing(s) == Ongoing(s[..k]) + (if IsOngoing(s[k]) then 1 else 0) + Ongoing(s[k + 1..])
    ensures Inconclusive(s) == Inconclusive(s[..k]) + (if IsInconclusive(s[k]) then 1 else 0) + Inconclusive(s[k + 1..])
  {
    assert s == s[..k] + ([s[k]] + s[k + 1..]);
    CountsConcat(s[..k], [s[k]] + s[k + 1..]);
    CountsConcat([s[k]], s[k + 1..]);
    CountsOne(s[k]);
  }

  lemma {:induction false} NoneInconclusive(s: seq<Attempt>)
    requires forall i :: 0 <= i < |s| ==> !IsInconclusive(s[i])
    ensures Inconclusive(s) == 0
  {
    if s != [] {
      assert forall i :: 0 <= i < |s| - 1 ==> s[1..][i] == s[i + 1];
      NoneInconclusive(s[1..]);
    }
  }

  // Beyond a prefix without ongoing attempts lie all of them.
  lemma {:induction false} NoMoreOngoing(s: seq<Attempt>, k: nat)
    requires k <= |s| && forall i :: 0 <= i < k ==> !IsOngoing(s[i])
    ensures k == |s| ==> Ongoing(s) == 0
  {
    if s != [] && k == |s| {
      assert forall i :: 0 <= i < |s| - 1 ==> s[1..][i] == s[i + 1];
      NoMoreOngoing(s[1..], k - 1);
    }
  }

  lemma {:induction false} FindInconclusive(s: seq<Attempt>, k: nat)
    requires k <= |s| && Inconclusive(s) > 0 && Ongoing(s) == 0
    requires forall i :: 0 <= i < k ==> !s[i].inconclusive
    requires forall i :: 0 <= i < |s| ==> !s[i].connected
    ensures k < |s|
    ensures s[k].inconclusive ==> IsInconclusive(s[k])
  {
    if k == |s| {
      NoneInconclusive(s);
    }
    AllFailed(s);
  }

  lemma {:induction false} AllFailed(s: seq<Attempt>)
    requires Ongoing(s) == 0 && forall i :: 0 <= i < |s| ==> !s[i].connected
    ensures forall i :: 0 <= i < |s| ==> !s[i].result.Ok?
  {
    if s != [] {
      assert forall i :: 1 <= i < |s| ==> s[i] == s[1..][i - 1];
      AllFailed(s[1..]);
    }
  }

  ghost function Ids(s: seq<Attempt>): set<nat> {
    if s == [] then {} else {s[0].id} + Ids(s[1..])
  }

  lemma {:induction false} IdsConcat(s: seq<Attempt>, t: seq<Attempt>)
    ensures Ids(s + t) == Ids(s) + Ids(t)
  {
    if s == [] {
      assert s + t == t;
    } else {
      assert (s + t)[1..] == s[1..] + t;
      IdsConcat(s[1..], t);
    }
  }

  lemma {:induction false} IdsSplit(s: seq<Attempt>, k: nat)
    requires k < |s|
    ensures Ids(s) == Ids(s[..k]) + {s[k].id} + Ids(s[k + 1..])
  {
    assert s == s[..k] + ([s[k]] + s[k + 1..]);
    IdsConcat(s[..k], [s[k]] + s[k + 1..]);
    IdsConcat([s[k]], s[k + 1..]);
    assert [s[k]][1..] == [];
  }

  lemma {:induction false} IdsMember(s: seq<Attempt>, id: nat)
    ensures id in Ids(s) <==> exists i :: 0 <= i < |s| && s[i].id == id
  {
    if s != [] {
      IdsMember(s[1..], id);
      assert forall i :: 1 <= i < |s| ==> s[i] == s[1..][i - 1];
    }
  }

  lemma {:induction false} Replace(s: seq<Attempt>, k: nat, a: Attempt)
    requires k < |s| && a.id == s[k].id
    ensures Ids(s[k := a]) == Ids(s)
    ensures Ongoing(s[k := a]) == Ongoing(s) - (if IsOngoing(s[k]) then 1 else 0) + if IsOngoing(a) then 1 else 0
    ensures Inconclusive(s[k := a]) ==
            Inconclusive(s) - (if IsInconclusive(s[k]) then 1 else 0) + if IsInconclusive(a) then 1 else 0
  {
    var t := s[k := a];
    CountsSplit(s, k);
    CountsSplit(t, k);
    IdsSplit(s, k);
    IdsSplit(t, k);
    assert t[..k] == s[..k] && t[k + 1..] == s[k + 1..];
  }

  lemma {:induction false} Extend(s: seq<Attempt>, k: nat)
    requires k < |s|
    ensures Ongoing(s[..k + 1]) == Ongoing(s[..k]) + if IsOngoing(s[k]) then 1 else 0
    ensures Inconclusive(s[..k + 1]) == Inconclusive(s[..k]) + if IsInconclusive(s[k]) then 1 else 0
  {
    assert s[..k + 1] == s[..k] + [s[k]];
    CountsConcat(s[..k], [s[k]]);
    CountsOne(s[k]);
  }

  // The list without its first `excess` ongoing attempts.
  ghost function WithoutOldest(s: seq<Attempt>, excess: int): seq<Attempt> {
    if s == [] || excess <= 0 then s
    else if IsOngoing(s[0]) then WithoutOldest(s[1..], excess - 1)
    else [s[0]] + WithoutOldest(s[1..], excess)
  }

  lemma {:induction false} PruneStep(s: seq<Attempt>, k: nat, excess: int, kept: seq<Attempt>)
    requires k < |s| && excess > 0
    ensures Ongoing(s[k..]) == (if IsOngoing(s[k]) then 1 else 0) + Ongoing(s[k + 1..])
    ensures if IsOngoing(s[k]) then WithoutOldest(s[k..], excess) == WithoutOldest(s[k + 1..], excess - 1)
            else kept + WithoutOldest(s[k..], excess) == (kept + [s[k]]) + WithoutOldest(s[k + 1..], excess)
  {
    assert s[k..][1..] == s[k + 1..];
    assert kept + ([s[k]] + WithoutOldest(s[k + 1..], excess)) == (kept + [s[k]]) + WithoutOldest(s[k + 1..], excess);
  }

  lemma {:induction false} PruneCounts(s: seq<Attempt>, excess: int)
    ensures Ids(WithoutOldest(s, excess)) <= Ids(s)
    ensures excess <= Ongoing(s) ==>
              Ongoing(WithoutOldest(s, excess)) == Ongoing(s) - if excess <= 0 then 0 else excess
  {
    if s != [] && excess > 0 {
      if IsOngoing(s[0]) {
        PruneCounts(s[1..], excess - 1);
      } else {
        PruneCounts(s[1..], excess);
        var u := WithoutOldest(s[1..], excess);
        assert ([s[0]] + u)[1..] == u;
      }
    }
  }

  lemma {:induction false} PruneMembers(s: seq<Attempt>, excess: int, i: nat)
    requires i < |WithoutOldest(s, excess)|
    ensures WithoutOldest(s, excess)[i] in s
  {
    if s != [] && excess > 0 {
      if IsOngoing(s[0]) {
        PruneMembers(s[1..], excess - 1, i);
      } else if i > 0 {
        PruneMembers(s[1..], excess, i - 1);
      }
    }
  }

  lemma {:induction false} PruneOrdered(s: seq<Attempt>, excess: int, least: nat)
    requires Ordered(s) && forall i :: 0 <= i < |s| ==> least <= s[i].id
    ensures var t := WithoutOldest(s, excess);
            Ordered(t) && forall i :: 0 <= i < |t| ==> least <= t[i].id
  {
    if s != [] && excess > 0 {
      if IsOngoing(s[0]) {
        PruneOrdered(s[1..], excess - 1, least);
      } else {
        PruneOrdered(s[1..], excess, s[0].id + 1);
      }
    }
  }

  // The attempts stand in the order in which they were started.
  ghost predicate Ordered(s: seq<Attempt>) {
    forall i, j :: 0 <= i < j < |s| ==> s[i].id < s[j].id
  }

  // The family of the last start; before the first one, IPv6 is next.
  ghost function LastFamily(log: seq<Start>): Family {
    if log == [] then V4 else log[|log| - 1].family
  }

  // Each start took an address before `n4` or `n6`, beyond the earlier ones of its
  // family, repeated the family of its predecessor only with none left of the other,
  // and joined an ongoing one only after the delay.
  ghost predicate LogOk(log: seq<Start>, n4: nat, n6: nat)
    decreases |log|
  {
    log == [] ||
    var start, before := log[|log| - 1], log[..|log| - 1];
    && start.index < (if start.family.V4? then n4 else n6)
    && (start.family == LastFamily(before) ==> start.otherLeft == 0)
    && (start.ongoing > 0 ==> start.wait <= 0)
    && LogOk(before, if start.family.V4? then start.index else n4, if start.family.V4? then n6 else start.index)
  }

  // Per family, addresses are tried in the order of the resolver, each at most once.
  lemma {:induction false} InResolverOrder(log: seq<Start>, n4: nat, n6: nat)
    requires LogOk(log, n4, n6)
    ensures forall i :: 0 <= i < |log| ==> log[i].index < if log[i].family.V4? then n4 else n6
    ensures forall i, j :: 0 <= i < j < |log| && log[i].family == log[j].family ==> log[i].index < log[j].index
    decreases |log|
  {
    if log != [] {
      var k := |log| - 1;
      var start, before := log[k], log[..k];
      InResolverOrder(before, if start.family.V4? then start.index else n4, if start.family.V4? then n6 else start.index);
      assert forall i :: 0 <= i < k ==> before[i] == log[i];
    }
  }

  // A family is tried twice in a row only when the other had run out, and IPv4
  // first only when there was no IPv6 address.
  lemma {:induction false} Alternates(log: seq<Start>, n4: nat, n6: nat, j: nat)
    requires LogOk(log, n4, n6) && j < |log| && log[j].family == LastFamily(log[..j])
    ensures log[j].otherLeft == 0
    decreases |log|
  {
    var k := |log| - 1;
    if j < k {
      var start, before := log[k], log[..k];
      assert before[..j] == log[..j];
      Alternates(before, if start.family.V4? then start.index else n4, if start.family.V4? then n6 else start.index, j);
    }
  }

  // An attempt joins an ongoing one only when the delay has passed.
  lemma {:induction false} KeepsDelay(log: seq<Start>, n4: nat, n6: nat, j: nat)
    requires LogOk(log, n4, n6) && j < |log| && log[j].ongoing > 0
    ensures log[j].wait <= 0
    decreases |log|
  {
    var k := |log| - 1;
    if j < k {
      var start, before := log[k], log[..k];
      KeepsDelay(before, if start.family.V4? then start.index else n4, if start.family.V4? then n6 else start.index, j);
    }
  }

  lemma {:induction false} LogGrows(log: seq<Start>, n4: nat, n6: nat, m4: nat, m6: nat)
    requires LogOk(log, n4, n6) && n4 <= m4 && n6 <= m6
    ensures LogOk(log, m4, m6)
    decreases |log|
  {
    if log != [] {
      var start, before := log[|log| - 1], log[..|log| - 1];
      if start.family.V4? {
        LogGrows(before, start.index, n6, start.index, m6);
      } else {
        LogGrows(before, n4, start.index, m4, start.index);
      }
    }
  }

  // A start that takes the next address of its family, and repeats the family of
  // the last one only when the other has run out, may be logged.
  lemma {:induction false} LogAppend(log: seq<Start>, n4: nat, n6: nat, start: Start, m4: nat, m6: nat)
    requires LogOk(log, n4, n6) && start.index == if start.family.V4? then n4 else n6
    requires (start.family == LastFamily(log) ==> start.otherLeft == 0) && (start.ongoing > 0 ==> start.wait <= 0)
    requires if start.family.V4? then m4 == n4 + 1 && m6 == n6 else m4 == n4 && m6 == n6 + 1
    ensures LogOk(log, m4, m6) && LogOk(log + [start], m4, m6)
  {
    LogGrows(log, n4, n6, m4, m6);
    assert (log + [start])[..|log|] == log;
  }

  class Ballers {
    var running: seq<Attempt>
    var winner: Option<Attempt>
    var n4: nat
    var n6: nat
    var lastStarted: int
    var lastFamily: Family
    const delay: nat
    const maxConcurrent: nat
    var count: nat           // attempts started so far; they are numbered in order
    ghost var log: seq<Start>
    ghost var freed: set<nat>

    // Every attempt ever started is running, is the winner, or has been freed;
    // a winner is alone; and the limit on concurrent attempts is kept.
    ghost predicate Race()
      reads this
    {
      && count == |log|
      && Accounted(Ids(running))
      && Ordered(running)
      && (forall i :: 0 <= i < |running| && running[i].connected ==> running[i].result.Ok?)
      && (winner.Some? ==> running == [])
      && (maxConcurrent > 0 ==> Ongoing(running) <= maxConcurrent)
    }

    ghost predicate Undecided()
      reads this
    {
      forall i :: 0 <= i < |running| ==> !running[i].connected
    }

    ghost predicate Valid()
      reads this
    {
      && Race()
      && Undecided()
      && LogOk(log, n4, n6)
      && lastFamily == LastFamily(log)
    }

    // The ids `live` and those of the winner and the freed attempts are all ids,
    // each in one of the three places.
    ghost predicate Accounted(live: set<nat>)
      reads this
    {
      && live !! freed
      && (winner.Some? ==> winner.value.id !in live && winner.value.id !in freed)
      && (forall id :: id in live || id in freed || (winner.Some? && winner.value.id == id) <==> 0 <= id < |log|)
    }

    constructor (delay: nat, maxConcurrent: nat)
      ensures Valid() && log == [] && winner.None? && running == [] && n4 == n6 == 0
      ensures this.delay == delay && this.maxConcurrent == maxConcurrent
    {
      running, winner, n4, n6 := [], None, 0, 0;
      lastStarted, lastFamily := 0, V4;
      this.delay, this.maxConcurrent := delay, maxConcurrent;
      count, log, freed := 0, [], {};
    }

    // cf_ip_attempt_connect
    static method Connect(a: Attempt, answer: Answer) returns (b: Attempt)
      ensures b == Polled(a, answer) && b.id == a.id
    {
      b := a;
      if a.result.Ok? && !a.connected {
        match answer {
          case Pending =>
          case Connects => b := b.(connected := true);
          case Fails(code) => b := b.(result := code, inconclusive := a.inconclusive || code.WeirdServerReply?);
        }
      }
    }

    static method CountOngoing(s: seq<Attempt>) returns (n: nat)
      ensures n == Ongoing(s)
    {
      n := 0;
      for i := 0 to |s|
        invariant n == Ongoing(s[..i])
      {
        Extend(s, i);
        if IsOngoing(s[i]) {
          n := n + 1;
        }
      }
      assert s[..|s|] == s;
    }

    // Declare the attempt at `k` the winner and free all others.
    method Win(k: nat, a: Attempt)
      requires Race() && winner.None? && k < |running| && a.id == running[k].id
      modifies this`running, this`winner, this`freed
      ensures Race() && winner == Some(a)
      ensures freed == old(freed) + (Ids(old(running)) - {a.id})
    {
      IdsMember(running, a.id);
      freed := freed + (Ids(running) - {a.id});
      winner, running := Some(a), [];
    }

    // Attempt `k` has been polled and has not connected.
    method Settle(k: nat, a: Attempt)
      requires Race() && k < |running| && a.id == running[k].id
      requires !a.connected && (IsOngoing(a) ==> IsOngoing(running[k]))
      modifies this`running
      ensures Race() && running == old(running)[k := a]
      ensures Ongoing(running[..k + 1]) == Ongoing(old(running)[..k]) + if IsOngoing(a) then 1 else 0
      ensures Inconclusive(running[..k + 1]) == Inconclusive(old(running)[..k]) + if IsInconclusive(a) then 1 else 0
    {
      Replace(running, k, a);
      assert running[k := a][..k] == running[..k];
      running := running[k := a];
      Extend(running, k);
    }

    // The scan at `evaluate`: poll every attempt; the first to connect wins, and
    // all others are freed.
    method Poll(answers: seq<Answer>) returns (won: bool, ongoing: nat, inconclusive: nat, ghost first: nat)
      requires Race() && winner.None?
      modifies this`running, this`winner, this`freed
      ensures Race()
      ensures first <= |old(running)| && forall i :: 0 <= i < first ==> !Wins(Polled(old(running)[i], AnswerAt(answers, i)))
      ensures won ==> first < |old(running)| && Wins(Polled(old(running)[first], AnswerAt(answers, first)))
      ensures won ==> winner == Some(Polled(old(running)[first], AnswerAt(answers, first)))
      ensures !won ==> winner.None? && first == |running| == |old(running)|
      ensures !won ==> forall i :: 0 <= i < |running| ==> running[i] == Polled(old(running)[i], AnswerAt(answers, i))
      ensures !won ==> ongoing == Ongoing(running) && inconclusive == Inconclusive(running)
      ensures !won ==> freed == old(freed)
      ensures Undecided() && old(freed) <= freed
    {
      ongoing, inconclusive, first := 0, 0, 0;
      var k := 0;
      while k < |running|
        invariant 0 <= k == first <= |running| == |old(running)|
        invariant forall i :: 0 <= i < k ==> running[i] == Polled(old(running)[i], AnswerAt(answers, i)) && !Wins(running[i])
        invariant forall i :: k <= i < |running| ==> running[i] == old(running)[i]
        invariant forall i :: 0 <= i < k ==> !running[i].connected
        invariant Race() && winner.None? && freed == old(freed)
        invariant ongoing == Ongoing(running[..k]) && inconclusive == Inconclusive(running[..k])
      {
        var a := Connect(running[k], AnswerAt(answers, k));
        if a.result.Ok? && a.connected {
          Win(k, a);
          won := true;
          return;
        }
        Settle(k, a);
        if a.result.Ok? {
          ongoing := ongoing + 1;
        } else if a.inconclusive {
          inconclusive := inconclusive + 1;
        }
        k, first := k + 1, first + 1;
      }
      assert running[..k] == running;
      won := false;
    }

    // The loop of cf_ip_ballers_prune: take out the oldest ongoing attempts until
    // `limit` are left.
    static method PruneList(s: seq<Attempt>, limit: nat) returns (t: seq<Attempt>)
      ensures t == WithoutOldest(s, Ongoing(s) - limit)
    {
      var ongoing := CountOngoing(s);
      var kept: seq<Attempt>, k: nat := [], 0;
      ghost var excess := ongoing - limit;
      ghost var goal := WithoutOldest(s, excess);
      assert s[0..] == s && [] + goal == goal;
      while k < |s| && ongoing > limit
        invariant k <= |s| && excess == ongoing - limit
        invariant kept + WithoutOldest(s[k..], excess) == goal
      {
        PruneStep(s, k, excess, kept);
        if IsOngoing(s[k]) {
          ongoing, excess := ongoing - 1, excess - 1;
        } else {
          kept := kept + [s[k]];
        }
        k := k + 1;
      }
      t := kept + s[k..];
    }

    // cf_ip_ballers_prune: free what the loop takes out.
    method Prune(limit: nat)
      requires Race() && winner.None?
      modifies this`running, this`freed
      ensures Race()
      ensures Ongoing(running) == if Ongoing(old(running)) <= limit then Ongoing(old(running)) else limit
      ensures running == WithoutOldest(old(running), Ongoing(old(running)) - limit)
      ensures freed == old(freed) + (Ids(old(running)) - Ids(running))
      ensures old(Undecided()) ==> Undecided()
    {
      PruneCounts(running, Ongoing(running) - limit);
      PruneOrdered(running, Ongoing(running) - limit, 0);
      var t := PruneList(running, limit);
      forall i | 0 <= i < |t|
        ensures t[i] in running
      {
        PruneMembers(running, Ongoing(running) - limit, i);
      }
      freed := freed + (Ids(running) - Ids(t));
      running := t;
    }

    // The addresses not yet tried.
    function Remaining(dns: Dns): nat
      reads this
    {
      (if n4 < dns.known4 then dns.known4 - n4 else 0) + (if n6 < dns.known6 then dns.known6 - n6 else 0)
    }

    // Take the next address, changing the family when possible.
    method NextAddress(dns: Dns, ongoing: nat, wait: int) returns (found: bool, start: Start)
      modifies this`n4, this`n6
      ensures start.ongoing == ongoing && start.wait == wait
      ensures found <==> old(Remaining(dns)) > 0
      ensures !found ==> n4 == old(n4) && n6 == old(n6)
      ensures found ==> Remaining(dns) == old(Remaining(dns)) - 1
      ensures found ==> start.index == if start.family.V4? then old(n4) else old(n6)
      ensures found ==> if start.family.V4? then n4 == old(n4) + 1 && n6 == old(n6) else n4 == old(n4) && n6 == old(n6) + 1
      ensures found && start.family == lastFamily ==> start.otherLeft == 0
    {
      found, start := false, Start(V4, 0, 0, ongoing, wait);
      var left4 := if n4 < dns.known4 then dns.known4 - n4 else 0;
      var left6 := if n6 < dns.known6 then dns.known6 - n6 else 0;
      if lastFamily.V4? || left4 == 0 {
        if left6 > 0 {
          found, start := true, Start(V6, n6, left4, ongoing, wait);
          n6 := n6 + 1;
        }
      }
      if !found && left4 > 0 {
        found, start := true, Start(V4, n4, left6, ongoing, wait);
        n4 := n4 + 1;
      }
    }

    // Start an attempt for the next address. Setting it up may fail.
    method TryStart(dns: Dns, ongoing: nat, now: int, setup: Code) returns (found: bool, error: Code)
      requires Valid() && winner.None?
      requires ongoing == Ongoing(running) && (ongoing > 0 ==> now - lastStarted >= delay)
      modifies this
      ensures Valid() && winner.None?
      ensures found <==> old(Remaining(dns)) > 0
      ensures found ==> Remaining(dns) == old(Remaining(dns)) - 1
      ensures !found ==> n4 == old(n4) && n6 == old(n6) && running == old(running) && lastStarted == old(lastStarted)
      ensures !found ==> log == old(log) && freed == old(freed)
      ensures old(log) <= log && old(freed) <= freed && error == if found then setup else Ok
      ensures |log| <= |old(log)| + 1
      ensures found && !error.Ok? ==> log == old(log) && lastStarted == old(lastStarted) && Ongoing(running) <= ongoing
      ensures found && error.Ok? ==> |log| > |old(log)| && lastStarted == now && Ongoing(running) > 0
      ensures found && error.Ok? && old(running) == [] ==> |running| == 1
      ensures |log| > |old(log)| ==>
                log[|old(log)|].ongoing == ongoing && log[|old(log)|].wait == delay - (now - old(lastStarted))
    {
      ghost var m4, m6 := n4, n6;
      var start;
      error := Ok;
      found, start := NextAddress(dns, ongoing, delay - (now - lastStarted));
      if !found {
        return;
      }
      LogAppend(log, m4, m6, start, n4, n6);
      MakeRoom();
      error := setup;
      if error.Ok? {
        Append(start, now);
      }
    }

    // Discard the oldest attempts to make room for a new one.
    method MakeRoom()
      requires Race() && Undecided() && winner.None?
      modifies this`running, this`freed
      ensures Race() && Undecided() && old(freed) <= freed
      ensures Ongoing(running) <= old(Ongoing(running))
      ensures maxConcurrent > 0 ==> Ongoing(running) < maxConcurrent
      ensures old(running) == [] ==> running == []
    {
      if maxConcurrent > 0 {
        Prune(maxConcurrent - 1);
      }
    }

    // Append a new attempt to the running list.
    method Append(start: Start, now: int)
      requires Race() && Undecided() && winner.None? && LogOk(log + [start], n4, n6)
      requires maxConcurrent > 0 ==> Ongoing(running) < maxConcurrent
      modifies this`running, this`log, this`count, this`lastStarted, this`lastFamily
      ensures Valid() && log == old(log) + [start] && lastStarted == now && Ongoing(running) > 0
      ensures |running| == |old(running)| + 1
    {
      var a := Attempt(count, Ok, false, false);
      CountsConcat(running, [a]);
      CountsOne(a);
      IdsConcat(running, [a]);
      assert [a][1..] == [];
      forall i | 0 <= i < |running|
        ensures running[i].id < a.id
      {
        IdsMember(running, running[i].id);
      }
      running := running + [a];
      count, log := count + 1, log + [start];
      lastStarted, lastFamily := now, start.family;
    }

    static function Reset(a: Attempt): Attempt {
      a.(result := Ok, connected := false, inconclusive := false)
    }

    // All attempts have failed, and as many as before to no conclusion.
    ghost predicate BackAgain(inconclusive: nat)
      reads this
    {
      Undecided() && Ongoing(running) == 0 && Inconclusive(running) == inconclusive
    }

    // cf_ip_attempt_restart: only an inconclusive attempt, and only with nothing
    // ongoing. The new attempt is polled at once.
    method Restart(k: nat, now: int, setup: Code, retry: Answer) returns (error: Code)
      requires Valid() && winner.None? && Ongoing(running) == 0
      requires k < |running| && IsInconclusive(running[k])
      modifies this`running, this`lastStarted
      ensures Race() && LogOk(log, n4, n6)
      ensures error.Ok? ==> lastStarted == now
      ensures !error.Ok? ==> Valid()
      ensures Ids(running) == Ids(old(running)) && error == setup
      ensures error.Ok? && retry == Fails(WeirdServerReply) ==> BackAgain(old(Inconclusive(running)))
      ensures running == old(running)[k := if error.Ok? then Polled(Reset(old(running)[k]), retry) else Reset(old(running)[k])]
    {
      var a := Reset(running[k]);
      error := setup;
      var b := a;
      if error.Ok? {
        b := Connect(a, retry);
        lastStarted := now;
      }
      Replace(running, k, b);
      running := running[k := b];
    }

    // What the branch without a further address does: restart an inconclusive
    // attempt, wait, or give up.
    method NothingLeft(ongoing: nat, inconclusive: nat, dnsResolved: bool, now: int, env: Env)
        returns (again: bool, outcome: Outcome)
      requires Valid() && winner.None?
      requires ongoing == Ongoing(running) == 0 && inconclusive == Inconclusive(running)
      modifies this`running, this`lastStarted
      ensures again ==> Race() && LogOk(log, n4, n6) && lastStarted == now
      ensures again <==> env.setup.Ok? && inconclusive > 0 && old(now - lastStarted) >= delay
      ensures again && env.retry == Fails(WeirdServerReply) ==> BackAgain(inconclusive)
      ensures !again ==> Valid() && (outcome.SetupFailed? || outcome.Exhausted? || outcome.Waiting?)
      ensures outcome.Exhausted? && !again ==>
                && dnsResolved && Inconclusive(running) == 0 && Ongoing(running) == 0
                && outcome.code == if running == [] then CouldntConnect else running[|running| - 1].result
      ensures outcome.Waiting? && !again ==> lastStarted == old(lastStarted)
      ensures outcome.Waiting? && !again ==>
                && Ongoing(running) == 0 && Inconclusive(running) == inconclusive
                && if inconclusive == 0 then !dnsResolved && outcome.timer.None?
                   else outcome.timer == Some(delay - (now - lastStarted)) && outcome.timer.value > 0
    {
      again := false;
      if inconclusive > 0 {
        var delayMs := delay - (now - lastStarted);
        if delayMs > 0 {
          return false, Waiting(Some(delayMs));
        }
        var k := 0;
        while k < |running| && !running[k].inconclusive
          invariant 0 <= k <= |running| && unchanged(this)
          invariant forall i :: 0 <= i < k ==> !running[i].inconclusive
        {
          k := k + 1;
        }
        FindInconclusive(running, k);
        var error := Restart(k, now, env.setup, env.retry);
        again, outcome := error.Ok?, SetupFailed(error);
      } else if dnsResolved {
        var code := CouldntConnect;
        for i := 0 to |running|
          invariant unchanged(this)
          invariant code == if i == 0 then CouldntConnect else running[i - 1].result
        {
          AllFailed(running);
          if !running[i].result.Ok? {
            code := running[i].result;
          }
        }
        outcome := Exhausted(code);
      } else {
        outcome := Waiting(None);
      }
    }

    // The branch that starts or restarts an attempt.
    method StartMore(dns: Dns, ongoing: nat, inconclusive: nat, dnsResolved: bool, now: int, env: Env)
        returns (again: bool, outcome: Outcome)
      requires Valid() && winner.None?
      requires ongoing == Ongoing(running) && inconclusive == Inconclusive(running)
      requires ongoing > 0 ==> now - lastStarted >= delay && Remaining(dns) > 0
      modifies this
      ensures Race() && LogOk(log, n4, n6) && lastFamily == LastFamily(log) && winner.None?
      ensures old(log) <= log && old(freed) <= freed
      ensures old(Remaining(dns)) > 0 && env.setup.Ok? ==>
                again && Valid() && Remaining(dns) == old(Remaining(dns)) - 1 && lastStarted == now && Ongoing(running) > 0
                && (old(running) == [] ==> |running| == 1)
      ensures again ==> Progress(old(Remaining(dns)), old(lastStarted), dns, now)
      ensures old(Restartable(dns, now)) && env.setup.Ok? ==>
                again && log == old(log) && freed == old(freed)
                && (env.retry == Fails(WeirdServerReply) ==> BackAgain(inconclusive))
      ensures again && Remaining(dns) == old(Remaining(dns)) ==> env.setup.Ok? && old(Restartable(dns, now))
      ensures !again && Remaining(dns) > 0 && Ongoing(running) > 0 ==> now - lastStarted >= delay
      ensures !again ==> Undecided() && (outcome.SetupFailed? || outcome.Exhausted? || outcome.Waiting?)
      ensures !again ==> Expected(outcome, dns, dnsResolved, now)
      ensures !again && outcome.Waiting? ==> Remaining(dns) == old(Remaining(dns)) == 0
    {
      var found, error := TryStart(dns, ongoing, now, env.setup);
      if found {
        again, outcome := error.Ok?, SetupFailed(error);
      } else {
        again, outcome := NothingLeft(ongoing, inconclusive, dnsResolved, now, env);
      }
    }

    // Without an address left, all attempts have failed, one of them to no conclusion,
    // and the delay has passed.
    ghost predicate Restartable(dns: Dns, now: int)
      reads this
    {
      && winner.None? && Remaining(dns) == 0 && now - lastStarted >= delay
      && Ongoing(running) == 0 && Inconclusive(running) > 0
    }

    function Earlier(timeleft: int, now: int): int
      reads this
    {
      if timeleft < delay - (now - lastStarted) then timeleft else delay - (now - lastStarted)
    }

    // When to be called again. A time left of 0 is no limit; with another address to
    // try, it makes the loop poll again at once.
    method Schedule(waiting: Outcome, morePossible: bool, now: int, timeleft: int) returns (outcome: Outcome)
      requires morePossible ==> now - lastStarted < delay
      ensures outcome == if timeleft < 0 then TimedOut
                         else if !morePossible then waiting
                         else if timeleft == 0 then Spins
                         else Waiting(Some(Earlier(timeleft, now)))
    {
      if timeleft < 0 {
        return TimedOut;
      }
      outcome := waiting;
      if morePossible {
        var expire := if delay - (now - lastStarted) > 0 then delay - (now - lastStarted) else 0;
        var next := if timeleft < expire then timeleft else expire;
        outcome := if next <= 0 then Spins else Waiting(Some(next));
      }
    }

    // Without a limit on the time, another address could be tried, but the delay since
    // the last start has not passed and an attempt is ongoing.
    ghost predicate Spinning(dns: Dns, now: int, timeleft: int)
      reads this
    {
      timeleft == 0 && winner.None? && Remaining(dns) > 0 && Ongoing(running) > 0 && now - lastStarted < delay
    }

    // Giving up takes an empty resolver and nothing left to hope for. With an address
    // left, the timer is due before the delay ends; without one and with nothing
    // ongoing, the wait is for the resolver or for a restart.
    ghost predicate Expected(outcome: Outcome, dns: Dns, dnsResolved: bool, now: int)
      reads this
    {
      match outcome
      case Exhausted(code) =>
        && dnsResolved && Remaining(dns) == 0 && Ongoing(running) == 0 && Inconclusive(running) == 0
        && code == if running == [] then CouldntConnect else running[|running| - 1].result
      case Waiting(timer) =>
        if Remaining(dns) > 0 then
          Ongoing(running) > 0 && timer.Some? && 0 < timer.value <= delay - (now - lastStarted)
        else if Ongoing(running) > 0 then timer.None?
        else if Inconclusive(running) > 0 then
          timer == Some(delay - (now - lastStarted)) && timer.value > 0
        else !dnsResolved && timer.None?
      case _ => true
    }

    // A wait takes time left, and ends with it or with the delay; and the loop spins
    // exactly in the states for it.
    ghost predicate Justified(outcome: Outcome, dns: Dns, dnsResolved: bool, now: int, timeleft: int)
      reads this
    {
      && Expected(outcome, dns, dnsResolved, now)
      && (outcome.TimedOut? ==> timeleft < 0)
      && (outcome.Waiting? ==> timeleft >= 0)
      && (outcome.Waiting? && Remaining(dns) > 0 ==> timeleft > 0 && outcome.timer == Some(Earlier(timeleft, now)))
      && (outcome.Spins? <==> Spinning(dns, now, timeleft))
    }

    // One round of cf_ip_ballers_run, from `evaluate` on. It goes `again` after a start
    // or a restart. With all attempts pending it spins, and changes nothing, exactly in
    // the states for it.
    method Round(dns: Dns, dnsResolved: bool, now: int, timeleft: int, env: Env) returns (again: bool, outcome: Outcome)
      requires Race() && LogOk(log, n4, n6) && lastFamily == LastFamily(log) && winner.None?
      modifies this
      ensures Race() && LogOk(log, n4, n6) && lastFamily == LastFamily(log)
      ensures old(log) <= log && old(freed) <= freed
      ensures again ==> winner.None? && Progress(old(Remaining(dns)), old(lastStarted), dns, now)
      ensures !again ==> Valid() && Justified(outcome, dns, dnsResolved, now, timeleft)
      ensures !again ==> !outcome.AlreadyWon? && !outcome.Restarts?
      ensures !again ==> (outcome.Won? <==> winner.Some?)
      ensures old(running) == [] && old(Remaining(dns)) > 0 && env.setup.Ok? ==>
                again && Valid() && Remaining(dns) == old(Remaining(dns)) - 1 && lastStarted == now && Ongoing(running) > 0
                && |running| == 1
      ensures old(Undecided()) && env.answers == [] ==>
                (!again && outcome.Spins? <==> old(Spinning(dns, now, timeleft)))
      ensures old(Undecided()) && env.answers == [] && !again && outcome.Spins? ==> unchanged(this)
      ensures old(Undecided() && Restartable(dns, now)) && env.setup.Ok? ==>
                again && Remaining(dns) == 0 && lastStarted == now && log == old(log) && freed == old(freed)
                && (env.retry == Fails(WeirdServerReply) ==> BackAgain(old(Inconclusive(running))))
    {
      if Undecided() && Ongoing(running) == 0 {
        AllFailed(running);
      }
      var won, ongoing, inconclusive, first := Poll(env.answers);
      again, outcome := false, Won;
      if !won {
        assert old(Undecided() && (env.answers == [] || Ongoing(running) == 0)) ==> running == old(running);
        again, outcome := Proceed(dns, ongoing, inconclusive, dnsResolved, now, timeleft, env);
      }
    }

    // A start takes an address; a restart comes at the end of the delay only.
    ghost predicate Progress(remaining: nat, started: int, dns: Dns, now: int)
      reads this
    {
      || Remaining(dns) < remaining
      || (Remaining(dns) == remaining == 0 && now - started >= delay && lastStarted == now)
    }

    // The round from the end of the scan on.
    method Proceed(dns: Dns, ongoing: nat, inconclusive: nat, dnsResolved: bool, now: int, timeleft: int, env: Env)
        returns (again: bool, outcome: Outcome)
      requires Valid() && winner.None?
      requires ongoing == Ongoing(running) && inconclusive == Inconclusive(running)
      modifies this
      ensures Race() && LogOk(log, n4, n6) && lastFamily == LastFamily(log) && winner.None?
      ensures old(log) <= log && old(freed) <= freed
      ensures again ==> Progress(old(Remaining(dns)), old(lastStarted), dns, now)
      ensures again && Remaining(dns) == old(Remaining(dns)) <==> env.setup.Ok? && old(Restartable(dns, now))
      ensures old(Restartable(dns, now)) && env.setup.Ok? ==>
                log == old(log) && freed == old(freed)
                && (env.retry == Fails(WeirdServerReply) ==> BackAgain(inconclusive))
      ensures !again ==> Valid() && Justified(outcome, dns, dnsResolved, now, timeleft)
      ensures !again ==> !outcome.AlreadyWon? && !outcome.Won? && !outcome.Restarts?
      ensures ongoing == 0 && old(Remaining(dns)) > 0 && env.setup.Ok? ==>
                again && Valid() && Remaining(dns) == old(Remaining(dns)) - 1 && lastStarted == now && Ongoing(running) > 0
                && (old(running) == [] ==> |running| == 1)
      ensures !again && outcome.Spins? <==> old(Spinning(dns, now, timeleft))
      ensures !again && outcome.Spins? ==> unchanged(this)
    {
      again, outcome := false, Waiting(None);
      var morePossible := n4 < dns.known4 || n6 < dns.known6;
      if ongoing == 0 || (morePossible && now - lastStarted >= delay) {
        again, outcome := StartMore(dns, ongoing, inconclusive, dnsResolved, now, env);
      }
      if !again && outcome.Waiting? {
        outcome := Schedule(outcome, morePossible, now, timeleft);
      }
    }

    // cf_ip_ballers_run, with the clock standing still. It ends, or comes to spin: then
    // the code polls on until an attempt answers or the delay has passed. Without a delay,
    // it may also restart one attempt after the other: then the code goes on as long as
    // no attempt comes to a conclusion.
    method Run(dns: Dns, dnsResolved: bool, now: int, timeleft: int) returns (outcome: Outcome)
      requires Valid()
      modifies this
      ensures Race() && LogOk(log, n4, n6) && lastFamily == LastFamily(log)
      ensures outcome.AlreadyWon? <==> old(winner.Some?)
      ensures outcome.Won? <==> old(winner.None?) && winner.Some?
      ensures old(winner.Some?) ==> winner == old(winner)
      ensures if outcome.Restarts? then delay == 0 && Remaining(dns) == 0 && lastStarted == now
              else Valid() && Justified(outcome, dns, dnsResolved, now, timeleft)
      ensures old(log) <= log && old(freed) <= freed
    {
      if winner.Some? {
        return AlreadyWon;
      }
      var again, restarted := true, false;
      outcome := Waiting(None);
      while again
        invariant Race() && LogOk(log, n4, n6) && lastFamily == LastFamily(log)
        invariant old(log) <= log && old(freed) <= freed
        invariant restarted && again ==> Remaining(dns) == 0 && lastStarted == now
        invariant if again then winner.None?
                  else
                    && Valid() && Justified(outcome, dns, dnsResolved, now, timeleft)
                    && !outcome.AlreadyWon? && !outcome.Restarts? && (outcome.Won? <==> winner.Some?)
        decreases again, Remaining(dns), !restarted
      {
        var env: Env := *;
        var left := Remaining(dns);
        again, outcome := Round(dns, dnsResolved, now, timeleft, env);
        if again && Remaining(dns) == left {
          if restarted {
            return Restarts;
          }
          restarted := true;
        }
      }
    }

    // A race that spins does so through any number of rounds in which no attempt answers.
    method StaysSpinning(dns: Dns, dnsResolved: bool, now: int, rounds: nat) returns (spins: nat)
      requires Valid() && Spinning(dns, now, 0)
      modifies this
      ensures spins == rounds && unchanged(this)
    {
      spins := 0;
      for k := 0 to rounds
        invariant spins == k && unchanged(this)
      {
        var again, outcome := Round(dns, dnsResolved, now, 0, Env([], Ok, Pending));
        if !again && outcome.Spins? {
          spins := spins + 1;
        }
      }
    }

    // Without a delay, any number of restarts may follow each other, with no time between
    // and no end in sight: one attempt answers to no conclusion each time.
    method KeepsRestarting(dns: Dns, dnsResolved: bool, now: int, timeleft: int, rounds: nat) returns (restarts: nat)
      requires Valid() && delay == 0 && Restartable(dns, now)
      modifies this
      ensures restarts == rounds && Valid() && Restartable(dns, now)
      ensures log == old(log) && freed == old(freed)
    {
      restarts := 0;
      for k := 0 to rounds
        invariant restarts == k && Valid() && Restartable(dns, now) && log == old(log) && freed == old(freed)
      {
        var again, outcome := Round(dns, dnsResolved, now, timeleft, Env([], Ok, Fails(WeirdServerReply)));
        if again {
          restarts := restarts + 1;
        }
      }
    }
  }

  // One address and no delay: the scan of the second round leads to such a state.
  method OneAddressRestarts(now: int) returns (b: Ballers)
    ensures fresh(b) && b.Valid() && b.delay == 0 && b.Restartable(Dns(1, 0), now)
  {
    b := new Ballers(0, 6);
    var again, outcome := b.Round(Dns(1, 0), true, now, 0, Env([], Ok, Pending));
    var won, ongoing, inconclusive, first := b.Poll([Fails(WeirdServerReply)]);
  }

  // Two addresses and no limit on the time: once the first is being tried, the loop spins.
  method TwoAddressesSpin(now: int) returns (b: Ballers)
    ensures fresh(b) && b.Valid() && b.delay == 200 && b.Spinning(Dns(2, 0), now, 0)
  {
    b := new Ballers(200, 6);
    var again, outcome := b.Round(Dns(2, 0), true, now, 0, Env([], Ok, Pending));
  }
}
