// The chunked byte queue of old/lib/bufq.c: a list of fixed-size chunks with
// read and write offsets, a list of spare chunks, an optional pool shared
// between queues, hard or soft limits, and reader/writer callbacks.
//
// A queue knows how many chunk allocations will succeed before one fails; readers
// and writers may answer anything their signature allows. Every contract below holds
// for all such numbers and answers.

module BufferQueue {
  import opened Bytes

  datatype Code = Ok | Again | OutOfMemory | Failed(code: nat)

  function Min(a: nat, b: nat): nat { if a <= b then a else b }

  // A chunk; its capacity is |data|, and data[r..w] are the unread bytes.
  datatype Chunk = Chunk(data: seq<byte>, r: nat, w: nat) {
    ghost predicate Valid() {
      r <= w <= |data|
    }

    ghost function Unread(): seq<byte> {
      if Valid() then data[r..w] else []
    }

    predicate IsEmpty() { r >= w }

    predicate IsFull() { w >= |data| }

    function Reset(): Chunk { Chunk(data, 0, 0) }

    // chunk_append
    method Append(buf: seq<byte>) returns (c: Chunk, n: nat)
      requires Valid()
      ensures c.Valid() && |c.data| == |data|
      ensures n <= |buf| && (n == |buf| || c.IsFull())
      ensures c.r == r && c.w == w + n
      ensures c.Unread() == Unread() + buf[..n]
    {
      n := Min(|data| - w, |buf|);
      c := Chunk(data[..w] + buf[..n] + data[w + n..], r, w + n);
    }

    // chunk_read; chunk_skip is the same without the copy.
    method Take(amount: nat) returns (c: Chunk, got: seq<byte>)
      requires Valid()
      ensures c.Valid() && |c.data| == |data|
      ensures Unread() == got + c.Unread()
      ensures |got| <= amount && (|got| == amount || c.IsEmpty())
      ensures if c.IsEmpty() && !IsEmpty() then c.w == 0 else c.w == w
    {
      var n := w - r;
      if n == 0 {
        return this, [];
      }
      n := Min(n, amount);
      got := data[r..r + n];
      c := if r + n == w then Chunk(data, 0, 0) else Chunk(data, r + n, w);
    }
  }

  // A chunk of the given size that was not left empty in the middle.
  ghost predicate ChunkOk(c: Chunk, size: nat) {
    c.Valid() && |c.data| == size && (c.IsEmpty() ==> c.w == 0)
  }

  ghost predicate ListOk(cs: seq<Chunk>, size: nat) {
    forall i :: 0 <= i < |cs| ==> ChunkOk(cs[i], size)
  }

  // Every chunk but the last is written to its end, and only the first is read from.
  ghost predicate Packed(cs: seq<Chunk>) {
    && (forall i :: 0 <= i < |cs| - 1 ==> cs[i].IsFull())
    && (forall i :: 1 <= i < |cs| ==> cs[i].r == 0)
  }

  ghost function FirstRead(cs: seq<Chunk>): nat {
    if cs == [] then 0 else cs[0].r
  }

  ghost function LastRoom(cs: seq<Chunk>, size: nat): int {
    if cs == [] then 0 else size - cs[|cs| - 1].w
  }

  // What a list of chunks holds.
  ghost function Held(cs: seq<Chunk>): seq<byte> {
    if cs == [] then [] else cs[0].Unread() + Held(cs[1..])
  }

  lemma {:induction false} HeldSnoc(cs: seq<Chunk>, c: Chunk)
    ensures Held(cs + [c]) == Held(cs) + c.Unread()
  {
    if cs == [] {
      assert cs + [c] == [c] && [c][1..] == [];
    } else {
      assert (cs + [c])[1..] == cs[1..] + [c];
      HeldSnoc(cs[1..], c);
    }
  }

  // Replacing the last chunk by one with more bytes at its end.
  lemma {:induction false} HeldLast(cs: seq<Chunk>, c: Chunk, more: seq<byte>)
    requires cs != [] && c.Unread() == cs[|cs| - 1].Unread() + more
    ensures Held(cs[..|cs| - 1] + [c]) == Held(cs) + more
  {
    var front := cs[..|cs| - 1];
    assert cs == front + [cs[|cs| - 1]];
    HeldSnoc(front, cs[|cs| - 1]);
    HeldSnoc(front, c);
    Associate(Held(front), cs[|cs| - 1].Unread(), more);
  }

  // Replacing the first chunk by one without its first bytes.
  lemma {:induction false} HeldFirst(cs: seq<Chunk>, c: Chunk, got: seq<byte>)
    requires cs != [] && cs[0].Unread() == got + c.Unread()
    ensures Held(cs) == got + Held([c] + cs[1..])
  {
    assert ([c] + cs[1..])[1..] == cs[1..];
    var rest := Held(cs[1..]);
    assert Held(cs) == (got + c.Unread()) + rest;
    assert (got + c.Unread()) + rest == got + (c.Unread() + rest);
  }

  lemma {:induction false} HeldStep(cs: seq<Chunk>, k: nat)
    requires k < |cs|
    ensures Held(cs[k..]) == cs[k].Unread() + Held(cs[k + 1..])
  {
    assert cs[k..][1..] == cs[k + 1..];
  }

  lemma {:induction false} EmptyFrom(cs: seq<Chunk>, k: nat, size: nat)
    requires ListOk(cs, size) && Packed(cs) && size > 0
    requires k < |cs| && cs[k].IsEmpty()
    ensures Held(cs[k..]) == []
  {
    assert cs[k..] == [cs[k]] && [cs[k]][1..] == [];
  }

  lemma {:induction false} EmptyList(cs: seq<Chunk>, size: nat)
    requires ListOk(cs, size) && Packed(cs) && size > 0
    ensures Held(cs) == [] <==> cs == [] || cs[0].IsEmpty()
  {
    if cs != [] && cs[0].IsEmpty() {
      EmptyFrom(cs, 0, size);
      assert cs[0..] == cs;
    } else if cs != [] {
      assert |cs[0].Unread()| > 0;
    }
  }

  lemma {:induction false} Associate(a: seq<byte>, b: seq<byte>, c: seq<byte>)
    ensures a + (b + c) == (a + b) + c
  {
  }

  lemma {:induction false} Cut(a: seq<byte>, b: seq<byte>)
    ensures (a + b)[..|a|] == a && (a + b)[|a|..] == b
  {
  }

  lemma {:induction false} Within(all: seq<byte>, a: seq<byte>, b: seq<byte>, c: seq<byte>, at: nat)
    requires at < |b| && a + (b + c) == all
    ensures |a| + at < |all| && b[at..] <= all[|a| + at..]
  {
    assert all[|a| + at..] == b[at..] + c;
  }

  lemma {:induction false} PassStep(sent: seq<byte>, held: seq<byte>, shown: seq<byte>, m: nat)
    requires m <= |shown| && shown <= held
    ensures (sent + shown[..m]) + held[m..] == sent + held
  {
    assert shown[..m] == held[..m] && held[..m] + held[m..] == held;
  }

  lemma {:induction false} WritePassStep(start: seq<byte>, sent: seq<byte>, held: seq<byte>, buf: seq<byte>, n: nat, m: nat)
    requires n + m <= |buf| && sent + held == start + buf[..n]
    ensures sent + (held + buf[n..][..m]) == start + buf[..n + m]
  {
    WriteStep(start, sent + held, buf, n, m);
  }

  lemma {:induction false} SipStep(start: seq<byte>, held: seq<byte>, g0: seq<byte>, g1: seq<byte>, g2: seq<byte>)
    requires g0 <= g1 <= g2 && held == start + g1[|g0|..]
    ensures held + g2[|g1|..] == start + g2[|g0|..]
  {
    assert g1[|g0|..] + g2[|g1|..] == g2[|g0|..];
  }

  // A packed list holds all it has room for, less what was read from its first
  // chunk and what its last chunk can still take.
  lemma {:induction false} HeldLength(cs: seq<Chunk>, size: nat)
    requires ListOk(cs, size) && Packed(cs)
    ensures |Held(cs)| == |cs| * size - FirstRead(cs) - LastRoom(cs, size)
  {
    if cs == [] {
    } else if |cs| == 1 {
      assert cs[1..] == [];
    } else {
      var rest := cs[1..];
      HeldLength(rest, size);
      OneMore(|rest|, size);
      assert rest[|rest| - 1] == cs[|cs| - 1] && rest[0] == cs[1];
      assert |cs[0].Unread()| == size - cs[0].r;
    }
  }

  lemma {:induction false} OneMore(n: nat, size: nat)
    ensures (n + 1) * size == n * size + size
  {
  }

  // The bytes that fit in a list and `slots` more chunks.
  ghost function Space(cs: seq<Chunk>, slots: int, size: nat): int
    decreases slots
  {
    if slots <= 0 then LastRoom(cs, size) else Space(cs, slots - 1, size) + size
  }

  lemma {:induction false} SpaceIs(cs: seq<Chunk>, slots: nat, size: nat)
    ensures Space(cs, slots, size) == LastRoom(cs, size) + slots * size
  {
    if slots > 0 {
      SpaceIs(cs, slots - 1, size);
      OneMore(slots - 1, size);
    }
  }

  lemma {:induction false} SpaceIsNatural(cs: seq<Chunk>, slots: int, size: nat)
    requires ListOk(cs, size)
    ensures Space(cs, slots, size) >= 0
    decreases slots
  {
    if slots > 0 {
      SpaceIsNatural(cs, slots - 1, size);
    }
  }

  // How many bytes a list took in, when chunks were only added at its end.
  lemma {:induction false} TakenIn(cs: seq<Chunk>, ds: seq<Chunk>, max: nat, size: nat)
    requires ListOk(cs, size) && Packed(cs) && ListOk(ds, size) && Packed(ds) && size > 0
    requires FirstRead(cs) == FirstRead(ds) && |cs| <= |ds| <= max
    ensures |Held(ds)| - |Held(cs)| <= Space(cs, max - |cs|, size)
    ensures LastRoom(ds, size) == 0 ==>
              (|Held(ds)| - |Held(cs)| == Space(cs, max - |cs|, size) <==> |ds| == max)
  {
    HeldLength(cs, size);
    HeldLength(ds, size);
    ChunkSpace(|cs|, |ds|, max, size);
    SpaceIs(cs, max - |cs|, size);
    assert LastRoom(ds, size) >= 0;
  }

  // What a write comes to: all of the buffer, what the limit leaves room for, or what
  // can be had before an allocation fails, whichever is least.
  ghost function Least(total: nat, hard: bool, room: int, reach: int): int {
    var fit := if hard && room < total then room else total;
    if reach < fit then reach else fit
  }

  // The list `cs` became `ds` by a write of `total` bytes, of which `n` went in; it
  // stopped early, if at all, for the limit or because it was starved of memory.
  lemma {:induction false} Written(cs: seq<Chunk>, ds: seq<Chunk>, total: nat, n: nat, hard: bool, max: nat,
      supply: nat, starved: bool, size: nat)
    requires ListOk(cs, size) && Packed(cs) && ListOk(ds, size) && Packed(ds) && size > 0
    requires FirstRead(cs) == FirstRead(ds) && |Held(ds)| == |Held(cs)| + n && n <= total
    requires |cs| <= |ds| <= |cs| + supply && (hard ==> |ds| <= max)
    requires starved ==> n < total && LastRoom(ds, size) == 0 && |ds| == |cs| + supply && (hard ==> |ds| < max)
    requires !starved && n < total ==> LastRoom(ds, size) == 0 && hard && |ds| == max
    ensures n == Least(total, hard, Space(cs, max - |cs|, size), Space(cs, supply, size))
    ensures starved <==> Space(cs, supply, size) < Least(total, hard, Space(cs, max - |cs|, size), total)
  {
    TakenIn(cs, ds, |cs| + supply, size);
    if hard {
      TakenIn(cs, ds, max, size);
    }
  }

  lemma {:induction false} SpaceGrows(cs: seq<Chunk>, a: nat, b: nat, size: nat)
    requires a <= b
    ensures Space(cs, a, size) <= Space(cs, b, size)
  {
    if a < b {
      SpaceGrows(cs, a, b - 1, size);
    }
  }

  lemma {:induction false} SpaceShift(cs: seq<Chunk>, ds: seq<Chunk>, slots: int, size: nat)
    ensures Space(ds, slots, size) - Space(cs, slots, size) == LastRoom(ds, size) - LastRoom(cs, size)
    decreases slots
  {
    if slots > 0 {
      SpaceShift(cs, ds, slots - 1, size);
    }
  }

  lemma {:induction false} ChunkSpace(a: nat, b: nat, max: nat, size: nat)
    requires a <= b <= max && size > 0
    ensures b * size - a * size <= (max - a) * size
    ensures b * size - a * size == (max - a) * size <==> b == max
  {
    assert (max - a) * size == max * size - a * size;
    assert max * size - b * size == (max - b) * size >= 0;
    assert b < max ==> (max - b) * size > 0;
  }

  lemma {:induction false} NoRoom(cs: seq<Chunk>, slots: nat, size: nat)
    requires ListOk(cs, size) && size > 0
    ensures Space(cs, slots, size) == 0 <==> slots == 0 && (cs == [] || cs[|cs| - 1].IsFull())
  {
    SpaceIs(cs, slots, size);
    assert slots > 0 ==> slots * size > 0;
  }

  lemma {:induction false} EmptyNotFull(cs: seq<Chunk>, size: nat)
    requires ListOk(cs, size) && Packed(cs) && size > 0
    ensures Held(cs) == [] ==> cs == [] || !cs[|cs| - 1].IsFull()
  {
    EmptyList(cs, size);
  }

  lemma {:induction false} WriteStep(start: seq<byte>, now: seq<byte>, buf: seq<byte>, n: nat, m: nat)
    requires n + m <= |buf| && now == start + buf[..n]
    ensures now + buf[n..][..m] == start + buf[..n + m]
  {
    assert buf[..n] + buf[n..][..m] == buf[..n + m];
  }

  // chunk_append on the last chunk of a list.
  method AppendLast(cs: seq<Chunk>, buf: seq<byte>, size: nat) returns (ds: seq<Chunk>, n: nat)
    requires cs != [] && ListOk(cs, size) && Packed(cs)
    ensures |ds| == |cs| && ListOk(ds, size) && Packed(ds)
    ensures n <= |buf| && (n == |buf| || ds[|ds| - 1].IsFull())
    ensures ds[|ds| - 1].w == cs[|cs| - 1].w + n
    ensures Held(ds) == Held(cs) + buf[..n] && FirstRead(ds) == FirstRead(cs)
  {
    var last := |cs| - 1;
    var c;
    c, n := cs[last].Append(buf);
    HeldLast(cs, c, buf[..n]);
    ds := cs[..last] + [c];
  }

  // chunk_read or chunk_skip on the first chunk of a list.
  method TakeFirst(cs: seq<Chunk>, amount: nat, size: nat) returns (ds: seq<Chunk>, got: seq<byte>)
    requires cs != [] && ListOk(cs, size) && Packed(cs)
    ensures |ds| == |cs| && ListOk(ds, size) && (Packed(ds) || (ds[0].IsEmpty() && Packed(ds[1..])))
    ensures |got| <= amount && (|got| == amount || ds[0].IsEmpty())
    ensures got + Held(ds) == Held(cs)
  {
    var c;
    c, got := cs[0].Take(amount);
    HeldFirst(cs, c, got);
    ds := [c] + cs[1..];
  }

  // The loop of Curl_bufq_peek_at.
  method ShowAt(cs: seq<Chunk>, offset: nat, size: nat) returns (shown: seq<byte>)
    requires ListOk(cs, size) && Packed(cs) && size > 0
    ensures offset >= |Held(cs)| <==> shown == []
    ensures offset < |Held(cs)| ==> shown <= Held(cs)[offset..]
  {
    var k: nat, rest: nat := 0, offset;
    ghost var all, seen, todo := Held(cs), [], Held(cs);
    assert cs[0..] == cs;
    while k < |cs|
      invariant 0 <= k <= |cs|
      invariant |seen| + rest == offset
      invariant seen + todo == all && todo == Held(cs[k..])
    {
      var c := cs[k];
      ghost var tail := Held(cs[k + 1..]);
      HeldStep(cs, k);
      var clen := c.w - c.r;
      if clen == 0 {
        EmptyFrom(cs, k, size);
        break;
      }
      if rest >= clen {
        Associate(seen, c.Unread(), tail);
        seen, todo := seen + c.Unread(), tail;
        rest := rest - clen;
        k := k + 1;
        continue;
      }
      shown := c.data[c.r + rest..c.w];
      assert shown == c.Unread()[rest..];
      Within(all, seen, c.Unread(), tail, rest);
      return;
    }
    assert todo == [];
    shown := [];
  }

  // A pool of spare chunks of one size, shared between queues.
  class ChunkPool {
    var spare: seq<Chunk>
    const chunkSize: nat
    const spareMax: nat

    ghost predicate Valid()
      reads this
    {
      && chunkSize > 0 && |spare| <= spareMax
      && forall i :: 0 <= i < |spare| ==> |spare[i].data| == chunkSize
    }

    constructor (chunkSize: nat, spareMax: nat)
      requires chunkSize > 0 && spareMax > 0
      ensures Valid() && spare == []
      ensures this.chunkSize == chunkSize && this.spareMax == spareMax
    {
      this.chunkSize, this.spareMax, spare := chunkSize, spareMax, [];
    }

    // bufcp_take: a spare chunk if there is one, else an allocation if one is granted.
    method Take(granted: bool) returns (ok: bool, c: Chunk)
      requires Valid()
      modifies this
      ensures Valid()
      ensures ok <==> old(spare) != [] || granted
      ensures spare == if old(spare) == [] then [] else old(spare)[1..]
      ensures ok ==> c.r == c.w == 0 && |c.data| == chunkSize
    {
      if spare != [] {
        ok, c, spare := true, spare[0].Reset(), spare[1..];
      } else {
        ok, c := Calloc(chunkSize, granted);
      }
    }

    // bufcp_put: keep the chunk unless the pool holds enough already.
    method Put(c: Chunk)
      requires Valid() && |c.data| == chunkSize
      modifies this
      ensures Valid()
      ensures spare == if |old(spare)| < spareMax then [c.Reset()] + old(spare) else old(spare)
    {
      if |spare| < spareMax {
        spare := [c.Reset()] + spare;
      }
    }
  }

  // A zeroed chunk, or no memory.
  method Calloc(size: nat, granted: bool) returns (ok: bool, c: Chunk)
    ensures ok == granted && c == Chunk(seq(size, _ => 0), 0, 0)
  {
    ok, c := granted, Chunk(seq(size, _ => 0), 0, 0);
  }

  // An arbitrary writer callback; `sent` is what it has accepted so far, `answer` and
  // `took` what its last call came to.
  class Writer {
    var sent: seq<byte>
    ghost var calls: nat
    ghost var answer: Code
    ghost var took: nat

    method Write(buf: seq<byte>) returns (code: Code, n: nat)
      modifies this
      ensures n <= |buf|
      ensures sent == old(sent) + if code.Ok? then buf[..n] else []
      ensures calls == old(calls) + 1 && answer == code && took == if code.Ok? then n else 0
    {
      code := *;
      n :| n <= |buf|;
      if code.Ok? {
        sent := sent + buf[..n];
      }
      calls, answer, took := calls + 1, code, if code.Ok? then n else 0;
    }
  }

  // An arbitrary reader callback; `given` is what it has delivered so far, `answer`
  // its last answer.
  class Reader {
    var given: seq<byte>
    ghost var calls: nat
    ghost var answer: Code

    method Read(max: nat) returns (code: Code, out: seq<byte>)
      modifies this
      ensures |out| <= max
      ensures given == old(given) + if code.Ok? then out else []
      ensures calls == old(calls) + 1 && answer == code
    {
      code, out := *, *;
      calls, answer := calls + 1, code;
      if |out| > max {
        out := out[..max];
      }
      if code.Ok? {
        given := given + out;
      }
    }
  }

  class Queue {
    var head: seq<Chunk>    // chunks with bytes to read; the last one is written to
    var spare: seq<Chunk>
    const pool: ChunkPool?
    var chunkCount: nat
    const maxChunks: nat
    const chunkSize: nat
    const softLimit: bool
    const noSpares: bool
    var grants: nat         // chunk allocations that succeed before the next one fails

    ghost predicate Limits()
      reads this, pool
    {
      && maxChunks > 0 && chunkSize > 0
      && (pool != null ==> pool.Valid() && pool.chunkSize == chunkSize)
      && (forall i :: 0 <= i < |spare| ==> |spare[i].data| == chunkSize)
      && chunkCount == |head| + |spare|
      && (!softLimit ==> chunkCount <= maxChunks)
    }

    // The object invariant, but for a first chunk that was read empty.
    ghost predicate Core()
      reads this, pool
    {
      Limits() && ListOk(head, chunkSize) && (Packed(head) || (head[0].IsEmpty() && Packed(head[1..])))
    }

    ghost predicate Valid()
      reads this, pool
    {
      Limits() && ListOk(head, chunkSize) && Packed(head)
    }

    // What the queue holds.
    ghost function Content(): seq<byte>
      reads this
    {
      Held(head)
    }

    // What a hard-limited queue can still take: the rest of its last chunk, and a chunk
    // for every spare and every one below the limit, which are those not in use.
    ghost function Room(): int
      reads this
    {
      Space(head, maxChunks - |head|, chunkSize)
    }

    // The chunks to be had before an allocation fails.
    ghost function Supply(): nat
      reads this, pool
    {
      |spare| + (if pool == null then 0 else |pool.spare|) + grants
    }

    // The bytes that can be written before an allocation fails.
    ghost function Reach(): int
      reads this, pool
    {
      Space(head, Supply(), chunkSize)
    }

    // No spare chunk, and the limit exceeded, or reached with the last chunk written to its end.
    ghost predicate Full()
      reads this
    {
      spare == [] && head != [] && (|head| > maxChunks || (|head| == maxChunks && head[|head| - 1].IsFull()))
    }

    // On a hard limit, that is when there is no room for a byte.
    lemma {:induction false} FullIsNoRoom()
      requires Valid() && !softLimit
      ensures Full() <==> Room() == 0
    {
      NoRoom(head, maxChunks - |head|, chunkSize);
    }

    constructor (pool: ChunkPool?, chunkSize: nat, maxChunks: nat, softLimit: bool, noSpares: bool, grants: nat)
      requires chunkSize > 0 && maxChunks > 0
      requires pool != null ==> pool.Valid() && pool.chunkSize == chunkSize
      ensures Valid() && Content() == []
      ensures this.pool == pool && this.chunkSize == chunkSize && this.maxChunks == maxChunks
      ensures this.softLimit == softLimit && this.noSpares == noSpares && this.grants == grants
      ensures head == spare == []
    {
      head, spare, chunkCount := [], [], 0;
      this.pool, this.chunkSize, this.maxChunks := pool, chunkSize, maxChunks;
      this.softLimit, this.noSpares, this.grants := softLimit, noSpares, grants;
    }

    // An allocation: it takes one grant. After a failure, memory may be had again.
    method Grant() returns (granted: bool)
      modifies this`grants
      ensures granted == (old(grants) > 0) && (granted ==> grants == old(grants) - 1)
    {
      granted := grants > 0;
      if granted {
        grants := grants - 1;
      } else {
        grants := *;
      }
    }

    // get_spare: a reset chunk, unless the limit or the memory forbids it.
    method GetSpare() returns (ok: bool, c: Chunk)
      requires Limits()
      modifies this`spare, this`chunkCount, this`grants, pool
      ensures pool != null ==> pool.Valid()
      ensures ok <==> old(spare) != [] || ((softLimit || old(chunkCount) < maxChunks) && old(Supply()) > 0)
      ensures !ok ==> spare == old(spare) && chunkCount == old(chunkCount)
      ensures ok ==> c.r == c.w == 0 && |c.data| == chunkSize
      ensures ok ==> chunkCount == |head| + |spare| + 1 && (!softLimit ==> chunkCount <= maxChunks)
      ensures ok ==> Supply() == old(Supply()) - 1 && chunkCount >= old(chunkCount)
      ensures !ok && !softLimit && chunkCount >= maxChunks ==> Supply() == old(Supply())
      ensures forall i :: 0 <= i < |spare| ==> |spare[i].data| == chunkSize
    {
      if spare != [] {
        ok, c, spare := true, spare[0].Reset(), spare[1..];
        return;
      }
      c := Chunk([], 0, 0);
      if chunkCount >= maxChunks && !softLimit {
        ok := false;
      } else if pool != null {
        var granted := false;
        if pool.spare == [] {
          granted := Grant();
        }
        ok, c := pool.Take(granted);
      } else {
        var granted := Grant();
        ok, c := Calloc(chunkSize, granted);
      }
      if ok {
        chunkCount := chunkCount + 1;
      }
    }

    // Some chunk can take a byte, or can be had for it.
    ghost predicate CanTakeOne()
      reads this, pool
    {
      || (head != [] && !head[|head| - 1].IsFull())
      || spare != []
      || ((softLimit || chunkCount < maxChunks) && Supply() > 0)
    }

    // get_non_full_tail: make sure the last chunk has room for a byte.
    method GetNonFullTail() returns (ok: bool)
      requires Valid()
      modifies this, pool
      ensures Valid() && Content() == old(Content())
      ensures FirstRead(head) == old(FirstRead(head))
      ensures ok <==> old(CanTakeOne())
      ensures ok ==> head != [] && !head[|head| - 1].IsFull()
      ensures ok ==> head == old(head) || |head| == |old(head)| + 1
      ensures ok || (!softLimit && chunkCount >= maxChunks) ==> Reach() == old(Reach())
      ensures ok || (!softLimit && chunkCount >= maxChunks) ==> |head| + Supply() == |old(head)| + old(Supply())
      ensures chunkCount >= old(chunkCount)
      ensures !ok ==> head == old(head) && spare == old(spare) == [] && LastRoom(head, chunkSize) == 0
    {
      if head != [] && !head[|head| - 1].IsFull() {
        return true;
      }
      var c;
      ok, c := GetSpare();
      if ok {
        HeldSnoc(head, c);
        head := head + [c];
        SpaceShift(old(head), head, Supply(), chunkSize);
      }
    }

    // chunk_append on the last chunk.
    method AppendTail(buf: seq<byte>) returns (n: nat)
      requires Valid() && head != []
      modifies this`head
      ensures Valid() && n <= |buf| && |head| == |old(head)|
      ensures Content() == old(Content()) + buf[..n]
      ensures FirstRead(head) == old(FirstRead(head))
      ensures LastRoom(head, chunkSize) == old(LastRoom(head, chunkSize)) - n
      ensures n == |buf| || head[|head| - 1].IsFull()
    {
      head, n := AppendLast(head, buf, chunkSize);
    }

    // The loop of Curl_bufq_write. It ends early when the limit is reached, or when it
    // is out of memory with all chunks that could be had in use.
    method WriteLoop(buf: seq<byte>) returns (oom: bool, n: nat)
      requires Valid()
      modifies this, pool
      ensures Valid() && n <= |buf|
      ensures Content() == old(Content()) + buf[..n]
      ensures FirstRead(head) == old(FirstRead(head)) && |old(head)| <= |head| <= |old(head)| + old(Supply())
      ensures n < |buf| ==> LastRoom(head, chunkSize) == 0
      ensures oom ==> n < |buf| && |head| == |old(head)| + old(Supply()) && (!softLimit ==> |head| < maxChunks)
      ensures !oom && n < |buf| ==> !softLimit && |head| == maxChunks
      ensures chunkCount >= old(chunkCount) && (!oom ==> Reach() == old(Reach()) - n)
    {
      n := 0;
      while n < |buf|
        invariant n <= |buf| && Valid()
        invariant Content() == old(Content()) + buf[..n]
        invariant FirstRead(head) == old(FirstRead(head)) && |old(head)| <= |head|
        invariant |head| + Supply() == |old(head)| + old(Supply()) && chunkCount >= old(chunkCount)
        invariant Reach() == old(Reach()) - n
      {
        var ok := GetNonFullTail();
        if !ok {
          oom := chunkCount < maxChunks || softLimit;
          return;
        }
        ghost var before, list := Content(), head;
        var m := AppendTail(buf[n..]);
        SpaceShift(list, head, Supply(), chunkSize);
        WriteStep(old(Content()), before, buf, n, m);
        n := n + m;
      }
      oom := false;
    }

    // What a write of `total` bytes comes to.
    ghost function Accepted(total: nat): int
      reads this, pool
    {
      Least(total, !softLimit, Room(), Reach())
    }

    // An allocation fails before such a write is done.
    ghost predicate Starves(total: nat)
      reads this, pool
    {
      Reach() < Least(total, !softLimit, Room(), total)
    }

    // The bytes that the chunks to be had can hold.
    ghost function Stock(): int
      reads this, pool
    {
      Space([], Supply(), chunkSize)
    }

    // The chunks below a hard limit can be had without an allocation.
    ghost predicate Backed()
      reads this, pool
    {
      !softLimit && |spare| + (if pool == null then 0 else |pool.spare|) >= maxChunks - |head|
    }

    lemma {:induction false} BackedSuffices(total: nat)
      requires Valid() && Backed()
      ensures !Starves(total)
    {
      SpaceGrows(head, maxChunks - |head|, Supply(), chunkSize);
    }

    // Curl_bufq_write
    method Write(buf: seq<byte>) returns (code: Code, n: nat)
      requires Valid()
      modifies this, pool
      ensures Valid() && n == old(Accepted(|buf|)) <= |buf|
      ensures Content() == old(Content()) + buf[..n]
      ensures code == if old(Starves(|buf|)) then OutOfMemory else if n == 0 && buf != [] then Again else Ok
      ensures chunkCount >= old(chunkCount)
      ensures !code.OutOfMemory? && n < |buf| ==> !softLimit && chunkCount == maxChunks
      ensures !code.OutOfMemory? ==> Reach() == old(Reach()) - n && (n < |buf| ==> LastRoom(head, chunkSize) == 0)
    {
      var oom;
      oom, n := WriteLoop(buf);
      Written(old(head), head, |buf|, n, !softLimit, maxChunks, old(Supply()), oom, chunkSize);
      code := if oom then OutOfMemory else if n == 0 && buf != [] then Again else Ok;
    }

    // A hard limit, and place for all chunks when they are read empty: as spares of the
    // queue or of its pool.
    ghost predicate KeepsChunks() {
      !softLimit && if pool == null then !noSpares else maxChunks <= pool.spareMax
    }

    // What reading from a queue keeps.
    ghost predicate Drained(supply: nat, backed: bool)
      reads this, pool
    {
      Supply() >= supply && (KeepsChunks() && backed ==> Backed())
    }

    // One round of prune_head: dispose of an empty first chunk.
    method DropHead()
      requires Core() && head != [] && head[0].IsEmpty()
      modifies this, pool
      ensures Valid() && head == old(head)[1..]
      ensures Content() == old(Content())
      ensures Drained(old(Supply()), old(Backed()))
    {
      var c := head[0];
      head := head[1..];
      if pool != null {
        pool.Put(c);
        chunkCount := chunkCount - 1;
      } else if chunkCount > maxChunks || noSpares {
        chunkCount := chunkCount - 1;
      } else {
        spare := [c] + spare;
      }
    }

    // prune_head
    method PruneHead()
      requires Core()
      modifies this, pool
      ensures Valid() && Content() == old(Content())
      ensures head == [] || !head[0].IsEmpty()
      ensures |head| <= |old(head)| && Drained(old(Supply()), old(Backed()))
      ensures old(head) != [] && old(head)[0].IsEmpty() ==> |head| < |old(head)|
    {
      while head != [] && head[0].IsEmpty()
        invariant Core() && Content() == old(Content()) && Drained(old(Supply()), old(Backed()))
        invariant head == old(head) || |head| < |old(head)|
        decreases |head|
      {
        DropHead();
      }
    }

    // chunk_read or chunk_skip on the first chunk.
    method TakeHead(amount: nat) returns (got: seq<byte>)
      requires Valid() && head != []
      modifies this`head
      ensures Core() && |head| == |old(head)|
      ensures got + Content() == old(Content())
      ensures |got| <= amount && (|got| == amount || head[0].IsEmpty())
    {
      head, got := TakeFirst(head, amount, chunkSize);
    }

    // Curl_bufq_read
    method Read(len: nat) returns (code: Code, out: seq<byte>)
      requires Valid()
      modifies this, pool
      ensures Valid()
      ensures out == old(Content())[..Min(len, |old(Content())|)]
      ensures Content() == old(Content())[|out|..]
      ensures code == if out == [] then Again else Ok
    {
      out := [];
      while |out| < len && head != []
        invariant Valid() && |out| <= len
        invariant out + Content() == old(Content())
        decreases |Content()|, |head|
      {
        ghost var before := Content();
        var got := TakeHead(len - |out|);
        ghost var rest := Content();
        Associate(out, got, rest);
        out := out + got;
        PruneHead();
      }
      assert |out| < len ==> Content() == [];
      code := if out == [] then Again else Ok;
    }

    // Curl_bufq_skip
    method Skip(amount: nat)
      requires Valid()
      modifies this, pool
      ensures Valid()
      ensures Content() == old(Content())[Min(amount, |old(Content())|)..]
      ensures Drained(old(Supply()), old(Backed()))
    {
      var left: nat := amount;
      ghost var gone := [];
      while left > 0 && head != []
        invariant Valid() && left + |gone| == amount
        invariant gone + Content() == old(Content()) && Drained(old(Supply()), old(Backed()))
        decreases |Content()|, |head|
      {
        var got := TakeHead(left);
        left := left - |got|;
        Associate(gone, got, Content());
        gone := gone + got;
        PruneHead();
      }
      assert left > 0 ==> Content() == [];
      Cut(gone, Content());
    }

    // Curl_bufq_peek: the unread bytes of the first nonempty chunk.
    method Peek() returns (shown: seq<byte>)
      requires Valid()
      modifies this, pool
      ensures Valid() && Content() == old(Content()) && Drained(old(Supply()), old(Backed()))
      ensures shown <= Content()
      ensures shown == [] <==> Content() == []
      ensures shown != [] ==> head != [] && shown == head[0].Unread()
    {
      if head != [] && head[0].IsEmpty() {
        PruneHead();
      }
      if head != [] && !head[0].IsEmpty() {
        shown := head[0].data[head[0].r..head[0].w];
      } else {
        shown := [];
      }
    }

    // Curl_bufq_peek_at: a stretch of bytes starting at `offset`, if there is one.
    method PeekAt(offset: nat) returns (shown: seq<byte>)
      requires Valid()
      ensures offset >= |Content()| <==> shown == []
      ensures offset < |Content()| ==> shown <= Content()[offset..]
    {
      shown := ShowAt(head, offset, chunkSize);
    }

    // Curl_bufq_reset: every chunk becomes a spare.
    method Reset()
      requires Valid()
      modifies this
      ensures Valid() && Content() == []
      ensures chunkCount == old(chunkCount)
    {
      while head != []
        invariant Valid() && chunkCount == old(chunkCount)
        decreases |head|
      {
        spare := [head[0]] + spare;
        head := head[1..];
      }
    }

    // Curl_bufq_len
    method Len() returns (n: nat)
      requires Valid()
      ensures n == |Content()|
    {
      n := 0;
      for k := 0 to |head|
        invariant n + |Held(head[k..])| == |Content()|
      {
        assert head[k..][1..] == head[k + 1..];
        n := n + (head[k].w - head[k].r);
      }
    }

    // Curl_bufq_is_empty
    method IsEmpty() returns (b: bool)
      requires Valid()
      ensures b <==> Content() == []
    {
      EmptyList(head, chunkSize);
      b := head == [] || head[0].IsEmpty();
    }

    // Curl_bufq_is_full
    method IsFull() returns (b: bool)
      requires Valid()
      ensures b <==> Full()
    {
      if head == [] || spare != [] || chunkCount < maxChunks {
        b := false;
      } else if chunkCount > maxChunks {
        b := true;
      } else {
        b := head[|head| - 1].IsFull();
      }
    }

    // Offer the shown bytes to the writer and skip what it takes.
    method Offer(shown: seq<byte>, writer: Writer) returns (code: Code, m: nat)
      requires Valid() && shown <= Content()
      modifies this, pool, writer
      ensures Valid()
      ensures writer.sent + Content() == old(writer.sent) + old(Content())
      ensures |writer.sent| == |old(writer.sent)| + m
      ensures |Content()| == |old(Content())| - m
      ensures !code.Ok? ==> m == 0
      ensures writer.calls == old(writer.calls) + 1 && writer.answer == code && writer.took == m
      ensures Drained(old(Supply()), old(Backed()))
    {
      code, m := writer.Write(shown);
      if !code.Ok? {
        m := 0;
      } else if m > 0 {
        PassStep(old(writer.sent), Content(), shown, m);
        Skip(m);
      }
    }

    // Curl_bufq_pass: hand chunk after chunk to the writer until it stops taking. A
    // writer that blocks after it took something is no failure.
    method Pass(writer: Writer) returns (code: Code, n: nat)
      requires Valid()
      modifies this, pool, writer
      ensures Valid()
      ensures writer.sent + Content() == old(writer.sent) + old(Content())
      ensures |writer.sent| == |old(writer.sent)| + n
      ensures writer.calls >= old(writer.calls)
      ensures Content() != [] ==> writer.calls > old(writer.calls) && writer.took == 0
      ensures code == if Content() == [] then Ok
                      else if !writer.answer.Ok? && !writer.answer.Again? then writer.answer
                      else if n > 0 then Ok else Again
      ensures |old(Content())| == |Content()| + n
      ensures Drained(old(Supply()), old(Backed()))
    {
      n, code := 0, Ok;
      while true
        invariant Valid() && code.Ok? && Drained(old(Supply()), old(Backed()))
        invariant writer.sent + Content() == old(writer.sent) + old(Content())
        invariant |writer.sent| == |old(writer.sent)| + n && |old(Content())| == |Content()| + n
        invariant writer.calls >= old(writer.calls)
        decreases |Content()|
      {
        var shown := Peek();
        if shown == [] {
          break;
        }
        var m;
        code, m := Offer(shown, writer);
        if !code.Ok? {
          if code.Again? && n > 0 {
            code := Ok;
          }
          break;
        }
        if m == 0 {
          if n == 0 {
            code := Again;
          }
          break;
        }
        n := n + m;
      }
    }

    // Write the rest of `buf`, keeping account of what went where.
    method WriteRest(buf: seq<byte>, n: nat, ghost sent: seq<byte>, ghost start: seq<byte>) returns (code: Code, m: nat)
      requires Valid() && n <= |buf| && sent + Content() == start + buf[..n]
      modifies this, pool
      ensures Valid() && n + m <= |buf| && sent + Content() == start + buf[..n + m]
      ensures m == old(Accepted(|buf| - n))
      ensures code.OutOfMemory? <==> old(Starves(|buf| - n))
      ensures code.Again? ==> m == 0 && old(Full())
      ensures code.Ok? && n < |buf| ==> m > 0
      ensures code in {Ok, Again, OutOfMemory}
      ensures chunkCount >= old(chunkCount)
      ensures code.Ok? && n + m < |buf| ==> !softLimit && chunkCount == maxChunks
      ensures old(Stock()) >= |buf| - n ==> !code.OutOfMemory? && Stock() >= |buf| - n - m
    {
      ghost var held := Content();
      if !softLimit {
        FullIsNoRoom();
      }
      SpaceShift([], head, Supply(), chunkSize);
      code, m := Write(buf[n..]);
      SpaceShift([], head, Supply(), chunkSize);
      SpaceIsNatural([], Supply(), chunkSize);
      WritePassStep(start, sent, held, buf, n, m);
    }

    // Pass on what a full queue holds.
    method MakeRoom(writer: Writer) returns (code: Code)
      requires Valid()
      modifies this, pool, writer
      ensures Valid()
      ensures writer.sent + Content() == old(writer.sent) + old(Content())
      ensures writer.calls >= old(writer.calls)
      ensures !code.Ok? || Full() ==> writer.calls > old(writer.calls) && writer.took == 0
      ensures !code.Ok? && !code.Again? ==> code == writer.answer
      ensures old(!Full()) ==> code.Ok? && unchanged(this) && (pool != null ==> unchanged(pool))
      ensures Drained(old(Supply()), old(Backed()))
    {
      code := Ok;
      var full := IsFull();
      if full {
        var passed;
        code, passed := Pass(writer);
        EmptyNotFull(head, chunkSize);
      }
    }

    // One turn of the loop of Curl_bufq_write_pass; `m` bytes are in then.
    method WriteTurn(buf: seq<byte>, n: nat, writer: Writer, ghost start: seq<byte>)
        returns (code: Code, m: nat, ghost starved: bool)
      requires Valid() && n < |buf| && writer.sent + Content() == start + buf[..n]
      modifies this, pool, writer
      ensures Valid() && n <= m <= |buf| && writer.sent + Content() == start + buf[..m]
      ensures writer.calls >= old(writer.calls)
      ensures if code.Ok? then m > n && !starved
              else if starved then code.OutOfMemory?
              else m == n && writer.calls > old(writer.calls) && writer.took == 0 && (code.Again? || code == writer.answer)
      ensures old(!Full()) ==> (starved <==> old(Starves(|buf| - n)))
      ensures old(!Full()) && starved ==> m == n + old(Accepted(|buf| - n))
      ensures code.Ok? && m < |buf| ==> !softLimit && Backed()
      ensures KeepsChunks() && old(Full() || Backed()) ==> !starved
      ensures old(Stock()) >= |buf| - n ==> !starved && (code.Ok? ==> Stock() >= |buf| - m)
    {
      m, starved := n, false;
      code := MakeRoom(writer);
      if code.Ok? {
        SpaceGrows([], old(Supply()), Supply(), chunkSize);
        if Backed() {
          BackedSuffices(|buf| - n);
        }
        var k;
        code, k := WriteRest(buf, n, writer.sent, start);
        m, starved := n + k, code.OutOfMemory?;
      }
    }

    // A write still comes to what it would have come to.
    twostate predicate SameProspect(total: nat)
      reads this, pool
    {
      Full() == old(Full()) && Starves(total) == old(Starves(total)) && Accepted(total) == old(Accepted(total))
    }

    // Curl_bufq_write_pass. `stray` counts the bytes that entered the queue without
    // being reported, which takes a failed chunk allocation: it is `starved`.
    method WritePass(buf: seq<byte>, writer: Writer) returns (code: Code, n: nat, ghost stray: nat, ghost starved: bool)
      requires Valid()
      modifies this, pool, writer
      ensures Valid() && n + stray <= |buf|
      ensures writer.sent + Content() == old(writer.sent) + old(Content()) + buf[..n + stray]
      ensures stray > 0 ==> starved
      ensures if starved then code.OutOfMemory?
              else if n < |buf| then
                && writer.calls > old(writer.calls) && writer.took == 0
                && (code == writer.answer || code == if n > 0 then Ok else Again)
              else code.Ok?
      ensures old(!Full() && Starves(|buf|)) ==> starved && n == 0 && stray == old(Accepted(|buf|))
      ensures KeepsChunks() || (softLimit && old(!Full())) ==> (starved <==> old(!Full() && Starves(|buf|)))
      ensures old(Stock()) >= |buf| ==> !starved
    {
      n, stray, code, starved := 0, 0, Ok, false;
      SpaceIsNatural(head, Supply(), chunkSize);
      ghost var start := writer.sent + Content();
      assert start + buf[..0] == start;
      while n < |buf|
        invariant n <= |buf| && Valid() && !starved
        invariant writer.sent + Content() == start + buf[..n] && writer.calls >= old(writer.calls)
        invariant if n == 0 then SameProspect(|buf|) else !old(!Full() && Starves(|buf|))
        invariant n > 0 && n < |buf| ==> Backed()
        invariant old(Stock()) >= |buf| ==> Stock() >= |buf| - n
      {
        var m;
        code, m, starved := WriteTurn(buf, n, writer, start);
        if !code.Ok? {
          if code.Again? {
            break;
          }
          stray := m - n;
          return;
        }
        n := m;
      }
      code := if n == 0 && buf != [] then Again else Ok;
    }

    // chunk_slurpn on the last chunk: one call of the reader.
    method SlurpTail(maxLen: nat, reader: Reader) returns (code: Code, n: nat)
      requires Valid() && head != [] && !head[|head| - 1].IsFull()
      modifies this`head, reader
      ensures Valid() && (maxLen > 0 ==> n <= maxLen) && |head| == |old(head)|
      ensures old(reader.given) <= reader.given && |reader.given| == |old(reader.given)| + n
      ensures Content() == old(Content()) + reader.given[|old(reader.given)|..]
      ensures LastRoom(head, chunkSize) == old(LastRoom(head, chunkSize)) - n
      ensures Supply() == old(Supply())
      ensures reader.calls == old(reader.calls) + 1 && code == reader.answer && (!code.Ok? ==> n == 0)
    {
      var free := chunkSize - head[|head| - 1].w;
      if maxLen > 0 && free > maxLen {
        free := maxLen;
      }
      var got;
      code, got := reader.Read(free);
      n := 0;
      if code.Ok? {
        n := AppendTail(got);
        assert got[..n] == got;
      }
    }

    // Curl_bufq_sipn: one call of the reader, unless no chunk can take a byte.
    method Sip(maxLen: nat, reader: Reader) returns (code: Code, n: nat)
      requires Valid()
      modifies this, pool, reader
      ensures Valid() && (maxLen > 0 ==> n <= maxLen)
      ensures old(reader.given) <= reader.given && |reader.given| == |old(reader.given)| + n
      ensures Content() == old(Content()) + reader.given[|old(reader.given)|..]
      ensures |head| == |old(head)| ==> LastRoom(head, chunkSize) == old(LastRoom(head, chunkSize)) - n
      ensures |head| >= |old(head)| && (code.Ok? ==> |head| + Supply() == |old(head)| + old(Supply()))
      ensures !code.Ok? ==> n == 0
      ensures if old(CanTakeOne()) then reader.calls == old(reader.calls) + 1 && code == reader.answer
              else reader.calls == old(reader.calls) && code == if chunkCount < maxChunks then OutOfMemory else Again
    {
      var ok := GetNonFullTail();
      if ok {
        code, n := SlurpTail(maxLen, reader);
      } else {
        code, n := if chunkCount < maxChunks then OutOfMemory else Again, 0;
      }
    }

    // bufq_slurpn: sip until the reader blocks, ends or gives a short count. It ends for
    // every reader, since the chunks that can be had run out.
    method Slurp(maxLen: nat, reader: Reader) returns (code: Code, n: nat)
      requires Valid()
      modifies this, pool, reader
      ensures Valid() && (maxLen > 0 ==> n <= maxLen)
      ensures old(reader.given) <= reader.given && |reader.given| == |old(reader.given)| + n
      ensures Content() == old(Content()) + reader.given[|old(reader.given)|..]
      ensures code.Again? ==> n == 0
      ensures old(CanTakeOne()) ==> reader.calls > old(reader.calls)
      ensures old(!CanTakeOne()) ==> n == 0 && (code.Again? || code.OutOfMemory?)
    {
      n := 0;
      var left := maxLen;
      while true
        invariant Valid() && (maxLen > 0 ==> left > 0 && n + left == maxLen) && (maxLen == 0 ==> left == 0)
        invariant old(reader.given) <= reader.given && |reader.given| == |old(reader.given)| + n
        invariant if n > 0 then old(CanTakeOne()) && reader.calls > old(reader.calls) else CanTakeOne() == old(CanTakeOne())
        invariant reader.calls >= old(reader.calls)
        invariant Content() == old(Content()) + reader.given[|old(reader.given)|..]
        decreases Supply(), LastRoom(head, chunkSize)
      {
        ghost var held, given := Content(), reader.given;
        var m;
        code, m := Sip(left, reader);
        SipStep(old(Content()), held, old(reader.given), given, reader.given);
        if !code.Ok? {
          if n == 0 || !code.Again? {
            return;
          }
          code := Ok;
          break;
        } else if m == 0 {
          break;
        }
        n := n + m;
        if left > 0 {
          left := left - m;
          if left == 0 {
            break;
          }
        }
        if head != [] && !head[|head| - 1].IsFull() {
          break;
        }
      }
    }
  }

  // Bytes can be lost from the count: with one allocation to be had, a write of two
  // bytes to an empty queue of one-byte chunks puts in a byte that it does not report.
  method StrayByte(writer: Writer) returns (q: Queue, code: Code, n: nat, ghost stray: nat)
    modifies writer
    ensures fresh(q) && code.OutOfMemory? && n == 0 && stray == 1
    ensures writer.sent + q.Content() == old(writer.sent) + [7]
  {
    q := new Queue(null, 1, 2, false, false, 1);
    ghost var starved;
    code, n, stray, starved := q.WritePass([7, 8], writer);
    assert [7, 8][..1] == [7] && old(writer.sent) + [] + [7] == old(writer.sent) + [7];
  }

  // A queue operation, with what it answered.
  datatype Event =
    | Wrote(buf: seq<byte>, n: nat)
    | DidRead(len: nat, out: seq<byte>)
    | Skipped(amount: nat)
    | Peeked(shown: seq<byte>)
    | PeekedAt(offset: nat, shown: seq<byte>)
    | Slurped(got: seq<byte>)
    | DidReset

  // What each operation does to a plain first-in-first-out sequence of bytes.
  ghost predicate FifoStep(q: seq<byte>, e: Event, q': seq<byte>) {
    match e
    case Wrote(buf, n) => n <= |buf| && q' == q + buf[..n]
    case DidRead(len, out) => out == q[..Min(len, |q|)] && q' == q[|out|..]
    case Skipped(amount) => q' == q[Min(amount, |q|)..]
    case Peeked(shown) => shown <= q && (shown == [] ==> q == []) && q' == q
    case PeekedAt(offset, shown) =>
      && (if offset < |q| then shown != [] && shown <= q[offset..] else shown == [])
      && q' == q
    case Slurped(got) => q' == q + got
    case DidReset => q' == []
  }

  // `states` is a run of that sequence through the events.
  ghost predicate FifoRun(states: seq<seq<byte>>, events: seq<Event>) {
    && |states| == |events| + 1
    && forall i, j {:trigger FifoStep(states[i], events[i], states[j])} ::
         0 <= i < |events| && j == i + 1 ==> FifoStep(states[i], events[i], states[j])
  }

  lemma {:induction false} RunGrows(states: seq<seq<byte>>, events: seq<Event>, e: Event, q: seq<byte>)
    requires FifoRun(states, events) && FifoStep(states[|events|], e, q)
    ensures FifoRun(states + [q], events + [e])
  {
    var ss, es := states + [q], events + [e];
    forall i, j | 0 <= i < |es| && j == i + 1
      ensures FifoStep(ss[i], es[i], ss[j])
    {
      assert ss[i] == states[i] && es[i] == (if i < |events| then events[i] else e);
      assert ss[j] == if i < |events| then states[j] else q;
    }
  }

  datatype Call =
    | CallWrite(buf: seq<byte>)
    | CallRead(len: nat)
    | CallSkip(amount: nat)
    | CallPeek
    | CallPeekAt(offset: nat)
    | CallSip(maxLen: nat)
    | CallSlurp(maxLen: nat)
    | CallReset

  // The bytes that an event took from the reader.
  ghost function Taken(e: Event): seq<byte> {
    if e.Slurped? then e.got else []
  }

  // The bytes that all events took, in order.
  ghost function AllTaken(events: seq<Event>): seq<byte> {
    if events == [] then [] else AllTaken(events[..|events| - 1]) + Taken(events[|events| - 1])
  }

  lemma {:induction false} TakenGrows(given: seq<byte>, events: seq<Event>, e: Event)
    ensures given + AllTaken(events + [e]) == (given + AllTaken(events)) + Taken(e)
  {
    assert (events + [e])[..|events|] == events;
    Associate(given, AllTaken(events), Taken(e));
  }

  // An event that answers a call.
  ghost predicate Answers(call: Call, e: Event) {
    match call
    case CallWrite(buf) => e.Wrote? && e.buf == buf
    case CallRead(len) => e.DidRead? && e.len == len
    case CallSkip(amount) => e.Skipped? && e.amount == amount
    case CallPeek => e.Peeked?
    case CallPeekAt(offset) => e.PeekedAt? && e.offset == offset
    case CallSip(maxLen) => e.Slurped? && (maxLen > 0 ==> |e.got| <= maxLen)
    case CallSlurp(maxLen) => e.Slurped? && (maxLen > 0 ==> |e.got| <= maxLen)
    case CallReset => e.DidReset?
  }

  ghost predicate AllAnswered(calls: seq<Call>, events: seq<Event>) {
    && |events| <= |calls|
    && forall k {:trigger Answers(calls[k], events[k])} :: 0 <= k < |events| ==> Answers(calls[k], events[k])
  }

  lemma {:induction false} AnswersGrow(calls: seq<Call>, events: seq<Event>, e: Event)
    requires AllAnswered(calls, events) && |events| < |calls| && Answers(calls[|events|], e)
    ensures AllAnswered(calls, events + [e])
  {
    var es := events + [e];
    forall k | 0 <= k < |es|
      ensures Answers(calls[k], es[k])
    {
      assert es[k] == if k < |events| then events[k] else e;
    }
  }

  lemma {:induction false} LastTaken(before: seq<byte>, after: seq<byte>, n: nat)
    requires before <= after && |after| == |before| + n
    ensures after[|before|..] == after[|after| - n..] && after == before + after[|after| - n..]
  {
  }

  // Perform one call that reads from the reader.
  method StepIn(q: Queue, reader: Reader, maxLen: nat, once: bool) returns (got: seq<byte>)
    requires q.Valid()
    modifies q, q.pool, reader
    ensures q.Valid() && q.Content() == old(q.Content()) + got
    ensures reader.given == old(reader.given) + got
    ensures maxLen > 0 ==> |got| <= maxLen
  {
    var n;
    if once {
      var _, k := q.Sip(maxLen, reader);
      n := k;
    } else {
      var _, k := q.Slurp(maxLen, reader);
      n := k;
    }
    LastTaken(old(reader.given), reader.given, n);
    got := reader.given[|reader.given| - n..];
  }

  // Perform one call.
  method Step(q: Queue, reader: Reader, call: Call) returns (e: Event)
    requires q.Valid()
    modifies q, q.pool, reader
    ensures q.Valid() && Answers(call, e)
    ensures FifoStep(old(q.Content()), e, q.Content())
    ensures reader.given == old(reader.given) + Taken(e)
  {
    match call
    case CallWrite(buf) =>
      var _, n := q.Write(buf);
      e := Wrote(buf, n);
    case CallRead(len) =>
      var _, out := q.Read(len);
      e := DidRead(len, out);
    case CallSkip(amount) =>
      q.Skip(amount);
      e := Skipped(amount);
    case CallPeek =>
      var shown := q.Peek();
      e := Peeked(shown);
    case CallPeekAt(offset) =>
      var shown := q.PeekAt(offset);
      e := PeekedAt(offset, shown);
    case CallSip(maxLen) =>
      var got := StepIn(q, reader, maxLen, true);
      e := Slurped(got);
    case CallSlurp(maxLen) =>
      var got := StepIn(q, reader, maxLen, false);
      e := Slurped(got);
    case CallReset =>
      q.Reset();
      e := DidReset;
  }

  // Every sequence of calls, against every environment, is a run of the plain
  // byte sequence: each event is the one that sequence would show.
  method Run(q: Queue, reader: Reader, calls: seq<Call>) returns (events: seq<Event>, ghost states: seq<seq<byte>>)
    requires q.Valid()
    modifies q, q.pool, reader
    ensures q.Valid() && |events| == |calls| && AllAnswered(calls, events)
    ensures FifoRun(states, events)
    ensures states[0] == old(q.Content()) && states[|calls|] == q.Content()
    ensures reader.given == old(reader.given) + AllTaken(events)
  {
    events, states := [], [q.Content()];
    for k := 0 to |calls|
      invariant q.Valid() && |events| == k && AllAnswered(calls, events)
      invariant FifoRun(states, events)
      invariant states[0] == old(q.Content()) && states[k] == q.Content()
      invariant reader.given == old(reader.given) + AllTaken(events)
    {
      var e := Step(q, reader, calls[k]);
      RunGrows(states, events, e, q.Content());
      AnswersGrow(calls, events, e);
      TakenGrows(old(reader.given), events, e);
      events, states := events + [e], states + [q.Content()];
    }
  }
}
