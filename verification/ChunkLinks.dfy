// The links between the chunks of old/lib/bufq.c: the head, tail and spare pointers of
// a queue, the spare list of a pool, and who owns which chunk when queues share a pool.
//
// `BufferQueue` works on the sequences of chunks that these lists hold; here the same
// steps are made on the lists. Whether an allocation succeeds is given. A chunk knows,
// for the proofs only, the list that it is in and its place there.

module ChunkLinks {
  import opened Bytes
  import opened BufferQueue

  datatype Place = Nowhere | In(owner: object, spare: bool, slot: int)

  class Node {
    var chunk: Chunk
    var next: Node?
    ghost var place: Place

    constructor (size: nat)
      ensures next == null && chunk == Chunk(seq(size, _ => 0), 0, 0) && place == Nowhere
    {
      chunk, next, place := Chunk(seq(size, _ => 0), 0, 0), null, Nowhere;
    }

    // chunk_reset
    method Reset()
      modifies this`chunk, this`next
      ensures next == null && chunk == old(chunk).Reset()
    {
      chunk, next := chunk.Reset(), null;
    }
  }

  // ---------- Lists ----------

  // The pointer `first` leads through the nodes, which stand from place `at` on, to `end`.
  ghost predicate Seg(first: Node?, nodes: seq<Node>, end: Node?, at: Place, size: nat)
    requires at.In?
    reads nodes
    decreases |nodes|
  {
    if nodes == [] then first == end
    else
      && first == nodes[0] && nodes[0].place == at && |nodes[0].chunk.data| == size
      && Seg(nodes[0].next, nodes[1..], end, at.(slot := at.slot + 1), size)
  }

  // Each node of a list knows that it is in it.
  lemma {:induction false} Members(first: Node?, nodes: seq<Node>, end: Node?, at: Place, size: nat)
    requires at.In? && Seg(first, nodes, end, at, size)
    ensures forall m :: m in nodes ==>
              m.place.In? && m.place.owner == at.owner && m.place.spare == at.spare && m.place.slot >= at.slot
    decreases |nodes|
  {
    if nodes != [] {
      Members(nodes[0].next, nodes[1..], end, at.(slot := at.slot + 1), size);
      assert forall m :: m in nodes ==> m == nodes[0] || m in nodes[1..];
    }
  }

  // The last node taken off, and put back.
  lemma {:induction false} SegSnoc(first: Node?, nodes: seq<Node>, n: Node, end: Node?, at: Place, size: nat)
    requires at.In?
    ensures Seg(first, nodes + [n], end, at, size) <==>
            && Seg(first, nodes, n, at, size) && n.next == end
            && n.place == at.(slot := at.slot + |nodes|) && |n.chunk.data| == size
    decreases |nodes|
  {
    var all := nodes + [n];
    if nodes == [] {
      assert all[1..] == [];
    } else {
      assert all[1..] == nodes[1..] + [n];
      SegSnoc(nodes[0].next, nodes[1..], n, end, at.(slot := at.slot + 1), size);
    }
  }

  // The nodes of a list stand before the place of its end.
  lemma {:induction false} NotIn(first: Node?, nodes: seq<Node>, n: Node, at: Place, size: nat)
    requires at.In? && Seg(first, nodes, n, at, size) && n.place == at.(slot := at.slot + |nodes|)
    ensures n !in nodes
    decreases |nodes|
  {
    if nodes != [] {
      NotIn(nodes[0].next, nodes[1..], n, at.(slot := at.slot + 1), size);
      assert forall m :: m in nodes ==> m == nodes[0] || m in nodes[1..];
    }
  }

  lemma {:induction false} DropOne<T>(s: seq<T>, k: nat)
    requires k < |s|
    ensures s[k..][1..] == s[k + 1..] && s[k..][0] == s[k]
  {
  }

  // What the nodes hold.
  ghost function Chunks(nodes: seq<Node>): (cs: seq<Chunk>)
    reads nodes`chunk
    ensures |cs| == |nodes|
  {
    if nodes == [] then [] else [nodes[0].chunk] + Chunks(nodes[1..])
  }

  lemma {:induction false} ChunksSnoc(nodes: seq<Node>, n: Node)
    ensures Chunks(nodes + [n]) == Chunks(nodes) + [n.chunk]
  {
    if nodes == [] {
      assert (nodes + [n])[1..] == [];
    } else {
      assert (nodes + [n])[1..] == nodes[1..] + [n];
      ChunksSnoc(nodes[1..], n);
    }
  }

  // A fresh or an unlinked chunk.
  ghost predicate Loose(n: Node, size: nat)
    reads n
  {
    n.place == Nowhere && |n.chunk.data| == size
  }

  // ---------- The pool ----------

  class LinkedPool {
    var spare: Node?
    var count: nat
    const chunkSize: nat
    const spareMax: nat
    ghost var nodes: seq<Node>
    ghost var start: int

    ghost predicate Valid()
      reads this, nodes
    {
      Seg(spare, nodes, null, In(this, true, start), chunkSize) && count == |nodes| <= spareMax
    }

    constructor (chunkSize: nat, spareMax: nat)
      ensures Valid() && nodes == []
      ensures this.chunkSize == chunkSize && this.spareMax == spareMax
    {
      this.chunkSize, this.spareMax := chunkSize, spareMax;
      spare, count, nodes, start := null, 0, [], 0;
    }

    // bufcp_take
    method Take(granted: bool) returns (n: Node?)
      requires Valid()
      modifies this, spare
      ensures Valid() && nodes == if old(nodes) == [] then [] else old(nodes)[1..]
      ensures if old(nodes) == [] then (if granted then n != null && fresh(n) else n == null) else n == old(spare)
      ensures n != null ==> Loose(n, chunkSize) && n.next == null && n.chunk == n.chunk.Reset()
    {
      if spare != null {
        n := spare;
        Members(n.next, nodes[1..], null, In(this, true, start + 1), chunkSize);
        spare, count, nodes, start := n.next, count - 1, nodes[1..], start + 1;
        n.Reset();
        n.place := Nowhere;
      } else if granted {
        n := new Node(chunkSize);
      } else {
        n := null;
      }
    }

    // bufcp_put: a chunk that finds no place is freed.
    method Put(n: Node)
      requires Valid() && Loose(n, chunkSize)
      modifies this, n
      ensures Valid() && nodes == if |old(nodes)| < spareMax then [n] + old(nodes) else old(nodes)
      ensures n.chunk == if |old(nodes)| < spareMax then old(n.chunk).Reset() else old(n.chunk)
    {
      Members(spare, nodes, null, In(this, true, start), chunkSize);
      if count < spareMax {
        n.Reset();
        n.next, n.place := spare, In(this, true, start - 1);
        assert ([n] + nodes)[1..] == nodes;
        spare, count, nodes, start := n, count + 1, [n] + nodes, start - 1;
      }
    }
  }

  // ---------- The queue ----------

  // The chunks that a queue holds, and their size.
  datatype View = View(chunks: seq<Chunk>, size: nat)

  ghost predicate Sound(v: View) {
    match v
    case View(cs, size) => size > 0 && ListOk(cs, size) && Packed(cs)
  }

  class LinkedQueue {
    var head: Node?
    var tail: Node?
    var spare: Node?
    var chunkCount: nat
    const pool: LinkedPool?
    const chunkSize: nat
    const maxChunks: nat
    const softLimit: bool
    const noSpares: bool
    ghost var heads: seq<Node>
    ghost var spares: seq<Node>
    ghost var start: int        // the places of the first chunk and the first spare one
    ghost var spareStart: int

    ghost function PoolNodes(): seq<Node>
      reads this, pool
    {
      if pool == null then [] else pool.nodes
    }

    // The chunks of the queue and of its pool.
    ghost function Owned(): set<Node>
      reads this, pool
    {
      (set m | m in heads) + (set m | m in spares) + (set m | m in PoolNodes())
    }

    ghost predicate Core()
      reads this, heads, spares, pool, PoolNodes()
    {
      && Seg(head, heads, null, In(this, false, start), chunkSize)
      && tail == (if heads == [] then null else heads[|heads| - 1])
      && Seg(spare, spares, null, In(this, true, spareStart), chunkSize)
      && (pool != null ==> pool.Valid() && pool.chunkSize == chunkSize)
    }

    ghost predicate Valid()
      reads this, heads, spares, pool, PoolNodes()
    {
      Core() && chunkCount == |heads| + |spares|
    }

    // No chunk is in two lists.
    lemma {:induction false} Apart()
      requires Core()
      ensures forall m :: m in heads ==> m.place.In? && m.place.owner == this && !m.place.spare
      ensures forall m :: m in spares ==> m.place.In? && m.place.owner == this && m.place.spare
      ensures forall m :: m in PoolNodes() ==> m.place.In? && m.place.owner == pool
    {
      Members(head, heads, null, In(this, false, start), chunkSize);
      Members(spare, spares, null, In(this, true, spareStart), chunkSize);
      if pool != null {
        Members(pool.spare, pool.nodes, null, In(pool, true, pool.start), chunkSize);
      }
    }

    constructor (pool: LinkedPool?, chunkSize: nat, maxChunks: nat, softLimit: bool, noSpares: bool)
      requires pool != null ==> pool.Valid() && pool.chunkSize == chunkSize
      ensures Valid() && heads == spares == []
      ensures this.pool == pool && this.chunkSize == chunkSize && this.maxChunks == maxChunks
      ensures this.softLimit == softLimit && this.noSpares == noSpares
    {
      head, tail, spare, chunkCount := null, null, null, 0;
      this.pool, this.chunkSize, this.maxChunks := pool, chunkSize, maxChunks;
      this.softLimit, this.noSpares := softLimit, noSpares;
      heads, spares, start, spareStart := [], [], 0, 0;
    }

    // The first chunk leaves the list.
    method Unlink() returns (n: Node)
      requires Core() && head != null
      modifies this`head, this`tail, this`heads, this`start, head`place
      ensures Core() && n == old(head) && heads == old(heads)[1..] && Loose(n, chunkSize)
      ensures n !in heads && Chunks(heads) == old(Chunks(heads))[1..]
    {
      Apart();
      n := head;
      Members(n.next, heads[1..], null, In(this, false, start + 1), chunkSize);
      assert n == heads[0] && n !in heads[1..];
      head, heads, start := n.next, heads[1..], start + 1;
      n.place := Nowhere;
      if tail == n {
        tail := head;
      }
    }

    // A chunk becomes the first spare one.
    method PutSpare(n: Node)
      requires Core() && Loose(n, chunkSize)
      modifies this`spare, this`spares, this`spareStart, n`next, n`place
      ensures Core() && spares == [n] + old(spares) && Chunks(heads) == old(Chunks(heads))
      ensures Owned() == old(Owned()) + {n}
    {
      Apart();
      n.next, n.place := spare, In(this, true, spareStart - 1);
      assert ([n] + spares)[1..] == spares;
      spare, spares, spareStart := n, [n] + spares, spareStart - 1;
    }

    // A chunk goes to the pool.
    method PutPooled(n: Node)
      requires Core() && Loose(n, chunkSize) && pool != null
      modifies n, pool
      ensures Core() && Chunks(heads) == old(Chunks(heads))
      ensures pool.nodes == if |old(pool.nodes)| < pool.spareMax then [n] + old(pool.nodes) else old(pool.nodes)
    {
      Apart();
      pool.Put(n);
    }

    // A chunk that is read empty becomes a spare one, of the pool or the queue, or is freed.
    method Dispose(n: Node)
      requires Core() && Loose(n, chunkSize) && chunkCount == |heads| + |spares| + 1
      modifies this`spare, this`spares, this`spareStart, this`chunkCount, n, pool
      ensures Valid() && Chunks(heads) == old(Chunks(heads)) && Owned() <= old(Owned()) + {n}
      ensures if pool == null && old(chunkCount) <= maxChunks && !noSpares then spares == [n] + old(spares)
              else spares == old(spares)
      ensures pool != null ==>
                pool.nodes == if |old(pool.nodes)| < pool.spareMax then [n] + old(pool.nodes) else old(pool.nodes)
    {
      if pool != null {
        PutPooled(n);
        chunkCount := chunkCount - 1;
      } else if chunkCount > maxChunks || noSpares {
        chunkCount := chunkCount - 1;
      } else {
        PutSpare(n);
      }
    }

    // One round of prune_head.
    method DropHead()
      requires Valid() && head != null
      modifies this, head, pool
      ensures Valid() && heads == old(heads)[1..] && Chunks(heads) == old(Chunks(heads))[1..]
      ensures Owned() <= old(Owned())
    {
      var n := Unlink();
      Dispose(n);
    }

    // prune_head: the empty first chunks go, and are as many as `k`.
    method PruneHead() returns (ghost k: nat)
      requires Valid()
      modifies this, heads, pool
      ensures Valid() && k <= |old(heads)| && heads == old(heads)[k..] && Chunks(heads) == old(Chunks(heads))[k..]
      ensures forall i :: 0 <= i < k ==> old(Chunks(heads))[i].IsEmpty()
      ensures heads != [] ==> !Chunks(heads)[0].IsEmpty()
      ensures Owned() <= old(Owned())
    {
      k := 0;
      while head != null && head.chunk.IsEmpty()
        invariant Valid() && k <= |old(heads)| && heads == old(heads)[k..] && Chunks(heads) == old(Chunks(heads))[k..]
        invariant forall i :: 0 <= i < k ==> old(Chunks(heads))[i].IsEmpty()
        invariant Owned() <= old(Owned())
        decreases |heads|
      {
        DropOne(old(heads), k);
        DropOne(old(Chunks(heads)), k);
        DropHead();
        k := k + 1;
      }
    }

    // A chunk from the pool.
    method TakePooled(granted: bool) returns (n: Node?)
      requires Core() && pool != null
      modifies pool, pool.spare
      ensures Core() && Chunks(heads) == old(Chunks(heads))
      ensures n != null ==> Loose(n, chunkSize) && n.next == null && n.chunk == n.chunk.Reset()
      ensures n != null <==> old(pool.nodes) != [] || granted
      ensures n != null ==> n == old(pool.spare) || fresh(n)
      ensures pool.nodes == if old(pool.nodes) == [] then [] else old(pool.nodes)[1..]
    {
      Apart();
      n := pool.Take(granted);
    }

    // The first spare chunk.
    method TakeSpare() returns (n: Node)
      requires Core() && spare != null
      modifies this`spare, this`spares, this`spareStart, spare
      ensures Core() && n == old(spare) && spares == old(spares)[1..] && Chunks(heads) == old(Chunks(heads))
      ensures Loose(n, chunkSize) && n.next == null && n.chunk == n.chunk.Reset()
    {
      Apart();
      n := spare;
      Members(n.next, spares[1..], null, In(this, true, spareStart + 1), chunkSize);
      spare, spares, spareStart := n.next, spares[1..], spareStart + 1;
      n.Reset();
      n.place := Nowhere;
    }

    // There is a spare chunk, or the limit and the memory allow another one.
    ghost predicate CanGrow(granted: bool)
      reads this, pool
    {
      spares != [] || ((softLimit || chunkCount < maxChunks) && (PoolNodes() != [] || granted))
    }

    ghost function PoolSpare(): Node?
      reads this, pool
    {
      if pool == null then null else pool.spare
    }

    // get_spare
    method GetSpare(granted: bool) returns (n: Node?)
      requires Valid()
      modifies this`spare, this`spares, this`spareStart, this`chunkCount, spare, pool, PoolSpare()
      ensures Core() && Chunks(heads) == old(Chunks(heads))
      ensures n != null ==> Loose(n, chunkSize) && n.next == null && n.chunk == n.chunk.Reset()
      ensures n != null ==> n == old(spare) || n == old(PoolSpare()) || fresh(n)
      ensures Owned() <= old(Owned()) && (n != null ==> n in old(Owned()) || fresh(n))
      ensures chunkCount == |heads| + |spares| + if n != null then 1 else 0
      ensures n != null <==> old(CanGrow(granted))
      ensures spares == if old(spares) == [] then [] else old(spares)[1..]
      ensures PoolNodes() == if old(spares) != [] || n == null || old(PoolNodes()) == [] then old(PoolNodes())
                             else old(PoolNodes())[1..]
    {
      if spare != null {
        n := TakeSpare();
      } else if chunkCount >= maxChunks && !softLimit {
        n := null;
      } else {
        n := Fetch(granted);
      }
    }

    // A chunk from the pool or the allocator.
    method Fetch(granted: bool) returns (n: Node?)
      requires Core()
      modifies this`chunkCount, pool, PoolSpare()
      ensures Core() && Chunks(heads) == old(Chunks(heads))
      ensures n != null ==> Loose(n, chunkSize) && n.next == null && n.chunk == n.chunk.Reset()
      ensures n != null ==> n == old(PoolSpare()) || fresh(n)
      ensures Owned() <= old(Owned()) && (n != null ==> n in old(Owned()) || fresh(n))
      ensures chunkCount == old(chunkCount) + if n != null then 1 else 0
      ensures n != null <==> old(PoolNodes()) != [] || granted
      ensures PoolNodes() == if old(PoolNodes()) == [] then [] else old(PoolNodes())[1..]
    {
      n := null;
      if pool != null {
        n := TakePooled(granted);
      } else if granted {
        n := new Node(chunkSize);
      }
      if n != null {
        chunkCount := chunkCount + 1;
      }
    }

    // A chunk becomes the last one.
    method Link(n: Node)
      requires Core() && Loose(n, chunkSize) && n.next == null
      modifies this`head, this`tail, this`heads, tail, n`place
      ensures Core() && n == tail && heads == old(heads) + [n] && Chunks(heads) == old(Chunks(heads)) + [n.chunk]
      ensures n.chunk == old(n.chunk) && Owned() == old(Owned()) + {n}
    {
      if tail == null {
        Apart();
        assert [n][1..] == [];
        n.place := In(this, false, start);
        head, tail, heads := n, n, [n];
      } else {
        Attach(n);
      }
    }

    method Attach(n: Node)
      requires Core() && Loose(n, chunkSize) && n.next == null && tail != null
      modifies this`tail, this`heads, tail`next, n`place
      ensures Core() && n == tail && heads == old(heads) + [n] && Chunks(heads) == old(Chunks(heads)) + [n.chunk]
    {
      Apart();
      ChunksSnoc(heads, n);
      ghost var at, front := In(this, false, start), heads[..|heads| - 1];
      assert heads == front + [tail];
      SegSnoc(head, front, tail, null, at, chunkSize);
      Members(head, front, tail, at, chunkSize);
      NotIn(head, front, tail, at, chunkSize);
      tail.next := n;
      n.place := at.(slot := start + |heads|);
      SegSnoc(head, front, tail, n, at, chunkSize);
      SegSnoc(head, heads, n, null, at, chunkSize);
      tail, heads := n, heads + [n];
    }

    // A new last chunk, if there is one to be had.
    method Grow(granted: bool) returns (n: Node?)
      requires Valid()
      modifies this, tail, spare, pool, PoolSpare()
      ensures Valid() && (n != null <==> old(CanGrow(granted)))
      ensures fresh(Owned() - old(Owned()))
      ensures n != null ==> n == tail && n.chunk == n.chunk.Reset() && |n.chunk.data| == chunkSize
      ensures heads == if n == null then old(heads) else old(heads) + [n]
      ensures Chunks(heads) == if n == null then old(Chunks(heads)) else old(Chunks(heads)) + [n.chunk]
    {
      n := GetSpare(granted);
      if n != null {
        Link(n);
      }
    }

    // get_non_full_tail
    method GetNonFullTail(granted: bool) returns (n: Node?)
      requires Valid()
      modifies this, tail, spare, pool, PoolSpare()
      ensures Valid() && (n != null ==> n == tail) && fresh(Owned() - old(Owned()))
      ensures if old(tail != null && !tail.chunk.IsFull()) then
                n == old(tail) && heads == old(heads) && Chunks(heads) == old(Chunks(heads))
              else
                && (n != null <==> old(CanGrow(granted)))
                && heads == (if n == null then old(heads) else old(heads) + [n])
                && Chunks(heads) == (if n == null then old(Chunks(heads)) else old(Chunks(heads)) + [n.chunk])
                && (n != null ==> n.chunk == n.chunk.Reset() && |n.chunk.data| == chunkSize)
    {
      if tail != null && !tail.chunk.IsFull() {
        n := tail;
      } else {
        n := Grow(granted);
      }
    }

    // ---------- Bytes ----------

    ghost predicate Good()
      reads this, heads, spares, pool, PoolNodes()
    {
      Valid() && Sound(View(Chunks(heads), chunkSize))
    }

    // What the queue holds.
    ghost function Content(): seq<byte>
      reads this, heads
    {
      Held(Chunks(heads))
    }

    // The last chunk changes what it holds.
    method SetLast(c: Chunk)
      requires Core() && tail != null && |c.data| == chunkSize
      modifies tail`chunk
      ensures Core() && tail.chunk == c
      ensures Chunks(heads) == old(Chunks(heads))[..|heads| - 1] + [c]
    {
      Apart();
      ghost var at, front := In(this, false, start), heads[..|heads| - 1];
      assert heads == front + [tail];
      SegSnoc(head, front, tail, null, at, chunkSize);
      NotIn(head, front, tail, at, chunkSize);
      ChunksSnoc(front, tail);
      ghost var cs := Chunks(front);
      tail.chunk := c;
      SegSnoc(head, front, tail, null, at, chunkSize);
      ChunksSnoc(front, tail);
      assert Chunks(front) == cs;
    }

    // The first chunk changes what it holds.
    method SetFirst(c: Chunk)
      requires Core() && head != null && |c.data| == chunkSize
      modifies head`chunk
      ensures Core() && head.chunk == c
      ensures Chunks(heads) == [c] + old(Chunks(heads))[1..]
    {
      Apart();
      Members(head.next, heads[1..], null, In(this, false, start + 1), chunkSize);
      head.chunk := c;
    }

    // chunk_append on the last chunk.
    method AppendTail(buf: seq<byte>) returns (n: nat)
      requires Good() && tail != null
      modifies tail`chunk
      ensures Good() && n <= |buf| && Content() == old(Content()) + buf[..n]
      ensures n == |buf| || tail.chunk.IsFull()
      ensures old(!tail.chunk.IsFull()) && buf != [] ==> n > 0
    {
      ghost var cs := Chunks(heads);
      TailIsLast();
      var c;
      c, n := tail.chunk.Append(buf);
      LastReplaced(cs, c, buf[..n], chunkSize);
      SetLast(c);
    }

    // A last chunk that can take a byte, if there is one to be had.
    method MoreRoom(granted: bool) returns (ok: bool)
      requires Good()
      modifies this, pool, Owned()
      ensures Good() && Content() == old(Content()) && fresh(Owned() - old(Owned()))
      ensures ok ==> tail != null && !tail.chunk.IsFull()
    {
      ghost var cs := Chunks(heads);
      if tail != null {
        TailIsLast();
      }
      Apart();
      var n := GetNonFullTail(granted);
      ok := n != null;
      if ok {
        TailIsLast();
        if Chunks(heads) != cs {
          ListGrows(cs, n.chunk, chunkSize);
        }
      }
    }

    // One turn of the loop of Curl_bufq_write.
    method WriteTurn(buf: seq<byte>, granted: bool) returns (m: nat)
      requires Good() && buf != []
      modifies this, pool, Owned()
      ensures Good() && m <= |buf| && Content() == old(Content()) + buf[..m] && fresh(Owned() - old(Owned()))
    {
      var ok := MoreRoom(granted);
      if ok {
        assert tail in heads;
        m := AppendTail(buf);
      } else {
        m := 0;
        assert buf[..0] == [];
      }
    }

    // chunk_read or chunk_skip on the first chunk.
    method TakeHead(amount: nat) returns (got: seq<byte>, ghost c: Chunk)
      requires Good() && head != null
      modifies head`chunk
      ensures Valid() && head.chunk == c && Chunks(heads) == [c] + old(Chunks(heads))[1..]
      ensures |c.data| == chunkSize && c.Valid() && old(head.chunk.Unread()) == got + c.Unread()
      ensures if c.IsEmpty() then c.w == 0 else c.w == old(head.chunk.w)
      ensures |got| <= amount && (|got| == amount || c.IsEmpty())
    {
      assert Chunks(heads)[0] == head.chunk;
      var d;
      d, got := head.chunk.Take(amount);
      SetFirst(d);
      c := d;
    }

    // One turn of the loop of Curl_bufq_read.
    method ReadTurn(amount: nat) returns (got: seq<byte>)
      requires Good() && head != null
      modifies this, pool, heads
      ensures Good() && got + Content() == old(Content()) && Owned() <= old(Owned())
      ensures |got| <= amount && (|got| == amount || |heads| < |old(heads)|)
    {
      ghost var cs := Chunks(heads);
      ghost var c;
      got, c := TakeHead(amount);
      ghost var k := PruneHead();
      FirstTaken(cs, c, got, [c] + cs[1..], k, chunkSize);
    }

    // One round of Curl_bufq_reset, which clears the tail after the last one.
    method ResetTurn()
      requires Good() && head != null
      modifies this, head
      ensures Good() && heads == old(heads)[1..] && spares == [old(head)] + old(spares) && Owned() <= old(Owned())
    {
      DropPacked(Chunks(heads), 1, chunkSize);
      assert head == heads[0];
      Recycle();
    }

    // The first chunk becomes the first spare one.
    method Recycle()
      requires Valid() && head != null
      modifies this`head, this`tail, this`heads, this`start, this`spare, this`spares, this`spareStart, head
      ensures Valid() && heads == old(heads)[1..] && spares == [old(head)] + old(spares)
      ensures Chunks(heads) == old(Chunks(heads))[1..]
    {
      var n := Unlink();
      PutSpare(n);
    }

    // Any one turn.
    method Act(turn: Turn)
      requires Good()
      modifies this, pool, Owned()
      ensures Good() && fresh(Owned() - old(Owned()))
    {
      match turn
      case Grows(granted) =>
        var ok := MoreRoom(granted);
      case Writes(buf, granted) =>
        if buf != [] {
          var m := WriteTurn(buf, granted);
        }
      case Reads(amount) =>
        if head != null {
          var got := ReadTurn(amount);
        }
      case Resets =>
        if head != null {
          ResetTurn();
        }
    }

    lemma {:induction false} TailIsLast()
      requires Core() && tail != null
      ensures |Chunks(heads)| == |heads| > 0 && Chunks(heads)[|heads| - 1] == tail.chunk
    {
      assert heads == heads[..|heads| - 1] + [tail];
      ChunksSnoc(heads[..|heads| - 1], tail);
    }
  }

  // A new last chunk keeps a list packed that ends with a full one.
  lemma {:induction false} ListGrows(cs: seq<Chunk>, c: Chunk, size: nat)
    requires ListOk(cs, size) && Packed(cs) && (cs != [] ==> cs[|cs| - 1].IsFull())
    requires c.r == c.w == 0 && |c.data| == size
    ensures ListOk(cs + [c], size) && Packed(cs + [c]) && Held(cs + [c]) == Held(cs)
  {
    HeldSnoc(cs, c);
  }

  lemma {:induction false} EmptyFirst(cs: seq<Chunk>, k: nat, size: nat)
    requires k <= |cs| && ListOk(cs, size) && forall i :: 0 <= i < k ==> cs[i].IsEmpty()
    ensures Held(cs[k..]) == Held(cs)
  {
    if k == 0 {
      assert cs[0..] == cs;
    } else {
      EmptyFirst(cs, k - 1, size);
      HeldStep(cs, k - 1);
      assert cs[k - 1].Unread() == [];
    }
  }

  // A packed list without its first chunks.
  lemma {:induction false} DropPacked(ds: seq<Chunk>, k: nat, size: nat)
    requires k <= |ds| && ListOk(ds, size) && (k > 0 || Packed(ds))
    requires forall i :: 1 <= i < |ds| ==> ds[i].r == 0 && (i < |ds| - 1 ==> ds[i].IsFull())
    ensures ListOk(ds[k..], size) && Packed(ds[k..])
  {
    var es := ds[k..];
    assert forall i :: 0 <= i < |es| ==> es[i] == ds[k + i];
  }

  // The first chunk was read from, and empty first chunks were dropped.
  lemma {:induction false} FirstTaken(cs: seq<Chunk>, c: Chunk, got: seq<byte>, ds: seq<Chunk>, k: nat, size: nat)
    requires cs != [] && ListOk(cs, size) && Packed(cs) && c.Valid() && |c.data| == size
    requires cs[0].Unread() == got + c.Unread() && if c.IsEmpty() then c.w == 0 else c.w == cs[0].w
    requires ds == [c] + cs[1..]
    requires k <= |ds| && (forall i :: 0 <= i < k ==> ds[i].IsEmpty()) && (k < |ds| ==> !ds[k].IsEmpty())
    ensures ListOk(ds[k..], size) && Packed(ds[k..]) && got + Held(ds[k..]) == Held(cs)
  {
    HeldFirst(cs, c, got);
    assert forall i :: 1 <= i < |ds| ==> ds[i] == cs[i];
    EmptyFirst(ds, k, size);
    DropPacked(ds, k, size);
  }

  lemma {:induction false} LastReplaced(cs: seq<Chunk>, c: Chunk, more: seq<byte>, size: nat)
    requires cs != [] && ListOk(cs, size) && Packed(cs) && c.Valid() && |c.data| == size
    requires c.r == cs[|cs| - 1].r && c.w == cs[|cs| - 1].w + |more| && c.Unread() == cs[|cs| - 1].Unread() + more
    ensures var ds := cs[..|cs| - 1] + [c];
            ListOk(ds, size) && Packed(ds) && Held(ds) == Held(cs) + more
  {
    HeldLast(cs, c, more);
  }

  // ---------- Two queues and a pool ----------

  // Two queues that share a pool share no chunk.
  lemma {:induction false} NoneShared(a: LinkedQueue, b: LinkedQueue)
    requires a != b && a.Core() && b.Core() && a.pool == b.pool
    ensures forall m :: m in b.heads || m in b.spares ==> m !in a.Owned()
  {
    a.Apart();
    b.Apart();
  }

  datatype Turn = Grows(granted: bool) | Writes(buf: seq<byte>, granted: bool) | Reads(amount: nat) | Resets

  // One turn of a queue leaves the other as it is.
  method Beside(a: LinkedQueue, b: LinkedQueue, turn: Turn)
    requires a != b && a.Good() && b.Good() && a.pool == b.pool
    modifies a, a.pool, a.Owned()
    ensures a.Good() && b.Good() && b.Content() == old(b.Content()) && b.heads == old(b.heads) && b.spares == old(b.spares)
    ensures fresh(a.Owned() - old(a.Owned()))
  {
    NoneShared(a, b);
    ghost var cs := Chunks(b.heads);
    a.Act(turn);
    assert Seg(b.head, b.heads, null, In(b, false, b.start), b.chunkSize);
    assert Seg(b.spare, b.spares, null, In(b, true, b.spareStart), b.chunkSize);
    assert Chunks(b.heads) == cs;
  }
}
