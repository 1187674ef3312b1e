// src/io/buffer.c: a byte queue kept in 512-byte chunks.

module Buffers {
  import opened Bytes
  import opened CachePool
  import opened Chunks
  import opened Outcomes

  /** A file descriptor: what its calls answer is up to the environment, and is given to them. */
  class Socket {
    ghost var taken: Bytes  // all that read has delivered
    ghost var sent: Bytes   // all that write has accepted

    // read: an error, or at most `n` bytes
    method Read(n: nat, reply: Reply) returns (k: int, data: Bytes)
      modifies this
      ensures sent == old(sent) && taken == old(taken) + data
      ensures reply.Fails? ==> k == -1 && data == []
      ensures reply.Gives? ==> k == |data| && data == Handed(reply, n)
    {
      if reply.Fails? {
        k, data := -1, [];
        Nothing(taken);
      } else {
        data := Handed(reply, n);
        k := |data|;
        taken := taken + data;
      }
    }

    // write: an error, or at least one of the bytes offered
    method Write(data: Bytes, answer: int) returns (k: int)
      modifies this
      ensures taken == old(taken) && k == Accepted(answer, |data|)
      ensures sent == old(sent) + if k < 0 then [] else data[..k]
    {
      k := Accepted(answer, |data|);
      if k >= 0 {
        sent := sent + data[..k];
      }
    }
  }

  /** The pool has all these caches out on loan. */
  ghost predicate OnLoan(ns: seq<InnerNode>, all: seq<nat>, outstanding: set<nat>) {
    && NodeIds(ns) <= outstanding
    && forall i :: 0 <= i < |ns| ==> ns[i].cache.id < |all| && all[ns[i].cache.id] == ns[i].cache.allocated_size
  }

  /** An append is under way: old chunks are followed by new ones, whose caches are the
      only ones lent since it began. */
  ghost predicate Staging(main: seq<InnerNode>, tmp: seq<InnerNode>, before: set<nat>, all: seq<nat>,
                          outstanding: set<nat>) {
    && Shape(main + tmp) && Separate(main + tmp) && OnLoan(main + tmp, all, outstanding)
    && outstanding == before + NodeIds(tmp) && NodeIds(tmp) !! before
  }

  lemma StagingGrow(main: seq<InnerNode>, tmp: seq<InnerNode>, before: set<nat>,
                    all: seq<nat>, outstanding: set<nat>, all': seq<nat>, n: InnerNode)
    requires Staging(main, tmp, before, all, outstanding) && NeedsChunk(main + tmp)
    requires n.r_offset == n.w_offset == 0 && Fits(n) && n.cache.id !in outstanding
    requires all <= all' && n.cache.id < |all'| && all'[n.cache.id] == n.cache.allocated_size
    ensures Staging(main, tmp + [n], before, all', outstanding + {n.cache.id})
    ensures !NeedsChunk(main + (tmp + [n])) && Flatten(main + (tmp + [n])) == Flatten(main + tmp)
  {
    Grow(main + tmp, n);
    IdsAppend(tmp, [n]);
    assert NodeIds([n]) == {n.cache.id};
    assert main + (tmp + [n]) == (main + tmp) + [n];
  }

  lemma PutJoins(main: seq<InnerNode>, tmp: seq<InnerNode>, e: Bytes)
    requires main + tmp != [] && Fits(LastNode(main, tmp)) && |e| <= Room(main, tmp)
    ensures Put(main, tmp, e).0 + Put(main, tmp, e).1 == StoreLast(main + tmp, e)
  {
    if tmp == [] {
      assert main + tmp == main;
    }
  }

  lemma StagingStore(main: seq<InnerNode>, tmp: seq<InnerNode>, before: set<nat>, all: seq<nat>, outstanding: set<nat>,
                     main': seq<InnerNode>, tmp': seq<InnerNode>, e: Bytes)
    requires Staging(main, tmp, before, all, outstanding) && main + tmp != [] && Fits(LastNode(main, tmp))
    requires |e| <= Room(main, tmp) && (main', tmp') == Put(main, tmp, e)
    ensures Staging(main', tmp', before, all, outstanding)
    ensures Flatten(main' + tmp') == Flatten(main + tmp) + e
  {
    PutJoins(main, tmp, e);
    FlattenStoreLast(main + tmp, e);
    ShapeStoreLast(main + tmp, e);
    IdsEqual(tmp, tmp');
  }

  /** The last node of the two lists, on whichever it is. */
  function LastNode(main: seq<InnerNode>, tmp: seq<InnerNode>): (n: InnerNode)
    requires main + tmp != []
    ensures n == (main + tmp)[|main + tmp| - 1]
  {
    if tmp == [] then main[|main| - 1] else tmp[|tmp| - 1]
  }

  /** The room left in it. */
  function Room(main: seq<InnerNode>, tmp: seq<InnerNode>): int
    requires main + tmp != []
  {
    CHUNK - LastNode(main, tmp).w_offset
  }

  /** Bytes into it. */
  function Put(main: seq<InnerNode>, tmp: seq<InnerNode>, e: Bytes): (seq<InnerNode>, seq<InnerNode>)
    requires main + tmp != [] && Fits(LastNode(main, tmp)) && |e| <= Room(main, tmp)
  {
    if tmp == [] then (StoreLast(main, e), tmp) else (main, StoreLast(tmp, e))
  }

  /** The first part of a staged list is a list by itself. */
  lemma StagingMain(main: seq<InnerNode>, tmp: seq<InnerNode>, before: set<nat>, all: seq<nat>, outstanding: set<nat>)
    requires Staging(main, tmp, before, all, outstanding)
    ensures Separate(main) && Separate(tmp) && OnLoan(main, all, outstanding) && OnLoan(tmp, all, outstanding)
    ensures NodeIds(main) !! NodeIds(tmp) && NodeIds(main) <= before
  {
    IdsAppend(main, tmp);
    assert forall i :: 0 <= i < |main| ==> (main + tmp)[i] == main[i];
    assert forall i :: 0 <= i < |tmp| ==> (main + tmp)[|main| + i] == tmp[i];
  }

  /** All an unfinished append can have done to the old chunks: more bytes in the last one. */
  ghost predicate Extended(was: seq<InnerNode>, main: seq<InnerNode>) {
    && |main| == |was|
    && (forall i :: 0 <= i < |was| - 1 ==> main[i] == was[i])
    && (was != [] ==>
          var o, n := was[|was| - 1], main[|was| - 1];
          && n.cache.id == o.cache.id && n.cache.allocated_size == o.cache.allocated_size
          && n.r_offset == o.r_offset && o.w_offset <= n.w_offset && Fits(n) && Fits(o)
          && n.cache.buff[..o.w_offset] == o.cache.buff[..o.w_offset])
  }

  lemma ExtendedStore(was: seq<InnerNode>, main: seq<InnerNode>, d: Bytes)
    requires Extended(was, main) && main != [] && main[|main| - 1].w_offset + |d| <= CHUNK
    ensures Extended(was, StoreLast(main, d))
  {
    var o, n := was[|was| - 1], main[|main| - 1];
    assert Store(n, d).cache.buff[..n.w_offset] == n.cache.buff[..n.w_offset];
    assert Store(n, d).cache.buff[..o.w_offset] == n.cache.buff[..n.w_offset][..o.w_offset];
  }

  /** The same chunks, with the same offsets and the same live bytes. */
  ghost predicate SameChunks(a: seq<InnerNode>, b: seq<InnerNode>) {
    |a| == |b| && forall i :: 0 <= i < |a| ==> 
      && a[i].r_offset == b[i].r_offset && a[i].w_offset == b[i].w_offset
      && a[i].cache.id == b[i].cache.id && a[i].cache.allocated_size == b[i].cache.allocated_size
      && Fits(a[i]) == Fits(b[i]) && Live(a[i]) == Live(b[i])
  }

  lemma Undone(was: seq<InnerNode>, main: seq<InnerNode>)
    requires Extended(was, main) && Shape(was)
    ensures was == [] ==> main == []
    ensures was != [] ==> SameChunks(was, main[|main| - 1 := main[|main| - 1].(w_offset := was[|was| - 1].w_offset)])
  {
    if was != [] {
      var o, n := was[|was| - 1], main[|main| - 1];
      assert n.cache.buff[o.r_offset..o.w_offset] == n.cache.buff[..o.w_offset][o.r_offset..];
      assert o.cache.buff[o.r_offset..o.w_offset] == o.cache.buff[..o.w_offset][o.r_offset..];
    }
  }

  lemma {:induction false} SameFlatten(a: seq<InnerNode>, b: seq<InnerNode>)
    requires SameChunks(a, b)
    ensures Flatten(a) == Flatten(b) && NodeIds(a) == NodeIds(b)
    ensures Shape(a) ==> Shape(b)
    ensures Separate(a) ==> Separate(b)
  {
    if a != [] {
      SameFlatten(a[1..], b[1..]);
    }
    IdsEqual(a, b);
  }

  /** An append that has so far put `d` behind the contents of `was`. */
  ghost predicate Appending(main: seq<InnerNode>, tmp: seq<InnerNode>, before: set<nat>, all: seq<nat>,
                            outstanding: set<nat>,
                            was: seq<InnerNode>, d: Bytes)
  {
    && Staging(main, tmp, before, all, outstanding)
    && Extended(was, main)
    && Flatten(main + tmp) == Flatten(was) + d
    && (d == [] ==> Flatten(main) == Flatten(was) && (tmp != [] <==> NeedsChunk(was)))
    && (tmp == [] ==> !NeedsChunk(was)) && (NeedsChunk(was) ==> main == was)
  }

  /** An append that never begins. */
  lemma Untouched(ns: seq<InnerNode>, all: seq<nat>, outstanding: set<nat>, taken: Bytes)
    requires OnLoan(ns, all, outstanding)
    ensures outstanding == outstanding + NodeIds(ns) + {} && (NodeIds(ns) - NodeIds(ns) + {}) !! outstanding
    ensures SameChunks(ns, ns) && taken == taken + []
  {
  }

  lemma RoomLeft(main: seq<InnerNode>, tmp: seq<InnerNode>, before: set<nat>, all: seq<nat>, outstanding: set<nat>,
                 was: seq<InnerNode>, d: Bytes)
    requires Appending(main, tmp, before, all, outstanding, was, d) && !NeedsChunk(main + tmp)
    ensures main + tmp != [] && Room(main, tmp) > 0
  {
  }

  lemma AppendingStarts(main: seq<InnerNode>, before: set<nat>, all: seq<nat>)
    requires Shape(main) && Separate(main) && OnLoan(main, all, before) && !NeedsChunk(main)
    ensures Appending(main, [], before, all, before, main, [])
  {
    assert main + [] == main && Flatten(main) + [] == Flatten(main) && NodeIds([]) == {};
  }

  lemma AppendingStartsAnew(main: seq<InnerNode>, before: set<nat>, all: seq<nat>, outstanding: set<nat>,
                            all': seq<nat>, n: InnerNode)
    requires Shape(main) && Separate(main) && OnLoan(main, all, before) && NeedsChunk(main)
    requires n.r_offset == n.w_offset == 0 && Fits(n) && n.cache.id !in before
    requires all <= all' && n.cache.id < |all'| && all'[n.cache.id] == n.cache.allocated_size
    requires outstanding == before + {n.cache.id}
    ensures Appending(main, [n], before, all', outstanding, main, []) && !NeedsChunk(main + [n])
  {
    Grow(main, n);
    assert NodeIds([n]) == {n.cache.id} && Flatten(main) + [] == Flatten(main);
  }

  lemma AppendingGrows(main: seq<InnerNode>, tmp: seq<InnerNode>, before: set<nat>, all: seq<nat>,
                       outstanding: set<nat>,
                       was: seq<InnerNode>, d: Bytes, all': seq<nat>, outstanding': set<nat>, n: InnerNode)
    requires Appending(main, tmp, before, all, outstanding, was, d) && NeedsChunk(main + tmp) && d != []
    requires n.r_offset == n.w_offset == 0 && Fits(n) && n.cache.id !in outstanding
    requires all <= all' && n.cache.id < |all'| && all'[n.cache.id] == n.cache.allocated_size
    requires outstanding' == outstanding + {n.cache.id}
    ensures Appending(main, tmp + [n], before, all', outstanding', was, d) && !NeedsChunk(main + (tmp + [n]))
  {
    StagingGrow(main, tmp, before, all, outstanding, all', n);
  }

  lemma AppendingStores(main: seq<InnerNode>, tmp: seq<InnerNode>, before: set<nat>, all: seq<nat>,
                        outstanding: set<nat>,
                        was: seq<InnerNode>, d: Bytes, main': seq<InnerNode>, tmp': seq<InnerNode>, e: Bytes)
    requires Appending(main, tmp, before, all, outstanding, was, d) && main + tmp != []
    requires Fits(LastNode(main, tmp))
    requires |e| <= Room(main, tmp) && (main', tmp') == Put(main, tmp, e)
    ensures Appending(main', tmp', before, all, outstanding, was, d + e)
    ensures main' + tmp' != [] && (NeedsChunk(main' + tmp') <==> |e| == Room(main, tmp))
  {
    StagingStore(main, tmp, before, all, outstanding, main', tmp', e);
    Associate(Flatten(was), d, e);
    PutJoins(main, tmp, e);
    if tmp == [] {
      StoresInPlace(main, was, d, e);
    }
  }

  lemma StoresInPlace(main: seq<InnerNode>, was: seq<InnerNode>, d: Bytes, e: Bytes)
    requires Extended(was, main) && main != [] && main[|main| - 1].w_offset + |e| <= CHUNK
    requires d == [] ==> Flatten(main) == Flatten(was)
    ensures Extended(was, StoreLast(main, e))
    ensures d + e == [] ==> Flatten(StoreLast(main, e)) == Flatten(was)
  {
    ExtendedStore(was, main, e);
    FlattenStoreLast(main, e);
    assert Flatten(main) + [] == Flatten(main);
  }

  /** What is left when the temporary list is spliced on, and when it is dropped. */
  lemma AppendingEnds(main: seq<InnerNode>, tmp: seq<InnerNode>, before: set<nat>, all: seq<nat>, outstanding: set<nat>,
                      was: seq<InnerNode>, d: Bytes)
    requires Appending(main, tmp, before, all, outstanding, was, d)
    ensures Shape(main + tmp) && Separate(main + tmp) && OnLoan(main + tmp, all, outstanding)
    ensures NodeIds(main + tmp) == NodeIds(was) + NodeIds(tmp) && NodeIds(tmp) !! before && NodeIds(was) <= before
    ensures outstanding == before + NodeIds(tmp)
    ensures d == [] ==> Shape(main) && Separate(main) && OnLoan(main, all, outstanding) && NodeIds(main) == NodeIds(was)
    ensures NodeIds(tmp) == {} <==> tmp == []
  {
    IdsEqual(was, main);
    IdsAppend(main, tmp);
    StagingMain(main, tmp, before, all, outstanding);
    assert tmp != [] ==> tmp[0].cache.id in NodeIds(tmp);
    assert forall i :: 0 <= i < |main| ==> (main + tmp)[i] == main[i];
  }

  /** The old chunks of an append, once their last w_offset is put back. */
  function Reset(main: seq<InnerNode>, was: seq<InnerNode>): seq<InnerNode>
    requires |main| == |was|
  {
    if NeedsChunk(was) then main else main[|main| - 1 := main[|main| - 1].(w_offset := was[|was| - 1].w_offset)]
  }

  lemma AppendingUndone(main: seq<InnerNode>, tmp: seq<InnerNode>, before: set<nat>, all: seq<nat>,
                        outstanding: set<nat>,
                        was: seq<InnerNode>, d: Bytes)
    requires Appending(main, tmp, before, all, outstanding, was, d) && Shape(was)
    ensures SameChunks(was, Reset(main, was))
    ensures Flatten(Reset(main, was)) == Flatten(was) && NodeIds(Reset(main, was)) == NodeIds(was)
    ensures Shape(Reset(main, was)) && Separate(Reset(main, was)) && OnLoan(Reset(main, was), all, before)
    ensures outstanding == before + NodeIds(tmp) && NodeIds(tmp) !! before
    ensures Separate(tmp) && OnLoan(tmp, all, outstanding)
  {
    StagingMain(main, tmp, before, all, outstanding);
    Undone(was, main);
    SameFlatten(was, Reset(main, was));
    IdsEqual(main, Reset(main, was));
  }

  lemma DropLastId(ns: seq<InnerNode>)
    requires ns != [] && Separate(ns)
    ensures Separate(ns[..|ns| - 1]) && ns[|ns| - 1].cache.id in NodeIds(ns)
    ensures NodeIds(ns[..|ns| - 1]) == NodeIds(ns) - {ns[|ns| - 1].cache.id}
  {
    var init, last := ns[..|ns| - 1], ns[|ns| - 1];
    assert ns == init + [last];
    IdsAppend(init, [last]);
    assert NodeIds([last]) == {last.cache.id};
  }

  // Nodes go back to the pool, last first: the loop of destroy_buffer, and of an append that fails.
  method RecycleAll(pool: Pool, ns: seq<InnerNode>, ghost others: set<nat>)
    requires pool.Valid() && Separate(ns) && OnLoan(ns, pool.all, pool.outstanding)
    requires pool.outstanding == others + NodeIds(ns) && NodeIds(ns) !! others
    modifies pool
    ensures pool.Valid() && pool.all == old(pool.all) && pool.outstanding == others
  {
    var rest := ns;
    while rest != []
      invariant pool.Valid() && pool.all == old(pool.all)
      invariant Separate(rest) && OnLoan(rest, pool.all, pool.outstanding)
      invariant pool.outstanding == others + NodeIds(rest) && NodeIds(rest) !! others
      decreases |rest|
    {
      var last := rest[|rest| - 1];
      DropLastId(rest);
      pool.RecycleCache(last.cache);
      rest := rest[..|rest| - 1];
    }
    assert NodeIds([]) == {};
  }

  // A loan shrinks with the list.

  lemma LoanRest(ns: seq<InnerNode>, all: seq<nat>, outstanding: set<nat>)
    requires Separate(ns) && OnLoan(ns, all, outstanding) && ns != []
    ensures Separate(ns[1..]) && OnLoan(ns[1..], all, outstanding - {ns[0].cache.id})
    ensures NodeIds(ns) - NodeIds(ns[1..]) == {ns[0].cache.id} && NodeIds(ns[1..]) <= NodeIds(ns)
    ensures ns[0].cache.id in outstanding && ns[0].cache.id < |all| && all[ns[0].cache.id] == ns[0].cache.allocated_size
  {
    assert ns[0].cache.id in NodeIds(ns);
    IdsRest(ns);
  }

  lemma LoanSame(ns: seq<InnerNode>, first: InnerNode, all: seq<nat>, outstanding: set<nat>)
    requires Separate(ns) && OnLoan(ns, all, outstanding) && ns != [] && first.cache == ns[0].cache
    ensures Separate(ns[0 := first]) && OnLoan(ns[0 := first], all, outstanding)
    ensures NodeIds(ns) == NodeIds(ns[0 := first])
  {
    IdsEqual(ns, ns[0 := first]);
  }

  // The two allocations for a new node: malloc, if there is memory, and get_new_cache, which
  // has a class for this size.
  method NewNode(pool: Pool, memory: bool) returns (n: Option<InnerNode>)
    requires pool.Valid()
    modifies pool
    ensures n.Some? <==> memory
    ensures pool.Valid() && old(pool.all) <= pool.all
    ensures n == None ==> pool.outstanding == old(pool.outstanding)
    ensures n.Some? ==> var id := n.value.cache.id;
      && n.value.r_offset == n.value.w_offset == 0 && Fits(n.value)
      && id !in old(pool.outstanding) && pool.outstanding == old(pool.outstanding) + {id}
      && id < |pool.all| && pool.all[id] == n.value.cache.allocated_size
  {
    if !memory {
      return None;
    }
    var cache := pool.GetNewCache(CHUNK);
    if cache == None {
      return None;
    }
    n := Some(InnerNode(0, 0, cache.value));
  }

  // _InnerBuffer
  class Buffer {
    var cache_list: seq<InnerNode>

    ghost predicate Valid()
      reads this
    {
      Shape(cache_list) && Separate(cache_list)
    }

    /** The queue this buffer stands for. */
    ghost function Contents(): Bytes
      reads this
    {
      Flatten(cache_list)
    }

    ghost function Owns(): set<nat>
      reads this
    {
      NodeIds(cache_list)
    }

    ghost predicate Borrows(pool: Pool)
      reads this, pool
    {
      OnLoan(cache_list, pool.all, pool.outstanding)
    }

    /** What everybody else has on loan. */
    ghost function Others(pool: Pool): set<nat>
      reads this, pool
    {
      pool.outstanding - Owns()
    }

    // create_new_buffer
    constructor ()
      ensures Valid() && Contents() == [] && cache_list == []
    {
      cache_list := [];
    }

    // ----- appending, which both write_into_buffer and read_into_buffer do in two lists:
    //       new nodes wait on a temporary list until the append is known to succeed

    ghost predicate Adding(pool: Pool, tmp: seq<InnerNode>, before: set<nat>, was: seq<InnerNode>, d: Bytes)
      reads this, pool
    {
      pool.Valid() && Appending(cache_list, tmp, before, pool.all, pool.outstanding, was, d)
    }

    // The opening of both functions: a new node unless the last one has room, and where
    // that one was written up to.
    method BeginAppend(pool: Pool, memory: bool) returns (ok: bool, tmp: seq<InnerNode>, last_w_offset: int)
      requires Valid() && pool.Valid() && Borrows(pool)
      modifies pool
      ensures !ok ==> pool.Valid() && Borrows(pool) && pool.outstanding == old(pool.outstanding)
      ensures ok ==> Adding(pool, tmp, old(pool.outstanding), cache_list, []) && !NeedsChunk(cache_list + tmp)
      ensures ok <==> !NeedsChunk(cache_list) || memory
      ensures ok ==> Room(cache_list, tmp) == FirstRoom(cache_list)
      ensures last_w_offset == if NeedsChunk(cache_list) then -1 else cache_list[|cache_list| - 1].w_offset
      ensures old(pool.all) <= pool.all
    {
      if cache_list == [] || cache_list[|cache_list| - 1].w_offset == CHUNK {
        last_w_offset := -1;
        ok, tmp := BeginAnew(pool, memory);
      } else {
        last_w_offset := cache_list[|cache_list| - 1].w_offset;
        AppendingStarts(cache_list, pool.outstanding, pool.all);
        assert cache_list + [] == cache_list;
        ok, tmp := true, [];
      }
    }

    method BeginAnew(pool: Pool, memory: bool) returns (ok: bool, tmp: seq<InnerNode>)
      requires Valid() && pool.Valid() && Borrows(pool) && NeedsChunk(cache_list)
      modifies pool
      ensures !ok ==> pool.Valid() && Borrows(pool) && pool.outstanding == old(pool.outstanding)
      ensures ok ==> Adding(pool, tmp, old(pool.outstanding), cache_list, []) && !NeedsChunk(cache_list + tmp)
      ensures (ok <==> memory) && (ok ==> Room(cache_list, tmp) == CHUNK)
      ensures old(pool.all) <= pool.all
    {
      ghost var all := pool.all;
      var n := NewNode(pool, memory);
      if n == None {
        return false, [];
      }
      AppendingStartsAnew(cache_list, old(pool.outstanding), all, pool.outstanding, pool.all, n.value);
      return true, [n.value];
    }

    // One more empty node on the temporary list, if there is memory for it.
    method AddNode(pool: Pool, memory: bool, tmp: seq<InnerNode>, ghost before: set<nat>, ghost was: seq<InnerNode>,
                   ghost d: Bytes)
      returns (ok: bool, tmp': seq<InnerNode>)
      requires Adding(pool, tmp, before, was, d) && NeedsChunk(cache_list + tmp) && d != []
      modifies pool
      ensures Adding(pool, tmp', before, was, d)
      ensures ok <==> memory
      ensures ok ==> !NeedsChunk(cache_list + tmp') && Room(cache_list, tmp') == CHUNK
      ensures old(pool.all) <= pool.all
    {
      ghost var all, outstanding := pool.all, pool.outstanding;
      var n := NewNode(pool, memory);
      if n == None {
        return false, tmp;
      }
      AppendingGrows(cache_list, tmp, before, all, outstanding, was, d, pool.all, pool.outstanding, n.value);
      return true, tmp + [n.value];
    }

    // memcpy or read into the node that is being filled, on whichever list it is.
    method PutLast(pool: Pool, tmp: seq<InnerNode>, e: Bytes, ghost before: set<nat>, ghost was: seq<InnerNode>,
                   ghost d: Bytes)
      returns (tmp': seq<InnerNode>)
      requires Adding(pool, tmp, before, was, d) && cache_list + tmp != [] && |e| <= Room(cache_list, tmp)
      modifies this
      ensures Adding(pool, tmp', before, was, d + e) && cache_list + tmp' != []
      ensures NeedsChunk(cache_list + tmp') <==> |e| == old(Room(cache_list, tmp))
    {
      assert Fits(LastNode(cache_list, tmp));
      ghost var main := cache_list;
      tmp' := tmp;
      if tmp == [] {
        cache_list := StoreLast(cache_list, e);
      } else {
        tmp' := StoreLast(tmp, e);
      }
      AppendingStores(main, tmp, before, pool.all, pool.outstanding, was, d, cache_list, tmp', e);
    }

    // list_splice, when something was appended; otherwise the temporary list is dropped,
    // with the node it may hold.
    method EndAppend(pool: Pool, tmp: seq<InnerNode>, success: bool, ghost before: set<nat>,
                     ghost was: seq<InnerNode>, ghost d: Bytes)
      returns (ghost dropped: set<nat>)
      requires Adding(pool, tmp, before, was, d) && (success <==> d != [])
      modifies this
      ensures Valid() && Borrows(pool) && Contents() == Flatten(was) + d
      ensures pool.outstanding == before + Owns() + dropped && (Owns() - NodeIds(was) + dropped) !! before
      ensures dropped != {} <==> d == [] && NeedsChunk(was)
    {
      AppendingEnds(cache_list, tmp, before, pool.all, pool.outstanding, was, d);
      dropped := if success then {} else NodeIds(tmp);
      if success {
        cache_list := cache_list + tmp;
      } else {
        assert Flatten(was) + [] == Flatten(was);
      }
    }

    // Once round the loop of write_into_buffer: fill the last node with the next bytes of
    // `src`, as many as it has room for, then add another if there are more. `d` is what has
    // been stored.
    method WriteOnce(pool: Pool, memory: bool, src: Bytes, already: nat, tmp: seq<InnerNode>, ghost before: set<nat>,
                     ghost was: seq<InnerNode>, ghost d: Bytes)
      returns (already': nat, tmp': seq<InnerNode>, more: bool, ghost d': Bytes)
      requires already == |d| < |src| && d <= src && Adding(pool, tmp, before, was, d) && !NeedsChunk(cache_list + tmp)
      modifies this, pool
      ensures already' == already + Min(|src| - already, old(Room(cache_list, tmp))) > already
      ensures already' == |d'| && d' <= src && Adding(pool, tmp', before, was, d')
      ensures more <==> already' < |src| && memory
      ensures more ==> !NeedsChunk(cache_list + tmp') && Room(cache_list, tmp') == CHUNK
      ensures old(pool.all) <= pool.all
    {
      RoomLeft(cache_list, tmp, before, pool.all, pool.outstanding, was, d);
      already', tmp', d' := FillLast(pool, src, already, tmp, before, was, d);
      more := false;
      if already' < |src| {
        more, tmp' := AddNode(pool, memory, tmp', before, was, d');
      }
    }

    // memcpy of as much of `src` as the last node has room for
    method FillLast(pool: Pool, src: Bytes, already: nat, tmp: seq<InnerNode>, ghost before: set<nat>,
                    ghost was: seq<InnerNode>, ghost d: Bytes)
      returns (already': nat, tmp': seq<InnerNode>, ghost d': Bytes)
      requires already == |d| < |src| && d <= src && Adding(pool, tmp, before, was, d)
      requires cache_list + tmp != [] && Room(cache_list, tmp) > 0
      modifies this
      ensures already' == already + Min(|src| - already, old(Room(cache_list, tmp))) == |d'|
      ensures d' <= src && Adding(pool, tmp', before, was, d') && cache_list + tmp' != []
      ensures already' < |src| ==> NeedsChunk(cache_list + tmp')
    {
      var n := Min(|src| - already, Room(cache_list, tmp));
      tmp' := PutLast(pool, tmp, src[already..already + n], before, was, d);
      already', d' := already + n, d + src[already..already + n];
      PrefixNext(d, src, n);
    }

    method WriteLoop(pool: Pool, src: Bytes, tmp: seq<InnerNode>, ghost room: nat, asked: nat, mem: nat -> bool,
                     ghost before: set<nat>, ghost was: seq<InnerNode>)
      returns (already: nat, tmp': seq<InnerNode>)
      requires Adding(pool, tmp, before, was, []) && !NeedsChunk(cache_list + tmp)
      requires room == Room(cache_list, tmp) > 0
      modifies this, pool
      ensures already == Stored(|src|, room, asked, mem) <= |src| && (src != [] ==> already > 0)
      ensures Adding(pool, tmp', before, was, src[..already])
      ensures old(pool.all) <= pool.all
    {
      already, tmp' := 0, tmp;
      var nodes, more := asked, src != [];
      ghost var left, d := room, [];
      while more
        invariant already == |d| && d <= src && (already > 0 || (more <==> src != []))
        invariant Adding(pool, tmp', before, was, d) && old(pool.all) <= pool.all
        invariant more ==> !NeedsChunk(cache_list + tmp') && Room(cache_list, tmp') == left
        invariant StoredSoFar(|src|, room, asked, mem, already, left, nodes, more)
        decreases |src| - already, more
      {
        StoredOn(|src|, room, asked, mem, already, left, nodes);
        already, tmp', more, d := WriteOnce(pool, mem(nodes), src, already, tmp', before, was, d);
        nodes, left := if more then nodes + 1 else nodes, CHUNK;
      }
      StoredEnds(|src|, room, asked, mem, already, left, nodes);
      PrefixIs(d, src);
    }

    // write_into_buffer: all of `src`, or as much of it as memory allows: `mem(i)` says whether
    // there is any for the i-th node. `dropped` is the node that an append of nothing
    // allocates and loses.
    method WriteIntoBuffer(pool: Pool, src: Bytes, mem: nat -> bool) returns (ret: int, ghost dropped: set<nat>)
      requires Valid() && pool.Valid() && Borrows(pool)
      modifies this, pool
      ensures Valid() && pool.Valid() && Borrows(pool)
      ensures ret == Written(old(cache_list), |src|, mem) && (src != [] ==> ret != 0)
      ensures Contents() == old(Contents()) + src[..if ret < 0 then 0 else ret]
      ensures pool.outstanding == old(pool.outstanding) + Owns() + dropped
      ensures (Owns() - old(Owns()) + dropped) !! old(pool.outstanding)
      ensures dropped != {} <==> ret == 0 && NeedsChunk(old(cache_list))
      ensures old(pool.all) <= pool.all
    {
      ghost var before, was := pool.outstanding, cache_list;
      var asked := AskedFirst(cache_list);
      var ok, tmp, last_w_offset := BeginAppend(pool, mem(0));
      if !ok {
        assert src[..0] == [];
        Untouched(cache_list, pool.all, pool.outstanding, Contents());
        return -1, {};
      }
      ret, tmp := WriteLoop(pool, src, tmp, FirstRoom(cache_list), asked, mem, before, was);
      dropped := EndAppend(pool, tmp, ret > 0, before, was, src[..ret]);
    }

    // Once round the loop of read_into_buffer: one read of what the node has room for; a short
    // one, or enough, or no memory for another node, and it is the last.
    method ReadOnce(fd: Socket, pool: Pool, want: nat, reply: Reply, memory: bool, tmp: seq<InnerNode>,
                    ghost before: set<nat>, ghost was: seq<InnerNode>, ghost got: Bytes)
      returns (k: int, tmp': seq<InnerNode>, more: bool, ghost data: Bytes)
      requires want > 0 && Adding(pool, tmp, before, was, got) && !NeedsChunk(cache_list + tmp)
      requires Room(cache_list, tmp) > 0
      modifies this, pool, fd
      ensures Adding(pool, tmp', before, was, got + data) && old(pool.all) <= pool.all
      ensures fd.taken == old(fd.taken) + data && fd.sent == old(fd.sent)
      ensures reply.Fails? ==> k == -1 && data == [] && !more
      ensures var n := Min(want, old(Room(cache_list, tmp)));
        reply.Gives? ==>
          k == |data| && data == Handed(reply, n) && (more <==> |data| == n && n < want && memory)
      ensures more ==> !NeedsChunk(cache_list + tmp') && Room(cache_list, tmp') == CHUNK
    {
      var n, bytes := Min(want, Room(cache_list, tmp)), [];
      k, bytes := fd.Read(n, reply);
      data, more, tmp' := bytes, false, tmp;
      if k < 0 {
        Nothing(got);
        return;
      }
      tmp' := PutLast(pool, tmp, bytes, before, was, got);
      if k == want || k < n {
        return;
      }
      more, tmp' := AddNode(pool, memory, tmp', before, was, got + data);
    }

    // The loop of read_into_buffer.
    method ReadLoop(fd: Socket, pool: Pool, size: nat, tmp: seq<InnerNode>, ghost room: nat, asked: nat,
                    replies: nat -> Reply, mem: nat -> bool, ghost before: set<nat>, ghost was: seq<InnerNode>)
      returns (already: nat, err: int, tmp': seq<InnerNode>, ghost got: Bytes)
      requires Adding(pool, tmp, before, was, []) && !NeedsChunk(cache_list + tmp)
      requires room == Room(cache_list, tmp) > 0
      modifies this, pool, fd
      ensures Adding(pool, tmp', before, was, got)
      ensures (err == 0 || err == -1) && already == |got| <= size
      ensures (err == 0, got) == ReadUpTo(size, room, 0, asked, replies, mem)
      ensures fd.taken == old(fd.taken) + got && fd.sent == old(fd.sent)
      ensures old(pool.all) <= pool.all
    {
      already, err, tmp', got := 0, 0, tmp, [];
      var i, more := 0, size > 0;
      ghost var start, left := fd.taken, room;
      Nothing(start);
      ReadBegins(size, room, asked, replies, mem);
      while more
        invariant already == |got| <= size && (err == 0 || (err == -1 && !more))
        invariant Adding(pool, tmp', before, was, got) && old(pool.all) <= pool.all
        invariant more ==> !NeedsChunk(cache_list + tmp') && Room(cache_list, tmp') == left
        invariant fd.taken == start + got && fd.sent == old(fd.sent)
        invariant ReadSoFar(size, room, asked, replies, mem, got, left, i, more, err == 0)
        decreases more, size - already
      {
        var k;
        ghost var data := [];
        ReadsOn(size, room, asked, replies, mem, got, left, i);
        k, tmp', more, data := ReadOnce(fd, pool, size - already, replies(i), mem(asked + i), tmp', before, was, got);
        Associate(start, got, data);
        got := got + data;
        if k < 0 {
          err := k;
        } else {
          already := already + k;
        }
        i, left := i + 1, CHUNK;
      }
    }

    // error_with_read: the last w_offset is put back and the new nodes are given up.
    method Rollback(pool: Pool, tmp: seq<InnerNode>, last_w_offset: int, ghost before: set<nat>,
                    ghost was: seq<InnerNode>, ghost d: Bytes)
      requires Adding(pool, tmp, before, was, d) && Shape(was)
      requires last_w_offset == if NeedsChunk(was) then -1 else was[|was| - 1].w_offset
      modifies this, pool
      ensures Valid() && pool.Valid() && Borrows(pool)
      ensures SameChunks(was, cache_list) && Contents() == Flatten(was) && Owns() == NodeIds(was)
      ensures pool.outstanding == before
      ensures pool.all == old(pool.all)
    {
      AppendingUndone(cache_list, tmp, before, pool.all, pool.outstanding, was, d);
      if last_w_offset >= 0 {
        var last := cache_list[|cache_list| - 1];
        cache_list := cache_list[|cache_list| - 1 := last.(w_offset := last_w_offset)];
      }
      RecycleAll(pool, tmp, before);
    }

    // The two ways an append from a socket ends.
    method EndRead(pool: Pool, tmp: seq<InnerNode>, already: nat, err: int, last_w_offset: int,
                   ghost before: set<nat>, ghost was: seq<InnerNode>, ghost got: Bytes)
      returns (ret: int, ghost dropped: set<nat>)
      requires Adding(pool, tmp, before, was, got) && Shape(was)
      requires already == |got| && err <= 0
      requires last_w_offset == if NeedsChunk(was) then -1 else was[|was| - 1].w_offset
      modifies this, pool
      ensures Valid() && pool.Valid() && Borrows(pool)
      ensures ret == if err < 0 then err else already
      ensures ret >= 0 ==> Contents() == Flatten(was) + got
      ensures ret < 0 ==> SameChunks(was, cache_list) && Contents() == Flatten(was) && Owns() == NodeIds(was)
      ensures pool.outstanding == before + Owns() + dropped && (Owns() - NodeIds(was) + dropped) !! before
      ensures dropped != {} <==> ret == 0 && NeedsChunk(was)
      ensures pool.all == old(pool.all)
    {
      if err < 0 {
        Rollback(pool, tmp, last_w_offset, before, was, got);
        return err, {};
      }
      ret := already;
      dropped := EndAppend(pool, tmp, ret > 0, before, was, got);
    }

    // read_into_buffer: what the socket delivered, or, after an error, exactly what was there.
    method ReadIntoBuffer(fd: Socket, pool: Pool, size: nat, replies: nat -> Reply, mem: nat -> bool)
      returns (ret: int, ghost got: Bytes, ghost dropped: set<nat>)
      requires Valid() && pool.Valid() && Borrows(pool)
      modifies this, pool, fd
      ensures Valid() && pool.Valid() && Borrows(pool)
      ensures (ret >= 0, got) == ReadOf(old(cache_list), size, replies, mem) && ret == if ret < 0 then -1 else |got|
      ensures fd.taken == old(fd.taken) + got && fd.sent == old(fd.sent) && |got| <= size
      ensures ret >= 0 ==> Contents() == old(Contents()) + got
      ensures ret < 0 ==>
        SameChunks(old(cache_list), cache_list) && Contents() == old(Contents()) && Owns() == old(Owns())
      ensures pool.outstanding == old(pool.outstanding) + Owns() + dropped
      ensures (Owns() - old(Owns()) + dropped) !! old(pool.outstanding)
      ensures dropped != {} <==> ret == 0 && NeedsChunk(old(cache_list))
      ensures old(pool.all) <= pool.all
    {
      ghost var before, was := pool.outstanding, cache_list;
      got, dropped := [], {};
      var asked := AskedFirst(cache_list);
      var ok, tmp, last_w_offset := BeginAppend(pool, mem(0));
      if !ok {
        Untouched(cache_list, pool.all, pool.outstanding, fd.taken);
        ReadIs(was, size, replies, mem, ok, -1, []);
        return -1, [], {};
      }
      var already, err;
      already, err, tmp, got := ReadLoop(fd, pool, size, tmp, FirstRoom(cache_list), asked, replies, mem, before, was);
      ret, dropped := EndRead(pool, tmp, already, err, last_w_offset, before, was, got);
      ReadIs(was, size, replies, mem, ok, ret, got);
    }

    // ----- taking from the front

    // list_del, recycle_cache and free for the first node
    method RemoveFirst(pool: Pool)
      requires Valid() && pool.Valid() && Borrows(pool) && cache_list != [] && Shape(cache_list[1..])
      modifies this, pool
      ensures Valid() && pool.Valid() && Borrows(pool) && cache_list == old(cache_list)[1..]
      ensures Owns() <= old(Owns()) && Others(pool) == old(Others(pool))
      ensures pool.all == old(pool.all)
    {
      LoanRest(cache_list, pool.all, pool.outstanding);
      var first := cache_list[0];
      cache_list := cache_list[1..];
      pool.RecycleCache(first.cache);
    }

    // Bytes leave the first node; an exhausted node leaves the list and its cache goes back.
    method TakeNode(pool: Pool, n: nat)
      requires Valid() && pool.Valid() && Borrows(pool)
      requires cache_list != [] && n <= |Live(cache_list[0])| && (n > 0 || Live(cache_list[0]) == [])
      modifies this, pool
      ensures Valid() && pool.Valid() && Borrows(pool)
      ensures n <= |old(Contents())| && Contents() == old(Contents())[n..]
      ensures |cache_list| <= |old(cache_list)| && (n == 0 ==> |cache_list| < |old(cache_list)|)
      ensures cache_list == TakeFirst(old(cache_list), n)
      ensures Owns() <= old(Owns()) && Others(pool) == old(Others(pool))
      ensures pool.all == old(pool.all)
    {
      FlattenTakeFirst(cache_list, n);
      ShapeTakeFirst(cache_list, n);
      var first := cache_list[0].(r_offset := cache_list[0].r_offset + n);
      if first.r_offset == first.w_offset {
        RemoveFirst(pool);
      } else {
        LoanSame(cache_list, first, pool.all, pool.outstanding);
        cache_list := cache_list[0 := first];
      }
    }

    // buffer_size
    method BufferSize() returns (size: nat)
      requires Valid()
      ensures size == |Contents()|
    {
      size := 0;
      for i := 0 to |cache_list|
        invariant size == |Flatten(cache_list[..i])|
      {
        assert cache_list[..i + 1] == cache_list[..i] + [cache_list[i]];
        FlattenSnoc(cache_list[..i], cache_list[i]);
        size := size + (cache_list[i].w_offset - cache_list[i].r_offset);
      }
      assert cache_list[..|cache_list|] == cache_list;
    }

    // The first pass of read_from_buffer: how much of the request can be met.
    method Available(size: nat) returns (expected: nat)
      requires Valid()
      ensures expected == Min(size, |Contents()|)
    {
      expected := 0;
      for i := 0 to |cache_list|
        invariant expected == |Flatten(cache_list[..i])| && (i > 0 ==> expected < size)
      {
        FlattenAt(cache_list, i);
        expected := expected + (cache_list[i].w_offset - cache_list[i].r_offset);
        if expected >= size {
          return size;
        }
      }
      assert cache_list[..|cache_list|] == cache_list;
    }

    // Bytes copied out of the first node, at most `want` of them.
    method CopySome(pool: Pool, want: nat) returns (piece: Bytes)
      requires Valid() && pool.Valid() && Borrows(pool) && cache_list != [] && Contents() != [] && want > 0
      modifies this, pool
      ensures Valid() && pool.Valid() && Borrows(pool)
      ensures 0 < |piece| <= want && |piece| <= |old(Contents())|
      ensures piece == old(Contents())[..|piece|] && Contents() == old(Contents())[|piece|..]
      ensures Owns() <= old(Owns()) && Others(pool) == old(Others(pool))
      ensures pool.all == old(pool.all)
    {
      FlattenFirst(cache_list);
      var live := Live(cache_list[0]);
      var n := Min(|live|, want);
      piece := live[..n];
      assert piece == Contents()[..n];
      TakeNode(pool, n);
    }

    // read_from_buffer: the first `size` bytes, or all there are, and the rest stay.
    method ReadFromBuffer(pool: Pool, size: nat) returns (target: Bytes)
      requires Valid() && pool.Valid() && Borrows(pool)
      modifies this, pool
      ensures Valid() && pool.Valid() && Borrows(pool)
      ensures target == old(Contents())[..Min(size, |old(Contents())|)]
      ensures Contents() == old(Contents())[|target|..]
      ensures Owns() <= old(Owns()) && Others(pool) == old(Others(pool))
      ensures pool.all == old(pool.all)
    {
      ghost var all := Contents();
      var expected := Available(size);
      target := [];
      Nothing(all);
      while |target| < expected
        invariant Valid() && pool.Valid() && Borrows(pool)
        invariant |target| <= expected && all == target + Contents()
        invariant Owns() <= old(Owns()) && Others(pool) == old(Others(pool)) && pool.all == old(pool.all)
      {
        ghost var was := Contents();
        var piece := CopySome(pool, expected - |target|);
        MovesOver(target, was, |piece|);
        target := target + piece;
      }
      FirstPart(target, Contents());
    }

    // One write to the socket, of at most `want` bytes of the first node.
    method SendSome(fd: Socket, pool: Pool, want: nat, answer: int) returns (k: int)
      requires Valid() && pool.Valid() && Borrows(pool) && cache_list != [] && want > 0
      modifies this, pool, fd
      ensures Valid() && pool.Valid() && Borrows(pool)
      ensures k == Accepted(answer, Min(|Live(old(cache_list)[0])|, want)) && k <= |old(Contents())|
      ensures fd.taken == old(fd.taken) && fd.sent == old(fd.sent) + old(Contents())[..if k < 0 then 0 else k]
      ensures Contents() == old(Contents())[if k < 0 then 0 else k..]
      ensures Lengths(cache_list) == if k < 0 then Lengths(old(cache_list)) else Less(Lengths(old(cache_list)), k)
      ensures k == 0 ==> |cache_list| < |old(cache_list)|
      ensures Owns() <= old(Owns()) && Others(pool) == old(Others(pool))
      ensures pool.all == old(pool.all)
    {
      var live := Live(cache_list[0]);
      var n := Min(|live|, want);
      k := fd.Write(live[..n], answer);
      FrontOf(cache_list, n, if k < 0 then 0 else k);
      if k >= 0 {
        LessIs(cache_list, k);
        TakeNode(pool, k);
      }
    }

    /** How far a write of the bytes `all` is: these are out, and those are left. */
    ghost predicate Sending(fd: Socket, pool: Pool, all: Bytes, start: Bytes, out: Bytes)
      reads this, pool, fd
    {
      Valid() && pool.Valid() && Borrows(pool) && all == out + Contents() && fd.sent == start + out
    }

    // Once round the loop of write_from_buffer.
    method SendNext(fd: Socket, pool: Pool, size: nat, accepts: nat -> int, sent: nat, i: nat, ghost lens: seq<nat>,
                    ghost all: Bytes, ghost start: Bytes, ghost out: Bytes)
      returns (sent': nat, failed: bool, ghost out': Bytes)
      requires Sending(fd, pool, all, start, out) && |out| == sent < size && cache_list != []
      requires SentSoFar(lens, size, accepts, sent, Lengths(cache_list), i, false)
      modifies this, pool, fd
      ensures Sending(fd, pool, all, start, out') && |out'| == sent' <= size
      ensures SentSoFar(lens, size, accepts, sent', Lengths(cache_list), i + 1, failed)
      ensures failed || |Contents()| < |old(Contents())|
        || (|Contents()| == |old(Contents())| && |cache_list| < |old(cache_list)|)
      ensures fd.taken == old(fd.taken)
      ensures Owns() <= old(Owns()) && Others(pool) == old(Others(pool)) && pool.all == old(pool.all)
    {
      ghost var was, rest := Contents(), Lengths(cache_list);
      var k := SendSome(fd, pool, size - sent, accepts(i));
      sent', failed, out' := sent, k < 0, out;
      if k < 0 {
        Nothing(fd.sent);
      } else {
        Associate(start, out, was[..k]);
        MovesOver(out, was, k);
        out', sent' := out + was[..k], sent + k;
      }
      SendsOn(lens, size, accepts, sent, rest, i, k, sent', Lengths(cache_list));
    }

    // write_from_buffer: the socket takes a prefix, all of what was asked for unless a write
    // fails, and the rest stays.
    method WriteFromBuffer(fd: Socket, pool: Pool, size: nat, accepts: nat -> int) returns (sent: nat, failed: bool)
      requires Valid() && pool.Valid() && Borrows(pool)
      modifies this, pool, fd
      ensures Valid() && pool.Valid() && Borrows(pool)
      ensures (sent, failed) == SendUpTo(Lengths(old(cache_list)), size, 0, accepts)
      ensures sent <= size && sent <= |old(Contents())|
      ensures fd.taken == old(fd.taken) && fd.sent == old(fd.sent) + old(Contents())[..sent]
      ensures Contents() == old(Contents())[sent..]
      ensures !failed ==> sent == Min(size, |old(Contents())|)
      ensures Owns() <= old(Owns()) && Others(pool) == old(Others(pool))
      ensures pool.all == old(pool.all)
    {
      ghost var all, start, lens, out := Contents(), fd.sent, Lengths(cache_list), [];
      TotalIs(cache_list);
      Nothing(all);
      Nothing(start);
      sent, failed := 0, false;
      var i := 0;
      while sent < size && cache_list != [] && !failed
        invariant Sending(fd, pool, all, start, out) && |out| == sent <= size
        invariant SentSoFar(lens, size, accepts, sent, Lengths(cache_list), i, failed)
        invariant fd.taken == old(fd.taken)
        invariant Owns() <= old(Owns()) && Others(pool) == old(Others(pool)) && pool.all == old(pool.all)
        decreases !failed, |Contents()|, |cache_list|
      {
        sent, failed, out := SendNext(fd, pool, size, accepts, sent, i, lens, all, start, out);
        i := i + 1;
      }
      SendEnds(lens, size, accepts, sent, Lengths(cache_list), i, failed);
      FirstPart(out, Contents());
    }

    // ----- searching

    // find_in_buffer with check_command_suffix: the least position, from `start_pos` on, that
    // holds the byte, whatever chunk it is in; -1 when there is none.
    method FindInBuffer(start_pos: nat, suffix: char) returns (pos: int)
      requires Valid()
      ensures var r := IndexFrom(Contents(), start_pos, suffix);
        pos == if r < |Contents()| then r else -1
    {
      var node_first_pos := 0;
      for i := 0 to |cache_list|
        invariant node_first_pos == |Flatten(cache_list[..i])| <= |Contents()|
        invariant Free(Contents(), start_pos, node_first_pos, suffix)
      {
        var live := Live(cache_list[i]);
        ChunkWindow(cache_list, i);
        pos := FindInChunk(live, node_first_pos, start_pos, suffix, Contents());
        if pos >= 0 {
          return;
        }
        node_first_pos := node_first_pos + |live|;
      }
      assert cache_list[..|cache_list|] == cache_list;
      IndexFromIsLeast(Contents(), start_pos, suffix, |Contents()|);
      return -1;
    }

    // destroy_buffer gives back exactly the buffer's own caches.
    method Destroy(pool: Pool)
      requires Valid() && pool.Valid() && Borrows(pool)
      modifies this, pool
      ensures pool.Valid() && pool.outstanding == old(pool.outstanding) - old(Owns()) && cache_list == []
      ensures pool.all == old(pool.all)
    {
      RecycleAll(pool, cache_list, pool.outstanding - Owns());
      cache_list := [];
    }
  }

  // check_command_suffix, as a search of the chunk's own bytes
  method CheckCommandSuffix(buff: Bytes, suffix: char) returns (pos: int)
    ensures pos >= 0 ==> pos < |buff| && buff[pos] == suffix && suffix !in buff[..pos]
    ensures pos < 0 ==> suffix !in buff
  {
    for i := 0 to |buff|
      invariant suffix !in buff[..i]
    {
      if buff[i] == suffix {
        return i;
      }
    }
    return -1;
  }

  /** These bytes are what the queue holds from position `at` on. */
  ghost predicate Window(s: Bytes, at: nat, live: Bytes) {
    at + |live| <= |s| && forall j :: 0 <= j < |live| ==> s[at + j] == live[j]
  }

  ghost predicate Free(s: Bytes, from: nat, to: nat, b: char)
    requires to <= |s|
  {
    forall j :: from <= j < to ==> s[j] != b
  }

  lemma ChunkWindow(ns: seq<InnerNode>, i: nat)
    requires i < |ns|
    ensures Window(Flatten(ns), |Flatten(ns[..i])|, Live(ns[i]))
    ensures |Flatten(ns[..i + 1])| == |Flatten(ns[..i])| + |Live(ns[i])|
  {
    FlattenAt(ns, i);
  }

  // The search of one chunk, which begins inside it only when `start_pos` lies there.
  method FindInChunk(live: Bytes, node_first_pos: nat, start_pos: nat, suffix: char, ghost s: Bytes) returns (pos: int)
    requires Window(s, node_first_pos, live) && Free(s, start_pos, node_first_pos, suffix)
    ensures pos >= 0 ==> pos == IndexFrom(s, start_pos, suffix) < |s|
    ensures pos < 0 ==> Free(s, start_pos, node_first_pos + |live|, suffix)
  {
    var from := 0;
    if node_first_pos < start_pos {
      if node_first_pos + |live| <= start_pos {
        return -1;
      }
      from := start_pos - node_first_pos;
    }
    var index := CheckCommandSuffix(live[from..], suffix);
    if index >= 0 {
      pos := node_first_pos + from + index;
      WindowFree(s, node_first_pos, live, from, from + index, start_pos, suffix);
      IndexFromIsLeast(s, start_pos, suffix, pos);
    } else {
      pos := -1;
      WindowFree(s, node_first_pos, live, from, |live|, start_pos, suffix);
    }
  }

  lemma WindowFree(s: Bytes, at: nat, live: Bytes, from: nat, to: nat, start: nat, b: char)
    requires Window(s, at, live) && Free(s, start, at, b)
    requires from <= to <= |live| && from == if at >= start then 0 else start - at
    requires b !in live[from..][..to - from]
    ensures Free(s, start, at + to, b)
  {
    forall j | start <= j < at + to
      ensures s[j] != b
    {
      if at <= j {
        assert live[from..][..to - from][j - at - from] == live[j - at];
      }
    }
  }

  lemma FrontOf(ns: seq<InnerNode>, n: nat, k: nat)
    requires ns != [] && k <= n <= |Live(ns[0])|
    ensures k <= |Flatten(ns)| && Live(ns[0])[..n][..k] == Flatten(ns)[..k]
  {
    FlattenFirst(ns);
  }

  lemma MovesOver(out: Bytes, rest: Bytes, k: nat)
    requires k <= |rest|
    ensures out + rest == (out + rest[..k]) + rest[k..]
  {
  }

  lemma FirstPart(out: Bytes, rest: Bytes)
    ensures (out + rest)[..|out|] == out && (out + rest)[|out|..] == rest
  {
  }

  lemma PrefixNext(d: Bytes, src: Bytes, n: nat)
    requires d <= src && |d| + n <= |src|
    ensures d + src[|d|..|d| + n] <= src
  {
  }

  lemma PrefixIs(d: Bytes, src: Bytes)
    requires d <= src
    ensures d == src[..|d|]
  {
  }
}
