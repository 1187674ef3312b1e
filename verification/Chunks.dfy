// The chunk list of src/io/buffer.c and the byte queue it stands for.

module Chunks {
  import opened Bytes
  import opened CachePool

  // CACHE_SIZE
  const CHUNK: nat := 512

  // _InnerNode
  datatype InnerNode = InnerNode(r_offset: nat, w_offset: nat, cache: Cache)

  predicate Fits(n: InnerNode) {
    n.r_offset <= n.w_offset <= CHUNK == |n.cache.buff|
  }

  /** The bytes written to a chunk and not yet read. */
  function Live(n: InnerNode): Bytes {
    if Fits(n) then n.cache.buff[n.r_offset..n.w_offset] else []
  }

  /** The queue a chunk list stands for. */
  function Flatten(ns: seq<InnerNode>): Bytes {
    if ns == [] then [] else Live(ns[0]) + Flatten(ns[1..])
  }

  /** Every chunk but the last is written to its end, every chunk but the first is
      unread, and only the last can be empty, when it has never been used. */
  predicate Shape(ns: seq<InnerNode>) {
    forall i :: 0 <= i < |ns| ==>
      && Fits(ns[i])
      && (i > 0 ==> ns[i].r_offset == 0)
      && (i < |ns| - 1 ==> ns[i].w_offset == CHUNK)
      && (ns[i].r_offset == ns[i].w_offset ==> i == |ns| - 1 && ns[i].r_offset == 0)
  }

  /** A new chunk is needed before anything can be appended. */
  predicate NeedsChunk(ns: seq<InnerNode>) {
    ns == [] || ns[|ns| - 1].w_offset == CHUNK
  }

  ghost function NodeIds(ns: seq<InnerNode>): set<nat> {
    set i | 0 <= i < |ns| :: ns[i].cache.id
  }

  /** No cache serves two chunks. */
  ghost predicate Separate(ns: seq<InnerNode>) {
    forall i, j :: 0 <= i < j < |ns| ==> ns[i].cache.id != ns[j].cache.id
  }

  // ----- appending

  /** memcpy into a buffer of fixed size. */
  function Overwrite(buff: Bytes, at: nat, d: Bytes): (r: Bytes)
    requires at + |d| <= |buff|
    ensures |r| == |buff|
  {
    buff[..at] + d + buff[at + |d|..]
  }

  function Store(n: InnerNode, d: Bytes): InnerNode
    requires Fits(n) && n.w_offset + |d| <= CHUNK
  {
    n.(w_offset := n.w_offset + |d|, cache := n.cache.(buff := Overwrite(n.cache.buff, n.w_offset, d)))
  }

  function StoreLast(ns: seq<InnerNode>, d: Bytes): seq<InnerNode>
    requires ns != [] && Fits(ns[|ns| - 1]) && ns[|ns| - 1].w_offset + |d| <= CHUNK
  {
    ns[|ns| - 1 := Store(ns[|ns| - 1], d)]
  }

  lemma LiveStore(n: InnerNode, d: Bytes)
    requires Fits(n) && n.w_offset + |d| <= CHUNK
    ensures Live(Store(n, d)) == Live(n) + d
  {
  }

  lemma {:induction false} FlattenAppend(a: seq<InnerNode>, b: seq<InnerNode>)
    ensures Flatten(a + b) == Flatten(a) + Flatten(b)
  {
    if a == [] {
      assert a + b == b;
    } else {
      assert (a + b)[1..] == a[1..] + b;
      FlattenAppend(a[1..], b);
      Associate(Live(a[0]), Flatten(a[1..]), Flatten(b));
    }
  }

  lemma FlattenSnoc(ns: seq<InnerNode>, n: InnerNode)
    ensures Flatten(ns + [n]) == Flatten(ns) + Live(n)
  {
    FlattenAppend(ns, [n]);
    assert Flatten([n]) == Live(n) + Flatten([]) == Live(n);
  }

  /** Bytes stored in the last chunk are bytes added to the queue. */
  lemma FlattenStoreLast(ns: seq<InnerNode>, d: Bytes)
    requires ns != [] && Fits(ns[|ns| - 1]) && ns[|ns| - 1].w_offset + |d| <= CHUNK
    ensures Flatten(StoreLast(ns, d)) == Flatten(ns) + d
  {
    var init, last := ns[..|ns| - 1], ns[|ns| - 1];
    LiveStore(last, d);
    FlattenSnoc(init, last);
    FlattenSnoc(init, Store(last, d));
    Associate(Flatten(init), Live(last), d);
    SplitLast(ns, Store(last, d));
  }

  lemma ShapeStoreLast(ns: seq<InnerNode>, d: Bytes)
    requires Shape(ns) && Separate(ns) && ns != [] && ns[|ns| - 1].w_offset + |d| <= CHUNK
    ensures Shape(StoreLast(ns, d)) && Separate(StoreLast(ns, d))
    ensures NodeIds(StoreLast(ns, d)) == NodeIds(ns)
  {
    IdsEqual(ns, StoreLast(ns, d));
  }

  lemma IdsEqual(a: seq<InnerNode>, b: seq<InnerNode>)
    requires |a| == |b| && forall i :: 0 <= i < |a| ==> a[i].cache.id == b[i].cache.id
    ensures NodeIds(a) == NodeIds(b)
  {
    assert forall i :: 0 <= i < |a| ==> b[i].cache.id in NodeIds(b) && a[i].cache.id in NodeIds(a);
  }

  lemma IdsAppend(a: seq<InnerNode>, b: seq<InnerNode>)
    ensures NodeIds(a + b) == NodeIds(a) + NodeIds(b)
  {
    forall id | id in NodeIds(a) ensures id in NodeIds(a + b) {
      var i :| 0 <= i < |a| && a[i].cache.id == id;
      assert (a + b)[i].cache.id == id;
    }
    forall id | id in NodeIds(b) ensures id in NodeIds(a + b) {
      var i :| 0 <= i < |b| && b[i].cache.id == id;
      assert (a + b)[|a| + i].cache.id == id;
    }
  }

  /** A fresh, empty chunk at the end changes nothing that can be read. */
  lemma Grow(ns: seq<InnerNode>, n: InnerNode)
    requires Shape(ns) && NeedsChunk(ns) && Separate(ns)
    requires n.r_offset == n.w_offset == 0 && Fits(n) && n.cache.id !in NodeIds(ns)
    ensures Shape(ns + [n]) && Separate(ns + [n]) && !NeedsChunk(ns + [n])
    ensures Flatten(ns + [n]) == Flatten(ns)
    ensures NodeIds(ns + [n]) == NodeIds(ns) + {n.cache.id}
  {
    FlattenSnoc(ns, n);
    assert Flatten(ns) + [] == Flatten(ns);
    forall i | 0 <= i < |ns| ensures ns[i].cache.id != n.cache.id {
      assert ns[i].cache.id in NodeIds(ns);
    }
    IdsAppend(ns, [n]);
    assert NodeIds([n]) == {n.cache.id};
  }

  // ----- taking from the front

  /** The first chunk gives up n bytes, and leaves the list once it is exhausted. */
  function TakeFirst(ns: seq<InnerNode>, n: nat): seq<InnerNode>
    requires ns != []
  {
    var first := ns[0].(r_offset := ns[0].r_offset + n);
    if first.r_offset == first.w_offset then ns[1..] else ns[0 := first]
  }

  lemma LiveRest(c: InnerNode, n: nat)
    requires Fits(c) && n <= |Live(c)|
    ensures Live(c.(r_offset := c.r_offset + n)) == Live(c)[n..]
  {
  }

  lemma FlattenTakeFirst(ns: seq<InnerNode>, n: nat)
    requires ns != [] && Fits(ns[0]) && n <= |Live(ns[0])|
    ensures Flatten(ns) == Live(ns[0])[..n] + Flatten(TakeFirst(ns, n))
  {
    var live, rest := Live(ns[0]), ns[1..];
    var first := ns[0].(r_offset := ns[0].r_offset + n);
    LiveRest(ns[0], n);
    if first.r_offset == first.w_offset {
      assert live[..n] == live;
    } else {
      assert ns[0 := first][1..] == rest;
      CutJoins(live, n);
      Associate(live[..n], live[n..], Flatten(rest));
    }
  }

  lemma ShapeTakeFirst(ns: seq<InnerNode>, n: nat)
    requires Shape(ns) && ns != [] && n <= |Live(ns[0])| && (n > 0 || Live(ns[0]) == [])
    ensures Shape(TakeFirst(ns, n))
  {
  }

  lemma IdsRest(ns: seq<InnerNode>)
    requires Separate(ns) && ns != []
    ensures Separate(ns[1..]) && NodeIds(ns[1..]) == NodeIds(ns) - {ns[0].cache.id}
  {
    assert ns == ns[..1] + ns[1..];
    IdsAppend(ns[..1], ns[1..]);
    assert NodeIds(ns[..1]) == {ns[0].cache.id};
    forall i | 0 <= i < |ns[1..]| ensures ns[1..][i].cache.id != ns[0].cache.id {
      assert ns[1..][i] == ns[i + 1];
    }
  }

  lemma FlattenFirst(ns: seq<InnerNode>)
    ensures ns == [] ==> Flatten(ns) == []
    ensures ns != [] ==> Flatten(ns) == Live(ns[0]) + Flatten(ns[1..])
    ensures Shape(ns) && ns != [] && Live(ns[0]) == [] ==> Flatten(ns) == []
  {
    if Shape(ns) && ns != [] && Live(ns[0]) == [] {
      assert ns[1..] == [];
    }
  }

  /** The bytes before, in and after one chunk. */
  lemma FlattenAt(ns: seq<InnerNode>, i: nat)
    requires i < |ns|
    ensures Flatten(ns[..i + 1]) == Flatten(ns[..i]) + Live(ns[i])
    ensures Flatten(ns) == Flatten(ns[..i + 1]) + Flatten(ns[i + 1..])
  {
    TakeNext(ns, i);
    FlattenSnoc(ns[..i], ns[i]);
    CutJoins(ns, i + 1);
    FlattenAppend(ns[..i + 1], ns[i + 1..]);
  }

  // ----- sizes

  /** The total of a well-shaped list bounds its length: no chunk but the two at the
      ends is partly filled. */
  lemma ChunkCount(ns: seq<InnerNode>)
    requires Shape(ns)
    ensures |ns| <= |Flatten(ns)| / 512 + 2
  {
    if |ns| > 2 {
      FullChunks(ns[1..]);
    }
  }

  lemma {:induction false} FullChunks(ns: seq<InnerNode>)
    requires Shape(ns) && ns != [] && ns[0].r_offset == 0
    ensures |Flatten(ns)| >= CHUNK * (|ns| - 1)
  {
    if |ns| > 1 {
      FullChunks(ns[1..]);
    }
  }
}
