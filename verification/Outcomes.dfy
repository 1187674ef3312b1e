// What the calls of src/io/buffer.c come to, given what memory and the socket answer: the
// answers are numbered in the order in which they are asked for.

module Outcomes {
  import opened Bytes
  import opened Chunks

  // ----- appending

  /** Of `want` bytes, how many find room: first in a node that has this much left, then in
      new nodes for as long as there is memory for them. */
  function Stored(want: nat, room: nat, asked: nat, mem: nat -> bool): (n: nat)
    requires room > 0
    ensures n <= want
    decreases want
  {
    if want <= room then want
    else if !mem(asked) then room
    else room + Stored(want - room, CHUNK, asked + 1, mem)
  }

  /** With memory for the first k nodes and no more, those and the room there was are filled. */
  lemma {:induction false} StoredIs(want: nat, room: nat, asked: nat, mem: nat -> bool, k: nat)
    requires room > 0 && forall i :: asked <= i < asked + k ==> mem(i)
    ensures want <= room + k * CHUNK ==> Stored(want, room, asked, mem) == want
    ensures want > room + k * CHUNK && !mem(asked + k) ==> Stored(want, room, asked, mem) == room + k * CHUNK
    decreases k
  {
    if want > room && k > 0 {
      StoredIs(want - room, CHUNK, asked + 1, mem, k - 1);
    }
  }

  /** The room that an append begins with, and how many nodes it has asked for then. */
  function FirstRoom(ns: seq<InnerNode>): int {
    if NeedsChunk(ns) then CHUNK else CHUNK - ns[|ns| - 1].w_offset
  }

  function AskedFirst(ns: seq<InnerNode>): nat {
    if NeedsChunk(ns) then 1 else 0
  }

  /** What write_into_buffer returns: -1 if it needs a node at once and there is none, otherwise
      how many bytes were stored. */
  function Written(ns: seq<InnerNode>, want: nat, mem: nat -> bool): (ret: int)
    requires Shape(ns)
    ensures -1 <= ret <= want
  {
    if NeedsChunk(ns) && !mem(0) then -1 else Stored(want, FirstRoom(ns), AskedFirst(ns), mem)
  }

  /** How many new nodes these bytes need. */
  function Needed(want: nat, room: nat): (n: nat)
    requires room > 0
    ensures n > 0 ==> room + (n - 1) * CHUNK < want
    ensures want <= room + n * CHUNK
    decreases want
  {
    if want <= room then 0 else 1 + Needed(want - room, CHUNK)
  }

  lemma {:induction false} StoredAll(want: nat, room: nat, asked: nat, mem: nat -> bool)
    requires room > 0
    ensures Stored(want, room, asked, mem) == want <==> forall i :: asked <= i < asked + Needed(want, room) ==> mem(i)
    decreases want
  {
    if want > room {
      StoredAll(want - room, CHUNK, asked + 1, mem);
    }
  }

  /** It is all of them if and only if there is memory for the nodes that they need. */
  lemma WrittenAll(ns: seq<InnerNode>, want: nat, mem: nat -> bool)
    requires Shape(ns)
    ensures Written(ns, want, mem) == want
      <==> forall i :: 0 <= i < AskedFirst(ns) + Needed(want, FirstRoom(ns)) ==> mem(i)
  {
    StoredAll(want, FirstRoom(ns), AskedFirst(ns), mem);
  }

  /** As far as an append has come: there was memory for all nodes up to the i-th, `already` is
      stored and this much room is left; or it has come to its end. */
  predicate StoredSoFar(want: nat, room: nat, asked: nat, mem: nat -> bool, already: nat, left: nat, i: nat,
                        more: bool) {
    && room > 0 && left > 0 && asked <= i && (forall j :: asked <= j < i ==> mem(j))
    && if more then already < want && already + left == room + (i - asked) * CHUNK
       else if already == want then want <= room + (i - asked) * CHUNK
       else already < want && already == room + (i - asked) * CHUNK && !mem(i)
  }

  lemma StoredOn(want: nat, room: nat, asked: nat, mem: nat -> bool, already: nat, left: nat, i: nat)
    requires StoredSoFar(want, room, asked, mem, already, left, i, true)
    ensures var now := already + Min(want - already, left);
      var more := now < want && mem(i);
      StoredSoFar(want, room, asked, mem, now, CHUNK, if more then i + 1 else i, more)
  {
  }

  lemma StoredEnds(want: nat, room: nat, asked: nat, mem: nat -> bool, already: nat, left: nat, i: nat)
    requires StoredSoFar(want, room, asked, mem, already, left, i, false)
    ensures already == Stored(want, room, asked, mem)
  {
    StoredIs(want, room, asked, mem, i - asked);
  }

  // ----- reading from a socket

  /** What read answers: an error, or bytes, of which it hands over no more than asked for. */
  datatype Reply = Fails | Gives(data: Bytes)

  function Handed(r: Reply, n: nat): (d: Bytes)
    requires r.Gives?
    ensures |d| <= n && d <= r.data && (|d| == n || d == r.data)
  {
    r.data[..Min(|r.data|, n)]
  }

  /** The loop of read_into_buffer: whether it ends without an error, and the bytes it took. */
  function ReadUpTo(size: nat, room: nat, i: nat, asked: nat, replies: nat -> Reply, mem: nat -> bool)
    : (r: (bool, Bytes))
    requires room > 0
    ensures |r.1| <= size
    decreases size
  {
    if size == 0 then (true, [])
    else if replies(i).Fails? then (false, [])
    else
      var n := Min(size, room);
      var d := Handed(replies(i), n);
      if |d| < n || n == size || !mem(asked) then (true, d)
      else
        var rest := ReadUpTo(size - n, CHUNK, i + 1, asked + 1, replies, mem);
        (rest.0, d + rest.1)
  }

  /** The whole of read_into_buffer. */
  function ReadOf(ns: seq<InnerNode>, size: nat, replies: nat -> Reply, mem: nat -> bool): (r: (bool, Bytes))
    requires Shape(ns)
    ensures |r.1| <= size
  {
    if NeedsChunk(ns) && !mem(0) then (false, [])
    else ReadUpTo(size, FirstRoom(ns), 0, AskedFirst(ns), replies, mem)
  }

  lemma ReadIs(ns: seq<InnerNode>, size: nat, replies: nat -> Reply, mem: nat -> bool, began: bool, ret: int,
               got: Bytes)
    requires Shape(ns) && (began <==> !NeedsChunk(ns) || mem(0))
    requires if began then (ret >= 0, got) == ReadUpTo(size, FirstRoom(ns), 0, AskedFirst(ns), replies, mem)
             else ret < 0 && got == []
    ensures (ret >= 0, got) == ReadOf(ns, size, replies, mem)
  {
  }

  /** What k full reads before this one have brought, and what it asks for. */
  function Before(room: nat, k: nat): int { if k == 0 then 0 else room + (k - 1) * CHUNK }

  function Asks(size: nat, room: nat, k: nat): int {
    Min(size - Before(room, k), if k == 0 then room else CHUNK)
  }

  /** Reads go on as long as each brings all it asked for, more is wanted and there is memory
      for another node. */
  predicate GoesOn(size: nat, room: nat, i: nat, asked: nat, replies: nat -> Reply, mem: nat -> bool, k: nat) {
    && replies(i + k).Gives? && mem(asked + k)
    && |replies(i + k).data| >= Asks(size, room, k) && Before(room, k) + Asks(size, room, k) < size
  }

  /** Reads 0 to k - 1 go on, and read k is the last. */
  predicate LastIs(size: nat, room: nat, i: nat, asked: nat, replies: nat -> Reply, mem: nat -> bool, k: nat) {
    && Before(room, k) < size && !GoesOn(size, room, i, asked, replies, mem, k)
    && forall j :: 0 <= j < k ==> GoesOn(size, room, i, asked, replies, mem, j)
  }

  /** The first read that does not go on is the last: if it fails so does the whole; otherwise
      what came before is followed by what it brings. */
  lemma {:induction false} ReadRounds(size: nat, room: nat, i: nat, asked: nat, replies: nat -> Reply,
                                      mem: nat -> bool, k: nat)
    returns (front: Bytes)
    requires room > 0 && LastIs(size, room, i, asked, replies, mem, k)
    ensures |front| == Before(room, k) && Asks(size, room, k) >= 0
    ensures ReadUpTo(size, room, i, asked, replies, mem) ==
      if replies(i + k).Fails? then (false, front) else (true, front + Handed(replies(i + k), Asks(size, room, k)))
    decreases k
  {
    if k == 0 {
      front := [];
      if replies(i).Gives? {
        Nothing(Handed(replies(i), Asks(size, room, k)));
      }
    } else {
      assert GoesOn(size, room, i, asked, replies, mem, 0);
      OneRoundLater(size, room, i, asked, replies, mem, k);
      var rest := ReadRounds(size - room, CHUNK, i + 1, asked + 1, replies, mem, k - 1);
      front := Handed(replies(i), room) + rest;
      if replies(i + k).Gives? {
        Associate(Handed(replies(i), room), rest, Handed(replies(i + k), Asks(size, room, k)));
      }
    }
  }

  lemma OneRoundLater(size: nat, room: nat, i: nat, asked: nat, replies: nat -> Reply, mem: nat -> bool, k: nat)
    requires size > room > 0 && k > 0 && LastIs(size, room, i, asked, replies, mem, k)
    ensures LastIs(size - room, CHUNK, i + 1, asked + 1, replies, mem, k - 1)
    ensures Asks(size, room, k) == Asks(size - room, CHUNK, k - 1) && Before(room, k) == room + Before(CHUNK, k - 1)
  {
    var less, next, more := size - room, i + 1, asked + 1;
    forall j | 0 <= j < k - 1
      ensures GoesOn(less, CHUNK, next, more, replies, mem, j)
    {
      Shifted(size, room, i, asked, replies, mem, j);
    }
    Shifted(size, room, i, asked, replies, mem, k - 1);
  }

  lemma Shifted(size: nat, room: nat, i: nat, asked: nat, replies: nat -> Reply, mem: nat -> bool, j: nat)
    requires size > room > 0
    ensures GoesOn(size - room, CHUNK, i + 1, asked + 1, replies, mem, j)
      <==> GoesOn(size, room, i, asked, replies, mem, j + 1)
  {
    assert i + 1 + j == i + (j + 1) && asked + 1 + j == asked + (j + 1);
  }

  /** As far as a read has come: these bytes taken, and this much room left in the node. */
  predicate ReadSoFar(size: nat, room: nat, asked: nat, replies: nat -> Reply, mem: nat -> bool, got: Bytes,
                      left: nat, i: nat, more: bool, ok: bool)
  {
    room > 0 && left > 0 && |got| <= size && (more ==> |got| < size && ok)
    && ReadUpTo(size, room, 0, asked, replies, mem) ==
         if !more then (ok, got)
         else
           var rest := ReadUpTo(size - |got|, left, i, asked + i, replies, mem);
           (rest.0, got + rest.1)
  }

  lemma ReadBegins(size: nat, room: nat, asked: nat, replies: nat -> Reply, mem: nat -> bool)
    requires room > 0
    ensures ReadSoFar(size, room, asked, replies, mem, [], room, 0, size > 0, true)
  {
    Nothing(ReadUpTo(size, room, 0, asked, replies, mem).1);
  }

  lemma ReadsOn(size: nat, room: nat, asked: nat, replies: nat -> Reply, mem: nat -> bool, got: Bytes,
                left: nat, i: nat)
    requires ReadSoFar(size, room, asked, replies, mem, got, left, i, true, true)
    ensures replies(i).Fails? ==> ReadSoFar(size, room, asked, replies, mem, got + [], CHUNK, i + 1, false, false)
    ensures var n := Min(size - |got|, left);
      replies(i).Gives? ==>
        var d := Handed(replies(i), n);
        ReadSoFar(size, room, asked, replies, mem, got + d, CHUNK, i + 1,
          |d| == n && n < size - |got| && mem(asked + i), true)
  {
    Nothing(got);
    var want, n := size - |got|, Min(size - |got|, left);
    if replies(i).Gives? && n < want {
      Associate(got, Handed(replies(i), n), ReadUpTo(want - n, CHUNK, i + 1, asked + i + 1, replies, mem).1);
    }
  }

  /** What is waiting on a socket comes in pieces: each read hands over the next bytes, as many
      as were asked for. */
  predicate Streams(replies: nat -> Reply, i: nat, room: nat, waiting: Bytes)
    requires room > 0
    decreases |waiting|
  {
    replies(i) == Gives(waiting)
    && (|waiting| >= room ==> Streams(replies, i + 1, CHUNK, waiting[room..]))
  }

  /** With memory, as many bytes are taken as were asked for and are there, in order. */
  lemma {:induction false} ReadsWhatWaits(size: nat, room: nat, i: nat, asked: nat, replies: nat -> Reply,
                                          mem: nat -> bool, waiting: Bytes)
    requires room > 0 && Streams(replies, i, room, waiting) && forall j :: asked <= j ==> mem(j)
    ensures ReadUpTo(size, room, i, asked, replies, mem) == (true, waiting[..Min(size, |waiting|)])
    decreases size
  {
    if size > room && |waiting| >= room {
      ReadsWhatWaits(size - room, CHUNK, i + 1, asked + 1, replies, mem, waiting[room..]);
      TakesOn(waiting, room, Min(size, |waiting|));
    }
  }

  lemma TakesOn(s: Bytes, i: nat, n: nat)
    requires i <= n <= |s|
    ensures s[..i] + s[i..][..n - i] == s[..n]
  {
  }

  // ----- writing to a socket

  /** What write answers to an offer of n bytes: an error, or how many it accepts, at least one
      of them if there are any. */
  function Accepted(answer: int, n: nat): (k: int)
    ensures (k < 0 <==> answer < 0) && k <= n && (n > 0 ==> k != 0) && (0 < answer <= n ==> k == answer)
  {
    if answer < 0 then -1 else if answer == 0 then Min(1, n) else Min(answer, n)
  }

  /** The lengths of what is live in each node, and what they come to. */
  function Lengths(ns: seq<InnerNode>): (r: seq<nat>)
    ensures |r| == |ns| && forall j :: 0 <= j < |r| ==> r[j] == |Live(ns[j])|
  {
    seq(|ns|, j requires 0 <= j < |ns| => |Live(ns[j])|)
  }

  function Total(lens: seq<nat>): nat {
    if lens == [] then 0 else lens[0] + Total(lens[1..])
  }

  lemma {:induction false} TotalIs(ns: seq<InnerNode>)
    ensures Total(Lengths(ns)) == |Flatten(ns)|
  {
    if ns != [] {
      TotalIs(ns[1..]);
      assert Lengths(ns)[1..] == Lengths(ns[1..]);
    }
  }

  /** k bytes leave the first node, and it the list once nothing is left in it. */
  function Less(lens: seq<nat>, k: nat): (r: seq<nat>)
    requires lens != [] && k <= lens[0]
    ensures Total(r) == Total(lens) - k && |r| <= |lens| && (k == 0 ==> lens[0] == 0 ==> |r| < |lens|)
  {
    if k == lens[0] then lens[1..] else [lens[0] - k as nat] + lens[1..]
  }

  lemma LessIs(ns: seq<InnerNode>, k: nat)
    requires Shape(ns) && ns != [] && k <= |Live(ns[0])|
    ensures Lengths(TakeFirst(ns, k)) == Less(Lengths(ns), k)
  {
    LiveRest(ns[0], k);
  }

  /** The loop of write_from_buffer: how many bytes go out, and whether a write failed. */
  function SendUpTo(lens: seq<nat>, size: nat, i: nat, accepts: nat -> int): (r: (nat, bool))
    ensures r.0 <= size && r.0 <= Total(lens)
    ensures !r.1 ==> r.0 == Min(size, Total(lens))
    decreases Total(lens), |lens|
  {
    if size == 0 || lens == [] then (0, false)
    else
      var k := Accepted(accepts(i), Min(lens[0], size));
      if k < 0 then (0, true)
      else
        var rest := SendUpTo(Less(lens, k), size - k, i + 1, accepts);
        (k + rest.0, rest.1)
  }

  /** No write fails unless the socket says so. */
  lemma {:induction false} SomeWriteFails(lens: seq<nat>, size: nat, i: nat, accepts: nat -> int) returns (j: nat)
    requires SendUpTo(lens, size, i, accepts).1
    ensures j >= i && accepts(j) < 0
    decreases Total(lens), |lens|
  {
    var k := Accepted(accepts(i), Min(lens[0], size));
    j := i;
    if k >= 0 {
      j := SomeWriteFails(Less(lens, k), size - k, i + 1, accepts);
    }
  }

  /** As far as a write has come. */
  predicate SentSoFar(lens: seq<nat>, size: nat, accepts: nat -> int, sent: nat, rest: seq<nat>, i: nat, failed: bool) {
    sent <= size
    && SendUpTo(lens, size, 0, accepts) ==
         if failed then (sent, true)
         else
           var more := SendUpTo(rest, size - sent, i, accepts);
           (sent + more.0, more.1)
  }

  lemma SendsOn(lens: seq<nat>, size: nat, accepts: nat -> int, sent: nat, rest: seq<nat>, i: nat, k: int,
                sent': nat, rest': seq<nat>)
    requires SentSoFar(lens, size, accepts, sent, rest, i, false) && sent < size && rest != []
    requires k == Accepted(accepts(i), Min(rest[0], size - sent))
    requires sent' == (if k < 0 then sent else sent + k) && rest' == if k < 0 then rest else Less(rest, k)
    ensures SentSoFar(lens, size, accepts, sent', rest', i + 1, k < 0)
  {
  }

  lemma SendEnds(lens: seq<nat>, size: nat, accepts: nat -> int, sent: nat, rest: seq<nat>, i: nat, failed: bool)
    requires SentSoFar(lens, size, accepts, sent, rest, i, failed) && (failed || sent == size || rest == [])
    ensures SendUpTo(lens, size, 0, accepts) == (sent, failed)
  {
  }
}
