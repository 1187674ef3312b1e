// src/entity/client_info.c: a client's two buffers and the messages that pass through them.

module Connection {
  import opened Bytes
  import opened CachePool
  import opened Chunks
  import opened Outcomes
  import opened Buffers
  import opened Framing
  import opened Protocol

  /** Two buffers draw on the pool without sharing a cache. */
  ghost predicate Apart(a: seq<InnerNode>, b: seq<InnerNode>, all: seq<nat>, outstanding: set<nat>) {
    OnLoan(a, all, outstanding) && OnLoan(b, all, outstanding) && NodeIds(a) !! NodeIds(b)
  }

  /** One of them grows out of caches that nobody had. */
  lemma ApartGrows(a: seq<InnerNode>, b: seq<InnerNode>, all: seq<nat>, outstanding: set<nat>,
                   a': seq<InnerNode>, all': seq<nat>, outstanding': set<nat>, dropped: set<nat>)
    requires Apart(a, b, all, outstanding) && OnLoan(a', all', outstanding') && all <= all'
    requires outstanding' == outstanding + NodeIds(a') + dropped
    requires (NodeIds(a') - NodeIds(a) + dropped) !! outstanding
    ensures Apart(a', b, all', outstanding')
  {
    assert NodeIds(b) <= outstanding;
    forall i | 0 <= i < |b|
      ensures b[i].cache.id < |all'| && all'[b[i].cache.id] == b[i].cache.allocated_size
    {
      assert all[b[i].cache.id] == b[i].cache.allocated_size;
    }
  }

  /** One of them gives caches back. */
  lemma ApartShrinks(a: seq<InnerNode>, b: seq<InnerNode>, all: seq<nat>, outstanding: set<nat>,
                     a': seq<InnerNode>, outstanding': set<nat>)
    requires Apart(a, b, all, outstanding) && OnLoan(a', all, outstanding') && NodeIds(a') <= NodeIds(a)
    requires outstanding' - NodeIds(a') == outstanding - NodeIds(a)
    ensures Apart(a', b, all, outstanding')
  {
    forall id | id in NodeIds(b)
      ensures id in outstanding'
    {
      assert id in outstanding - NodeIds(a);
    }
  }

  /** Whatever else is on loan from the pool stays so, as it was made, and none of it has
      become one's own: `mine` was, and `mine'` is, what one owns oneself. */
  ghost predicate OthersKept(mine: set<nat>, all: seq<nat>, outstanding: set<nat>,
                             mine': set<nat>, all': seq<nat>, outstanding': set<nat>)
  {
    all <= all' && outstanding - mine <= outstanding' - mine'
  }

  lemma GrowingKeepsOthers(mine: set<nat>, rest: set<nat>, all: seq<nat>, outstanding: set<nat>,
                           mine': set<nat>, all': seq<nat>, outstanding': set<nat>, dropped: set<nat>)
    requires all <= all' && outstanding' == outstanding + mine' + dropped
    requires (mine' - mine + dropped) !! outstanding
    ensures OthersKept(mine + rest, all, outstanding, mine' + rest, all', outstanding')
  {
  }

  lemma ShrinkingKeepsOthers(mine: set<nat>, rest: set<nat>, all: seq<nat>, outstanding: set<nat>,
                             mine': set<nat>, outstanding': set<nat>)
    requires outstanding' - mine' == outstanding - mine
    ensures OthersKept(mine + rest, all, outstanding, mine' + rest, all, outstanding')
  {
    forall id | id in outstanding - (mine + rest)
      ensures id in outstanding' - (mine' + rest)
    {
      assert id in outstanding - mine;
    }
  }

  /** So what belongs to somebody else stays apart from it. */
  lemma OthersStayApart(a: seq<InnerNode>, b: seq<InnerNode>, mine: set<nat>, all: seq<nat>, outstanding: set<nat>,
                        mine': set<nat>, all': seq<nat>, outstanding': set<nat>)
    requires Apart(a, b, all, outstanding) && (NodeIds(a) + NodeIds(b)) !! mine
    requires OthersKept(mine, all, outstanding, mine', all', outstanding')
    ensures Apart(a, b, all', outstanding') && (NodeIds(a) + NodeIds(b)) !! mine'
  {
    forall id | id in NodeIds(a) + NodeIds(b)
      ensures id in outstanding' - mine'
    {
      assert id in outstanding - mine;
    }
    LoanStays(a, all, outstanding, all', outstanding');
    LoanStays(b, all, outstanding, all', outstanding');
  }

  lemma LoanStays(ns: seq<InnerNode>, all: seq<nat>, outstanding: set<nat>, all': seq<nat>, outstanding': set<nat>)
    requires OnLoan(ns, all, outstanding) && all <= all' && NodeIds(ns) <= outstanding'
    ensures OnLoan(ns, all', outstanding')
  {
    forall i | 0 <= i < |ns|
      ensures ns[i].cache.id < |all'| && all'[ns[i].cache.id] == ns[i].cache.allocated_size
    {
      assert all[ns[i].cache.id] == ns[i].cache.allocated_size;
    }
  }

  lemma FetchFindsNothing(box: Inbox)
    requires ScanIsSound(box) && IndexFrom(box.inbuf, box.scan, NL) == |box.inbuf|
    ensures Fetch(box) == (None, box.(scan := |box.inbuf|)) && ScanIsSound(box.(scan := |box.inbuf|))
  {
    ResumedScan(box);
    assert box.inbuf[..|box.inbuf|] == box.inbuf;
  }

  lemma FetchFinds(box: Inbox, m: Bytes, box': Inbox)
    requires ScanIsSound(box) && IndexFrom(box.inbuf, box.scan, NL) < |box.inbuf|
    requires m == box.inbuf[..Min(IndexFrom(box.inbuf, box.scan, NL) + 1, |box.inbuf|)]
    requires box' == Inbox(box.inbuf[|m|..], 0)
    ensures (Some(m), box') == Fetch(box)
  {
  }

  class ClientData {
    const socket: Socket
    const reading_buffer: Buffer
    const writing_buffer: Buffer
    var name: Bytes
    var last_check_cmd_index: nat

    /** The reading side, as a value. */
    ghost function Box(): Inbox
      reads this, reading_buffer
    {
      Inbox(reading_buffer.Contents(), last_check_cmd_index)
    }

    ghost function Pending(): Bytes
      reads writing_buffer
    {
      writing_buffer.Contents()
    }

    ghost predicate Valid(pool: Pool)
      reads this, reading_buffer, writing_buffer, pool
    {
      && reading_buffer != writing_buffer
      && pool.Valid() && reading_buffer.Valid() && writing_buffer.Valid()
      && Apart(reading_buffer.cache_list, writing_buffer.cache_list, pool.all, pool.outstanding)
      && ScanIsSound(Box()) && |name| < CLIENT_NAME_MAXIMUM_SIZE
    }

    /** The caches of both buffers. */
    ghost function Owns(): set<nat>
      reads reading_buffer, writing_buffer
    {
      reading_buffer.Owns() + writing_buffer.Owns()
    }

    // new_client_info
    constructor (socket: Socket, client_name: Bytes, pool: Pool)
      requires pool.Valid()
      ensures Valid(pool) && fresh(reading_buffer) && fresh(writing_buffer)
      ensures this.socket == socket && name == Truncate(client_name)
      ensures Box() == Inbox([], 0) && Pending() == [] && Owns() == {}
    {
      this.socket := socket;
      reading_buffer := new Buffer();
      writing_buffer := new Buffer();
      name := client_name[..Min(|client_name|, CLIENT_NAME_MAXIMUM_SIZE - 1)];
      last_check_cmd_index := 0;
      new;
      assert NodeIds([]) == {};
    }

    // update_client_name: as much of the name as there is room for, which is all of it if it
    // has at most 29 bytes.
    method UpdateClientName(client_name: Bytes)
      modifies this`name
      ensures name <= client_name && |name| < CLIENT_NAME_MAXIMUM_SIZE
      ensures |client_name| < CLIENT_NAME_MAXIMUM_SIZE ==> name == client_name
      ensures |client_name| >= CLIENT_NAME_MAXIMUM_SIZE ==> |name| == CLIENT_NAME_MAXIMUM_SIZE - 1
      ensures !HasNewline(client_name) ==> IsName(name)
    {
      var name_length := Min(|client_name|, CLIENT_NAME_MAXIMUM_SIZE - 1);
      name := client_name[..name_length];
    }

    // fetch_from_client: `available` is what ioctl says can be read, or its error.
    method FetchFromClient(pool: Pool, available: int, replies: nat -> Reply, mem: nat -> bool)
      returns (ret: int, ghost got: Bytes)
      requires Valid(pool)
      modifies reading_buffer, pool, socket
      ensures Valid(pool) && Pending() == old(Pending())
      ensures (ret >= 0, got) ==
        if available < 0 then (false, []) else ReadOf(old(reading_buffer.cache_list), available, replies, mem)
      ensures socket.taken == old(socket.taken) + got && socket.sent == old(socket.sent)
      ensures ret >= 0 ==> ret == |got| && Box() == Arrive(old(Box()), got)
      ensures ret < 0 ==> Box() == old(Box())
      ensures OthersKept(old(Owns()), old(pool.all), old(pool.outstanding), Owns(), pool.all, pool.outstanding)
    {
      if available < 0 {
        return -1, [];
      }
      ghost var a, all, outstanding := reading_buffer.cache_list, pool.all, pool.outstanding;
      ghost var owns := reading_buffer.Owns();
      ghost var box, dropped := Box(), {};
      ret, got, dropped := reading_buffer.ReadIntoBuffer(socket, pool, available, replies, mem);
      ApartGrows(a, writing_buffer.cache_list, all, outstanding,
        reading_buffer.cache_list, pool.all, pool.outstanding, dropped);
      GrowingKeepsOthers(owns, writing_buffer.Owns(), all, outstanding, reading_buffer.Owns(), pool.all,
          pool.outstanding, dropped);
      if ret >= 0 {
        ArriveIsSound(box, got);
      }
    }

    // fetch_msg_from_client: the next message, and the remembered position moves to match.
    method FetchMsgFromClient(pool: Pool) returns (msg: Option<Bytes>)
      requires Valid(pool)
      modifies this`last_check_cmd_index, reading_buffer, pool
      ensures Valid(pool) && Pending() == old(Pending())
      ensures (msg, Box()) == Fetch(old(Box()))
      ensures OthersKept(old(Owns()), old(pool.all), old(pool.outstanding), Owns(), pool.all, pool.outstanding)
    {
      ghost var box := Box();
      var cmd_suffix_index := reading_buffer.FindInBuffer(last_check_cmd_index, NL);
      if cmd_suffix_index < 0 {
        FetchFindsNothing(box);
        last_check_cmd_index := reading_buffer.BufferSize();
        msg := None;
      } else {
        var m := TakeMessage(pool, cmd_suffix_index + 1);
        FetchFinds(box, m, Box());
        msg := Some(m);
      }
    }

    // The branch that has found the end of a message.
    method TakeMessage(pool: Pool, size: nat) returns (m: Bytes)
      requires Valid(pool)
      modifies this`last_check_cmd_index, reading_buffer, pool
      ensures Valid(pool) && Pending() == old(Pending())
      ensures m == old(Box()).inbuf[..Min(size, |old(Box()).inbuf|)]
      ensures Box() == Inbox(old(Box()).inbuf[|m|..], 0)
      ensures OthersKept(old(Owns()), old(pool.all), old(pool.outstanding), Owns(), pool.all, pool.outstanding)
    {
      ghost var a, all, outstanding := reading_buffer.cache_list, pool.all, pool.outstanding;
      m := reading_buffer.ReadFromBuffer(pool, size);
      ApartShrinks(a, writing_buffer.cache_list, all, outstanding, reading_buffer.cache_list, pool.outstanding);
      ShrinkingKeepsOthers(NodeIds(a), writing_buffer.Owns(), all, outstanding, reading_buffer.Owns(),
          pool.outstanding);
      last_check_cmd_index := 0;
    }

    // send_msg_to_client: all of the message, or as much of it as memory allows.
    method SendMsgToClient(pool: Pool, msg: Bytes, mem: nat -> bool) returns (ret: int, ghost accepted: nat)
      requires Valid(pool)
      modifies writing_buffer, pool
      ensures Valid(pool) && Box() == old(Box())
      ensures ret == Written(old(writing_buffer.cache_list), |msg|, mem)
      ensures accepted <= |msg| && Pending() == old(Pending()) + msg[..accepted]
      ensures accepted == if ret < 0 then 0 else ret
      ensures OthersKept(old(Owns()), old(pool.all), old(pool.outstanding), Owns(), pool.all, pool.outstanding)
    {
      ghost var b, all, outstanding := writing_buffer.cache_list, pool.all, pool.outstanding;
      ghost var dropped := {};
      ret, dropped := writing_buffer.WriteIntoBuffer(pool, msg, mem);
      accepted := if ret < 0 then 0 else ret;
      ApartGrows(b, reading_buffer.cache_list, all, outstanding,
        writing_buffer.cache_list, pool.all, pool.outstanding, dropped);
      GrowingKeepsOthers(NodeIds(b), reading_buffer.Owns(), all, outstanding, writing_buffer.Owns(), pool.all,
          pool.outstanding, dropped);
    }

    // flush_messages: all that is pending goes to the socket unless a write fails.
    method FlushMessages(pool: Pool, accepts: nat -> int) returns (ret: nat, failed: bool)
      requires Valid(pool)
      modifies writing_buffer, pool, socket
      ensures Valid(pool) && Box() == old(Box())
      ensures (ret, failed) == SendUpTo(Lengths(old(writing_buffer.cache_list)), |old(Pending())|, 0, accepts)
      ensures ret <= |old(Pending())| && Pending() == old(Pending())[ret..]
      ensures socket.sent == old(socket.sent) + old(Pending())[..ret] && socket.taken == old(socket.taken)
      ensures !failed ==> Pending() == []
      ensures OthersKept(old(Owns()), old(pool.all), old(pool.outstanding), Owns(), pool.all, pool.outstanding)
    {
      var b_size := writing_buffer.BufferSize();
      if b_size > 0 {
        ret, failed := WritePending(pool, b_size, accepts);
      } else {
        ret, failed := 0, false;
        assert Pending() == [];
        Nothing(socket.sent);
      }
    }

    // The write of so much of what is pending.
    method WritePending(pool: Pool, size: nat, accepts: nat -> int) returns (ret: nat, failed: bool)
      requires Valid(pool) && size == |Pending()|
      modifies writing_buffer, pool, socket
      ensures Valid(pool) && Box() == old(Box())
      ensures (ret, failed) == SendUpTo(Lengths(old(writing_buffer.cache_list)), |old(Pending())|, 0, accepts)
      ensures ret <= |old(Pending())| && Pending() == old(Pending())[ret..]
      ensures socket.sent == old(socket.sent) + old(Pending())[..ret] && socket.taken == old(socket.taken)
      ensures !failed ==> ret == |old(Pending())|
      ensures OthersKept(old(Owns()), old(pool.all), old(pool.outstanding), Owns(), pool.all, pool.outstanding)
    {
      ghost var b, all, outstanding := writing_buffer.cache_list, pool.all, pool.outstanding;
      ghost var owns := Owns();
      assert owns == NodeIds(b) + reading_buffer.Owns();
      ret, failed := writing_buffer.WriteFromBuffer(socket, pool, size, accepts);
      ApartShrinks(b, reading_buffer.cache_list, all, outstanding, writing_buffer.cache_list, pool.outstanding);
      ShrinkingKeepsOthers(NodeIds(b), reading_buffer.Owns(), all, outstanding, writing_buffer.Owns(),
          pool.outstanding);
      assert Owns() == writing_buffer.Owns() + reading_buffer.Owns();
    }

    // release_client_info: exactly this client's caches go back.
    method Release(pool: Pool)
      requires Valid(pool)
      modifies reading_buffer, writing_buffer, pool
      ensures pool.Valid() && pool.all == old(pool.all)
      ensures pool.outstanding == old(pool.outstanding) - old(Owns())
    {
      reading_buffer.Destroy(pool);
      writing_buffer.Destroy(pool);
    }
  }
}
