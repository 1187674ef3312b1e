// Where the layers meet: clients whose buffers draw on one pool do what the step system
// says clients do, and stay out of each other's way.

module Layers {
  import opened Bytes
  import opened CachePool
  import opened Chunks
  import opened Outcomes
  import opened Buffers
  import opened Framing
  import opened Protocol
  import opened Connection
  import opened ServerSteps
  import opened ServerCode

  /** What there is to a client object. */
  datatype Face = Face(name: Bytes, scan: nat, reading: seq<InnerNode>, writing: seq<InnerNode>, sent: Bytes)

  ghost function FaceOf(d: ClientData): Face
    reads d, d.reading_buffer, d.writing_buffer, d.socket
  {
    Face(d.name, d.last_check_cmd_index, d.reading_buffer.cache_list, d.writing_buffer.cache_list, d.socket.sent)
  }

  ghost function Faces(cs: seq<ClientData>): (fs: seq<Face>)
    reads *
    ensures |fs| == |cs| && forall i :: 0 <= i < |fs| ==> fs[i] == FaceOf(cs[i])
  {
    seq(|cs|, i requires 0 <= i < |cs| reads * => FaceOf(cs[i]))
  }

  ghost function Ids(f: Face): set<nat> { NodeIds(f.reading) + NodeIds(f.writing) }

  ghost predicate FaceOk(f: Face, all: seq<nat>, outstanding: set<nat>) {
    && Shape(f.reading) && Separate(f.reading) && Shape(f.writing) && Separate(f.writing)
    && Apart(f.reading, f.writing, all, outstanding)
    && ScanIsSound(Inbox(Flatten(f.reading), f.scan)) && |f.name| < CLIENT_NAME_MAXIMUM_SIZE
  }

  /** It is what the value says: name, buffers, and what has been written to the socket. */
  ghost predicate Shows(f: Face, x: Client) {
    && x.name == f.name && x.inbox == Inbox(Flatten(f.reading), f.scan)
    && x.pending == Flatten(f.writing) && x.flushed == f.sent
  }

  /** All clients are in order and are what the values say, and no cache serves two of them. */
  ghost predicate AllStand(fs: seq<Face>, xs: seq<Client>, all: seq<nat>, outstanding: set<nat>) {
    && |xs| == |fs|
    && (forall i :: 0 <= i < |fs| ==> FaceOk(fs[i], all, outstanding) && Shows(fs[i], xs[i]))
    && (forall i, j :: 0 <= i < |fs| && 0 <= j < |fs| && i != j ==> Ids(fs[i]) !! Ids(fs[j]))
  }

  /** What one client does leaves every other one as it was. */
  lemma OthersStand(fs: seq<Face>, xs: seq<Client>, all: seq<nat>, outstanding: set<nat>, c: nat,
                    f: Face, x: Client, all': seq<nat>, outstanding': set<nat>)
    requires AllStand(fs, xs, all, outstanding) && c < |fs|
    requires FaceOk(f, all', outstanding') && Shows(f, x)
    requires OthersKept(Ids(fs[c]), all, outstanding, Ids(f), all', outstanding')
    ensures AllStand(fs[c := f], xs[c := x], all', outstanding')
  {
    forall i | 0 <= i < |fs| && i != c
      ensures FaceOk(fs[i], all', outstanding') && Ids(fs[i]) !! Ids(f)
    {
      OthersStayApart(fs[i].reading, fs[i].writing, Ids(fs[c]), all, outstanding, Ids(f), all', outstanding');
    }
  }

  function Without<T>(s: seq<T>, c: nat): (r: seq<T>)
    requires c < |s|
    ensures |r| == |s| - 1 && forall i :: 0 <= i < |r| ==> r[i] == s[if i < c then i else i + 1]
  {
    s[..c] + s[c + 1..]
  }

  /** A client that is released leaves the others as they were. */
  lemma RestStand(fs: seq<Face>, xs: seq<Client>, all: seq<nat>, outstanding: set<nat>, c: nat)
    requires AllStand(fs, xs, all, outstanding) && c < |fs|
    ensures AllStand(Without(fs, c), Without(xs, c), all, outstanding - Ids(fs[c]))
  {
    var gs, ys := Without(fs, c), Without(xs, c);
    forall i | 0 <= i < |gs|
      ensures FaceOk(gs[i], all, outstanding - Ids(fs[c])) && Shows(gs[i], ys[i])
    {
      var k := if i < c then i else i + 1;
      FaceStays(fs[k], Ids(fs[c]), all, outstanding);
    }
    forall i, j | 0 <= i < |gs| && 0 <= j < |gs| && i != j
      ensures Ids(gs[i]) !! Ids(gs[j])
    {
      var k, l := if i < c then i else i + 1, if j < c then j else j + 1;
      assert Ids(fs[k]) !! Ids(fs[l]);
    }
  }

  lemma FaceStays(f: Face, mine: set<nat>, all: seq<nat>, outstanding: set<nat>)
    requires FaceOk(f, all, outstanding) && Ids(f) !! mine
    ensures FaceOk(f, all, outstanding - mine)
  {
    OthersStayApart(f.reading, f.writing, mine, all, outstanding, {}, all, outstanding - mine);
  }

  lemma OneMoreStands(fs: seq<Face>, xs: seq<Client>, all: seq<nat>, outstanding: set<nat>, f: Face, x: Client)
    requires AllStand(fs, xs, all, outstanding) && FaceOk(f, all, outstanding) && Shows(f, x) && Ids(f) == {}
    ensures AllStand(fs + [f], xs + [x], all, outstanding)
  {
    var gs := fs + [f];
    forall i | 0 <= i < |gs|
      ensures FaceOk(gs[i], all, outstanding) && Shows(gs[i], (xs + [x])[i])
    {
      assert i < |fs| ==> gs[i] == fs[i] && (xs + [x])[i] == xs[i];
    }
    forall i, j | 0 <= i < |gs| && 0 <= j < |gs| && i != j
      ensures Ids(gs[i]) !! Ids(gs[j])
    {
      if i < |fs| && j < |fs| {
        assert gs[i] == fs[i] && gs[j] == fs[j];
      }
    }
  }

  /** Two clients share no object. */
  ghost predicate Distinct(a: ClientData, b: ClientData) {
    && a != b && a.socket != b.socket
    && a.reading_buffer != b.reading_buffer && a.reading_buffer != b.writing_buffer
    && a.writing_buffer != b.reading_buffer && a.writing_buffer != b.writing_buffer
  }

  ghost predicate AllDistinct(cs: seq<ClientData>) {
    && (forall i :: 0 <= i < |cs| ==> cs[i].reading_buffer != cs[i].writing_buffer)
    && (forall i, j :: 0 <= i < |cs| && 0 <= j < |cs| && i != j ==> Distinct(cs[i], cs[j]))
  }

  lemma OneMoreDistinct(cs: seq<ClientData>, d: ClientData)
    requires AllDistinct(cs) && d.reading_buffer != d.writing_buffer
    requires forall i :: 0 <= i < |cs| ==> Distinct(cs[i], d)
    ensures AllDistinct(cs + [d])
  {
    var ds := cs + [d];
    forall i, j | 0 <= i < |ds| && 0 <= j < |ds| && i != j
      ensures Distinct(ds[i], ds[j])
    {
      assert i < |cs| ==> ds[i] == cs[i];
      assert j < |cs| ==> ds[j] == cs[j];
    }
  }

  lemma Unlike(cs: seq<ClientData>, i: nat, c: nat)
    requires AllDistinct(cs) && i < |cs| && c < |cs| && i != c
    ensures Distinct(cs[i], cs[c])
  {
  }

  lemma RestDistinct(cs: seq<ClientData>, c: nat)
    requires AllDistinct(cs) && c < |cs|
    ensures AllDistinct(Without(cs, c))
  {
  }

  /** The clients of a server, on one pool, and what they are in the step system. */
  ghost predicate Stands(cs: seq<ClientData>, xs: seq<Client>, pool: Pool)
    reads *
  {
    AllDistinct(cs) && pool.Valid() && AllStand(Faces(cs), xs, pool.all, pool.outstanding)
  }

  ghost predicate Represents(d: ClientData, x: Client)
    reads d, d.reading_buffer, d.writing_buffer, d.socket
  {
    Shows(FaceOf(d), x)
  }

  /** Each of them is in order by itself. */
  lemma OneStands(cs: seq<ClientData>, xs: seq<Client>, pool: Pool, c: nat)
    requires Stands(cs, xs, pool) && c < |cs|
    ensures c < |xs| && cs[c].Valid(pool) && Represents(cs[c], xs[c]) && Ids(Faces(cs)[c]) == cs[c].Owns()
  {
  }

  lemma ValidFace(d: ClientData, pool: Pool)
    requires d.Valid(pool)
    ensures FaceOk(FaceOf(d), pool.all, pool.outstanding) && Ids(FaceOf(d)) == d.Owns()
  {
  }

  // ----- one client by itself

  /** What a read brings, how much of a message finds room, and how much of what is pending
      goes out, for a client that is as `f` says. */
  ghost function Comes(f: Face, available: int, replies: nat -> Reply, mem: nat -> bool): (r: (bool, Bytes))
    requires Shape(f.reading)
    ensures |r.1| <= if available < 0 then 0 else available
  {
    if available < 0 then (false, []) else ReadOf(f.reading, available, replies, mem)
  }

  ghost function RoomFor(f: Face, size: nat, mem: nat -> bool): (n: nat)
    requires Shape(f.writing)
    ensures n <= size
  {
    var ret := Written(f.writing, size, mem);
    if ret < 0 then 0 else ret
  }

  ghost function GoesOut(f: Face, accepts: nat -> int): (nat, bool) {
    SendUpTo(Lengths(f.writing), |Flatten(f.writing)|, 0, accepts)
  }

  /** With memory for the nodes it needs the whole of a message finds room. */
  lemma RoomForWhole(f: Face, size: nat, mem: nat -> bool)
    requires Shape(f.writing)
    ensures (forall i :: 0 <= i < AskedFirst(f.writing) + Needed(size, FirstRoom(f.writing)) ==> mem(i))
      ==> RoomFor(f, size, mem) == size
  {
    WrittenAll(f.writing, size, mem);
  }

  /** And all that is pending goes out, unless the socket fails. */
  lemma GoesOutWhole(f: Face, accepts: nat -> int)
    requires forall i :: 0 <= i ==> accepts(i) >= 0
    ensures GoesOut(f, accepts) == (|Flatten(f.writing)|, false)
  {
    TotalIs(f.writing);
    if GoesOut(f, accepts).1 {
      var j := SomeWriteFails(Lengths(f.writing), |Flatten(f.writing)|, 0, accepts);
    }
  }

  /** What became of a client, and of what the pool has lent to others. */
  twostate predicate Became(d: ClientData, x: Client, pool: Pool)
    reads d, d.reading_buffer, d.writing_buffer, d.socket, pool
  {
    && d.Valid(pool) && Represents(d, x)
    && OthersKept(old(d.Owns()), old(pool.all), old(pool.outstanding), d.Owns(), pool.all, pool.outstanding)
  }

  // fetch_from_client is Fed, or nothing if the read fails.
  method FetchOne(d: ClientData, pool: Pool, available: int, replies: nat -> Reply, mem: nat -> bool, ghost x: Client)
    returns (ret: int, ghost got: Bytes)
    requires d.Valid(pool) && Represents(d, x)
    modifies d.reading_buffer, pool, d.socket
    ensures (ret >= 0, got) == Comes(old(FaceOf(d)), available, replies, mem) && (ret >= 0 ==> |got| == ret)
    ensures Became(d, if ret < 0 then x else Fed(x, got), pool)
  {
    ret, got := d.FetchFromClient(pool, available, replies, mem);
  }

  // fetch_msg_from_client and the handling of the message are Parsed.
  method HandleOne(d: ClientData, pool: Pool, ghost x: Client) returns (got: bool, redirect_msg: Option<Msg>)
    requires d.Valid(pool) && Represents(d, x)
    modifies d, d.reading_buffer, pool
    ensures ScanIsSound(x.inbox) && Became(d, Parsed(x).0, pool)
    ensures got == HasNewline(x.inbox.inbuf) && redirect_msg == Parsed(x).1
  {
    var m := d.FetchMsgFromClient(pool);
    got, redirect_msg := m.Some?, None;
    FetchedParses(x);
    if m.Some? {
      var name;
      name, redirect_msg := Dispatch(d.name, m.value);
      NameFits(d.name, m.value);
      d.UpdateClientName(name);
    }
  }

  lemma FetchedParses(x: Client)
    requires ScanIsSound(x.inbox)
    ensures Fetch(x.inbox).0.Some? <==> HasNewline(x.inbox.inbuf)
    ensures Fetch(x.inbox).0 == None ==> Parsed(x) == (x.(inbox := Fetch(x.inbox).1), None)
    ensures Fetch(x.inbox).0.Some? ==>
      var m := Fetch(x.inbox).0.value;
      && IsMessage(m) && Parsed(x).0.inbox == Fetch(x.inbox).1
      && (Parsed(x).0.name, Parsed(x).1) == Handle(x.name, m)
      && Parsed(x).0.pending == x.pending && Parsed(x).0.flushed == x.flushed
  {
    FetchTakesTheFirst(x.inbox);
  }

  lemma NameFits(name: Bytes, m: Bytes)
    requires IsMessage(m) && |name| < CLIENT_NAME_MAXIMUM_SIZE
    ensures |Handle(name, m).0| < CLIENT_NAME_MAXIMUM_SIZE
  {
  }

  // send_msg_to_client is Given.
  method GiveOne(d: ClientData, pool: Pool, e: Entry, content: Bytes, mem: nat -> bool, ghost x: Client)
    returns (ret: int, ghost accepted: nat)
    requires d.Valid(pool) && Represents(d, x)
    modifies d.writing_buffer, pool
    ensures accepted == RoomFor(old(FaceOf(d)), |content|, mem) && accepted == (if ret < 0 then 0 else ret)
    ensures Became(d, Given(x, e, content[..accepted]), pool)
  {
    ret, accepted := d.SendMsgToClient(pool, content, mem);
  }

  // flush_messages is Flushed.
  method FlushOne(d: ClientData, pool: Pool, accepts: nat -> int, ghost x: Client) returns (ret: nat, failed: bool)
    requires d.Valid(pool) && Represents(d, x)
    modifies d.writing_buffer, pool, d.socket
    ensures (ret, failed) == GoesOut(old(FaceOf(d)), accepts)
    ensures ret <= |x.pending| && (!failed ==> ret == |x.pending|)
    ensures Became(d, Flushed(x, ret), pool)
  {
    ret, failed := d.FlushMessages(pool, accepts);
  }

  // ----- one client among all

  // Whatever is done with one client by itself can be done with it among others.

  method FetchInto(cs: seq<ClientData>, c: nat, pool: Pool, available: int, replies: nat -> Reply, mem: nat -> bool,
                   ghost xs: seq<Client>)
    returns (ret: int, ghost got: Bytes)
    requires Stands(cs, xs, pool) && c < |cs|
    modifies cs[c].reading_buffer, pool, cs[c].socket
    ensures (ret >= 0, got) == Comes(old(FaceOf(cs[c])), available, replies, mem) && (ret >= 0 ==> |got| == ret)
    ensures Stands(cs, xs[c := if ret < 0 then xs[c] else Fed(xs[c], got)], pool)
  {
    ghost var fs, all, outstanding := Faces(cs), pool.all, pool.outstanding;
    OneStands(cs, xs, pool, c);
    ret, got := FetchOne(cs[c], pool, available, replies, mem, xs[c]);
    ValidFace(cs[c], pool);
    forall i | 0 <= i < |cs| && i != c
      ensures FaceOf(cs[i]) == fs[i]
    {
      Unlike(cs, i, c);
    }
    assert Faces(cs) == fs[c := FaceOf(cs[c])];
    OthersStand(fs, xs, all, outstanding, c, FaceOf(cs[c]), if ret < 0 then xs[c] else Fed(xs[c], got), pool.all,
        pool.outstanding);
  }

  method HandleFrom(cs: seq<ClientData>, c: nat, pool: Pool, ghost xs: seq<Client>)
    returns (got: bool, redirect_msg: Option<Msg>)
    requires Stands(cs, xs, pool) && c < |cs|
    modifies cs[c], cs[c].reading_buffer, pool
    ensures ScanIsSound(xs[c].inbox) && Stands(cs, xs[c := Parsed(xs[c]).0], pool)
    ensures got == HasNewline(xs[c].inbox.inbuf) && redirect_msg == Parsed(xs[c]).1
  {
    ghost var fs, all, outstanding := Faces(cs), pool.all, pool.outstanding;
    OneStands(cs, xs, pool, c);
    got, redirect_msg := HandleOne(cs[c], pool, xs[c]);
    ValidFace(cs[c], pool);
    forall i | 0 <= i < |cs| && i != c
      ensures FaceOf(cs[i]) == fs[i]
    {
      Unlike(cs, i, c);
    }
    assert Faces(cs) == fs[c := FaceOf(cs[c])];
    OthersStand(fs, xs, all, outstanding, c, FaceOf(cs[c]), Parsed(xs[c]).0, pool.all, pool.outstanding);
  }

  method GiveTo(cs: seq<ClientData>, c: nat, pool: Pool, e: Entry, content: Bytes, mem: nat -> bool,
                ghost xs: seq<Client>)
    returns (ret: int, ghost accepted: nat)
    requires Stands(cs, xs, pool) && c < |cs|
    modifies cs[c].writing_buffer, pool
    ensures accepted == RoomFor(old(FaceOf(cs[c])), |content|, mem) && accepted == (if ret < 0 then 0 else ret)
    ensures Stands(cs, xs[c := Given(xs[c], e, content[..accepted])], pool)
  {
    ghost var fs, all, outstanding := Faces(cs), pool.all, pool.outstanding;
    OneStands(cs, xs, pool, c);
    ret, accepted := GiveOne(cs[c], pool, e, content, mem, xs[c]);
    ValidFace(cs[c], pool);
    forall i | 0 <= i < |cs| && i != c
      ensures FaceOf(cs[i]) == fs[i]
    {
      Unlike(cs, i, c);
    }
    assert Faces(cs) == fs[c := FaceOf(cs[c])];
    OthersStand(fs, xs, all, outstanding, c, FaceOf(cs[c]), Given(xs[c], e, content[..accepted]), pool.all,
        pool.outstanding);
  }

  method FlushOut(cs: seq<ClientData>, c: nat, pool: Pool, accepts: nat -> int, ghost xs: seq<Client>)
    returns (ret: nat, failed: bool)
    requires Stands(cs, xs, pool) && c < |cs|
    modifies cs[c].writing_buffer, pool, cs[c].socket
    ensures (ret, failed) == GoesOut(old(FaceOf(cs[c])), accepts)
    ensures ret <= |xs[c].pending| && (!failed ==> ret == |xs[c].pending|)
    ensures Stands(cs, xs[c := Flushed(xs[c], ret)], pool)
  {
    ghost var fs, all, outstanding := Faces(cs), pool.all, pool.outstanding;
    OneStands(cs, xs, pool, c);
    ret, failed := FlushOne(cs[c], pool, accepts, xs[c]);
    ValidFace(cs[c], pool);
    ghost var x := Flushed(xs[c], ret);
    forall i | 0 <= i < |cs| && i != c
      ensures FaceOf(cs[i]) == fs[i]
    {
      Unlike(cs, i, c);
    }
    assert Faces(cs) == fs[c := FaceOf(cs[c])];
    OthersStand(fs, xs, all, outstanding, c, FaceOf(cs[c]), x, pool.all, pool.outstanding);
  }

  // new_client_info, among all clients: NewClient, on a socket that nothing has been sent to
  method Admit(cs: seq<ClientData>, pool: Pool, socket: Socket, fd: int, ghost xs: seq<Client>) returns (d: ClientData)
    requires Stands(cs, xs, pool) && socket.sent == []
    requires forall i :: 0 <= i < |cs| ==> cs[i].socket != socket
    ensures Stands(cs + [d], xs + [NewClient(fd)], pool)
  {
    ghost var fs := Faces(cs);
    d := new ClientData(socket, UNKNOWN_CLIENT, pool);
    ghost var f, x := FaceOf(d), NewClient(fd);
    ValidFace(d, pool);
    forall i | 0 <= i < |cs|
      ensures Distinct(cs[i], d) && FaceOf(cs[i]) == fs[i]
    {
    }
    OneMoreDistinct(cs, d);
    assert Faces(cs + [d]) == fs + [f];
    OneMoreStands(fs, xs, pool.all, pool.outstanding, f, x);
  }

  // release_client_info: the others stay as they are.
  method Dismiss(cs: seq<ClientData>, c: nat, pool: Pool, ghost xs: seq<Client>)
    requires Stands(cs, xs, pool) && c < |cs|
    modifies cs[c].reading_buffer, cs[c].writing_buffer, pool
    ensures Stands(Without(cs, c), Without(xs, c), pool)
  {
    ghost var fs, all, outstanding := Faces(cs), pool.all, pool.outstanding;
    cs[c].Release(pool);
    forall i | 0 <= i < |cs| && i != c
      ensures FaceOf(cs[i]) == fs[i]
    {
      Unlike(cs, i, c);
    }
    RestStand(fs, xs, all, outstanding, c);
    RestDistinct(cs, c);
    assert Faces(Without(cs, c)) == Without(fs, c);
  }
}
