// src/IMServer.c as a step system: a listener, a reader and a writer thread, each step
// being what one of them does under a lock or between two locks. Any interleaving of
// steps is a run.

module ServerSteps {
  import opened Bytes
  import opened Framing
  import opened Protocol

  // ----- what the threads share

  datatype Source = ByReader | ByWriter

  /** A frame given to a client: who delivered it, its place in that thread's log, and the
      name that the client bore at the time. */
  datatype Entry = Entry(source: Source, index: nat, to: Bytes)

  /** A connection. `received`, `handled`, `out`, `sent`, `flushed` and `covered` are history:
      the bytes that entered the reading buffer, the messages taken from it, the frames
      delivered to the client with the bytes that were stored of each, the bytes written to
      the socket, and how much of the output there was at the last notification. */
  datatype Client = Client(
    socket: int,
    name: Bytes,
    failed: bool,          // pub
    inbox: Inbox,          // reading_buffer and last_check_cmd_index
    received: Bytes,
    handled: seq<Bytes>,
    out: seq<Entry>,
    sent: seq<Bytes>,
    flushed: Bytes,
    pending: Bytes,        // writing_buffer
    flushFailed: bool,     // the last flush left something behind
    covered: nat
  )

  /** The reader's log: the client whose message this is, its place among that client's
      messages, and what is delivered for it. */
  datatype Record = Record(sender: nat, order: nat, msg: Msg)

  /** The writer's log: who was logged out, and what is delivered for it. */
  datatype Notice = Notice(who: nat, msg: Msg)

  // ----- where each thread is

  datatype Listener = Listening | Accepted(fd: int)

  /** One round over the polled clients. */
  datatype Round = Round(snap: seq<nat>, polled: seq<bool>, i: nat)

  /** One delivery: the snapshot it goes through, how far it is, and to how many it went. */
  datatype Delivery = Delivery(targets: seq<nat>, pos: nat, count: nat)

  datatype Reader =
    | RIdle
    | RPoll(round: Round)
    | RParse(round: Round, need: nat)
    | RSend(round: Round, need: nat)
    | RDeliver(round: Round, need: nat, delivery: Delivery)
    | RNotify(round: Round, need: nat)

  datatype Writer =
    | WTop
    | WFlush(snap: seq<nat>, i: nat)
    | WLogout(snap: seq<nat>, i: nat)
    | WRemoved(snap: seq<nat>, i: nat)
    | WSend(snap: seq<nat>, i: nat)
    | WDeliver(snap: seq<nat>, i: nat, delivery: Delivery)
    | WClose(snap: seq<nat>, i: nat, count: nat)
    | WNotify(snap: seq<nat>, i: nat, count: nat)
    | WCheck
    | WWait

  /** A client is known by its place among all that ever registered. `registry` is the
      client list, in order; `closed` are the clients whose socket has been closed. */
  datatype State = State(
    registry: seq<nat>,
    count: int,            // client_count
    clients: seq<Client>,
    open: set<int>,        // file descriptors in use
    closed: set<nat>,
    sign: nat,             // sign_to_flush_msg
    readerLog: seq<Record>,
    writerLog: seq<Notice>,
    listener: Listener,
    reader: Reader,
    writer: Writer
  )

  function Initial(): State {
    State([], 0, [], {}, {}, 0, [], [], Listening, RIdle, WTop)
  }

  /** new_client_info */
  function NewClient(fd: int): Client {
    Client(fd, UNKNOWN_CLIENT, false, Inbox([], 0), [], [], [], [], [], [], false, 0)
  }

  // ----- indices are in range, which Apply needs and keeps

  predicate Known(n: nat, ids: seq<nat>) {
    forall i :: 0 <= i < |ids| ==> ids[i] < n
  }

  predicate RoundFits(n: nat, r: Round, inside: bool) {
    && |r.polled| == |r.snap| && Known(n, r.snap)
    && r.i <= |r.snap| && (inside ==> r.i < |r.snap|)
  }

  predicate DeliveryFits(n: nat, d: Delivery) {
    Known(n, d.targets) && d.pos <= |d.targets|
  }

  predicate ReaderFits(n: nat, logged: nat, reader: Reader) {
    match reader
    case RIdle => true
    case RPoll(r) => RoundFits(n, r, false)
    case RParse(r, _) => RoundFits(n, r, true)
    case RSend(r, _) => RoundFits(n, r, true) && logged > 0
    case RDeliver(r, _, d) => RoundFits(n, r, true) && logged > 0 && DeliveryFits(n, d)
    case RNotify(r, _) => RoundFits(n, r, true)
  }

  predicate WriterFits(n: nat, logged: nat, writer: Writer) {
    match writer
    case WTop => true
    case WFlush(snap, i) => Known(n, snap) && i <= |snap|
    case WLogout(snap, i) => Known(n, snap) && i <= |snap|
    case WRemoved(snap, i) => Known(n, snap) && i < |snap|
    case WSend(snap, i) => Known(n, snap) && i < |snap| && logged > 0
    case WDeliver(snap, i, d) => Known(n, snap) && i < |snap| && logged > 0 && DeliveryFits(n, d)
    case WClose(snap, i, _) => Known(n, snap) && i < |snap|
    case WNotify(snap, i, _) => Known(n, snap) && i < |snap|
    case WCheck => true
    case WWait => true
  }

  predicate Scanned(cs: seq<Client>) {
    forall c :: 0 <= c < |cs| ==> ScanIsSound(cs[c].inbox)
  }

  predicate Sane(s: State) {
    && Known(|s.clients|, s.registry) && Scanned(s.clients)
    && ReaderFits(|s.clients|, |s.readerLog|, s.reader)
    && WriterFits(|s.clients|, |s.writerLog|, s.writer)
  }

  // ----- steps

  // handle_listen
  datatype Listen = Accept(fd: int) | Register | RegisterFails

  // read_sockets, and try_to_handle_msg with the deliveries it makes
  datatype Read =
    | ReaderSnapshot | ReaderSkip | ReaderFetch(data: Bytes) | ReaderFetchFails | MarkFail | ReaderRoundEnds
    | ParseOne(alloc: bool) | DeliverSnapshot(list: bool) | DeliverOne(accepted: nat) | DeliverEnds | Notify

  // write_sockets, and user_logout with the delivery it makes
  datatype Write =
    | WriterSnapshot | Flush(written: nat) | FlushesEnd | LogoutSkip | LogoutsEnd | WriterCheck | Wake
    | LogoutRemove | LogoutAnnounce(memory: bool) | LogoutSnapshot(clients: bool) | LogoutDeliverOne(taken: nat)
    | LogoutDeliverEnds | Close | LogoutNotify

  datatype Action = Listens(l: Listen) | Reads(r: Read) | Writes(w: Write)

  /** The client a round is at. */
  function At(r: Round): nat
    requires r.i < |r.snap|
  {
    r.snap[r.i]
  }

  /** The round goes on to the next client. */
  function Next(r: Round): Round { r.(i := r.i + 1) }

  /** What the delivery under way is about. */
  function ReaderMsg(s: State): Msg
    requires s.readerLog != []
  {
    s.readerLog[|s.readerLog| - 1].msg
  }

  function WriterMsg(s: State): Msg
    requires s.writerLog != []
  {
    s.writerLog[|s.writerLog| - 1].msg
  }

  predicate Enabled(s: State, a: Action)
    requires Sane(s)
  {
    match a
    case Listens(l) => CanListen(s, l)
    case Reads(r) => CanRead(s, r)
    case Writes(w) => CanWrite(s, w)
  }

  predicate CanListen(s: State, l: Listen) {
    match l
    // accept returns a descriptor that is not in use, or an error, after which nothing is done
    case Accept(fd) => s.listener.Listening? && fd >= 0 && fd !in s.open
    case Register => s.listener.Accepted?
    case RegisterFails => s.listener.Accepted?
  }

  predicate CanRead(s: State, r: Read)
    requires ReaderFits(|s.clients|, |s.readerLog|, s.reader)
  {
    match r
    case ReaderSnapshot => s.reader.RIdle?
    // a client that is not polled, or on which nothing happened
    case ReaderSkip => s.reader.RPoll? && s.reader.round.i < |s.reader.round.snap|
    case ReaderFetch(data) => AtPolled(s) && data != []
    case ReaderFetchFails => AtPolled(s)
    case MarkFail => AtPolled(s)
    // poll found nothing, or every client has had its turn
    case ReaderRoundEnds => s.reader.RPoll? && (s.reader.round.i == 0 || s.reader.round.i == |s.reader.round.snap|)
    case ParseOne(_) => s.reader.RParse?
    case DeliverSnapshot(_) => s.reader.RSend?
    case DeliverOne(accepted) =>
      s.reader.RDeliver? && s.reader.delivery.pos < |s.reader.delivery.targets| && accepted <= |ReaderMsg(s).content|
    case DeliverEnds => s.reader.RDeliver? && s.reader.delivery.pos == |s.reader.delivery.targets|
    case Notify => s.reader.RNotify?
  }

  predicate CanWrite(s: State, w: Write)
    requires WriterFits(|s.clients|, |s.writerLog|, s.writer)
  {
    match w
    case WriterSnapshot => s.writer.WTop?
    case Flush(written) =>
      s.writer.WFlush? && s.writer.i < |s.writer.snap| && written <= |s.clients[s.writer.snap[s.writer.i]].pending|
    case FlushesEnd => s.writer.WFlush? && s.writer.i == |s.writer.snap|
    case LogoutSkip => s.writer.WLogout? && s.writer.i < |s.writer.snap| && !s.clients[s.writer.snap[s.writer.i]].failed
    case LogoutsEnd => s.writer.WLogout? && s.writer.i == |s.writer.snap|
    case WriterCheck => s.writer.WCheck?
    case Wake => s.writer.WWait?
    case LogoutRemove => s.writer.WLogout? && s.writer.i < |s.writer.snap|
      && s.clients[s.writer.snap[s.writer.i]].failed
    case LogoutAnnounce(_) => s.writer.WRemoved?
    case LogoutSnapshot(_) => s.writer.WSend?
    case LogoutDeliverOne(taken) =>
      s.writer.WDeliver? && s.writer.delivery.pos < |s.writer.delivery.targets| && taken <= |WriterMsg(s).content|
    case LogoutDeliverEnds => s.writer.WDeliver? && s.writer.delivery.pos == |s.writer.delivery.targets|
    case Close => s.writer.WClose?
    case LogoutNotify => s.writer.WNotify?
  }

  /** The round is at a client that is being polled. */
  predicate AtPolled(s: State)
    requires ReaderFits(|s.clients|, |s.readerLog|, s.reader)
  {
    s.reader.RPoll? && s.reader.round.i < |s.reader.round.snap| && s.reader.round.polled[s.reader.round.i]
  }

  // ----- what the steps do

  /** One round of the loop of deliver_msg_to_all_clients, of which `accepted` bytes are
      stored: all of them unless memory runs out. */
  function Offer(cs: seq<Client>, c: nat, source: Source, index: nat, msg: Msg, accepted: nat): (seq<Client>, nat)
    requires c < |cs| && accepted <= |msg.content|
  {
    var x := cs[c];
    if Eligible(msg, x.name, x.failed) then
      (cs[c := Given(x, Entry(source, index, x.name), msg.content[..accepted])], 1)
    else (cs, 0)
  }

  function Given(x: Client, e: Entry, d: Bytes): Client {
    x.(out := x.out + [e], sent := x.sent + [d], pending := x.pending + d)
  }

  /** fetch_msg_from_client, and what the message does to the client it is from. */
  function Parsed(x: Client): (Client, Option<Msg>)
    requires ScanIsSound(x.inbox)
  {
    FetchTakesTheFirst(x.inbox);
    var (m, box) := Fetch(x.inbox);
    match m
    case None => (x.(inbox := box), None)
    case Some(b) =>
      var (name, msg) := Handle(x.name, b);
      (x.(inbox := box, handled := x.handled + [b], name := name), msg)
  }

  /** Everything that has been put out so far is now announced. */
  function Announced(x: Client): Client { x.(covered := |x.flushed| + |x.pending|) }

  function AnnounceAll(cs: seq<Client>): (r: seq<Client>)
    ensures |r| == |cs| && forall c :: 0 <= c < |cs| ==> r[c] == Announced(cs[c])
  {
    seq(|cs|, c requires 0 <= c < |cs| => Announced(cs[c]))
  }

  /** flush_messages: the socket takes `written` bytes, all of them unless a write fails. */
  function Flushed(x: Client, written: nat): Client
    requires written <= |x.pending|
  {
    x.(flushed := x.flushed + x.pending[..written], pending := x.pending[written..],
        flushFailed := written < |x.pending|)
  }

  /** The search of user_logout: the first client with this socket leaves the list. */
  function Remove(cs: seq<Client>, registry: seq<nat>, socket: int): seq<nat>
    requires Known(|cs|, registry)
  {
    if registry == [] then []
    else if cs[registry[0]].socket == socket then registry[1..]
    else [registry[0]] + Remove(cs, registry[1..], socket)
  }

  function Delivered(d: Delivery, n: nat): Delivery { d.(pos := d.pos + 1, count := d.count + n) }

  function Apply(s: State, a: Action): State
    requires Sane(s) && Enabled(s, a)
  {
    match a
    case Listens(l) => ListenStep(s, l)
    case Reads(r) => ReadStep(s, r)
    case Writes(w) => WriteStep(s, w)
  }

  function ListenStep(s: State, l: Listen): State
    requires CanListen(s, l)
  {
    match l
    case Accept(fd) => s.(open := s.open + {fd}, listener := Accepted(fd))
    case Register =>
      s.(clients := s.clients + [NewClient(s.listener.fd)], registry := s.registry + [|s.clients|],
         count := s.count + 1, listener := Listening)
    case RegisterFails => s.(listener := Listening)
  }

  function ReadStep(s: State, r: Read): State
    requires Sane(s) && CanRead(s, r)
  {
    match r
    case ReaderSnapshot => s.(reader := RPoll(Round(s.registry, Polled(s), 0)))
    case ReaderSkip => s.(reader := RPoll(Next(s.reader.round)))
    case ReaderFetch(data) =>
      var c := At(s.reader.round);
      s.(clients := s.clients[c := Fed(s.clients[c], data)], reader := RParse(s.reader.round, 0))
    case ReaderFetchFails => s.(reader := RParse(s.reader.round, 0))
    case MarkFail =>
      var c := At(s.reader.round);
      s.(clients := s.clients[c := s.clients[c].(failed := true)], reader := RPoll(Next(s.reader.round)))
    case ReaderRoundEnds => s.(reader := RIdle)
    case ParseOne(alloc) => ParseStep(s, alloc)
    case DeliverSnapshot(list) =>
      s.(reader := RDeliver(s.reader.round, s.reader.need, Delivery(if list then s.registry else [], 0, 0)))
    case DeliverOne(accepted) =>
      var d := s.reader.delivery;
      var (cs, n) := Offer(s.clients, d.targets[d.pos], ByReader, |s.readerLog| - 1, ReaderMsg(s), accepted);
      s.(clients := cs, reader := RDeliver(s.reader.round, s.reader.need, Delivered(d, n)))
    case DeliverEnds => s.(reader := RParse(s.reader.round, s.reader.need + s.reader.delivery.count))
    case Notify =>
      var next := s.(reader := RPoll(Next(s.reader.round)));
      if s.reader.need > 0 then Signalled(next) else next
  }

  function WriteStep(s: State, w: Write): State
    requires Sane(s) && CanWrite(s, w)
  {
    match w
    case WriterSnapshot => s.(writer := WFlush(s.registry, 0))
    case Flush(written) =>
      var c := s.writer.snap[s.writer.i];
      var x := s.clients[c];
      s.(clients := if x.failed then s.clients else s.clients[c := Flushed(x, written)],
         writer := WFlush(s.writer.snap, s.writer.i + 1))
    case FlushesEnd => s.(writer := WLogout(s.writer.snap, 0))
    case LogoutSkip => s.(writer := WLogout(s.writer.snap, s.writer.i + 1))
    case LogoutsEnd => s.(writer := WCheck)
    // the sign is cleared only after waiting
    case WriterCheck => s.(writer := if s.sign == 0 then WWait else WTop)
    case Wake => s.(sign := 0, writer := WTop)
    case LogoutRemove =>
      var left := Remove(s.clients, s.registry, s.clients[s.writer.snap[s.writer.i]].socket);
      s.(registry := left, count := s.count - (|s.registry| - |left|), writer := WRemoved(s.writer.snap, s.writer.i))
    case LogoutAnnounce(memory) =>
      var c := s.writer.snap[s.writer.i];
      if memory then
        s.(writerLog := s.writerLog + [Notice(c, LogoutNotice(s.clients[c].name))],
           writer := WSend(s.writer.snap, s.writer.i))
      else s.(writer := WClose(s.writer.snap, s.writer.i, 0))
    case LogoutSnapshot(clients) =>
      s.(writer := WDeliver(s.writer.snap, s.writer.i, Delivery(if clients then s.registry else [], 0, 0)))
    case LogoutDeliverOne(taken) =>
      var d := s.writer.delivery;
      var (cs, n) := Offer(s.clients, d.targets[d.pos], ByWriter, |s.writerLog| - 1, WriterMsg(s), taken);
      s.(clients := cs, writer := WDeliver(s.writer.snap, s.writer.i, Delivered(d, n)))
    case LogoutDeliverEnds => s.(writer := WClose(s.writer.snap, s.writer.i, s.writer.delivery.count))
    case Close =>
      var c := s.writer.snap[s.writer.i];
      s.(open := s.open - {s.clients[c].socket}, closed := s.closed + {c},
         writer := WNotify(s.writer.snap, s.writer.i, s.writer.count))
    case LogoutNotify =>
      var next := s.(writer := WLogout(s.writer.snap, s.writer.i + 1));
      if s.writer.count > 0 then Signalled(next) else next
  }

  /** Which clients a new round polls: those that have not failed. */
  function Polled(s: State): (r: seq<bool>)
    requires Known(|s.clients|, s.registry)
    ensures |r| == |s.registry| && forall i :: 0 <= i < |r| ==> r[i] == !s.clients[s.registry[i]].failed
  {
    seq(|s.registry|, i requires 0 <= i < |s.registry| => !s.clients[s.registry[i]].failed)
  }

  /** Bytes from the socket. */
  function Fed(x: Client, data: Bytes): Client {
    x.(inbox := Arrive(x.inbox, data), received := x.received + data)
  }

  function ParseStep(s: State, alloc: bool): State
    requires Sane(s) && s.reader.RParse?
  {
    var r := s.reader.round;
    var c := At(r);
    var (x, msg) := Parsed(s.clients[c]);
    var next := s.(clients := s.clients[c := x]);
    if |x.handled| == |s.clients[c].handled| then next.(reader := RNotify(r, s.reader.need))
    else if msg == None || !alloc then next
    else
      next.(readerLog := s.readerLog + [Record(c, |s.clients[c].handled|, msg.value)],
            reader := RSend(r, s.reader.need))
  }

  function Signalled(s: State): State {
    s.(sign := s.sign + 1, clients := AnnounceAll(s.clients))
  }

  // ----- runs

  /** States and the steps between them, from the start of the server. */
  ghost predicate IsRun(states: seq<State>, acts: seq<Action>) {
    && |states| == |acts| + 1
    && states[0] == Initial()
    && forall k :: 0 <= k < |acts| ==>
         Sane(states[k]) && Enabled(states[k], acts[k]) && states[k + 1] == Apply(states[k], acts[k])
  }

  lemma IdleIsSane()
    ensures Sane(Initial())
  {
  }

  /** No step leaves the range in which every step is defined. */
  lemma SanePreserved(s: State, a: Action)
    requires Sane(s) && Enabled(s, a)
    ensures Sane(Apply(s, a))
  {
    match a
    case Listens(l) => SaneListen(s, l);
    case Reads(r) => SaneRead(s, r);
    case Writes(w) => SaneWrite(s, w);
  }

  lemma SaneListen(s: State, l: Listen)
    requires Sane(s) && CanListen(s, l)
    ensures Sane(ListenStep(s, l))
  {
  }

  lemma SaneRead(s: State, r: Read)
    requires Sane(s) && CanRead(s, r)
    ensures Sane(ReadStep(s, r))
  {
    match r
    case ReaderFetch(data) => ArriveIsSound(s.clients[At(s.reader.round)].inbox, data);
    case ParseOne(alloc) => SaneParse(s, alloc);
    case _ =>
  }

  lemma SaneParse(s: State, alloc: bool)
    requires Sane(s) && s.reader.RParse?
    ensures Sane(ParseStep(s, alloc))
  {
    FetchTakesTheFirst(s.clients[At(s.reader.round)].inbox);
  }

  lemma SaneWrite(s: State, w: Write)
    requires Sane(s) && CanWrite(s, w)
    ensures Sane(WriteStep(s, w))
  {
    if w.LogoutRemove? {
      RemoveKeeps(s.clients, s.registry, s.clients[s.writer.snap[s.writer.i]].socket);
    }
  }

  lemma {:induction false} RemoveKeeps(cs: seq<Client>, registry: seq<nat>, socket: int)
    requires Known(|cs|, registry)
    ensures Known(|cs|, Remove(cs, registry, socket))
    ensures forall id :: id in Remove(cs, registry, socket) ==> id in registry
    ensures |registry| - 1 <= |Remove(cs, registry, socket)| <= |registry|
  {
    if registry != [] && cs[registry[0]].socket != socket {
      RemoveKeeps(cs, registry[1..], socket);
    }
  }
}
