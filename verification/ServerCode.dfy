// The functions of src/IMServer.c as they are written, loops and all. Each is shown to be
// a stretch of a run of the step system, with no other thread in between, and the one that
// the answers of the environment lead to.

module ServerCode {
  import opened Bytes
  import opened Chains
  import opened Framing
  import opened Protocol
  import opened ServerSteps
  import opened Registry
  import opened Streams
  import opened Deliveries
  import opened Environment
  import opened Polling

  /** So a run can go on with what a function does, and all that holds of runs holds of it. */
  lemma {:induction false} RunGoesOn(states: seq<State>, acts: seq<Action>, more: seq<Action>, t: State)
    returns (states': seq<State>)
    requires IsRun(states, acts) && Reaches(states[|acts|], more, t)
    ensures IsRun(states', acts + more) && states <= states' && states'[|acts + more|] == t
    decreases |more|
  {
    if more == [] {
      Nothing(acts);
      states' := states;
    } else {
      var m :| Leads(None, states[|acts|], more[0], m) && Chain(Leads, None, m, more[1..], t);
      RunOneMore(states, acts, more[0], m);
      states' := RunGoesOn(states + [m], acts + [more[0]], more[1..], t);
      assert acts + [more[0]] + more[1..] == acts + more;
    }
  }

  lemma RunOneMore(states: seq<State>, acts: seq<Action>, a: Action, t: State)
    requires IsRun(states, acts) && Leads(None, states[|acts|], a, t)
    ensures IsRun(states + [t], acts + [a])
  {
  }

  ghost predicate InDelivery(s: State, source: Source, index: nat, msg: Msg, d: Delivery)
    requires Sane(s)
  {
    match source
    case ByReader => s.reader.RDeliver? && s.reader.delivery == d && index == |s.readerLog| - 1 && msg == ReaderMsg(s)
    case ByWriter => s.writer.WDeliver? && s.writer.delivery == d && index == |s.writerLog| - 1 && msg == WriterMsg(s)
  }

  /** The thread is about to deliver it. */
  ghost predicate Sending(s: State, source: Source, index: int, msg: Msg)
  {
    match source
    case ByReader => s.reader.RSend? && s.readerLog != [] && index == |s.readerLog| - 1 && msg == ReaderMsg(s)
    case ByWriter => s.writer.WSend? && s.writerLog != [] && index == |s.writerLog| - 1 && msg == WriterMsg(s)
  }

  ghost function BeginStep(source: Source, alloc: bool): Action {
    match source
    case ByReader => Reads(DeliverSnapshot(alloc))
    case ByWriter => Writes(LogoutSnapshot(alloc))
  }

  ghost function EndStep(source: Source): Action {
    match source
    case ByReader => Reads(DeliverEnds)
    case ByWriter => Writes(LogoutDeliverEnds)
  }

  ghost function OfferStep(source: Source, accepted: nat): Action {
    match source
    case ByReader => Reads(DeliverOne(accepted))
    case ByWriter => Writes(LogoutDeliverOne(accepted))
  }

  /** The threads, with `source` in a delivery that has come to `d`. */
  ghost function InLoop(reader: Reader, writer: Writer, source: Source, d: Delivery): (Reader, Writer)
    requires source.ByReader? ==> reader.RSend? || reader.RDeliver?
    requires source.ByWriter? ==> writer.WSend? || writer.WDeliver?
  {
    match source
    case ByReader => (RDeliver(reader.round, reader.need, d), writer)
    case ByWriter => (reader, WDeliver(writer.snap, writer.i, d))
  }

  /** The threads, with `source` back from a delivery to `count` clients. */
  ghost function Returned(reader: Reader, writer: Writer, source: Source, count: nat): (Reader, Writer)
    requires source.ByReader? ==> reader.RSend? || reader.RDeliver?
    requires source.ByWriter? ==> writer.WSend? || writer.WDeliver?
  {
    match source
    case ByReader => (RParse(reader.round, reader.need + count), writer)
    case ByWriter => (reader, WClose(writer.snap, writer.i, count))
  }

  lemma LoopAndBack(reader: Reader, writer: Writer, source: Source, d: Delivery, count: nat)
    requires source.ByReader? ==> reader.RSend? || reader.RDeliver?
    requires source.ByWriter? ==> writer.WSend? || writer.WDeliver?
    ensures var (r, w) := InLoop(reader, writer, source, d);
      && (source.ByReader? ==> r.RDeliver?) && (source.ByWriter? ==> w.WDeliver?)
      && Returned(r, w, source, count) == Returned(reader, writer, source, count)
  {
  }

  /** The end of a delivery. */
  lemma EndStepIs(s: State, source: Source, index: nat, msg: Msg, d: Delivery)
    requires Sane(s) && InDelivery(s, source, index, msg, d) && d.pos == |d.targets|
    ensures Enabled(s, EndStep(source))
    ensures var (r, w) := Returned(s.reader, s.writer, source, d.count);
      Apply(s, EndStep(source)) == s.(reader := r, writer := w)
  {
  }

  /** A round of the delivery loop, whichever thread it is in. */
  lemma OfferStepIs(s: State, source: Source, index: nat, msg: Msg, d: Delivery, accepted: nat)
    requires Sane(s) && InDelivery(s, source, index, msg, d) && d.pos < |d.targets| && accepted <= |msg.content|
    ensures var a, (cs, n) := OfferStep(source, accepted), Offer(s.clients, d.targets[d.pos], source, index, msg,
        accepted);
      && Enabled(s, a) && Sane(Apply(s, a)) && InDelivery(Apply(s, a), source, index, msg, Delivered(d, n))
      && SameInput(s.clients, cs)
      && var (r, w) := InLoop(s.reader, s.writer, source, Delivered(d, n));
         Apply(s, a) == s.(clients := cs, reader := r, writer := w)
  {
    SanePreserved(s, OfferStep(source, accepted));
  }

  // ----- a whole delivery

  /** A client that has got the frame, as much of it as there is memory for. */
  ghost function GivenBy(env: World, x: Client, c: nat, source: Source, index: nat, content: Bytes): Client {
    Given(x, Entry(source, index, x.name), content[..Stores(env, source, index, c, content)])
  }

  /** Exactly those of `targets` that the message is for have got the frame, each once and as
      much of it as there is memory for, and nothing else has changed; `count` is how many
      they are. */
  ghost predicate DeliveredTo(env: World, cs: seq<Client>, cs': seq<Client>, targets: seq<nat>, source: Source,
                              index: nat, msg: Msg, count: nat) {
    && |cs'| == |cs| && count == |Meant(cs, targets, msg)|
    && forall c :: 0 <= c < |cs| ==>
         if c in Meant(cs, targets, msg) then cs'[c] == GivenBy(env, cs[c], c, source, index, msg.content)
         else cs'[c] == cs[c]
  }

  /** Some client has been given a frame. */
  ghost predicate SomebodyGot(cs: seq<Client>, cs': seq<Client>)
    requires |cs| == |cs'|
  {
    exists c :: 0 <= c < |cs| && |cs[c].out| < |cs'[c].out|
  }

  ghost predicate OutGrown(cs: seq<Client>, cs': seq<Client>, n: nat) {
    && |cs| == |cs'| && (forall c :: 0 <= c < |cs| ==> |cs[c].out| <= |cs'[c].out|)
    && (n > 0 <==> SomebodyGot(cs, cs'))
  }

  lemma DeliveredGrows(env: World, cs: seq<Client>, cs': seq<Client>, targets: seq<nat>, source: Source, index: nat,
                       msg: Msg, count: nat)
    requires DeliveredTo(env, cs, cs', targets, source, index, msg, count)
    ensures OutGrown(cs, cs', count)
  {
    var meant := Meant(cs, targets, msg);
    if count > 0 {
      var c :| c in meant;
      assert |cs'[c].out| == |cs[c].out| + 1;
    } else {
      assert meant == {};
    }
  }

  lemma GrownTwice(a: seq<Client>, b: seq<Client>, c: seq<Client>, n: nat, m: nat)
    requires OutGrown(a, b, n) && OutGrown(b, c, m)
    ensures OutGrown(a, c, n + m)
  {
    if n > 0 {
      var x :| 0 <= x < |a| && |a[x].out| < |b[x].out|;
      assert |a[x].out| < |c[x].out|;
    } else if m > 0 {
      var x :| 0 <= x < |b| && |b[x].out| < |c[x].out|;
      assert |a[x].out| < |c[x].out|;
    }
  }

  lemma DeliveredToNext(env: World, cs: seq<Client>, cs': seq<Client>, targets: seq<nat>, source: Source, index: nat,
                        msg: Msg, count: nat, c: nat)
    requires DeliveredTo(env, cs, cs', targets, source, index, msg, count)
    requires c < |cs| && c !in targets
    ensures var (cs'', n) := Offer(cs', c, source, index, msg, Stores(env, source, index, c, msg.content));
      DeliveredTo(env, cs, cs'', targets + [c], source, index, msg, count + n)
  {
    MeantNext(cs, targets, c, msg);
  }

  lemma MeantNext(cs: seq<Client>, targets: seq<nat>, c: nat, msg: Msg)
    requires c < |cs| && c !in targets
    ensures c !in Meant(cs, targets, msg)
    ensures Meant(cs, targets + [c], msg)
      == Meant(cs, targets, msg) + if Eligible(msg, cs[c].name, cs[c].failed) then {c} else {}
  {
  }

  lemma DeliveredToNobody(env: World, cs: seq<Client>, source: Source, index: nat, msg: Msg)
    ensures DeliveredTo(env, cs, cs, [], source, index, msg, 0)
  {
    assert Meant(cs, [], msg) == {};
  }

  // ----- one message

  // user_login: the new name, and the notice to everybody else
  method UserLogin(m: Bytes) returns (name: Bytes, message: Msg)
    requires IsMessage(m) && StartsWith(m, CMD_LOGIN)
    ensures name == Truncate(CutLine(m[|CMD_LOGIN|..])) && message == LoginNotice(name)
  {
    var line := CutAtNewline(m[|CMD_LOGIN|..]);
    var name_length := Min(|line|, CLIENT_NAME_MAXIMUM_SIZE - 1);
    name := line[..name_length];
    var text := name + " " + MSG_LOGIN_SUFFIX;
    assert NL !in text;
    var size;
    message, size := CreateSystem(CMD_TO_ALL, name, text);
    IndexFromIsLeast(text, 0, NL, |text|);
  }

  // The body of the loop of try_to_handle_msg, up to the delivery.
  method Dispatch(name: Bytes, m: Bytes) returns (name': Bytes, redirect_msg: Option<Msg>)
    requires IsMessage(m)
    ensures (name', redirect_msg) == Handle(name, m)
  {
    name', redirect_msg := name, None;
    var msg, size;
    if StartsWith(m, CMD_LOGIN) {
      name', msg := UserLogin(m);
      redirect_msg := Some(msg);
    } else if StartsWith(m, CMD_TO_ALL) {
      Newline(m, CMD_TO_ALL);
      msg, size := CreateP2p(name, CMD_TO_ALL, m[|CMD_TO_ALL| + 1..]);
      redirect_msg := Some(msg);
    } else if StartsWith(m, CMD_TO_C) {
      var indicator := FindColon(m);
      if indicator < |m| {
        ColonInside(m);
        var target_name_size := indicator - |CMD_TO_C|;
        if target_name_size <= LARGEST_CACHE {
          msg, size := CreateP2p(name, m[|CMD_TO_C|..indicator], m[indicator + 2..]);
          redirect_msg := Some(msg);
        }
      }
    }
  }

  // strchr for the colon
  method FindColon(s: Bytes) returns (pos: nat)
    ensures pos == IndexFrom(s, 0, ':')
  {
    pos := 0;
    while pos < |s| && s[pos] != ':'
      invariant pos <= |s| && forall i :: 0 <= i < pos ==> s[i] != ':'
    {
      pos := pos + 1;
    }
    IndexFromIsLeast(s, 0, ':', pos);
  }

  /** Stretches of runs keep what every step keeps. */
  lemma {:induction false} ReachesRegistry(w: World, s: State, acts: seq<Action>, t: State)
    requires RegistryOk(s) && Follows(w, s, acts, t)
    ensures RegistryOk(t)
    decreases |acts|
  {
    if acts != [] {
      var m :| Leads(Some(w), s, acts[0], m) && Chain(Leads, Some(w), m, acts[1..], t);
      RegistryPreserved(s, acts[0]);
      ReachesRegistry(w, m, acts[1..], t);
    }
  }

  lemma {:induction false} ReachesInputs(w: World, s: State, acts: seq<Action>, t: State)
    requires InputsOk(s) && Follows(w, s, acts, t)
    ensures InputsOk(t)
    decreases |acts|
  {
    if acts != [] {
      var m :| Leads(Some(w), s, acts[0], m) && Chain(Leads, Some(w), m, acts[1..], t);
      InputsPreserved(s, acts[0]);
      ReachesInputs(w, m, acts[1..], t);
    }
  }

  /** What a flush makes of a client: if it has not failed, as much of what is pending has been
      written as its socket takes. */
  function FlushOf(env: World, x: Client, c: nat): Client {
    if x.failed then x else Flushed(x, Drains(env, c, x.pending))
  }

  /** Each of `ids` has been flushed once, unless it has failed, and nobody else. */
  predicate EachFlushed(env: World, cs: seq<Client>, cs': seq<Client>, ids: seq<nat>) {
    |cs| == |cs'| && forall c :: 0 <= c < |cs| ==> cs'[c] == if c in ids then FlushOf(env, cs[c], c) else cs[c]
  }

  lemma FlushedNext(env: World, cs: seq<Client>, cs': seq<Client>, snap: seq<nat>, i: nat)
    requires i < |snap| && Distinct(snap) && snap[i] < |cs| && EachFlushed(env, cs, cs', snap[..i])
    ensures EachFlushed(env, cs, cs'[snap[i] := FlushOf(env, cs'[snap[i]], snap[i])], snap[..i + 1])
  {
    TakeNext(snap, i);
  }

  lemma FlushIs(s: State, snap: seq<nat>, i: nat, written: nat)
    requires Sane(s) && s.writer == WFlush(snap, i) && i < |snap| && written <= |s.clients[snap[i]].pending|
    ensures Enabled(s, Writes(Flush(written)))
    ensures var x := s.clients[snap[i]];
      Apply(s, Writes(Flush(written))) == s.(writer := WFlush(snap, i + 1),
        clients := if x.failed then s.clients else s.clients[snap[i] := Flushed(x, written)])
  {
  }

  lemma NotifyIs(s: State, round: Round, need: nat)
    requires Sane(s) && s.reader == RNotify(round, need)
    ensures Enabled(s, Reads(Notify)) && SameInput(s.clients, Apply(s, Reads(Notify)).clients)
    ensures Apply(s, Reads(Notify)) ==
      if need > 0 then s.(reader := RPoll(Next(round)), sign := s.sign + 1, clients := AnnounceAll(s.clients))
      else s.(reader := RPoll(Next(round)))
  {
  }

  lemma RaiseSignIs(s: State, snap: seq<nat>, i: nat, count: nat)
    requires Sane(s) && s.writer == WNotify(snap, i, count)
    ensures Enabled(s, Writes(LogoutNotify))
    ensures Apply(s, Writes(LogoutNotify)) ==
      if count > 0 then s.(writer := WLogout(snap, i + 1), sign := s.sign + 1, clients := AnnounceAll(s.clients))
      else s.(writer := WLogout(snap, i + 1))
  {
  }

  lemma {:induction false} RemoveNobody(cs: seq<Client>, registry: seq<nat>, socket: int)
    requires Known(|cs|, registry) && forall j :: 0 <= j < |registry| ==> cs[registry[j]].socket != socket
    ensures Remove(cs, registry, socket) == registry
  {
    if registry != [] {
      RemoveNobody(cs, registry[1..], socket);
    }
  }

  class Server {
    // ServerInfo: the client list, its length, and the sign
    var registry: seq<nat>
    var client_count: int
    var sign_to_flush_msg: nat
    // every client there has been, with its history
    var clients: seq<Client>
    var open: set<int>
    var closed: set<nat>
    var readerLog: seq<Record>
    var writerLog: seq<Notice>
    // where the threads are
    ghost var listener: Listener
    ghost var reader: Reader
    ghost var writer: Writer

    ghost function View(): State
      reads this
    {
      State(registry, client_count, clients, open, closed, sign_to_flush_msg,
            readerLog, writerLog, listener, reader, writer)
    }

    // get_client_list: one slot for each of `client_count` clients, filled from the list
    method GetClientList(memory: bool) returns (list: Option<seq<nat>>)
      requires client_count == |registry|
      ensures list == if memory then Some(registry) else None
    {
      if !memory {
        return None;
      }
      var slots := new nat[client_count];
      var index := 0;
      for ptr := 0 to |registry|
        invariant index == ptr && slots[..index] == registry[..index]
      {
        slots[index] := registry[ptr];
        index := index + 1;
      }
      assert slots[..] == registry;
      list := Some(slots[..]);
    }

    // get_polling_and_client_list: both halves of one block, for `client_count` clients, if
    // there is memory for it
    method GetPollingAndClientList(memory: bool) returns (data: Option<(seq<nat>, seq<int>)>)
      requires client_count == |registry| && Known(|clients|, registry)
      ensures data.Some? <==> memory
      ensures data.Some? ==> data.value.0 == registry && |data.value.1| == |registry|
      ensures data.Some? ==> forall i :: 0 <= i < |registry| ==>
        data.value.1[i] == if clients[registry[i]].failed then -1 else clients[registry[i]].socket
    {
      if !memory {
        return None;
      }
      var slots, polling := new nat[client_count], new int[client_count];
      var index := 0;
      for ptr := 0 to |registry|
        invariant index == ptr && slots[..index] == registry[..index]
        invariant forall i :: 0 <= i < index ==>
          polling[i] == if clients[registry[i]].failed then -1 else clients[registry[i]].socket
      {
        var info := registry[ptr];
        slots[index] := info;
        polling[index] := if clients[info].failed then -1 else clients[info].socket;
        index := index + 1;
      }
      data := Some((slots[..], polling[..]));
    }

    // ----- deliver_msg_to_all_clients

    // send_msg_to_client stores the message, or the first part of it that memory allows.
    method SendMsgToClient(env: World, c: nat, source: Source, index: nat, content: Bytes)
      requires c < |clients|
      modifies this`clients
      ensures var x := old(clients)[c];
        clients == old(clients)[c :=
          Given(x, Entry(source, index, x.name), content[..Stores(env, source, index, c, content)])]
    {
      var size := Stores(env, source, index, c, content);
      var info := clients[c];
      clients := clients[c := Given(info, Entry(source, index, info.name), content[..size])];
    }

    // One round of the loop.
    method OfferTo(env: World, c: nat, source: Source, index: nat, msg: Msg, toAll: bool) returns (n: nat)
      requires c < |clients| && toAll == IsMsgToAll(msg)
      modifies this`clients
      ensures (clients, n)
        == Offer(old(clients), c, source, index, msg, Stores(env, source, index, c, msg.content))
    {
      if clients[c].failed {
        return 0;
      }
      var skip := FilterOut(msg, clients[c].name);
      if skip {
        return 0;
      }
      if toAll || IsTarget(msg, clients[c].name) {
        SendMsgToClient(env, c, source, index, msg.content);
        return 1;
      }
      return 0;
    }

    /** The thread `source` is in the middle of a delivery of `msg`. */
    ghost predicate Delivering(source: Source, index: nat, msg: Msg, d: Delivery)
      reads this
    {
      Sane(View()) && InDelivery(View(), source, index, msg, d)
    }

    /** A delivery that began in `s` and has come to client i of the list. */
    ghost predicate SoFar(env: World, source: Source, index: nat, msg: Msg, targets: seq<nat>, i: nat,
                          sent_count: nat, s: State,
                          acts: seq<Action>)
      reads this
    {
      && Delivering(source, index, msg, Delivery(targets, i, sent_count)) && DoneBy(env, source, s, acts, View())
      && i <= |targets| && DeliveredTo(env, s.clients, clients, targets[..i], source, index, msg, sent_count)
      && SameInput(s.clients, clients)
    }

    // The step in which the list was copied.
    ghost method BeginDelivery(env: World, source: Source, index: nat, msg: Msg, targets: seq<nat>, alloc: bool)
      returns (acts: seq<Action>)
      requires Sane(View()) && Sending(View(), source, index, msg)
      requires targets == (if alloc then registry else []) && alloc == env.copies(source, index)
      modifies this`reader, this`writer
      ensures SoFar(env, source, index, msg, targets, 0, 0, old(View()), acts)
      ensures (reader, writer) == InLoop(old(reader), old(writer), source, Delivery(targets, 0, 0))
    {
      var s := View();
      assert targets[..0] == [];
      DeliveredToNobody(env, clients, source, index, msg);
      DoneBySnoc(env, source, s, [], s, BeginStep(source, alloc));
      acts := [] + [BeginStep(source, alloc)];
      var (r, w) := InLoop(reader, writer, source, Delivery(targets, 0, 0));
      reader, writer := r, w;
    }

    // The step from the loop back to the caller.
    ghost method EndDelivery(env: World, source: Source, index: nat, msg: Msg, targets: seq<nat>, sent_count: nat,
                             s: State,
                             acts: seq<Action>)
      returns (acts': seq<Action>)
      requires SoFar(env, source, index, msg, targets, |targets|, sent_count, s, acts)
      modifies this`reader, this`writer
      ensures Sane(View()) && DoneBy(env, source, s, acts', View())
      ensures DeliveredTo(env, s.clients, clients, targets, source, index, msg, sent_count)
        && SameInput(s.clients, clients)
      ensures OutGrown(s.clients, clients, sent_count)
      ensures (reader, writer) == Returned(old(reader), old(writer), source, sent_count)
    {
      assert targets[..|targets|] == targets;
      DeliveredGrows(env, s.clients, clients, targets, source, index, msg, sent_count);
      EndStepIs(View(), source, index, msg, Delivery(targets, |targets|, sent_count));
      DoneBySnoc(env, source, s, acts, View(), EndStep(source));
      acts' := acts + [EndStep(source)];
      var (r, w) := Returned(reader, writer, source, sent_count);
      reader, writer := r, w;
    }

    // A round of the loop as a step.
    method OfferNext(env: World, source: Source, index: nat, msg: Msg, to_all: bool, c: nat, ghost d: Delivery)
      returns (n: nat, ghost a: Action)
      requires Delivering(source, index, msg, d) && to_all == IsMsgToAll(msg)
      requires d.pos < |d.targets| && c == d.targets[d.pos]
      modifies this`clients, this`reader, this`writer
      ensures Delivering(source, index, msg, Delivered(d, n))
      ensures old(Enabled(View(), a)) && View() == old(Apply(View(), a))
      ensures old(Agrees(env, View(), a)) && StepOf(source, a)
      ensures (clients, n)
        == Offer(old(clients), c, source, index, msg, Stores(env, source, index, c, msg.content))
      ensures SameInput(old(clients), clients)
      ensures (reader, writer) == InLoop(old(reader), old(writer), source, Delivered(d, n))
    {
      ghost var t, accepted := View(), Stores(env, source, index, c, msg.content);
      n := OfferTo(env, c, source, index, msg, to_all);
      OfferStepIs(t, source, index, msg, d, accepted);
      a := OfferStep(source, accepted);
      ghost var (r, w) := InLoop(reader, writer, source, Delivered(d, n));
      reader, writer := r, w;
    }

    // The same round, with what it adds to the delivery as a whole.
    method OfferAt(env: World, source: Source, index: nat, msg: Msg, to_all: bool, targets: seq<nat>, i: nat,
                   sent_count: nat,
                   ghost s: State, ghost acts: seq<Action>)
      returns (sent_count': nat, ghost acts': seq<Action>)
      requires SoFar(env, source, index, msg, targets, i, sent_count, s, acts) && to_all == IsMsgToAll(msg)
      requires i < |targets| && Distinct(targets) && Sending(s, source, index, msg)
      requires (reader, writer) == InLoop(s.reader, s.writer, source, Delivery(targets, i, sent_count))
      modifies this`clients, this`reader, this`writer
      ensures SoFar(env, source, index, msg, targets, i + 1, sent_count', s, acts')
      ensures (reader, writer) == InLoop(s.reader, s.writer, source, Delivery(targets, i + 1, sent_count'))
    {
      ghost var t, cs := View(), clients;
      var n;
      ghost var a;
      n, a := OfferNext(env, source, index, msg, to_all, targets[i], Delivery(targets, i, sent_count));
      TakeNext(targets, i);
      DeliveredToNext(env, s.clients, cs, targets[..i], source, index, msg, sent_count, targets[i]);
      DoneBySnoc(env, source, s, acts, t, a);
      sent_count', acts' := sent_count + n, acts + [a];
    }

    // The whole of deliver_msg_to_all_clients, for either thread.
    method DeliverMsgToAllClients(env: World, source: Source, index: nat, msg: Msg)
      returns (sent_count: nat, ghost list: seq<nat>, ghost acts: seq<Action>)
      requires Sane(View()) && client_count == |registry| && Distinct(registry)
      requires Sending(View(), source, index, msg)
      modifies this`clients, this`reader, this`writer
      ensures Sane(View()) && DoneBy(env, source, old(View()), acts, View())
      ensures list == if env.copies(source, index) then old(registry) else []
      ensures DeliveredTo(env, old(clients), clients, list, source, index, msg, sent_count)
      ensures OutGrown(old(clients), clients, sent_count)
      ensures SameInput(old(clients), clients)
      ensures (reader, writer) == Returned(old(reader), old(writer), source, sent_count)
    {
      ghost var s := View();
      var copy := GetClientList(env.copies(source, index));
      var targets := if copy.Some? then copy.value else [];
      list := targets;
      acts := BeginDelivery(env, source, index, msg, targets, copy.Some?);
      sent_count, acts := DeliveryLoop(env, source, index, msg, targets, s, acts);
      LoopAndBack(s.reader, s.writer, source, Delivery(targets, |targets|, sent_count), sent_count);
      acts := EndDelivery(env, source, index, msg, targets, sent_count, s, acts);
    }

    method DeliveryLoop(env: World, source: Source, index: nat, msg: Msg, targets: seq<nat>, ghost s: State,
                        ghost acts: seq<Action>)
      returns (sent_count: nat, ghost acts': seq<Action>)
      requires SoFar(env, source, index, msg, targets, 0, 0, s, acts) && Distinct(targets)
        && Sending(s, source, index, msg)
      requires (reader, writer) == InLoop(s.reader, s.writer, source, Delivery(targets, 0, 0))
      modifies this`clients, this`reader, this`writer
      ensures SoFar(env, source, index, msg, targets, |targets|, sent_count, s, acts')
      ensures (reader, writer) == InLoop(s.reader, s.writer, source, Delivery(targets, |targets|, sent_count))
    {
      sent_count, acts' := 0, acts;
      var to_all := IsMsgToAll(msg);
      for i := 0 to |targets|
        invariant SoFar(env, source, index, msg, targets, i, sent_count, s, acts')
        invariant (reader, writer) == InLoop(s.reader, s.writer, source, Delivery(targets, i, sent_count))
      {
        sent_count, acts' := OfferAt(env, source, index, msg, to_all, targets, i, sent_count, s, acts');
      }
    }

    // ----- try_to_handle_msg

    // Fetch a message and see what it asks for.
    method FetchAndDispatch(c: nat) returns (got: bool, redirect_msg: Option<Msg>)
      requires c < |clients| && ScanIsSound(clients[c].inbox)
      modifies this`clients
      ensures clients == old(clients)[c := Parsed(old(clients)[c]).0]
      ensures got == HasNewline(old(clients)[c].inbox.inbuf) && redirect_msg == Parsed(old(clients)[c]).1
    {
      var info := clients[c];
      FetchTakesTheFirst(info.inbox);
      var (m, box) := Fetch(info.inbox);
      got, redirect_msg := m.Some?, None;
      match m
      case None =>
        clients := clients[c := info.(inbox := box)];
      case Some(msg) =>
        var name;
        name, redirect_msg := Dispatch(info.name, msg);
        clients := clients[c := info.(inbox := box, handled := info.handled + [msg], name := name)];
    }

    // The step in which a message is taken and what it asks for is logged.
    method ParseNext(env: World, c: nat, ghost round: Round, ghost need: nat)
      returns (got: bool, redirect_msg: Option<Msg>, ghost a: Action)
      requires Sane(View()) && reader == RParse(round, need) && c == At(round)
      modifies this`clients, this`reader, this`readerLog
      ensures old(Enabled(View(), a)) && View() == old(Apply(View(), a)) && Sane(View())
      ensures old(Agrees(env, View(), a)) && StepOf(ByReader, a)
      ensures redirect_msg
        == if env.builds(c, |old(clients)[c].handled|) then Parsed(old(clients)[c]).1 else None
      ensures got == HasNewline(old(clients)[c].inbox.inbuf)
      ensures clients == old(clients)[c := Parsed(old(clients)[c]).0]
      ensures reader ==
        if !got then RNotify(round, need)
        else if redirect_msg == None then RParse(round, need)
        else RSend(round, need)
      ensures redirect_msg.Some? ==> got && readerLog != [] && redirect_msg.value == ReaderMsg(View())
    {
      ghost var s := View();
      var handled := |clients[c].handled|;
      got, redirect_msg := FetchAndDispatch(c);
      var alloc := env.builds(c, handled);
      if !alloc {
        redirect_msg := None;
      }
      a := Reads(ParseOne(alloc));
      if !got {
        reader := RNotify(round, need);
      } else if redirect_msg.Some? {
        readerLog := readerLog + [Record(c, handled, redirect_msg.value)];
        reader := RSend(round, need);
      }
      ParseStepIs(s, alloc);
    }

    /** Messages of client c have been handled since `s`, one after another, and what has
        not been handled yet is still in the buffer; `need` counts the frames given. */
    ghost predicate Draining(env: World, c: nat, s: State, acts: seq<Action>, need: nat)
      reads this
    {
      && Sane(View()) && DoneBy(env, ByReader, s, acts, View()) && |clients| == |s.clients| && c < |clients|
      && clients[c].handled + Messages(clients[c].inbox.inbuf)
         == s.clients[c].handled + Messages(s.clients[c].inbox.inbuf)
      && Residue(clients[c].inbox.inbuf) == Residue(s.clients[c].inbox.inbuf)
      && OutGrown(s.clients, clients, need)
    }

    // A delivery on behalf of the reader.
    method Redirect(env: World, c: nat, msg: Msg, ghost round: Round, need: nat, ghost s: State,
                    ghost acts: seq<Action>)
      returns (need': nat, ghost acts': seq<Action>)
      requires Draining(env, c, s, acts, need) && reader == RSend(round, need) && msg == ReaderMsg(View())
      requires client_count == |registry| && Distinct(registry)
      modifies this`clients, this`reader, this`writer
      ensures Draining(env, c, s, acts', need') && clients[c].inbox == old(clients)[c].inbox
      ensures reader == RParse(round, need') && writer == old(writer)
    {
      ghost var u, list, more := View(), [], [];
      var sent;
      sent, list, more := DeliverMsgToAllClients(env, ByReader, |readerLog| - 1, msg);
      DoneByAppend(env, ByReader, s, acts, u, more, View());
      GrownTwice(s.clients, u.clients, clients, need, sent);
      need', acts' := need + sent, acts + more;
    }

    // The loop of try_to_handle_msg, once round: a message, and its delivery.
    method HandleNext(env: World, c: nat, ghost round: Round, need: nat, ghost s: State, ghost acts: seq<Action>)
      returns (got: bool, need': nat, ghost acts': seq<Action>)
      requires Draining(env, c, s, acts, need) && reader == RParse(round, need) && round.i < |round.snap|
        && c == At(round)
      requires client_count == |registry| && Distinct(registry)
      modifies this`clients, this`reader, this`writer, this`readerLog
      ensures Draining(env, c, s, acts', need') && writer == old(writer)
      ensures got == HasNewline(old(clients)[c].inbox.inbuf)
      ensures if got then reader == RParse(round, need') else reader == RNotify(round, need') && need' == need
      ensures got ==> |clients[c].inbox.inbuf| < |old(clients)[c].inbox.inbuf|
      ensures !got ==> !HasNewline(clients[c].inbox.inbuf)
    {
      ghost var t, a := View(), Reads(Notify);
      var redirect_msg;
      ParsedStream(clients[c]);
      ParsedRest(clients[c]);
      got, redirect_msg, a := ParseNext(env, c, round, need);
      GrownTwice(s.clients, t.clients, clients, need, 0);
      DoneBySnoc(env, ByReader, s, acts, t, a);
      acts', need' := acts + [a], need;
      if redirect_msg.Some? {
        need', acts' := Redirect(env, c, redirect_msg.value, round, need, s, acts');
      }
    }

    // The whole of try_to_handle_msg.
    method TryToHandleMsg(env: World, c: nat, ghost round: Round) returns (ghost acts: seq<Action>)
      requires Sane(View()) && reader == RParse(round, 0) && round.i < |round.snap| && c == At(round)
      requires client_count == |registry| && Distinct(registry)
      modifies this`clients, this`reader, this`writer, this`readerLog, this`sign_to_flush_msg
      ensures Sane(View()) && DoneBy(env, ByReader, old(View()), acts, View())
      ensures c < |clients| == |old(clients)|
      ensures clients[c].handled == old(clients)[c].handled + Messages(old(clients)[c].inbox.inbuf)
      ensures clients[c].inbox.inbuf == Residue(old(clients)[c].inbox.inbuf)
      ensures readerLog == LogInAll(env, c, old(clients)[c], old(readerLog))
      ensures reader == RPoll(Next(round)) && writer == old(writer)
      ensures sign_to_flush_msg == old(sign_to_flush_msg)
        + if SomebodyGot(old(clients), clients) then 1 else 0
    {
      ghost var s := View();
      var need_to_flush_msg;
      need_to_flush_msg, acts := HandleLoop(env, c, round);
      NoNewlineNoMessages(clients[c].inbox.inbuf);
      Nothing(clients[c].handled);
      ghost var given := clients;
      acts := NotifyWriter(env, round, need_to_flush_msg, s, acts);
      GrownTwice(s.clients, given, clients, need_to_flush_msg, 0);
      HandlingLogs(env, s, acts, View(), round);
    }

    method HandleLoop(env: World, c: nat, ghost round: Round) returns (need: nat, ghost acts: seq<Action>)
      requires Sane(View()) && reader == RParse(round, 0) && round.i < |round.snap| && c == At(round)
      requires client_count == |registry| && Distinct(registry)
      modifies this`clients, this`reader, this`writer, this`readerLog
      ensures Draining(env, c, old(View()), acts, need) && !HasNewline(clients[c].inbox.inbuf)
      ensures reader == RNotify(round, need) && writer == old(writer)
    {
      ghost var s := View();
      acts := [];
      var got := true;
      need := 0;
      while got
        invariant Draining(env, c, s, acts, need) && writer == old(writer)
        invariant reader == if got then RParse(round, need) else RNotify(round, need)
        invariant !got ==> !HasNewline(clients[c].inbox.inbuf)
        decreases got, |clients[c].inbox.inbuf|
      {
        got, need, acts := HandleNext(env, c, round, need, s, acts);
      }
    }

    // The end of try_to_handle_msg: if anything was delivered, the sign goes up.
    method NotifyWriter(env: World, ghost round: Round, need: nat, ghost s: State, ghost acts: seq<Action>)
      returns (ghost acts': seq<Action>)
      requires Sane(View()) && reader == RNotify(round, need) && DoneBy(env, ByReader, s, acts, View())
      modifies this`clients, this`reader, this`sign_to_flush_msg
      ensures Sane(View()) && DoneBy(env, ByReader, s, acts', View()) && reader == RPoll(Next(round))
      ensures sign_to_flush_msg == old(sign_to_flush_msg) + if need > 0 then 1 else 0
      ensures SameInput(old(clients), clients) && OutGrown(old(clients), clients, 0)
    {
      NotifyIs(View(), round, need);
      DoneBySnoc(env, ByReader, s, acts, View(), Reads(Notify));
      ghost var next := Apply(View(), Reads(Notify));
      acts' := acts + [Reads(Notify)];
      reader := RPoll(Next(round));
      if need > 0 {
        sign_to_flush_msg := sign_to_flush_msg + 1;
        clients := AnnounceAll(clients);
      }
      assert View() == next;
    }

    // ----- user_logout

    // The search of the list for the client's socket.
    method RemoveFromList(c: nat)
      requires Known(|clients|, registry) && c < |clients|
      modifies this`registry, this`client_count
      ensures registry == Remove(clients, old(registry), clients[c].socket)
      ensures client_count == old(client_count) - (|old(registry)| - |registry|)
    {
      var ptr := 0;
      while ptr < |registry| && clients[registry[ptr]].socket != clients[c].socket
        invariant ptr <= |registry|
        invariant forall j :: 0 <= j < ptr ==> clients[registry[j]].socket != clients[c].socket
      {
        ptr := ptr + 1;
      }
      if ptr < |registry| {
        RemoveAt(clients, registry, ptr);
        registry := registry[..ptr] + registry[ptr + 1..];
        client_count := client_count - 1;
      } else {
        RemoveNobody(clients, registry, clients[c].socket);
      }
    }

    // Off the list, as a step.
    method LeaveList(env: World, snap: seq<nat>, i: nat) returns (ghost acts: seq<Action>)
      requires RegistryOk(View()) && writer == WLogout(snap, i) && i < |snap| && clients[snap[i]].failed
      modifies this`registry, this`client_count, this`writer
      ensures Sane(View()) && DoneBy(env, ByWriter, old(View()), acts, View()) && writer == WRemoved(snap, i)
      ensures client_count == |registry| && Distinct(registry)
      ensures forall id :: id in registry <==> id in old(registry) && id != snap[i]
    {
      ghost var s := View();
      LogoutRemovesItsOwn(s, snap[i]);
      RemoveFromList(snap[i]);
      writer := WRemoved(snap, i);
      DoneBySnoc(env, ByWriter, s, [], s, Writes(LogoutRemove));
      acts := [] + [Writes(LogoutRemove)];
    }

    // The notice, if there is memory for it.
    method MakeNotice(env: World, snap: seq<nat>, i: nat, ghost s: State, ghost acts: seq<Action>)
      returns (msg: Option<Msg>, ghost acts': seq<Action>)
      requires Sane(View()) && writer == WRemoved(snap, i) && i < |snap| && snap[i] < |clients|
        && DoneBy(env, ByWriter, s, acts, View())
      modifies this`writerLog, this`writer
      ensures Sane(View()) && DoneBy(env, ByWriter, s, acts', View())
      ensures msg.Some? <==> env.notices(snap[i])
      ensures msg == None ==> writer == WClose(snap, i, 0) && writerLog == old(writerLog)
      ensures msg.Some? ==> msg.value == LogoutNotice(clients[snap[i]].name) && writer == WSend(snap, i)
      ensures msg.Some? ==> writerLog == old(writerLog) + [Notice(snap[i], msg.value)]
    {
      var memory := env.notices(snap[i]);
      DoneBySnoc(env, ByWriter, s, acts, View(), Writes(LogoutAnnounce(memory)));
      acts' := acts + [Writes(LogoutAnnounce(memory))];
      if memory {
        msg := Some(LogoutNotice(clients[snap[i]].name));
        writerLog := writerLog + [Notice(snap[i], msg.value)];
        writer := WSend(snap, i);
      } else {
        msg := None;
        writer := WClose(snap, i, 0);
      }
    }

    // The notice and its delivery: without memory for the notice nobody is told; otherwise
    // exactly those on the list that it is for, if there is memory for the list.
    method TellOthers(env: World, snap: seq<nat>, i: nat, ghost s: State, ghost acts: seq<Action>)
      returns (sent_count: nat, ghost list: seq<nat>, ghost acts': seq<Action>)
      requires Sane(View()) && writer == WRemoved(snap, i) && i < |snap| && snap[i] < |clients|
        && DoneBy(env, ByWriter, s, acts, View())
      requires client_count == |registry| && Distinct(registry)
      modifies this`writerLog, this`clients, this`reader, this`writer
      ensures Sane(View()) && DoneBy(env, ByWriter, s, acts', View()) && writer == WClose(snap, i, sent_count)
        && reader == old(reader)
      ensures |clients| == |old(clients)| && clients[snap[i]].socket == old(clients)[snap[i]].socket
      ensures list == if env.notices(snap[i]) && env.copies(ByWriter, |old(writerLog)|) then old(registry) else []
      ensures var notice := LogoutNotice(old(clients)[snap[i]].name);
        if !env.notices(snap[i]) then writerLog == old(writerLog) && clients == old(clients) && sent_count == 0
        else
          && writerLog == old(writerLog) + [Notice(snap[i], notice)]
          && DeliveredTo(env, old(clients), clients, list, ByWriter, |old(writerLog)|, notice, sent_count)
    {
      var msg;
      sent_count, list := 0, [];
      msg, acts' := MakeNotice(env, snap, i, s, acts);
      if msg.Some? {
        ghost var u, more := View(), [];
        sent_count, list, more := DeliverMsgToAllClients(env, ByWriter, |writerLog| - 1, msg.value);
        DoneByAppend(env, ByWriter, s, acts', u, more, View());
        acts' := acts' + more;
      }
    }

    // close, which comes after the list and the deliveries
    method CloseSocket(env: World, snap: seq<nat>, i: nat, sent_count: nat, ghost s: State, ghost acts: seq<Action>)
      returns (ghost acts': seq<Action>)
      requires Sane(View()) && writer == WClose(snap, i, sent_count) && i < |snap| && snap[i] < |clients|
        && DoneBy(env, ByWriter, s, acts, View())
      modifies this`open, this`closed, this`writer
      ensures Sane(View()) && DoneBy(env, ByWriter, s, acts', View()) && writer == WNotify(snap, i, sent_count)
      ensures closed == old(closed) + {snap[i]} && open == old(open) - {clients[snap[i]].socket}
    {
      DoneBySnoc(env, ByWriter, s, acts, View(), Writes(Close));
      acts' := acts + [Writes(Close)];
      open, closed := open - {clients[snap[i]].socket}, closed + {snap[i]};
      writer := WNotify(snap, i, sent_count);
    }

    // If anybody was told, the sign goes up; there is no signal to the condition here.
    method RaiseSign(env: World, snap: seq<nat>, i: nat, sent_count: nat, ghost s: State, ghost acts: seq<Action>)
      returns (ghost acts': seq<Action>)
      requires Sane(View()) && writer == WNotify(snap, i, sent_count) && DoneBy(env, ByWriter, s, acts, View())
      modifies this`clients, this`sign_to_flush_msg, this`writer
      ensures DoneBy(env, ByWriter, s, acts', View()) && writer == WLogout(snap, i + 1) && |clients| == |old(clients)|
      ensures sign_to_flush_msg == old(sign_to_flush_msg) + if sent_count > 0 then 1 else 0
    {
      RaiseSignIs(View(), snap, i, sent_count);
      DoneBySnoc(env, ByWriter, s, acts, View(), Writes(LogoutNotify));
      acts' := acts + [Writes(LogoutNotify)];
      writer := WLogout(snap, i + 1);
      if sent_count > 0 {
        sign_to_flush_msg := sign_to_flush_msg + 1;
        clients := AnnounceAll(clients);
      }
    }

    // What is left to do once the client is off the list.
    method FinishLogout(env: World, snap: seq<nat>, i: nat, ghost s: State, ghost acts: seq<Action>)
      returns (ghost acts': seq<Action>)
      requires Sane(View()) && writer == WRemoved(snap, i) && i < |snap| && snap[i] < |clients|
        && DoneBy(env, ByWriter, s, acts, View())
      requires client_count == |registry| && Distinct(registry)
      modifies this`writerLog, this`open, this`closed, this`clients, this`sign_to_flush_msg, this`reader, this`writer
      ensures DoneBy(env, ByWriter, s, acts', View()) && writer == WLogout(snap, i + 1) && reader == old(reader)
        && |clients| == |old(clients)|
      ensures closed == old(closed) + {snap[i]} && open == old(open) - {old(clients)[snap[i]].socket}
    {
      var sent_count;
      ghost var list;
      sent_count, list, acts' := TellOthers(env, snap, i, s, acts);
      acts' := CloseSocket(env, snap, i, sent_count, s, acts');
      acts' := RaiseSign(env, snap, i, sent_count, s, acts');
    }

    // The whole of user_logout: exactly this client leaves the list, and its socket is closed.
    method UserLogout(env: World, snap: seq<nat>, i: nat) returns (ghost acts: seq<Action>)
      requires RegistryOk(View()) && writer == WLogout(snap, i) && i < |snap| && clients[snap[i]].failed
      modifies this`registry, this`client_count, this`writerLog, this`open, this`closed, this`clients,
               this`sign_to_flush_msg, this`reader, this`writer
      ensures RegistryOk(View()) && DoneBy(env, ByWriter, old(View()), acts, View())
      ensures writer == WLogout(snap, i + 1) && reader == old(reader) && |clients| == |old(clients)|
      ensures forall id :: id in registry <==> id in old(registry) && id != snap[i]
      ensures closed == old(closed) + {snap[i]} && open == old(open) - {old(clients)[snap[i]].socket}
    {
      ghost var s := View();
      acts := LeaveList(env, snap, i);
      acts := FinishLogout(env, snap, i, s, acts);
      ReachesRegistry(env, s, acts, View());
    }

    // ----- write_sockets

    // One round of the flushing loop: a client that has failed is passed over.
    method FlushOne(env: World, snap: seq<nat>, i: nat, ghost s: State, ghost acts: seq<Action>)
      returns (ghost acts': seq<Action>)
      requires Sane(View()) && writer == WFlush(snap, i) && i < |snap| && DoneBy(env, ByWriter, s, acts, View())
      modifies this`clients, this`writer
      ensures Sane(View()) && DoneBy(env, ByWriter, s, acts', View()) && writer == WFlush(snap, i + 1)
      ensures snap[i] < |old(clients)|
      ensures clients == old(clients)[snap[i] := FlushOf(env, old(clients)[snap[i]], snap[i])]
    {
      var c := snap[i];
      var written := Drains(env, c, clients[c].pending);
      FlushIs(View(), snap, i, written);
      DoneBySnoc(env, ByWriter, s, acts, View(), Writes(Flush(written)));
      acts' := acts + [Writes(Flush(written))];
      if !clients[c].failed {
        clients := clients[c := Flushed(clients[c], written)];
      }
      writer := WFlush(snap, i + 1);
    }

    // The flushing loop: each client of the snapshot in turn, unless it has failed.
    method FlushLoop(env: World, snap: seq<nat>, ghost s: State, ghost acts: seq<Action>)
      returns (ghost acts': seq<Action>)
      requires Sane(View()) && writer == WFlush(snap, 0) && DoneBy(env, ByWriter, s, acts, View()) && Distinct(snap)
      modifies this`clients, this`writer
      ensures Sane(View()) && DoneBy(env, ByWriter, s, acts', View()) && writer == WLogout(snap, 0)
      ensures EachFlushed(env, old(clients), clients, snap)
    {
      ghost var cs := clients;
      acts' := acts;
      for i := 0 to |snap|
        invariant Sane(View()) && writer == WFlush(snap, i) && DoneBy(env, ByWriter, s, acts', View())
        invariant EachFlushed(env, cs, clients, snap[..i])
      {
        ghost var before := clients;
        acts' := FlushOne(env, snap, i, s, acts');
        FlushedNext(env, cs, before, snap, i);
      }
      assert snap[..|snap|] == snap;
      DoneBySnoc(env, ByWriter, s, acts', View(), Writes(FlushesEnd));
      acts' := acts' + [Writes(FlushesEnd)];
      writer := WLogout(snap, 0);
    }

    // One round of the loop that logs out the clients that have failed.
    method LogoutOne(env: World, snap: seq<nat>, i: nat, ghost s: State, ghost acts: seq<Action>)
      returns (ghost acts': seq<Action>)
      requires RegistryOk(View()) && writer == WLogout(snap, i) && i < |snap| && DoneBy(env, ByWriter, s, acts, View())
      modifies this`registry, this`client_count, this`writerLog, this`open, this`closed, this`clients,
               this`sign_to_flush_msg, this`reader, this`writer
      ensures RegistryOk(View()) && DoneBy(env, ByWriter, s, acts', View()) && writer == WLogout(snap, i + 1)
        && reader == old(reader)
    {
      if clients[snap[i]].failed {
        ghost var u, more := View(), [];
        more := UserLogout(env, snap, i);
        DoneByAppend(env, ByWriter, s, acts, u, more, View());
        acts' := acts + more;
      } else {
        RegistryPreserved(View(), Writes(LogoutSkip));
        DoneBySnoc(env, ByWriter, s, acts, View(), Writes(LogoutSkip));
        acts' := acts + [Writes(LogoutSkip)];
        writer := WLogout(snap, i + 1);
      }
    }

    method LogoutLoop(env: World, snap: seq<nat>, ghost s: State, ghost acts: seq<Action>)
      returns (ghost acts': seq<Action>)
      requires RegistryOk(View()) && writer == WLogout(snap, 0) && DoneBy(env, ByWriter, s, acts, View())
      modifies this`registry, this`client_count, this`writerLog, this`open, this`closed, this`clients,
               this`sign_to_flush_msg, this`reader, this`writer
      ensures RegistryOk(View()) && DoneBy(env, ByWriter, s, acts', View()) && writer == WCheck && reader == old(reader)
    {
      acts' := acts;
      for i := 0 to |snap|
        invariant RegistryOk(View()) && writer == WLogout(snap, i) && DoneBy(env, ByWriter, s, acts', View())
          && reader == old(reader)
      {
        acts' := LogoutOne(env, snap, i, s, acts');
      }
      acts' := LogoutsDone(env, snap, s, acts');
    }

    ghost method LogoutsDone(env: World, snap: seq<nat>, s: State, acts: seq<Action>) returns (acts': seq<Action>)
      requires RegistryOk(View()) && writer == WLogout(snap, |snap|) && DoneBy(env, ByWriter, s, acts, View())
      modifies this`writer
      ensures RegistryOk(View()) && DoneBy(env, ByWriter, s, acts', View()) && writer == WCheck
    {
      RegistryPreserved(View(), Writes(LogoutsEnd));
      DoneBySnoc(env, ByWriter, s, acts, View(), Writes(LogoutsEnd));
      acts' := acts + [Writes(LogoutsEnd)];
      writer := WCheck;
    }

    // Once through the loop of write_sockets, up to where it waits or starts again; without
    // memory for the list the thread ends.
    method WritePass(env: World) returns (running: bool, ghost acts: seq<Action>)
      requires RegistryOk(View()) && writer == WTop
      modifies this`registry, this`client_count, this`writerLog, this`open, this`closed, this`clients,
               this`sign_to_flush_msg, this`reader, this`writer
      ensures RegistryOk(View()) && Follows(env, old(View()), acts, View()) && reader == old(reader)
      ensures running == env.listing && if running then IsPass(ByWriter, acts) else acts == []
      ensures running ==> writer == if sign_to_flush_msg == 0 then WWait else WTop
    {
      ghost var s := View();
      var copy := GetClientList(env.listing);
      if copy == None {
        return false, [];
      }
      var snap := copy.value;
      RegistryPreserved(s, Writes(WriterSnapshot));
      writer := WFlush(snap, 0);
      ghost var s1 := View();
      acts := FlushLoop(env, snap, s1, []);
      ReachesRegistry(env, s1, acts, View());
      acts := LogoutLoop(env, snap, s1, acts);
      acts := CheckSign(env, s, s1, acts);
      running := true;
    }

    // Under the lock: wait if the sign is down.
    method CheckSign(env: World, ghost s: State, ghost s1: State, ghost acts: seq<Action>)
      returns (ghost acts': seq<Action>)
      requires Sane(s) && Enabled(s, First(ByWriter)) && Agrees(env, s, First(ByWriter))
      requires s1 == Apply(s, First(ByWriter))
      requires RegistryOk(View()) && writer == WCheck && DoneBy(env, ByWriter, s1, acts, View())
      modifies this`writer
      ensures RegistryOk(View()) && Follows(env, s, acts', View()) && IsPass(ByWriter, acts')
      ensures writer == if sign_to_flush_msg == 0 then WWait else WTop
    {
      RegistryPreserved(View(), Writes(WriterCheck));
      PassJoins(env, ByWriter, s, acts, View());
      acts' := [First(ByWriter)] + acts + [Last(ByWriter)];
      if sign_to_flush_msg == 0 {
        writer := WWait;
      } else {
        writer := WTop;
      }
    }

    // After the wait, however it ended: only now is the sign cleared.
    method AfterWait()
      requires Sane(View()) && writer == WWait
      modifies this`sign_to_flush_msg, this`writer
      ensures old(Enabled(View(), Writes(Wake))) && View() == old(Apply(View(), Writes(Wake)))
      ensures sign_to_flush_msg == 0 && writer == WTop
    {
      sign_to_flush_msg := 0;
      writer := WTop;
    }

    // ----- read_sockets

    // What fetch_from_client comes to: an error, nothing, or bytes.
    method FetchFromClient(report: Report) returns (fetch_count: int, data: Bytes)
      requires report.Unreadable? || report.Readable?
      ensures report.Unreadable? ==> fetch_count == -1
      ensures report.Readable? ==> data == report.data && fetch_count == |data|
    {
      if report.Unreadable? {
        fetch_count, data := -1, [];
      } else {
        data := report.data;
        fetch_count := |data|;
      }
    }

    // A client on which poll has reported something to read: nothing read means the mark;
    // after data or an error, the complete messages that are there are handled.
    method ReadOne(env: World, c: nat, ghost round: Round, ghost s: State, ghost acts: seq<Action>)
      returns (ghost acts': seq<Action>)
      requires Sane(View()) && reader == RPoll(round) && AtPolled(View()) && c == At(round)
        && DoneBy(env, ByReader, s, acts, View())
      requires env.poll > 0 && (env.report(c).Unreadable? || env.report(c).Readable?)
      requires client_count == |registry| && Distinct(registry)
      modifies this`clients, this`reader, this`writer, this`readerLog, this`sign_to_flush_msg
      ensures Sane(View()) && DoneBy(env, ByReader, s, acts', View()) && reader == RPoll(Next(round))
        && writer == old(writer)
      ensures |clients| == |old(clients)|
      ensures env.report(c) == Readable([]) ==> clients == old(clients)[c := old(clients)[c].(failed := true)]
      ensures env.report(c) != Readable([]) ==>
        var x := Arrived(env.report(c), old(clients)[c]);
        && clients[c].handled == x.handled + Messages(x.inbox.inbuf)
        && clients[c].inbox.inbuf == Residue(x.inbox.inbuf)
    {
      var fetch_count, bytes := FetchFromClient(env.report(c));
      if fetch_count == 0 {
        acts' := HandleSocketException(env, c, round, s, acts);
        return;
      }
      acts' := StoreData(env, c, round, fetch_count, bytes, s, acts);
      ghost var u, more := View(), [];
      more := TryToHandleMsg(env, c, round);
      DoneByAppend(env, ByReader, s, acts', u, more, View());
      acts' := acts' + more;
    }

    method StoreData(env: World, c: nat, ghost round: Round, fetch_count: int, data: Bytes, ghost s: State,
                     ghost acts: seq<Action>)
      returns (ghost acts': seq<Action>)
      requires Sane(View()) && reader == RPoll(round) && AtPolled(View()) && c == At(round)
        && DoneBy(env, ByReader, s, acts, View())
      requires env.poll > 0 && fetch_count != 0
      requires env.report(c) == if fetch_count < 0 then Unreadable else Readable(data)
      requires fetch_count == if fetch_count < 0 then -1 else |data|
      modifies this`clients, this`reader
      ensures Sane(View()) && DoneBy(env, ByReader, s, acts', View()) && reader == RParse(round, 0)
      ensures clients == if fetch_count > 0 then old(clients)[c := Fed(old(clients)[c], data)] else old(clients)
    {
      ghost var a := if fetch_count < 0 then Reads(ReaderFetchFails) else Reads(ReaderFetch(data));
      DoneBySnoc(env, ByReader, s, acts, View(), a);
      acts' := acts + [a];
      if fetch_count > 0 {
        clients := clients[c := Fed(clients[c], data)];
      }
      reader := RParse(round, 0);
    }

    // handle_socket_exception: the mark that makes the writer log the client out
    method HandleSocketException(env: World, c: nat, ghost round: Round, ghost s: State, ghost acts: seq<Action>)
      returns (ghost acts': seq<Action>)
      requires Sane(View()) && reader == RPoll(round) && AtPolled(View()) && c == At(round)
        && DoneBy(env, ByReader, s, acts, View())
      requires env.poll > 0 && (env.report(c) == Hangup || env.report(c) == Readable([]))
      modifies this`clients, this`reader
      ensures Sane(View()) && DoneBy(env, ByReader, s, acts', View()) && reader == RPoll(Next(round))
      ensures clients == old(clients)[c := old(clients)[c].(failed := true)]
    {
      DoneBySnoc(env, ByReader, s, acts, View(), Reads(MarkFail));
      acts' := acts + [Reads(MarkFail)];
      clients := clients[c := clients[c].(failed := true)];
      reader := RPoll(Next(round));
    }

    // One round of the loop over what was polled, by what poll has reported of the client.
    method ReadAt(env: World, c: nat, ghost round: Round, fd: int, ghost s: State, ghost acts: seq<Action>)
      returns (ghost acts': seq<Action>)
      requires Sane(View()) && reader == RPoll(round) && round.i < |round.snap| && c == At(round) && env.poll > 0
        && DoneBy(env, ByReader, s, acts, View())
      requires clients[c].socket >= 0 && fd == if round.polled[round.i] then clients[c].socket else -1
      requires client_count == |registry| && Distinct(registry)
      modifies this`clients, this`reader, this`writer, this`readerLog, this`sign_to_flush_msg
      ensures Sane(View()) && DoneBy(env, ByReader, s, acts', View()) && reader == RPoll(Next(round))
        && writer == old(writer)
    {
      var report := env.report(c);
      if fd == -1 || fd != clients[c].socket || report == Quiet {
        DoneBySnoc(env, ByReader, s, acts, View(), Reads(ReaderSkip));
        acts' := acts + [Reads(ReaderSkip)];
        reader := RPoll(Next(round));
      } else if report != Hangup {
        acts' := ReadOne(env, c, round, s, acts);
      } else {
        acts' := HandleSocketException(env, c, round, s, acts);
      }
    }

    // Once through the loop of read_sockets: every client that was polled is dealt with as poll
    // reported of it; afterwards no complete message is left in any reading buffer. Without
    // memory for the list the thread ends.
    method ReadPass(env: World) returns (running: bool, ghost acts: seq<Action>)
      requires RegistryOk(View()) && reader == RIdle
      modifies this`clients, this`reader, this`writer, this`readerLog, this`sign_to_flush_msg
      ensures Sane(View()) && Follows(env, old(View()), acts, View()) && reader == RIdle && writer == old(writer)
      ensures running == env.polling && if running then IsPass(ByReader, acts) else acts == []
      ensures running ==> AllReadAs(env, old(View()), View())
      ensures old(InputsOk(View())) ==> forall c :: 0 <= c < |clients| ==> !HasNewline(clients[c].inbox.inbuf)
    {
      ghost var s := View();
      var data := GetPollingAndClientList(env.polling);
      acts := [];
      if data.Some? {
        acts := ReadRound(env, data.value.0, data.value.1);
      }
      running := data.Some?;
      if InputsOk(s) {
        ReachesInputs(env, s, acts, View());
      }
    }

    method ReadRound(env: World, infos: seq<nat>, fds: seq<int>) returns (ghost acts: seq<Action>)
      requires RegistryOk(View()) && reader == RIdle && infos == registry && |fds| == |infos| && env.polling
      requires forall i :: 0 <= i < |fds| ==>
        fds[i] == if clients[infos[i]].failed then -1 else clients[infos[i]].socket
      modifies this`clients, this`reader, this`writer, this`readerLog, this`sign_to_flush_msg
      ensures Sane(View()) && Follows(env, old(View()), acts, View()) && reader == RIdle && writer == old(writer)
      ensures IsPass(ByReader, acts) && AllReadAs(env, old(View()), View())
    {
      ghost var s, polled := View(), Polled(View());
      SanePreserved(s, First(ByReader));
      SocketsNotNegative(s);
      reader := RPoll(Round(infos, polled, 0));
      ghost var s1 := View();
      acts := [];
      var ret := env.poll;
      if ret > 0 {
        acts := PollLoop(env, infos, fds, polled);
      }
      PassReads(env, s, s1, acts, View());
      PassJoins(env, ByReader, s, acts, View());
      acts := [First(ByReader)] + acts + [Last(ByReader)];
      reader := RIdle;
    }

    method PollLoop(env: World, infos: seq<nat>, fds: seq<int>, ghost polled: seq<bool>)
      returns (ghost acts: seq<Action>)
      requires Sane(View()) && reader == RPoll(Round(infos, polled, 0)) && env.poll > 0
      requires |fds| == |infos| == |polled| && Known(|clients|, infos)
      requires forall i :: 0 <= i < |fds| ==>
        clients[infos[i]].socket >= 0 && fds[i] == if polled[i] then clients[infos[i]].socket else -1
      requires client_count == |registry| && Distinct(registry)
      modifies this`clients, this`reader, this`writer, this`readerLog, this`sign_to_flush_msg
      ensures Sane(View()) && DoneBy(env, ByReader, old(View()), acts, View())
      ensures reader == RPoll(Round(infos, polled, |infos|)) && writer == old(writer)
    {
      ghost var s := View();
      acts := [];
      for i := 0 to |infos|
        invariant Sane(View()) && DoneBy(env, ByReader, s, acts, View()) && reader == RPoll(Round(infos, polled, i))
          && writer == old(writer)
      {
        SocketsKept(env, s, acts, View());
        acts := ReadAt(env, infos[i], Round(infos, polled, i), fds[i], s, acts);
      }
    }

    // ----- handle_listen

    // Once through the loop of handle_listen: accept returns a descriptor that was not in use,
    // or an error. A client, if there is memory for it, goes to the end of the list.
    method HandleListen(env: World) returns (ghost acts: seq<Action>)
      requires Sane(View()) && listener == Listening && (env.accepted >= 0 ==> env.accepted !in open)
      modifies this`registry, this`client_count, this`clients, this`open, this`listener
      ensures Sane(View()) && Follows(env, old(View()), acts, View()) && listener == Listening
      ensures |acts| == (if env.accepted < 0 then 0 else 2) && forall n :: 0 <= n < |acts| ==> acts[n].Listens?
      ensures open == if env.accepted < 0 then old(open) else old(open) + {env.accepted}
      ensures if env.accepted >= 0 && env.joins then
          && registry == old(registry) + [|old(clients)|] && client_count == old(client_count) + 1
          && clients == old(clients) + [NewClient(env.accepted)]
        else registry == old(registry) && client_count == old(client_count) && clients == old(clients)
    {
      ghost var s := View();
      acts := [];
      var client_id := env.accepted;
      if client_id < 0 {
        return;
      }
      FollowsSnoc(env, s, acts, s, Listens(Accept(client_id)));
      open, listener := open + {client_id}, Accepted(client_id);
      var memory := env.joins;
      ghost var a := Listens(if memory then Register else RegisterFails);
      FollowsSnoc(env, s, acts + [Listens(Accept(client_id))], View(), a);
      acts := acts + [Listens(Accept(client_id))] + [a];
      if memory {
        registry := registry + [|clients|];
        clients := clients + [NewClient(client_id)];
        client_count := client_count + 1;
      }
      listener := Listening;
    }
  }
}
