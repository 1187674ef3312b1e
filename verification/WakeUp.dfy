// No message is left in a write buffer while the writer sleeps: the interplay of
// sign_to_flush_msg, the condition variable, and the passes over the clients.

module WakeUp {
  import opened Bytes
  import opened Protocol
  import opened ServerSteps

  /** All that has been put out for a client. */
  function Stream(x: Client): Bytes { x.flushed + x.pending }

  /** Everything announced so far has been written to the socket. */
  predicate Due(x: Client) { x.covered <= |x.flushed| }

  predicate Healthy(x: Client) { !x.failed && !x.flushFailed }

  /** The writer will come to flush this client before it looks at the sign. */
  predicate WillFlush(w: Writer, c: nat) {
    w.WTop? || (w.WFlush? && w.i <= |w.snap| && c in w.snap[w.i..])
  }

  /** With the sign down, whatever was announced is out, or about to be flushed. */
  ghost predicate Awake(cs: seq<Client>, registry: seq<nat>, sign: nat, w: Writer) {
    sign == 0 ==>
      forall c :: c in registry && c < |cs| && Healthy(cs[c]) ==> Due(cs[c]) || WillFlush(w, c)
  }

  /** A thread that has delivered something owes a notification. */
  predicate ReaderOwes(r: Reader) {
    match r
    case RParse(_, need) => need > 0
    case RSend(_, need) => need > 0
    case RDeliver(_, need, d) => need + d.count > 0
    case RNotify(_, need) => need > 0
    case _ => false
  }

  predicate WriterOwes(w: Writer) {
    match w
    case WDeliver(_, _, d) => d.count > 0
    case WClose(_, _, count) => count > 0
    case WNotify(_, _, count) => count > 0
    case _ => false
  }

  /** Announcements are never ahead of what was put out, and are behind only while a
      thread owes one. */
  ghost predicate Owed(cs: seq<Client>, owes: bool) {
    forall c :: 0 <= c < |cs| ==> cs[c].covered <= |Stream(cs[c])| && (cs[c].covered == |Stream(cs[c])| || owes)
  }

  ghost predicate WakeOk(s: State) {
    && Sane(s)
    && Awake(s.clients, s.registry, s.sign, s.writer)
    && Owed(s.clients, ReaderOwes(s.reader) || WriterOwes(s.writer))
  }

  /** Output that only grows, and announcements that are never taken back. */
  predicate Grown(x: Client, y: Client) {
    Stream(x) <= Stream(y) && x.flushed <= y.flushed && x.covered <= y.covered
  }

  ghost predicate AllGrown(cs: seq<Client>, cs': seq<Client>) {
    |cs| <= |cs'| && forall c :: 0 <= c < |cs| ==> Grown(cs[c], cs'[c])
  }

  lemma GivenGrows(x: Client, e: Entry, d: Bytes)
    ensures Stream(Given(x, e, d)) == Stream(x) + d
  {
    Associate(x.flushed, x.pending, d);
  }

  lemma FlushedGrows(x: Client, written: nat)
    requires written <= |x.pending|
    ensures Stream(Flushed(x, written)) == Stream(x)
  {
    CutJoins(x.pending, written);
    Associate(x.flushed, x.pending[..written], x.pending[written..]);
  }

  // ----- every step

  lemma WakeStarts()
    ensures WakeOk(Initial())
  {
    IdleIsSane();
  }

  lemma WakePreserved(s: State, a: Action)
    requires WakeOk(s) && Enabled(s, a)
    ensures WakeOk(Apply(s, a)) && AllGrown(s.clients, Apply(s, a).clients)
  {
    SanePreserved(s, a);
    match a
    case Listens(l) =>
    case Reads(r) => WakeRead(s, r);
    case Writes(w) => WakeWrite(s, w);
  }

  /** Only the marks that say when to flush matter here. */
  ghost predicate SameMarks(cs: seq<Client>, cs': seq<Client>) {
    |cs| == |cs'| && forall c :: 0 <= c < |cs| ==>
      && cs[c].flushed == cs'[c].flushed && cs[c].pending == cs'[c].pending && cs[c].covered == cs'[c].covered
      && cs[c].flushFailed == cs'[c].flushFailed && (cs[c].failed ==> cs'[c].failed)
  }

  lemma SameMarksKeep(cs: seq<Client>, cs': seq<Client>, registry: seq<nat>, sign: nat, w: Writer, owes: bool,
                      owes': bool)
    requires SameMarks(cs, cs') && Awake(cs, registry, sign, w) && Owed(cs, owes) && (owes ==> owes')
    ensures Awake(cs', registry, sign, w) && Owed(cs', owes') && AllGrown(cs, cs')
  {
  }

  lemma ReadKeeps(s: State, r: Read)
    requires Sane(s) && CanRead(s, r) && !r.DeliverOne? && !r.Notify?
    ensures var s' := ReadStep(s, r);
      && SameMarks(s.clients, s'.clients) && s'.registry == s.registry && s'.sign == s.sign && s'.writer == s.writer
      && (ReaderOwes(s.reader) ==> ReaderOwes(s'.reader))
  {
  }

  lemma WakeRead(s: State, r: Read)
    requires WakeOk(s) && CanRead(s, r) && Sane(ReadStep(s, r))
    ensures WakeOk(ReadStep(s, r)) && AllGrown(s.clients, ReadStep(s, r).clients)
  {
    if r.DeliverOne? {
      WakeDeliver(s, r.accepted);
    } else if r.Notify? {
      WakeNotify(s);
    } else {
      ReadKeeps(s, r);
      SameMarksKeep(s.clients, ReadStep(s, r).clients, s.registry, s.sign, s.writer,
        ReaderOwes(s.reader) || WriterOwes(s.writer), ReaderOwes(ReadStep(s, r).reader) || WriterOwes(s.writer));
    }
  }

  /** A frame more for one client, which the deliverer now owes a notification for. */
  lemma OfferKeeps(cs: seq<Client>, c: nat, source: Source, index: nat, msg: Msg, accepted: nat,
                   registry: seq<nat>, sign: nat, w: Writer, owes: bool)
    requires c < |cs| && accepted <= |msg.content|
    requires Awake(cs, registry, sign, w) && Owed(cs, owes)
    ensures var (cs', n) := Offer(cs, c, source, index, msg, accepted);
      Awake(cs', registry, sign, w) && Owed(cs', owes || n > 0) && AllGrown(cs, cs')
  {
    GivenGrows(cs[c], Entry(source, index, cs[c].name), msg.content[..accepted]);
  }

  lemma WakeDeliver(s: State, accepted: nat)
    requires WakeOk(s) && CanRead(s, DeliverOne(accepted)) && Sane(ReadStep(s, DeliverOne(accepted)))
    ensures WakeOk(ReadStep(s, DeliverOne(accepted))) && AllGrown(s.clients, ReadStep(s, DeliverOne(accepted)).clients)
  {
    var d := s.reader.delivery;
    OfferKeeps(s.clients, d.targets[d.pos], ByReader, |s.readerLog| - 1, ReaderMsg(s), accepted,
      s.registry, s.sign, s.writer, ReaderOwes(s.reader) || WriterOwes(s.writer));
  }

  lemma AnnounceKeeps(cs: seq<Client>, owes: bool)
    requires Owed(cs, owes)
    ensures Owed(AnnounceAll(cs), false) && AllGrown(cs, AnnounceAll(cs))
  {
  }

  lemma WakeNotify(s: State)
    requires WakeOk(s) && CanRead(s, Notify) && Sane(ReadStep(s, Notify))
    ensures WakeOk(ReadStep(s, Notify)) && AllGrown(s.clients, ReadStep(s, Notify).clients)
  {
    AnnounceKeeps(s.clients, ReaderOwes(s.reader) || WriterOwes(s.writer));
  }

  lemma WakeWrite(s: State, w: Write)
    requires WakeOk(s) && CanWrite(s, w) && Sane(WriteStep(s, w))
    ensures WakeOk(WriteStep(s, w)) && AllGrown(s.clients, WriteStep(s, w).clients)
  {
    match w
    case LogoutDeliverOne(taken) => WakeLogoutDeliver(s, taken);
    case LogoutNotify => WakeLogoutNotify(s);
    case Flush(written) => WakeFlush(s, written);
    case LogoutRemove => RemoveKeeps(s.clients, s.registry, s.clients[s.writer.snap[s.writer.i]].socket);
    case _ => WritePasses(s, w);
  }

  lemma WakeLogoutDeliver(s: State, taken: nat)
    requires WakeOk(s) && CanWrite(s, LogoutDeliverOne(taken)) && Sane(WriteStep(s, LogoutDeliverOne(taken)))
    ensures WakeOk(WriteStep(s, LogoutDeliverOne(taken)))
    ensures AllGrown(s.clients, WriteStep(s, LogoutDeliverOne(taken)).clients)
  {
    var d := s.writer.delivery;
    OfferKeeps(s.clients, d.targets[d.pos], ByWriter, |s.writerLog| - 1, WriterMsg(s), taken,
      s.registry, s.sign, s.writer, ReaderOwes(s.reader) || WriterOwes(s.writer));
  }

  lemma WakeLogoutNotify(s: State)
    requires WakeOk(s) && CanWrite(s, LogoutNotify) && Sane(WriteStep(s, LogoutNotify))
    ensures WakeOk(WriteStep(s, LogoutNotify)) && AllGrown(s.clients, WriteStep(s, LogoutNotify).clients)
  {
    AnnounceKeeps(s.clients, ReaderOwes(s.reader) || WriterOwes(s.writer));
  }

  lemma WakeFlush(s: State, written: nat)
    requires WakeOk(s) && CanWrite(s, Flush(written)) && Sane(WriteStep(s, Flush(written)))
    ensures WakeOk(WriteStep(s, Flush(written))) && AllGrown(s.clients, WriteStep(s, Flush(written)).clients)
  {
    var snap, i := s.writer.snap, s.writer.i;
    FlushedGrows(s.clients[snap[i]], written);
    assert snap[i..] == [snap[i]] + snap[i + 1..];
  }

  /** The writer's other steps, which change no client: when a pass ends, nothing is left
      ahead of it, and a new pass has everything ahead. */
  lemma WritePasses(s: State, w: Write)
    requires WakeOk(s) && CanWrite(s, w) && Sane(WriteStep(s, w))
    requires !w.LogoutDeliverOne? && !w.LogoutNotify? && !w.Flush? && !w.LogoutRemove?
    ensures WakeOk(WriteStep(s, w)) && AllGrown(s.clients, WriteStep(s, w).clients)
  {
    assert w.WriterSnapshot? ==> s.registry[0..] == s.registry;
  }

  // ----- runs

  lemma {:induction false} WakeInvariant(states: seq<State>, acts: seq<Action>, k: nat)
    requires IsRun(states, acts) && k < |states|
    ensures WakeOk(states[k])
  {
    if k == 0 {
      WakeStarts();
    } else {
      WakeInvariant(states, acts, k - 1);
      WakePreserved(states[k - 1], acts[k - 1]);
    }
  }

  lemma {:induction false} OutputGrows(states: seq<State>, acts: seq<Action>, j: nat, i: nat)
    requires IsRun(states, acts) && j <= i < |states|
    ensures AllGrown(states[j].clients, states[i].clients)
  {
    if j < i {
      OutputGrows(states, acts, j, i - 1);
      WakeInvariant(states, acts, i - 1);
      WakePreserved(states[i - 1], acts[i - 1]);
    }
  }

  /** This step completes a notification. */
  predicate Notifies(s: State, a: Action) {
    || (a == Reads(Notify) && s.reader.RNotify? && s.reader.need > 0)
    || (a == Writes(LogoutNotify) && s.writer.WNotify? && s.writer.count > 0)
  }

  lemma WaitBeginsWithSignDown(s: State, a: Action)
    requires Sane(s) && Enabled(s, a) && !s.writer.WWait? && Apply(s, a).writer.WWait?
    ensures Apply(s, a).sign == 0
  {
  }

  lemma NotifiesAll(s: State, a: Action, c: nat)
    requires Sane(s) && Enabled(s, a) && Notifies(s, a) && c < |s.clients|
    ensures |Apply(s, a).clients| == |s.clients| && Apply(s, a).clients[c].covered == |Stream(s.clients[c])|
  {
  }

  lemma AnnouncedIsOut(x: Client, y: Client, z: Client)
    requires y.covered == |Stream(x)| && Grown(x, z) && Grown(y, z) && Due(z)
    ensures Stream(x) <= z.flushed
  {
    assert z.flushed <= Stream(z);
  }

  // ----- one pass of the writer

  /** A step while the writer is flushing: what was out stays out, and the client that the
      pass comes to is flushed. */
  lemma FlushingStep(s: State, a: Action, c: nat, base: Bytes)
    requires WakeOk(s) && Enabled(s, a) && s.writer.WFlush? && a != Writes(FlushesEnd)
    requires c < |s.clients| && base <= Stream(s.clients[c])
    requires c in s.writer.snap[..s.writer.i] && Healthy(s.clients[c]) ==> base <= s.clients[c].flushed
    ensures var s' := Apply(s, a);
      && s'.writer.WFlush? && s'.writer.snap == s.writer.snap && s'.writer.i <= |s.writer.snap| && c < |s'.clients|
      && (c in s.writer.snap[..s'.writer.i] && Healthy(s'.clients[c]) ==> base <= s'.clients[c].flushed)
  {
    match a
    case Listens(l) =>
    case Reads(r) => ReadFlushesNothing(s, r, c);
    case Writes(w) =>
      var snap, i := s.writer.snap, s.writer.i;
      assert snap[..i + 1] == snap[..i] + [snap[i]];
      FlushedGrows(s.clients[snap[i]], w.written);
  }

  lemma ReadFlushesNothing(s: State, r: Read, c: nat)
    requires Sane(s) && CanRead(s, r) && c < |s.clients|
    ensures var s' := ReadStep(s, r);
      && |s'.clients| == |s.clients| && s'.writer == s.writer && s'.clients[c].flushed == s.clients[c].flushed
      && (Healthy(s'.clients[c]) ==> Healthy(s.clients[c]))
  {
  }

  /** While a pass flushes, everything that was out for a client when the pass began has
      been written to its socket once the pass has come by it, whether or not anybody was
      notified; only a client that has failed, or whose flush did, is left. */
  lemma {:induction false} PassFlushes(states: seq<State>, acts: seq<Action>, p: nat, e: nat, c: nat)
    requires IsRun(states, acts) && p < e < |states| && acts[p] == Writes(WriterSnapshot)
    requires forall n :: p < n < e ==> acts[n] != Writes(FlushesEnd)
    requires c < |states[p].clients|
    ensures states[e].writer.WFlush? && states[e].writer.snap == states[p].registry
    ensures states[e].writer.i <= |states[p].registry| && c < |states[e].clients|
    ensures c in states[p].registry[..states[e].writer.i] && Healthy(states[e].clients[c]) ==>
      Stream(states[p].clients[c]) <= states[e].clients[c].flushed
  {
    if e > p + 1 {
      PassFlushes(states, acts, p, e - 1, c);
      WakeInvariant(states, acts, e - 1);
      OutputGrows(states, acts, p, e - 1);
      FlushingStep(states[e - 1], acts[e - 1], c, Stream(states[p].clients[c]));
    }
  }

  /** So whatever had been put out at any time before a pass began, by either thread and
      announced or not, is out when the pass has flushed. */
  lemma FlushedByThePass(states: seq<State>, acts: seq<Action>, j: nat, p: nat, f: nat, c: nat)
    requires IsRun(states, acts) && j <= p < f < |acts|
    requires acts[p] == Writes(WriterSnapshot) && acts[f] == Writes(FlushesEnd)
    requires forall n :: p < n < f ==> acts[n] != Writes(FlushesEnd)
    requires c < |states[j].clients| && c in states[p].registry
    ensures c < |states[f].clients|
    ensures Healthy(states[f].clients[c]) ==> Stream(states[j].clients[c]) <= states[f].clients[c].flushed
  {
    OutputGrows(states, acts, j, p);
    PassFlushes(states, acts, p, f, c);
    assert states[p].registry[..states[f].writer.i] == states[p].registry;
    if Healthy(states[f].clients[c]) {
      assert Stream(states[j].clients[c]) <= Stream(states[p].clients[c]) <= states[f].clients[c].flushed;
    }
  }

  // ----- sleeping

  /** The writer can come to wait, or is waiting. */
  predicate CanSleep(s: State) { s.sign == 0 || s.writer.WWait? }

  /** Only a notification while the writer is not waiting takes that away, and nothing
      gives it back: the sign is cleared only after waiting. */
  lemma SleepStep(s: State, a: Action)
    requires Sane(s) && Enabled(s, a)
    ensures CanSleep(Apply(s, a)) <==> CanSleep(s) && (Notifies(s, a) ==> s.writer.WWait?)
  {
    match a
    case Listens(l) =>
    case Reads(r) => ReadSleepStep(s, r);
    case Writes(w) =>
  }

  lemma ReadSleepStep(s: State, r: Read)
    requires Sane(s) && CanRead(s, r)
    ensures var s' := ReadStep(s, r);
      s'.writer == s.writer && s'.sign == s.sign + if Notifies(s, Reads(r)) then 1 else 0
  {
  }

  /** Every notification so far was completed while the writer waited. */
  predicate NotifiedAsleep(states: seq<State>, acts: seq<Action>, i: nat)
    requires |states| == |acts| + 1 && i < |states|
  {
    forall j :: 0 <= j < i && Notifies(states[j], acts[j]) ==> states[j].writer.WWait?
  }

  /** The writer can still come to wait if and only if every notification so far was
      completed while it waited. The first one that was not, and every logout that is
      announced is one, keeps it going round for good. */
  lemma {:induction false} SleepsIff(states: seq<State>, acts: seq<Action>, i: nat)
    requires IsRun(states, acts) && i < |states|
    ensures CanSleep(states[i]) <==> NotifiedAsleep(states, acts, i)
  {
    if i > 0 {
      SleepsIff(states, acts, i - 1);
      SleepStep(states[i - 1], acts[i - 1]);
      OneStepMore(states, acts, i - 1);
    }
  }

  lemma OneStepMore(states: seq<State>, acts: seq<Action>, i: nat)
    requires |states| == |acts| + 1 && i < |acts|
    ensures NotifiedAsleep(states, acts, i + 1) <==>
      NotifiedAsleep(states, acts, i) && (Notifies(states[i], acts[i]) ==> states[i].writer.WWait?)
  {
  }

  /** What had been put out for a client when a notification completed: when the writer next
      begins to wait, and while it waits and nobody has raised the sign, it has been written
      to the client's socket, unless the client was logged out, has failed, or its last flush
      did. The writer can come to wait only if the notification found it waiting; otherwise
      it is left going round, and FlushedByThePass says what each round does. */
  lemma NoStrandedMessage(states: seq<State>, acts: seq<Action>, j: nat, i: nat, c: nat)
    requires IsRun(states, acts) && j < i < |states| && Notifies(states[j], acts[j])
    requires c < |states[j].clients| && c in states[i].registry
    ensures c < |states[i].clients|
    ensures states[i].writer.WWait? ==> states[j].writer.WWait?
    ensures states[i].writer.WWait? && (states[i].sign == 0 || !states[i - 1].writer.WWait?)
      && Healthy(states[i].clients[c])
      ==> Stream(states[j].clients[c]) <= states[i].clients[c].flushed
  {
    WakeInvariant(states, acts, i);
    SleepsIff(states, acts, i);
    OutputGrows(states, acts, j, i);
    OutputGrows(states, acts, j + 1, i);
    NotifiesAll(states[j], acts[j], c);
    if !states[i - 1].writer.WWait? && states[i].writer.WWait? {
      WaitBeginsWithSignDown(states[i - 1], acts[i - 1]);
    }
    if states[i].writer.WWait? && states[i].sign == 0 && Healthy(states[i].clients[c]) {
      AnnouncedIsOut(states[j].clients[c], states[j + 1].clients[c], states[i].clients[c]);
    }
  }

  /** While the writer waits and nobody has raised the sign, and the reader is between two
      clients, every healthy client's write buffer is empty. */
  lemma QuietMeansEmpty(states: seq<State>, acts: seq<Action>, i: nat, c: nat)
    requires IsRun(states, acts) && i < |states|
    requires states[i].writer.WWait? && states[i].sign == 0 && (states[i].reader.RIdle? || states[i].reader.RPoll?)
    requires c in states[i].registry
    ensures c < |states[i].clients|
    ensures Healthy(states[i].clients[c]) ==> states[i].clients[c].pending == []
  {
    WakeInvariant(states, acts, i);
    var x := states[i].clients[c];
    assert x.covered == |Stream(x)|;
  }
}
