// What a pass of the reader does with each client that it polls, by what poll reports.

module Polling {
  import opened Bytes
  import opened Chains
  import opened Framing
  import opened Protocol
  import opened ServerSteps
  import opened Registry
  import opened Streams
  import opened Environment

  /** Nothing has come of this client, and its mark is as it was. */
  predicate Same(x: Client, y: Client) {
    && y.name == x.name && y.failed == x.failed && y.inbox == x.inbox && y.received == x.received
    && y.handled == x.handled
  }

  /** All complete messages in the buffer have been handled, in order, and the rest is left. */
  predicate HandledOf(x: Client, y: Client) {
    && y.failed == x.failed && y.received == x.received
    && y.handled == x.handled + Messages(x.inbox.inbuf) && y.inbox.inbuf == Residue(x.inbox.inbuf)
  }

  /** Nothing reported, nothing done; an error, or nothing to read, and the client is marked;
      after bytes, or a read that failed, what is complete has been handled. */
  predicate ReadAs(report: Report, x: Client, y: Client) {
    match report
    case Quiet => Same(x, y)
    case Hangup => Same(x.(failed := true), y)
    case Unreadable => HandledOf(x, y)
    case Readable(data) => if data == [] then Same(x.(failed := true), y) else HandledOf(Fed(x, data), y)
  }

  /** What the client is when its messages begin to be handled. */
  function Arrived(report: Report, x: Client): Client {
    if report.Readable? then Fed(x, report.data) else x
  }

  /** Messages of the client are being handled; when that is done, none is left. */
  predicate Midway(report: Report, x: Client, y: Client, done: bool) {
    && (report.Unreadable? || (report.Readable? && report.data != []))
    && var z := Arrived(report, x);
       && y.failed == z.failed && y.received == z.received
       && y.handled + Messages(y.inbox.inbuf) == z.handled + Messages(z.inbox.inbuf)
       && Residue(y.inbox.inbuf) == Residue(z.inbox.inbuf) && (done ==> !HasNewline(y.inbox.inbuf))
  }

  /** What has become of the client at place q of the list. */
  predicate PlaceSoFar(report: Report, x: Client, y: Client, polled: bool, q: nat, reader: Reader)
    requires !reader.RIdle?
  {
    if q < reader.round.i then if polled then ReadAs(report, x, y) else Same(x, y)
    else if q == reader.round.i && !reader.RPoll? then polled && Midway(report, x, y, reader.RNotify?)
    else Same(x, y)
  }

  /** Where a pass over this list has come to, and what it has done with each client. */
  ghost predicate PassSoFar(w: World, cs: seq<Client>, snap: seq<nat>, polled: seq<bool>, t: State) {
    && Sane(t) && !t.reader.RIdle? && t.reader.round.snap == snap && t.reader.round.polled == polled
    && |cs| == |t.clients| && |polled| == |snap| && Known(|cs|, snap) && Distinct(snap)
    && (forall q :: 0 <= q < |snap| ==>
          PlaceSoFar(w.report(snap[q]), cs[snap[q]], t.clients[snap[q]], polled[q], q, t.reader))
    && (forall c :: 0 <= c < |cs| && c !in snap ==> Same(cs[c], t.clients[c]))
  }

  /** A step of the pass leaves all clients but the one at hand alone. */
  lemma OthersSame(s: State, r: Read)
    requires Sane(s) && CanRead(s, r) && StepOf(ByReader, Reads(r))
    ensures !s.reader.RIdle? && s.reader.round.i < |s.reader.round.snap|
    ensures !ReadStep(s, r).reader.RIdle? && |ReadStep(s, r).clients| == |s.clients|
    ensures ReadStep(s, r).reader.round.snap == s.reader.round.snap
    ensures ReadStep(s, r).reader.round.polled == s.reader.round.polled
    ensures ReadStep(s, r).reader.round.i == s.reader.round.i
      + if r.ReaderSkip? || r.MarkFail? || r.Notify? then 1 else 0
    ensures forall c :: 0 <= c < |s.clients| && c != At(s.reader.round) ==>
      Same(s.clients[c], ReadStep(s, r).clients[c])
  {
  }

  /** What it does with the one at hand. */
  lemma HereSoFar(w: World, x: Client, s: State, r: Read)
    requires Sane(s) && CanRead(s, r) && StepOf(ByReader, Reads(r)) && ReadAgrees(w, s, r)
    requires !s.reader.RIdle? && s.reader.round.i < |s.reader.round.snap| && !ReadStep(s, r).reader.RIdle?
    requires |ReadStep(s, r).clients| == |s.clients|
    requires var c, q := At(s.reader.round), s.reader.round.i;
      PlaceSoFar(w.report(c), x, s.clients[c], s.reader.round.polled[q], q, s.reader)
    ensures var c, q := At(s.reader.round), s.reader.round.i;
      PlaceSoFar(w.report(c), x, ReadStep(s, r).clients[c], s.reader.round.polled[q], q, ReadStep(s, r).reader)
  {
    var y := s.clients[At(s.reader.round)];
    match r
    case ParseOne(alloc) => ParsedMidway(w.report(At(s.reader.round)), x, s, alloc);
    case Notify => AllHandled(w.report(At(s.reader.round)), x, y);
    case _ =>
  }

  lemma ParsedMidway(report: Report, x: Client, s: State, alloc: bool)
    requires Sane(s) && s.reader.RParse? && Midway(report, x, s.clients[At(s.reader.round)], false)
    ensures |ParseStep(s, alloc).clients| == |s.clients|
    ensures var s' := ParseStep(s, alloc);
      && (s'.reader.RParse? || s'.reader.RSend? || s'.reader.RNotify?) && s'.reader.round == s.reader.round
      && Midway(report, x, s'.clients[At(s.reader.round)], s'.reader.RNotify?)
  {
    ParseStepIs(s, alloc);
    ParsedStream(s.clients[At(s.reader.round)]);
    ParsedMark(s.clients[At(s.reader.round)]);
  }

  lemma ParsedMark(x: Client)
    requires ScanIsSound(x.inbox)
    ensures Parsed(x).0.failed == x.failed && Parsed(x).0.received == x.received
  {
  }

  lemma AllHandled(report: Report, x: Client, y: Client)
    requires Midway(report, x, y, true)
    ensures ReadAs(report, x, y)
  {
    NoNewlineNoMessages(y.inbox.inbuf);
    Nothing(y.handled);
  }

  lemma PassStep(w: World, cs: seq<Client>, snap: seq<nat>, polled: seq<bool>, s: State, r: Read)
    requires PassSoFar(w, cs, snap, polled, s) && CanRead(s, r) && StepOf(ByReader, Reads(r)) && ReadAgrees(w, s, r)
    ensures PassSoFar(w, cs, snap, polled, ReadStep(s, r))
  {
    SanePreserved(s, Reads(r));
    OthersSame(s, r);
    var s', i := ReadStep(s, r), s.reader.round.i;
    HereSoFar(w, cs[snap[i]], s, r);
    forall q | 0 <= q < |snap| && q != i
      ensures PlaceSoFar(w.report(snap[q]), cs[snap[q]], s'.clients[snap[q]], polled[q], q, s'.reader)
    {
      assert snap[q] != snap[i];
      StaysSo(w.report(snap[q]), cs[snap[q]], s.clients[snap[q]], s'.clients[snap[q]], polled[q], q, s.reader,
          s'.reader);
    }
    assert snap[i] in snap;
  }

  lemma StaysSo(report: Report, x: Client, y: Client, y': Client, polled: bool, q: nat, reader: Reader, reader': Reader)
    requires !reader.RIdle? && !reader'.RIdle? && Same(y, y') && q != reader.round.i
    requires reader'.round.i == reader.round.i || (reader'.round.i == reader.round.i + 1 && reader'.RPoll?)
    requires PlaceSoFar(report, x, y, polled, q, reader)
    ensures PlaceSoFar(report, x, y', polled, q, reader')
  {
  }

  lemma {:induction false} PassGoes(w: World, cs: seq<Client>, snap: seq<nat>, polled: seq<bool>, s: State,
                                    acts: seq<Action>, t: State)
    requires PassSoFar(w, cs, snap, polled, s) && DoneBy(w, ByReader, s, acts, t)
    ensures PassSoFar(w, cs, snap, polled, t)
    decreases |acts|
  {
    if acts != [] {
      var m :| Leads(Some(w), s, acts[0], m) && Chain(Leads, Some(w), m, acts[1..], t);
      assert StepOf(ByReader, acts[0]);
      PassStep(w, cs, snap, polled, s, acts[0].r);
      PassGoes(w, cs, snap, polled, m, acts[1..], t);
    }
  }

  /** After a pass each client that was polled has been dealt with as poll reported of it, and
      nothing has come of any other. */
  ghost predicate AllReadAs(w: World, s: State, t: State)
    requires Sane(s)
  {
    && |t.clients| == |s.clients|
    && forall c :: 0 <= c < |s.clients| ==>
         if c in s.registry && !s.clients[c].failed && w.poll > 0 then ReadAs(w.report(c), s.clients[c], t.clients[c])
         else Same(s.clients[c], t.clients[c])
  }

  lemma PassReads(w: World, s: State, s1: State, acts: seq<Action>, t: State)
    requires Sane(s) && s.reader.RIdle? && Distinct(s.registry) && s1 == ReadStep(s, ReaderSnapshot)
    requires DoneBy(w, ByReader, s1, acts, t) && t.reader.RPoll?
    requires if w.poll > 0 then t.reader.round.i == |s.registry| else t == s1
    ensures AllReadAs(w, s, t)
  {
    SanePreserved(s, Reads(ReaderSnapshot));
    PassGoes(w, s.clients, s.registry, Polled(s), s1, acts, t);
    forall c | 0 <= c < |s.clients|
      ensures if c in s.registry && !s.clients[c].failed
        && w.poll > 0 then ReadAs(w.report(c), s.clients[c], t.clients[c])
              else Same(s.clients[c], t.clients[c])
    {
      if c in s.registry {
        var q :| 0 <= q < |s.registry| && s.registry[q] == c;
        assert PlaceSoFar(w.report(c), s.clients[c], t.clients[c], Polled(s)[q], q, t.reader);
      }
    }
  }

  /** Sockets stay with their clients. */
  lemma {:induction false} SocketsKept(w: World, s: State, acts: seq<Action>, t: State)
    requires DoneBy(w, ByReader, s, acts, t)
    ensures |t.clients| == |s.clients| && forall c :: 0 <= c < |s.clients| ==>
      t.clients[c].socket == s.clients[c].socket
    decreases |acts|
  {
    if acts != [] {
      var m :| Leads(Some(w), s, acts[0], m) && Chain(Leads, Some(w), m, acts[1..], t);
      assert StepOf(ByReader, acts[0]);
      ReadSockets(s, acts[0].r);
      SocketsKept(w, m, acts[1..], t);
    }
  }

  lemma ReadSockets(s: State, r: Read)
    requires Sane(s) && CanRead(s, r)
    ensures |ReadStep(s, r).clients| == |s.clients|
    ensures forall c :: 0 <= c < |s.clients| ==> ReadStep(s, r).clients[c].socket == s.clients[c].socket
  {
    if !r.MarkFail? {
      ReadStanding(s, r);
    }
  }

  lemma SocketsNotNegative(s: State)
    requires RegistryOk(s)
    ensures forall c :: 0 <= c < |s.clients| ==> s.clients[c].socket >= 0
  {
    assert forall c :: 0 <= c < |s.clients| ==> Socks(s.clients)[c] == s.clients[c].socket;
  }

  // ----- what is logged for a client's messages

  /** What these messages of client c, the first of which is its message `order`, have the
      reader log: what each says, if there is memory to build it. */
  function Logs(w: World, c: nat, name: Bytes, order: nat, ms: seq<Bytes>): seq<Record>
    requires AllMessages(ms)
    decreases |ms|
  {
    if ms == [] then []
    else
      var (name', msg) := Handle(name, ms[0]);
      (if msg.Some? && w.builds(c, order) then [Record(c, order, msg.value)] else [])
      + Logs(w, c, name', order + 1, ms[1..])
  }

  /** What is logged, and what the messages that are still in the buffer will add. */
  function LogInAll(w: World, c: nat, x: Client, log: seq<Record>): seq<Record> {
    SplitIsClean(x.inbox.inbuf);
    log + Logs(w, c, x.name, |x.handled|, Messages(x.inbox.inbuf))
  }

  lemma ParseLogsOne(w: World, c: nat, x: Client, log: seq<Record>)
    requires ScanIsSound(x.inbox) && HasNewline(x.inbox.inbuf)
    ensures var (y, msg) := Parsed(x);
      LogInAll(w, c, x, log) == LogInAll(w, c, y,
        log + if msg.Some? && w.builds(c, |x.handled|) then [Record(c, |x.handled|, msg.value)] else [])
  {
    FetchTakesTheFirst(x.inbox);
    SplitIsClean(x.inbox.inbuf);
    var (m, box) := Fetch(x.inbox);
    SplitIsClean(box.inbuf);
    var ms, rest := Messages(x.inbox.inbuf), Messages(box.inbuf);
    assert ms[0] == m.value && ms[1..] == rest;
    var (name, msg) := Handle(x.name, m.value);
    Associate(log, if msg.Some? && w.builds(c, |x.handled|) then [Record(c, |x.handled|, msg.value)] else [],
      Logs(w, c, name, |x.handled| + 1, rest));
  }

  lemma NothingMore(w: World, c: nat, x: Client, log: seq<Record>)
    requires !HasNewline(x.inbox.inbuf)
    ensures LogInAll(w, c, x, log) == log
  {
    NoNewlineNoMessages(x.inbox.inbuf);
    Nothing(log);
  }

  /** Where a round is; it only ever goes forward. */
  function Place(reader: Reader): nat
    requires !reader.RIdle?
  {
    2 * reader.round.i + if reader.RPoll? then 0 else 1
  }

  lemma {:induction false} OnlyForward(w: World, s: State, acts: seq<Action>, t: State)
    requires DoneBy(w, ByReader, s, acts, t) && !s.reader.RIdle?
    ensures !t.reader.RIdle? && Place(t.reader) >= Place(s.reader)
    ensures s.reader.RPoll? && acts != [] ==> Place(t.reader) > Place(s.reader)
    decreases |acts|
  {
    if acts != [] {
      var m :| Leads(Some(w), s, acts[0], m) && Chain(Leads, Some(w), m, acts[1..], t);
      assert StepOf(ByReader, acts[0]);
      StepForward(s, acts[0].r);
      OnlyForward(w, m, acts[1..], t);
    }
  }

  lemma StepForward(s: State, r: Read)
    requires Sane(s) && CanRead(s, r) && StepOf(ByReader, Reads(r)) && !s.reader.RIdle?
    ensures var s' := ReadStep(s, r);
      !s'.reader.RIdle? && Place(s'.reader) >= Place(s.reader)
        && (s.reader.RPoll? ==> Place(s'.reader) > Place(s.reader))
  {
    if r.ParseOne? {
      ParseStepIs(s, r.alloc);
    }
  }

  /** The reader is handling the messages of the client at hand. */
  predicate AtWork(reader: Reader, round: Round) {
    !reader.RIdle? && !reader.RPoll? && reader.round == round
  }

  /** In handling them, it logs nothing but what they say. */
  lemma WorkLogs(w: World, s: State, r: Read, round: Round)
    requires Sane(s) && CanRead(s, r) && ReadAgrees(w, s, r) && AtWork(s.reader, round) && round.i < |round.snap|
    requires At(round) < |s.clients| && (s.reader.RNotify? ==> !HasNewline(s.clients[At(round)].inbox.inbuf))
    ensures var s', c := ReadStep(s, r), At(round);
      && |s'.clients| == |s.clients|
      && LogInAll(w, c, s'.clients[c], s'.readerLog) == LogInAll(w, c, s.clients[c], s.readerLog)
      && (AtWork(s'.reader, round) || s'.reader == RPoll(Next(round)))
      && (s'.reader.RNotify? || s'.reader.RPoll? ==> !HasNewline(s'.clients[c].inbox.inbuf))
  {
    if r.ParseOne? {
      ParseStepIs(s, r.alloc);
      var x := s.clients[At(round)];
      ParsedStream(x);
      if HasNewline(x.inbox.inbuf) {
        ParseLogsOne(w, At(round), x, s.readerLog);
      } else {
        NothingMore(w, At(round), x, s.readerLog);
        NothingMore(w, At(round), Parsed(x).0, s.readerLog);
      }
    } else {
      WorkLogsNothing(s, r, At(round));
    }
  }

  lemma WorkLogsNothing(s: State, r: Read, c: nat)
    requires Sane(s) && CanRead(s, r) && !r.ParseOne? && !s.reader.RIdle? && !s.reader.RPoll? && c < |s.clients|
    ensures var s' := ReadStep(s, r);
      && |s'.clients| == |s.clients| && s'.readerLog == s.readerLog && Same(s.clients[c], s'.clients[c])
      && (AtWork(s'.reader, s.reader.round) || s'.reader == RPoll(Next(s.reader.round)))
      && (s'.reader.RNotify? ==> s.reader.RNotify?) && (s'.reader.RPoll? ==> s.reader.RNotify?)
  {
  }

  lemma {:induction false} HandlingLogs(w: World, s: State, acts: seq<Action>, t: State, round: Round)
    requires Sane(s) && DoneBy(w, ByReader, s, acts, t) && AtWork(s.reader, round) && t.reader == RPoll(Next(round))
    requires round.i < |round.snap| && At(round) < |s.clients|
    requires s.reader.RNotify? ==> !HasNewline(s.clients[At(round)].inbox.inbuf)
    ensures t.readerLog == LogInAll(w, At(round), s.clients[At(round)], s.readerLog)
    decreases |acts|
  {
    var m :| Leads(Some(w), s, acts[0], m) && Chain(Leads, Some(w), m, acts[1..], t);
    assert StepOf(ByReader, acts[0]);
    SanePreserved(s, acts[0]);
    WorkLogs(w, s, acts[0].r, round);
    if AtWork(m.reader, round) {
      HandlingLogs(w, m, acts[1..], t, round);
    } else {
      OnlyForward(w, m, acts[1..], t);
      NothingMore(w, At(round), m.clients[At(round)], m.readerLog);
    }
  }
}
