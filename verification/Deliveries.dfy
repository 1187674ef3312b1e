// Who gets which frame, and in what order, in every interleaving.

module Deliveries {
  import opened Bytes
  import opened Framing
  import opened Protocol
  import opened ServerSteps
  import opened Registry
  import opened Streams

  // ----- the frames of one client

  /** A thread's frames come in the order of that thread's log, each at most once. */
  ghost predicate InLogOrder(out: seq<Entry>) {
    forall p, q :: 0 <= p < q < |out| && out[p].source == out[q].source ==> out[p].index < out[q].index
  }

  ghost predicate Behind(out: seq<Entry>, source: Source, n: int) {
    forall p :: 0 <= p < |out| && out[p].source == source ==> out[p].index < n
  }

  ghost predicate Got(out: seq<Entry>, source: Source, n: int) {
    exists p :: 0 <= p < |out| && out[p].source == source && out[p].index == n
  }

  lemma OneMore(out: seq<Entry>, e: Entry, source: Source, n: int)
    ensures Got(out + [e], source, n) <==> Got(out, source, n) || (e.source == source && e.index == n)
    ensures Behind(out + [e], source, n) <==> Behind(out, source, n) && (e.source == source ==> e.index < n)
    ensures InLogOrder(out) && Behind(out, e.source, e.index) ==> InLogOrder(out + [e])
    ensures Behind(out, source, n) ==> !Got(out, source, n)
  {
    var more := out + [e];
    assert more[|out|] == e && forall p :: 0 <= p < |out| ==> more[p] == out[p];
  }

  // ----- the delivery under way

  ghost predicate AllInOrder(cs: seq<Client>) {
    forall c :: 0 <= c < |cs| ==> InLogOrder(cs[c].out)
  }

  ghost predicate AllBehind(cs: seq<Client>, source: Source, n: int) {
    forall c :: 0 <= c < |cs| ==> Behind(cs[c].out, source, n)
  }

  /** Everybody who has been given frame n. */
  ghost function Reached(cs: seq<Client>, source: Source, n: int): set<nat> {
    set c | 0 <= c < |cs| && Got(cs[c].out, source, n)
  }

  /** Everybody in `targets` that the message is for. */
  ghost function Meant(cs: seq<Client>, targets: seq<nat>, msg: Msg): set<nat> {
    set c | c in targets && c < |cs| && Eligible(msg, cs[c].name, cs[c].failed)
  }

  /** A delivery of frame n has reached only clients it has come to, and as many as it
      counts; whoever it has yet to come to has not got the frame. */
  ghost predicate Going(cs: seq<Client>, source: Source, n: int, d: Delivery) {
    && DeliveryFits(|cs|, d) && Distinct(d.targets)
    && d.count == |Reached(cs, source, n)|
    && (forall c :: 0 <= c < |cs| && Got(cs[c].out, source, n) ==> c in d.targets[..d.pos])
    && (forall c :: 0 <= c < |cs| && c !in d.targets[..d.pos] ==> Behind(cs[c].out, source, n))
  }

  /** Of those it has come to, it has reached exactly those that the message is for. */
  ghost predicate Exact(cs: seq<Client>, source: Source, n: int, msg: Msg, d: Delivery) {
    && DeliveryFits(|cs|, d)
    && forall c :: 0 <= c < |cs| && c in d.targets[..d.pos] ==>
         (Got(cs[c].out, source, n) <==> Eligible(msg, cs[c].name, cs[c].failed))
  }

  ghost predicate ReaderDelivers(cs: seq<Client>, rl: seq<Record>, r: Reader) {
    match r
    case RSend(_, _) => rl != [] && AllBehind(cs, ByReader, |rl| - 1)
    case RDeliver(_, _, d) =>
      rl != [] && Going(cs, ByReader, |rl| - 1, d) && Exact(cs, ByReader, |rl| - 1, rl[|rl| - 1].msg, d)
    case _ => true
  }

  ghost predicate WriterDelivers(cs: seq<Client>, wl: seq<Notice>, w: Writer) {
    match w
    case WSend(_, _) => AllBehind(cs, ByWriter, |wl| - 1)
    case WDeliver(_, _, d) => Going(cs, ByWriter, |wl| - 1, d)
    case _ => true
  }

  // ----- the reader's log

  /** The record is one message of its sender, and what that message says. */
  ghost predicate RecordOk(cs: seq<Client>, r: Record) {
    && r.sender < |cs| && AllMessages(cs[r.sender].handled) && r.order < |cs[r.sender].handled|
    && MsgAt(cs[r.sender].handled, r.order) == Some(r.msg)
  }

  /** Each sender's records come in the order of its messages, no message twice. */
  ghost predicate RecordsOk(cs: seq<Client>, rl: seq<Record>) {
    && (forall k :: 0 <= k < |rl| ==> RecordOk(cs, rl[k]))
    && (forall k, l :: 0 <= k < l < |rl| && rl[k].sender == rl[l].sender ==> rl[k].order < rl[l].order)
  }

  ghost predicate DeliveriesOk(s: State) {
    && RegistryOk(s) && OutputsOk(s)
    && AllInOrder(s.clients) && RecordsOk(s.clients, s.readerLog)
    && ReaderDelivers(s.clients, s.readerLog, s.reader)
    && WriterDelivers(s.clients, s.writerLog, s.writer)
  }

  // ----- one more frame for one client

  lemma OfferGoes(cs: seq<Client>, source: Source, n: nat, msg: Msg, d: Delivery, accepted: nat)
    requires Going(cs, source, n, d) && AllInOrder(cs)
    requires d.pos < |d.targets| && accepted <= |msg.content|
    ensures var (cs', k) := Offer(cs, d.targets[d.pos], source, n, msg, accepted);
      && Going(cs', source, n, Delivered(d, k)) && AllInOrder(cs')
      && (Exact(cs, source, n, msg, d) ==> Exact(cs', source, n, msg, Delivered(d, k)))
  {
    var c := d.targets[d.pos];
    TakeNext(d.targets, d.pos);
    assert c !in d.targets[..d.pos];
    OneMore(cs[c].out, Entry(source, n, cs[c].name), source, n);
    if Eligible(msg, cs[c].name, cs[c].failed) {
      IsGiven(cs, source, n, msg, d, Given(cs[c], Entry(source, n, cs[c].name), msg.content[..accepted]));
    } else {
      PassedOver(cs, source, n, msg, d);
    }
  }

  /** The client that the delivery has come to is passed over. */
  lemma PassedOver(cs: seq<Client>, source: Source, n: nat, msg: Msg, d: Delivery)
    requires Going(cs, source, n, d) && d.pos < |d.targets| && d.targets[d.pos] !in d.targets[..d.pos]
    requires d.targets[..d.pos + 1] == d.targets[..d.pos] + [d.targets[d.pos]]
    ensures Going(cs, source, n, Delivered(d, 0))
    ensures var x := cs[d.targets[d.pos]];
      !Eligible(msg, x.name, x.failed) && Exact(cs, source, n, msg, d) ==> Exact(cs, source, n, msg, Delivered(d, 0))
  {
    OneMore(cs[d.targets[d.pos]].out, Entry(source, n, []), source, n);
  }

  /** It is given the frame. */
  lemma IsGiven(cs: seq<Client>, source: Source, n: nat, msg: Msg, d: Delivery, y: Client)
    requires Going(cs, source, n, d) && d.pos < |d.targets| && d.targets[d.pos] !in d.targets[..d.pos]
    requires d.targets[..d.pos + 1] == d.targets[..d.pos] + [d.targets[d.pos]]
    requires Got(y.out, source, n) && Eligible(msg, y.name, y.failed) && !Got(cs[d.targets[d.pos]].out, source, n)
    ensures Going(cs[d.targets[d.pos] := y], source, n, Delivered(d, 1))
    ensures Exact(cs, source, n, msg, d) ==> Exact(cs[d.targets[d.pos] := y], source, n, msg, Delivered(d, 1))
  {
    OneMoreReached(cs, d.targets[d.pos], y, source, n);
    if Exact(cs, source, n, msg, d) {
      StillExact(cs, source, n, msg, d, y);
    }
  }

  lemma OneMoreReached(cs: seq<Client>, c: nat, y: Client, source: Source, n: nat)
    requires c < |cs| && Got(y.out, source, n) && !Got(cs[c].out, source, n)
    ensures |Reached(cs[c := y], source, n)| == |Reached(cs, source, n)| + 1
  {
    assert c !in Reached(cs, source, n);
    assert Reached(cs[c := y], source, n) == Reached(cs, source, n) + {c};
  }

  lemma StillExact(cs: seq<Client>, source: Source, n: nat, msg: Msg, d: Delivery, y: Client)
    requires Exact(cs, source, n, msg, d) && d.pos < |d.targets|
    requires d.targets[..d.pos + 1] == d.targets[..d.pos] + [d.targets[d.pos]]
    requires Got(y.out, source, n) && Eligible(msg, y.name, y.failed)
    ensures Exact(cs[d.targets[d.pos] := y], source, n, msg, Delivered(d, 1))
  {
  }

  /** The other thread's delivery is none the wiser. */
  lemma OfferAside(cs: seq<Client>, c: nat, source: Source, n: nat, msg: Msg, accepted: nat,
                   other: Source, m: int, d: Delivery, otherMsg: Msg)
    requires c < |cs| && accepted <= |msg.content| && source != other
    ensures var cs' := Offer(cs, c, source, n, msg, accepted).0;
      && (AllBehind(cs, other, m) ==> AllBehind(cs', other, m))
      && (Going(cs, other, m, d) ==> Going(cs', other, m, d))
      && (Exact(cs, other, m, otherMsg, d) ==> Exact(cs', other, m, otherMsg, d))
  {
    var cs' := Offer(cs, c, source, n, msg, accepted).0;
    OneMore(cs[c].out, Entry(source, n, cs[c].name), other, m);
    assert Reached(cs', other, m) == Reached(cs, other, m);
  }

  // ----- every step

  /** Nothing is different that deliveries depend on. */
  ghost predicate SameDeliveries(cs: seq<Client>, cs': seq<Client>) {
    |cs| == |cs'| && forall c :: 0 <= c < |cs| ==>
      cs[c].out == cs'[c].out && cs[c].name == cs'[c].name && cs[c].failed == cs'[c].failed
        && cs[c].handled == cs'[c].handled
  }

  lemma SameKeeps(cs: seq<Client>, cs': seq<Client>, rl: seq<Record>, wl: seq<Notice>, r: Reader, w: Writer)
    requires SameDeliveries(cs, cs')
    requires AllInOrder(cs) && RecordsOk(cs, rl) && ReaderDelivers(cs, rl, r) && WriterDelivers(cs, wl, w)
    ensures AllInOrder(cs') && RecordsOk(cs', rl) && ReaderDelivers(cs', rl, r) && WriterDelivers(cs', wl, w)
  {
    assert forall source, n :: Reached(cs, source, n) == Reached(cs', source, n);
  }

  lemma DeliveriesStart()
    ensures DeliveriesOk(Initial())
  {
    RegistryStarts();
    OutputsStart();
  }

  lemma DeliveriesPreserved(s: State, a: Action)
    requires DeliveriesOk(s) && Enabled(s, a)
    ensures DeliveriesOk(Apply(s, a))
  {
    RegistryPreserved(s, a);
    OutputsPreserved(s, a);
    match a
    case Listens(l) => DeliveriesListen(s, l);
    case Reads(r) => DeliveriesRead(s, r);
    case Writes(w) => DeliveriesWrite(s, w);
  }

  lemma DeliveriesListen(s: State, l: Listen)
    requires DeliveriesOk(s) && CanListen(s, l)
    ensures var s' := ListenStep(s, l);
      && AllInOrder(s'.clients) && RecordsOk(s'.clients, s'.readerLog)
      && ReaderDelivers(s'.clients, s'.readerLog, s'.reader) && WriterDelivers(s'.clients, s'.writerLog, s'.writer)
  {
    if l.Register? {
      Newcomer(s.clients, s.listener.fd, s.readerLog, s.writerLog, s.reader, s.writer);
    }
  }

  lemma Newcomer(cs: seq<Client>, fd: int, rl: seq<Record>, wl: seq<Notice>, r: Reader, w: Writer)
    requires AllInOrder(cs) && RecordsOk(cs, rl) && ReaderDelivers(cs, rl, r) && WriterDelivers(cs, wl, w)
    ensures var cs' := cs + [NewClient(fd)];
      AllInOrder(cs') && RecordsOk(cs', rl) && ReaderDelivers(cs', rl, r) && WriterDelivers(cs', wl, w)
  {
    var cs' := cs + [NewClient(fd)];
    forall source, n
      ensures Reached(cs', source, n) == Reached(cs, source, n)
    {
      assert forall c :: 0 <= c < |cs| ==> cs'[c] == cs[c];
    }
  }

  lemma DeliveriesRead(s: State, r: Read)
    requires DeliveriesOk(s) && CanRead(s, r) && RegistryOk(ReadStep(s, r)) && OutputsOk(ReadStep(s, r))
    ensures DeliveriesOk(ReadStep(s, r))
  {
    if r.DeliverOne? {
      ReaderOffers(s, r.accepted);
    } else if r.ParseOne? {
      ReaderLogs(s, r.alloc);
    } else if r.DeliverSnapshot? {
      DeliveryBegins(s.clients, ByReader, |s.readerLog| - 1, ReaderMsg(s), if r.list then s.registry else []);
    } else {
      ReaderElse(s, r);
    }
  }

  lemma ReaderOffers(s: State, accepted: nat)
    requires DeliveriesOk(s) && CanRead(s, DeliverOne(accepted))
    requires RegistryOk(ReadStep(s, DeliverOne(accepted))) && OutputsOk(ReadStep(s, DeliverOne(accepted)))
    ensures DeliveriesOk(ReadStep(s, DeliverOne(accepted)))
  {
    var d := s.reader.delivery;
    OfferGoes(s.clients, ByReader, |s.readerLog| - 1, ReaderMsg(s), d, accepted);
    OfferRecords(s.clients, d.targets[d.pos], ByReader, |s.readerLog| - 1, ReaderMsg(s), accepted, s.readerLog);
    OfferAside(s.clients, d.targets[d.pos], ByReader, |s.readerLog| - 1, ReaderMsg(s), accepted,
      ByWriter, |s.writerLog| - 1, if s.writer.WDeliver? then s.writer.delivery else d, ReaderMsg(s));
  }

  lemma OfferRecords(cs: seq<Client>, c: nat, source: Source, n: nat, msg: Msg, accepted: nat, rl: seq<Record>)
    requires c < |cs| && accepted <= |msg.content| && RecordsOk(cs, rl)
    ensures RecordsOk(Offer(cs, c, source, n, msg, accepted).0, rl)
  {
  }

  lemma DeliveryBegins(cs: seq<Client>, source: Source, n: int, msg: Msg, targets: seq<nat>)
    requires AllBehind(cs, source, n) && Known(|cs|, targets) && Distinct(targets)
    ensures Going(cs, source, n, Delivery(targets, 0, 0)) && Exact(cs, source, n, msg, Delivery(targets, 0, 0))
  {
    assert Reached(cs, source, n) == {};
  }

  /** A new record is for the message just handled; nobody has it yet. */
  lemma ReaderLogs(s: State, alloc: bool)
    requires DeliveriesOk(s) && s.reader.RParse?
    requires RegistryOk(ParseStep(s, alloc)) && OutputsOk(ParseStep(s, alloc))
    ensures DeliveriesOk(ParseStep(s, alloc))
  {
    var s' := ParseStep(s, alloc);
    var c := At(s.reader.round);
    var x := s.clients[c];
    var y := Parsed(x).0;
    ParsedInput(x);
    ParsedRest(x);
    ParseLog(s, alloc);
    BehindTheLog(s);
    RecordsGrow(s.clients, c, y, s.readerLog);
    if s'.reader.RSend? {
      RecordsAdd(s.clients[c := y], s.readerLog, Record(c, |x.handled|, Parsed(x).1.value));
    }
    FramesKept(s.clients, s'.clients, ByReader, |s.readerLog|, s.writerLog, s.writer);
  }

  lemma ParseLog(s: State, alloc: bool)
    requires Sane(s) && s.reader.RParse?
    ensures var s', c := ParseStep(s, alloc), At(s.reader.round);
      var (y, msg) := Parsed(s.clients[c]);
      && s'.clients == s.clients[c := y] && s'.writerLog == s.writerLog && s'.writer == s.writer && !s'.reader.RDeliver?
      && (s'.reader.RSend? ==> msg.Some? && |y.handled| != |s.clients[c].handled|)
      && s'.readerLog == s.readerLog + if s'.reader.RSend? then [Record(c, |s.clients[c].handled|, msg.value)] else []
  {
    ParseStepIs(s, alloc);
    ParsedStream(s.clients[At(s.reader.round)]);
  }

  /** One record more, of a message after all that are in the log. */
  lemma RecordsAdd(cs: seq<Client>, rl: seq<Record>, r: Record)
    requires RecordsOk(cs, rl) && RecordOk(cs, r) && r.order + 1 == |cs[r.sender].handled|
    requires forall k :: 0 <= k < |rl| && rl[k].sender == r.sender ==> rl[k].order < r.order
    ensures RecordsOk(cs, rl + [r])
  {
  }

  ghost predicate SameFrames(cs: seq<Client>, cs': seq<Client>) {
    |cs| == |cs'| && forall c :: 0 <= c < |cs| ==> cs[c].out == cs'[c].out
  }

  lemma FramesKept(cs: seq<Client>, cs': seq<Client>, source: Source, n: int, wl: seq<Notice>, w: Writer)
    requires SameFrames(cs, cs') && AllInOrder(cs) && WriterDelivers(cs, wl, w)
    ensures AllInOrder(cs') && WriterDelivers(cs', wl, w)
    ensures AllBehind(cs, source, n) ==> AllBehind(cs', source, n)
  {
    if w.WDeliver? {
      GoingOn(cs, cs', ByWriter, |wl| - 1, w.delivery);
    }
  }

  lemma ParsedRest(x: Client)
    requires ScanIsSound(x.inbox)
    ensures Parsed(x).0.out == x.out
  {
  }

  lemma GoingOn(cs: seq<Client>, cs': seq<Client>, source: Source, n: int, d: Delivery)
    requires SameFrames(cs, cs')
    requires Going(cs, source, n, d)
    ensures Going(cs', source, n, d)
  {
    assert Reached(cs, source, n) == Reached(cs', source, n);
  }

  lemma RecordsGrow(cs: seq<Client>, c: nat, y: Client, rl: seq<Record>)
    requires c < |cs| && RecordsOk(cs, rl) && InputOk(y) && cs[c].handled <= y.handled
    ensures RecordsOk(cs[c := y], rl)
    ensures forall k :: 0 <= k < |rl| && rl[k].sender == c ==> rl[k].order < |cs[c].handled|
  {
    forall k | 0 <= k < |rl|
      ensures RecordOk(cs[c := y], rl[k])
    {
      if rl[k].sender == c {
        var more := y.handled[|cs[c].handled|..];
        assert cs[c].handled + more == y.handled;
        MsgAtPrefix(cs[c].handled, more, rl[k].order);
      }
    }
  }

  lemma ReaderElse(s: State, r: Read)
    requires DeliveriesOk(s) && CanRead(s, r) && RegistryOk(ReadStep(s, r)) && OutputsOk(ReadStep(s, r))
    requires !r.DeliverOne? && !r.ParseOne? && !r.DeliverSnapshot?
    ensures DeliveriesOk(ReadStep(s, r))
  {
    ReaderTouchesNoDelivery(s, r);
    FramesKept(s.clients, ReadStep(s, r).clients, ByReader, 0, s.writerLog, s.writer);
    RecordsKept(s.clients, ReadStep(s, r).clients, s.readerLog);
  }

  lemma ReaderTouchesNoDelivery(s: State, r: Read)
    requires Sane(s) && CanRead(s, r) && !r.DeliverOne? && !r.ParseOne? && !r.DeliverSnapshot?
    ensures var s' := ReadStep(s, r);
      && SameFrames(s.clients, s'.clients) && SameHandled(s.clients, s'.clients)
      && s'.readerLog == s.readerLog && s'.writerLog == s.writerLog && s'.writer == s.writer
      && !s'.reader.RSend? && !s'.reader.RDeliver?
  {
  }

  ghost predicate SameHandled(cs: seq<Client>, cs': seq<Client>) {
    |cs| == |cs'| && forall c :: 0 <= c < |cs| ==> cs[c].handled == cs'[c].handled
  }

  lemma RecordsKept(cs: seq<Client>, cs': seq<Client>, rl: seq<Record>)
    requires SameHandled(cs, cs') && RecordsOk(cs, rl)
    ensures RecordsOk(cs', rl)
  {
  }

  lemma DeliveriesWrite(s: State, w: Write)
    requires DeliveriesOk(s) && CanWrite(s, w) && RegistryOk(WriteStep(s, w)) && OutputsOk(WriteStep(s, w))
    ensures DeliveriesOk(WriteStep(s, w))
  {
    if w.LogoutDeliverOne? {
      WriterOffers(s, w.taken);
    } else if w.LogoutAnnounce? {
      WriterLogs(s, w.memory);
    } else if w.LogoutSnapshot? {
      WriterBegins(s, w.clients);
    } else {
      WriterElse(s, w);
    }
  }

  lemma WriterOffers(s: State, taken: nat)
    requires DeliveriesOk(s) && CanWrite(s, LogoutDeliverOne(taken))
    requires RegistryOk(WriteStep(s, LogoutDeliverOne(taken))) && OutputsOk(WriteStep(s, LogoutDeliverOne(taken)))
    ensures DeliveriesOk(WriteStep(s, LogoutDeliverOne(taken)))
  {
    var d, c := s.writer.delivery, s.writer.delivery.targets[s.writer.delivery.pos];
    OfferGoes(s.clients, ByWriter, |s.writerLog| - 1, WriterMsg(s), d, taken);
    OfferRecords(s.clients, c, ByWriter, |s.writerLog| - 1, WriterMsg(s), taken, s.readerLog);
    var rd := if s.reader.RDeliver? then s.reader.delivery else d;
    var msg := if s.reader.RDeliver? then ReaderMsg(s) else WriterMsg(s);
    OfferAside(s.clients, c, ByWriter, |s.writerLog| - 1, WriterMsg(s), taken, ByReader, |s.readerLog| - 1, rd, msg);
  }

  lemma WriterLogs(s: State, memory: bool)
    requires DeliveriesOk(s) && CanWrite(s, LogoutAnnounce(memory))
    requires RegistryOk(WriteStep(s, LogoutAnnounce(memory))) && OutputsOk(WriteStep(s, LogoutAnnounce(memory)))
    ensures DeliveriesOk(WriteStep(s, LogoutAnnounce(memory)))
  {
    BehindTheLog(s);
  }

  lemma WriterBegins(s: State, clients: bool)
    requires DeliveriesOk(s) && CanWrite(s, LogoutSnapshot(clients))
    requires RegistryOk(WriteStep(s, LogoutSnapshot(clients))) && OutputsOk(WriteStep(s, LogoutSnapshot(clients)))
    ensures DeliveriesOk(WriteStep(s, LogoutSnapshot(clients)))
  {
    DeliveryBegins(s.clients, ByWriter, |s.writerLog| - 1, WriterMsg(s), if clients then s.registry else []);
  }

  lemma BehindTheLog(s: State)
    requires OutputsOk(s)
    ensures AllBehind(s.clients, ByReader, |s.readerLog|) && AllBehind(s.clients, ByWriter, |s.writerLog|)
  {
    forall c | 0 <= c < |s.clients|
      ensures Behind(s.clients[c].out, ByReader, |s.readerLog|) && Behind(s.clients[c].out, ByWriter, |s.writerLog|)
    {
      var x := s.clients[c];
      assert forall k :: 0 <= k < |x.out| ==> EntryOk(x.out[k], x.sent[k], s.readerLog, s.writerLog);
    }
  }

  lemma WriterElse(s: State, w: Write)
    requires DeliveriesOk(s) && CanWrite(s, w) && RegistryOk(WriteStep(s, w)) && OutputsOk(WriteStep(s, w))
    requires !w.LogoutDeliverOne? && !w.LogoutAnnounce? && !w.LogoutSnapshot?
    ensures DeliveriesOk(WriteStep(s, w))
  {
    WriterTouchesNoDelivery(s, w);
    SameKeeps(s.clients, WriteStep(s, w).clients, s.readerLog, s.writerLog, s.reader, WriteStep(s, w).writer);
  }

  lemma WriterTouchesNoDelivery(s: State, w: Write)
    requires Sane(s) && CanWrite(s, w) && !w.LogoutDeliverOne? && !w.LogoutAnnounce? && !w.LogoutSnapshot?
    ensures var s' := WriteStep(s, w);
      && SameDeliveries(s.clients, s'.clients) && !s'.writer.WDeliver? && !s'.writer.WSend?
      && s'.readerLog == s.readerLog && s'.writerLog == s.writerLog && s'.reader == s.reader
  {
  }
}
