// What holds over whole runs of the server, from the bytes one client sends to the bytes
// another is sent.

module Runs {
  import opened Bytes
  import opened Protocol
  import opened ServerSteps
  import opened Registry
  import opened Streams
  import opened Deliveries
  import opened WakeUp

  lemma {:induction false} Invariant(states: seq<State>, acts: seq<Action>, k: nat)
    requires IsRun(states, acts) && k < |states|
    ensures DeliveriesOk(states[k])
  {
    if k == 0 {
      DeliveriesStart();
    } else {
      Invariant(states, acts, k - 1);
      DeliveriesPreserved(states[k - 1], acts[k - 1]);
    }
  }

  // ----- registration and logout

  /** The list has the length that snapshots allocate, and its sockets are open and distinct. */
  lemma SnapshotsFit(states: seq<State>, acts: seq<Action>, k: nat)
    requires IsRun(states, acts) && k < |states|
    ensures var s := states[k];
      && s.count == |s.registry|
      && (forall i :: 0 <= i < |s.registry| ==>
             s.registry[i] < |s.clients| && s.clients[s.registry[i]].socket in s.open)
      && (forall i, j :: 0 <= i < j < |s.registry| ==>
            s.clients[s.registry[i]].socket != s.clients[s.registry[j]].socket)
  {
    Invariant(states, acts, k);
    var s := states[k];
    forall i | 0 <= i < |s.registry|
      ensures s.registry[i] < |s.clients| && s.clients[s.registry[i]].socket in s.open
    {
      assert s.registry[i] in s.registry && Socks(s.clients)[s.registry[i]] in s.open;
    }
    forall i, j | 0 <= i < j < |s.registry|
      ensures s.clients[s.registry[i]].socket != s.clients[s.registry[j]].socket
    {
      OthersDiffer(s, j);
    }
  }

  /** Who has left the list does not come back. */
  lemma {:induction false} GoneForGood(states: seq<State>, acts: seq<Action>, i: nat, j: nat, c: nat)
    requires IsRun(states, acts) && i <= j < |states|
    requires c < |states[i].clients| && c !in states[i].registry
    ensures c < |states[j].clients| && c !in states[j].registry
  {
    if i < j {
      GoneForGood(states, acts, i, j - 1, c);
      NobodyReturns(states[j - 1], acts[j - 1], c);
    }
  }

  lemma NobodyReturns(s: State, a: Action, c: nat)
    requires Sane(s) && Enabled(s, a) && c < |s.clients| && c !in s.registry
    ensures c < |Apply(s, a).clients| && c !in Apply(s, a).registry
  {
    match a
    case Listens(l) =>
    case Reads(r) => ReadFrame(s, r);
    case Writes(w) =>
      if w.LogoutRemove? {
        RemoveKeeps(s.clients, s.registry, s.clients[s.writer.snap[s.writer.i]].socket);
      }
  }

  /** Each client is logged out at most once; its logout takes it, and nobody else, off
      the list; and is announced at most once. */
  lemma LoggedOutOnce(states: seq<State>, acts: seq<Action>, i: nat, j: nat)
    requires IsRun(states, acts) && i < j < |acts|
    requires acts[i] == Writes(LogoutRemove) && acts[j] == Writes(LogoutRemove)
    ensures WriterFits(|states[i].clients|, |states[i].writerLog|, states[i].writer)
      && WriterFits(|states[j].clients|, |states[j].writerLog|, states[j].writer)
      && CanWrite(states[i], LogoutRemove) && CanWrite(states[j], LogoutRemove)
    ensures var c := states[i].writer.snap[states[i].writer.i];
      && c != states[j].writer.snap[states[j].writer.i]
      && (forall id :: id in states[i + 1].registry <==> id in states[i].registry && id != c)
      && forall m, n :: 0 <= m < n < |states[j].writerLog| ==> states[j].writerLog[m].who != states[j].writerLog[n].who
  {
    Invariant(states, acts, i);
    Invariant(states, acts, j);
    var c, d := states[i].writer.snap[states[i].writer.i], states[j].writer.snap[states[j].writer.i];
    LogoutRemovesItsOwn(states[i], c);
    GoneForGood(states, acts, i + 1, j, c);
  }

  /** The client that the reader reads from or fails is on the list, and its socket open. */
  lemma ReaderStaysWithTheListed(states: seq<State>, acts: seq<Action>, k: nat)
    requires IsRun(states, acts) && k < |acts|
    requires acts[k].Reads?
      && (acts[k].r.ReaderFetch? || acts[k].r.ReaderFetchFails? || acts[k].r.MarkFail? || acts[k].r.ParseOne?)
    ensures !states[k].reader.RIdle? && states[k].reader.round.i < |states[k].reader.round.snap|
    ensures var s := states[k];
      var c := At(s.reader.round);
      c in s.registry && c !in s.closed && c < |s.clients| && !s.clients[c].failed && s.clients[c].socket in s.open
  {
    Invariant(states, acts, k);
    var s := states[k];
    var c := At(s.reader.round);
    assert !Fails(s.clients)[c];
    assert Socks(s.clients)[c] in s.open;
  }

  /** A delivery, by either thread, gives nothing to a client that has been closed. */
  lemma ClosedGetNothing(states: seq<State>, acts: seq<Action>, k: nat, c: nat)
    requires IsRun(states, acts) && k < |acts| && c < |states[k].clients| && c in states[k].closed
    ensures c < |states[k + 1].clients|
    ensures states[k + 1].clients[c].out == states[k].clients[c].out
    ensures states[k + 1].clients[c].flushed == states[k].clients[c].flushed
  {
    Invariant(states, acts, k);
    var s := states[k];
    assert Fails(s.clients)[c];
    match acts[k]
    case Listens(l) =>
    case Reads(r) => FailedGetNothingRead(s, r, c);
    case Writes(w) => FailedGetNothingWrite(s, w, c);
  }

  lemma FailedGetNothingRead(s: State, r: Read, c: nat)
    requires Sane(s) && CanRead(s, r) && c < |s.clients| && s.clients[c].failed
    ensures var s' := ReadStep(s, r);
      |s'.clients| == |s.clients| && s'.clients[c].out == s.clients[c].out
        && s'.clients[c].flushed == s.clients[c].flushed
  {
  }

  lemma FailedGetNothingWrite(s: State, w: Write, c: nat)
    requires Sane(s) && CanWrite(s, w) && c < |s.clients| && s.clients[c].failed
    ensures var s' := WriteStep(s, w);
      |s'.clients| == |s.clients| && s'.clients[c].out == s.clients[c].out
        && s'.clients[c].flushed == s.clients[c].flushed
  {
  }

  // ----- input

  /** Whenever the reader is not in the middle of a client's messages, it has handled
      exactly the messages in the bytes received, each once and in order. */
  lemma HandledExactly(states: seq<State>, acts: seq<Action>, k: nat, c: nat)
    requires IsRun(states, acts) && k < |states| && c < |states[k].clients|
    ensures var x := states[k].clients[c];
      && x.handled <= Messages(x.received)
      && (c !in Parsing(states[k].reader) ==> x.handled == Messages(x.received) && x.inbox.inbuf == Residue(x.received))
  {
    Invariant(states, acts, k);
    var x := states[k].clients[c];
    assert InputOk(x);
    SplitIsUnique(x.handled, x.inbox.inbuf);
    if c !in Parsing(states[k].reader) {
      NoNewlineNoMessages(x.inbox.inbuf);
      Nothing(x.handled);
    }
  }

  // ----- output

  /** At every moment the bytes written and waiting are the frames delivered, in order; cut
      at newlines they are those frames exactly if memory sufficed for each. */
  lemma OutputIntegrity(states: seq<State>, acts: seq<Action>, k: nat, c: nat)
    requires IsRun(states, acts) && k < |states| && c < |states[k].clients|
    ensures var s, x := states[k], states[k].clients[c];
      && OutputOk(x, s.readerLog, s.writerLog)
      && (Messages(Stream(x)) == Frames(x, s.readerLog, s.writerLog) <==> x.sent == Frames(x, s.readerLog, s.writerLog))
      && (x.sent == Frames(x, s.readerLog, s.writerLog) ==> Residue(Stream(x)) == [])
  {
    Invariant(states, acts, k);
    OutputIsFrames(states[k].clients[c], states[k].readerLog, states[k].writerLog);
  }

  // ----- who gets what

  /** When a delivery by the reader ends, exactly those clients have got the frame that
      were listed when it began and that the message is for; and that is how many it counts. */
  lemma ExactDeliverySet(states: seq<State>, acts: seq<Action>, k: nat) returns (j: nat)
    requires IsRun(states, acts) && k < |acts| && acts[k] == Reads(DeliverEnds)
    ensures states[k].reader.RDeliver? && states[k].readerLog != []
    ensures j < k && acts[j].Reads? && acts[j].r.DeliverSnapshot?
    ensures var s := states[k];
      var targets := if acts[j].r.list then states[j].registry else [];
      var meant := Meant(s.clients, targets, ReaderMsg(s));
      && Reached(s.clients, ByReader, |s.readerLog| - 1) == meant
      && s.reader.delivery.count == |meant|
      && s.readerLog == states[j].readerLog
  {
    AtItsEnd(states, acts, k);
    j := DeliveryBegan(states, acts, k);
  }

  lemma AtItsEnd(states: seq<State>, acts: seq<Action>, k: nat)
    requires IsRun(states, acts) && k < |acts| && acts[k] == Reads(DeliverEnds)
    ensures states[k].reader.RDeliver? && states[k].readerLog != []
    ensures var s, d := states[k], states[k].reader.delivery;
      && Reached(s.clients, ByReader, |s.readerLog| - 1) == Meant(s.clients, d.targets, ReaderMsg(s))
      && d.count == |Meant(s.clients, d.targets, ReaderMsg(s))|
  {
    Invariant(states, acts, k);
    EndOfDelivery(states[k]);
  }

  lemma EndOfDelivery(s: State)
    requires DeliveriesOk(s) && s.reader.RDeliver? && s.reader.delivery.pos == |s.reader.delivery.targets|
    ensures s.readerLog != []
    ensures var meant := Meant(s.clients, s.reader.delivery.targets, ReaderMsg(s));
      Reached(s.clients, ByReader, |s.readerLog| - 1) == meant && s.reader.delivery.count == |meant|
  {
    DeliveryDone(s.clients, |s.readerLog| - 1, ReaderMsg(s), s.reader.delivery);
  }

  lemma DeliveryDone(cs: seq<Client>, n: int, msg: Msg, d: Delivery)
    requires Going(cs, ByReader, n, d) && Exact(cs, ByReader, n, msg, d) && d.pos == |d.targets|
    ensures Reached(cs, ByReader, n) == Meant(cs, d.targets, msg) && d.count == |Meant(cs, d.targets, msg)|
  {
    assert d.targets[..d.pos] == d.targets;
    assert forall c :: c in Reached(cs, ByReader, n) <==> c in Meant(cs, d.targets, msg);
  }

  /** A delivery goes through the list as it was when the delivery began. */
  lemma {:induction false} DeliveryBegan(states: seq<State>, acts: seq<Action>, k: nat) returns (j: nat)
    requires IsRun(states, acts) && k < |states| && states[k].reader.RDeliver?
    ensures j < k && acts[j].Reads? && acts[j].r.DeliverSnapshot?
    ensures states[k].reader.delivery.targets == if acts[j].r.list then states[j].registry else []
    ensures states[k].readerLog == states[j].readerLog
  {
    j := k - 1;
    if !(acts[j].Reads? && acts[j].r.DeliverSnapshot?) {
      StillDelivering(states[j], acts[j]);
      j := DeliveryBegan(states, acts, j);
    }
  }

  lemma StillDelivering(s: State, a: Action)
    requires Sane(s) && Enabled(s, a) && Apply(s, a).reader.RDeliver? && !(a.Reads? && a.r.DeliverSnapshot?)
    ensures s.reader.RDeliver? && s.readerLog == Apply(s, a).readerLog
    ensures s.reader.delivery.targets == Apply(s, a).reader.delivery.targets
  {
  }

  // ----- order

  /** The frames that the messages of one client have others be sent. */
  function Said(ms: seq<Bytes>): seq<Bytes>
    requires AllMessages(ms)
  {
    if ms == [] then []
    else
      Said(ms[..|ms| - 1]) +
      (match MsgAt(ms, |ms| - 1)
       case None => []
       case Some(msg) => [msg.content])
  }

  lemma {:induction false} SaidPrefix(ms: seq<Bytes>, n: nat) returns (more: seq<Bytes>)
    requires AllMessages(ms) && n <= |ms|
    ensures Said(ms) == Said(ms[..n]) + more
    decreases |ms| - n
  {
    if n == |ms| {
      assert ms[..n] == ms;
      more := [];
      Nothing(Said(ms));
    } else {
      more := SaidPrefix(ms, n + 1);
      var m := ms[..n + 1];
      assert m[..n] == ms[..n];
      assert Said(m) == Said(ms[..n]) + Said(m)[|Said(ms[..n])|..];
      Associate(Said(ms[..n]), Said(m)[|Said(ms[..n])|..], more);
      more := Said(m)[|Said(ms[..n])|..] + more;
    }
  }

  /** Of a list of frames, those that come from messages of client `a`. */
  function Heard(out: seq<Entry>, rl: seq<Record>, a: nat): seq<Bytes>
    requires forall p :: 0 <= p < |out| && out[p].source.ByReader? ==> out[p].index < |rl|
  {
    if out == [] then []
    else
      var e := out[|out| - 1];
      Heard(out[..|out| - 1], rl, a)
      + if e.source.ByReader? && rl[e.index].sender == a then [rl[e.index].msg.content] else []
  }

  /** A frame from a message of `a` is heard, in its turn. */
  lemma {:induction false} HeardAt(out: seq<Entry>, rl: seq<Record>, a: nat, q: nat)
    requires forall p :: 0 <= p < |out| && out[p].source.ByReader? ==> out[p].index < |rl|
    requires q < |out| && out[q].source.ByReader? && rl[out[q].index].sender == a
    ensures |Heard(out[..q], rl, a)| < |Heard(out, rl, a)|
    ensures Heard(out, rl, a)[|Heard(out[..q], rl, a)|] == rl[out[q].index].msg.content
    decreases |out|
  {
    var init := out[..|out| - 1];
    if q < |out| - 1 {
      HeardAt(init, rl, a, q);
      assert init[..q] == out[..q];
    }
  }

  lemma {:induction false} HeardInOrder(out: seq<Entry>, cs: seq<Client>, rl: seq<Record>, a: nat, h: nat)
    requires InLogOrder(out) && RecordsOk(cs, rl) && a < |cs| && AllMessages(cs[a].handled) && h <= |cs[a].handled|
    requires forall p :: 0 <= p < |out| && out[p].source.ByReader? ==> out[p].index < |rl|
    requires forall p :: 0 <= p < |out| && out[p].source.ByReader? && rl[out[p].index].sender == a ==>
      rl[out[p].index].order < h
    ensures Subsequence(Heard(out, rl, a), Said(cs[a].handled[..h]))
    decreases |out|
  {
    if out != [] {
      var e, init := out[|out| - 1], out[..|out| - 1];
      if e.source.ByReader? && rl[e.index].sender == a {
        var o := rl[e.index].order;
        assert RecordOk(cs, rl[e.index]);
        HeardInOrder(init, cs, rl, a, o);
        HeardNext(Heard(init, rl, a), cs[a].handled, o, h, rl[e.index].msg);
      } else {
        HeardInOrder(init, cs, rl, a, h);
        Nothing(Heard(init, rl, a));
      }
    }
  }

  lemma HeardNext(heard: seq<Bytes>, ms: seq<Bytes>, o: nat, h: nat, msg: Msg)
    requires AllMessages(ms) && o < h <= |ms| && MsgAt(ms, o) == Some(msg)
    requires Subsequence(heard, Said(ms[..o]))
    ensures Subsequence(heard + [msg.content], Said(ms[..h]))
  {
    SaidNext(ms, o, msg);
    SubsequenceSnoc(heard, Said(ms[..o]), msg.content);
    assert ms[..h][..o + 1] == ms[..o + 1];
    var more := SaidPrefix(ms[..h], o + 1);
    SubsequenceExtend(heard + [msg.content], Said(ms[..o + 1]), more);
  }

  lemma SaidNext(ms: seq<Bytes>, o: nat, msg: Msg)
    requires AllMessages(ms) && o < |ms| && MsgAt(ms, o) == Some(msg)
    ensures Said(ms[..o + 1]) == Said(ms[..o]) + [msg.content]
  {
    var m := ms[..o + 1];
    assert m[..o] == ms[..o] && m[o] == ms[o];
  }

  /** What any client is sent of another's messages is, in order and without repetition,
      among what that other's bytes say. */
  lemma FirstInFirstOut(states: seq<State>, acts: seq<Action>, k: nat, a: nat, b: nat)
    requires IsRun(states, acts) && k < |states| && a < |states[k].clients| && b < |states[k].clients|
    ensures var s := states[k];
      && (forall p :: 0 <= p < |s.clients[b].out| && s.clients[b].out[p].source.ByReader? ==>
             s.clients[b].out[p].index < |s.readerLog|)
      && AllMessages(Messages(s.clients[a].received))
      && Subsequence(Heard(s.clients[b].out, s.readerLog, a), Said(Messages(s.clients[a].received)))
  {
    Invariant(states, acts, k);
    HandledExactly(states, acts, k, a);
    BehindTheLog(states[k]);
    HeardFromStream(states[k].clients, states[k].readerLog, states[k].clients[b].out, a);
  }

  lemma HeardFromStream(cs: seq<Client>, rl: seq<Record>, out: seq<Entry>, a: nat)
    requires InLogOrder(out) && Behind(out, ByReader, |rl|) && RecordsOk(cs, rl)
    requires a < |cs| && cs[a].handled <= Messages(cs[a].received)
    ensures AllMessages(Messages(cs[a].received))
    ensures Subsequence(Heard(out, rl, a), Said(Messages(cs[a].received)))
  {
    var handled, all := cs[a].handled, Messages(cs[a].received);
    SplitIsClean(cs[a].received);
    assert forall i :: 0 <= i < |handled| ==> handled[i] == all[i];
    assert forall k :: 0 <= k < |rl| ==> RecordOk(cs, rl[k]);
    HeardInOrder(out, cs, rl, a, |handled|);
    assert handled[..|handled|] == handled == all[..|handled|];
    var more := SaidPrefix(all, |handled|);
    SubsequenceExtend(Heard(out, rl, a), Said(handled), more);
  }

  /** The frames that went into the reader's log for one client's messages. */
  function LoggedFor(rl: seq<Record>, a: nat): seq<Bytes> {
    if rl == [] then []
    else
      var r := rl[|rl| - 1];
      LoggedFor(rl[..|rl| - 1], a) + if r.sender == a then [r.msg.content] else []
  }

  /** The log holds what every client's messages say, in full. */
  ghost predicate AllLogged(cs: seq<Client>, rl: seq<Record>) {
    forall a :: 0 <= a < |cs| ==> AllMessages(cs[a].handled) && LoggedFor(rl, a) == Said(cs[a].handled)
  }

  /** As long as there is memory to build them, the reader delivers for every message of
      every client exactly what it says, in order: none is passed over, none doubled. */
  lemma {:induction false} NothingPassedOver(states: seq<State>, acts: seq<Action>, k: nat)
    requires IsRun(states, acts) && k < |states|
    requires forall i :: 0 <= i < k ==> acts[i] != Reads(ParseOne(false))
    ensures AllLogged(states[k].clients, states[k].readerLog)
  {
    if k > 0 {
      NothingPassedOver(states, acts, k - 1);
      Invariant(states, acts, k - 1);
      Invariant(states, acts, k);
      var s, a := states[k - 1], acts[k - 1];
      match a
      case Listens(l) => NewcomerSaysNothing(s, l);
      case Reads(r) =>
        if r.ParseOne? {
          ParseIsLogged(s);
        } else {
          ReadHandlesNothing(s, r);
          LoggedStill(s.clients, states[k].clients, s.readerLog);
        }
      case Writes(w) =>
        WriteKeepsInput(s, w);
        WriteLogsNothing(s, w);
        LoggedStill(s.clients, states[k].clients, s.readerLog);
    }
  }

  lemma LoggedStill(cs: seq<Client>, cs': seq<Client>, rl: seq<Record>)
    requires SameHandled(cs, cs') && AllLogged(cs, rl)
    ensures AllLogged(cs', rl)
  {
  }

  lemma ReadHandlesNothing(s: State, r: Read)
    requires Sane(s) && CanRead(s, r) && !r.ParseOne?
    ensures SameHandled(s.clients, ReadStep(s, r).clients) && ReadStep(s, r).readerLog == s.readerLog
  {
  }

  lemma WriteLogsNothing(s: State, w: Write)
    requires Sane(s) && CanWrite(s, w)
    ensures WriteStep(s, w).readerLog == s.readerLog
  {
  }

  lemma NewcomerSaysNothing(s: State, l: Listen)
    requires DeliveriesOk(s) && CanListen(s, l) && AllLogged(s.clients, s.readerLog)
    ensures AllLogged(ListenStep(s, l).clients, s.readerLog)
  {
    assert forall k :: 0 <= k < |s.readerLog| ==> RecordOk(s.clients, s.readerLog[k]);
    NothingFrom(s.readerLog, |s.clients|);
  }

  lemma {:induction false} NothingFrom(rl: seq<Record>, a: nat)
    requires forall k :: 0 <= k < |rl| ==> rl[k].sender != a
    ensures LoggedFor(rl, a) == []
  {
    if rl != [] {
      NothingFrom(rl[..|rl| - 1], a);
    }
  }

  lemma ParseIsLogged(s: State)
    requires DeliveriesOk(s) && s.reader.RParse? && AllLogged(s.clients, s.readerLog)
    ensures AllLogged(ParseStep(s, true).clients, ParseStep(s, true).readerLog)
  {
    var c := At(s.reader.round);
    var x := s.clients[c];
    var y := Parsed(x).0;
    ParsedInput(x);
    ParseLogs(s);
    if y.handled != x.handled {
      OneMessageMore(x.handled, y.handled, s.readerLog, c);
    }
    forall a | 0 <= a < |s.clients| && a != c
      ensures LoggedFor(ParseStep(s, true).readerLog, a) == LoggedFor(s.readerLog, a)
    {
      OneRecordAside(s.readerLog, ParseStep(s, true).readerLog, c, a);
    }
  }

  lemma ParseLogs(s: State)
    requires Sane(s) && s.reader.RParse?
    ensures var s', c, x := ParseStep(s, true), At(s.reader.round), s.clients[At(s.reader.round)];
      && s'.clients == s.clients[c := Parsed(x).0]
      && s'.readerLog == s.readerLog
         + if |Parsed(x).0.handled| != |x.handled| && Parsed(x).1.Some?
           then [Record(c, |x.handled|, Parsed(x).1.value)] else []
  {
    ParseStepIs(s, true);
    ParsedStream(s.clients[At(s.reader.round)]);
  }

  lemma OneMessageMore(ms: seq<Bytes>, ms': seq<Bytes>, rl: seq<Record>, c: nat)
    requires AllMessages(ms') && ms <= ms' && |ms'| == |ms| + 1
    requires AllMessages(ms) && LoggedFor(rl, c) == Said(ms)
    ensures LoggedFor(rl + (match MsgAt(ms', |ms|) case None => [] case Some(msg) => [Record(c, |ms|, msg)]), c)
      == Said(ms')
  {
    assert ms'[..|ms|] == ms;
    match MsgAt(ms', |ms|)
    case None =>
      Nothing(rl);
      Nothing(Said(ms));
    case Some(msg) =>
      assert (rl + [Record(c, |ms|, msg)])[..|rl|] == rl;
  }

  lemma OneRecordAside(rl: seq<Record>, rl': seq<Record>, c: nat, a: nat)
    requires rl' == rl || (rl <= rl' && |rl'| == |rl| + 1 && rl'[|rl|].sender == c)
    requires a != c
    ensures LoggedFor(rl', a) == LoggedFor(rl, a)
  {
    if rl' != rl {
      assert rl'[..|rl|] == rl;
      Nothing(LoggedFor(rl, a));
    }
  }

  lemma OrderAgrees(out: seq<Entry>, out': seq<Entry>, p: nat, q: nat, p': nat, q': nat)
    requires InLogOrder(out) && InLogOrder(out') && p < q < |out| && p' < |out'| && q' < |out'|
    requires out[p].source == out[q].source == out'[p'].source == out'[q'].source
    requires out[p].index == out'[p'].index && out[q].index == out'[q'].index
    ensures p' < q'
  {
    assert out[p].index < out[q].index;
  }

  /** Two clients that both get two of the reader's frames get them in the same order. */
  lemma RecipientsAgree(states: seq<State>, acts: seq<Action>, k: nat, b: nat, c: nat, p: nat, q: nat, p': nat, q': nat)
    requires IsRun(states, acts) && k < |states| && b < |states[k].clients| && c < |states[k].clients|
    requires var out, out' := states[k].clients[b].out, states[k].clients[c].out;
      && p < q < |out| && p' < |out'| && q' < |out'|
      && out[p].source == out[q].source == out'[p'].source == out'[q'].source
      && out[p].index == out'[p'].index && out[q].index == out'[q'].index
    ensures p' < q'
  {
    Invariant(states, acts, k);
    OrderAgrees(states[k].clients[b].out, states[k].clients[c].out, p, q, p', q');
  }

  /** The frames of one thread, as a list. */
  function ByThread(out: seq<Entry>, source: Source, log: seq<Bytes>): seq<Bytes>
    requires forall p :: 0 <= p < |out| && out[p].source == source ==> out[p].index < |log|
  {
    if out == [] then []
    else
      var e := out[|out| - 1];
      ByThread(out[..|out| - 1], source, log) + if e.source == source then [log[e.index]] else []
  }

  /** A frame of the thread is on the list, in its turn; and the two lists together hold as
      many as there are. */
  lemma {:induction false} ThreadAt(out: seq<Entry>, source: Source, log: seq<Bytes>, q: nat)
    requires forall p :: 0 <= p < |out| && out[p].source == source ==> out[p].index < |log|
    requires q < |out| && out[q].source == source
    ensures |ByThread(out[..q], source, log)| < |ByThread(out, source, log)|
    ensures ByThread(out, source, log)[|ByThread(out[..q], source, log)|] == log[out[q].index]
    decreases |out|
  {
    var init := out[..|out| - 1];
    if q < |out| - 1 {
      ThreadAt(init, source, log, q);
      assert init[..q] == out[..q];
    }
  }

  lemma {:induction false} ThreadsShareOut(out: seq<Entry>, rf: seq<Bytes>, wf: seq<Bytes>)
    requires Behind(out, ByReader, |rf|) && Behind(out, ByWriter, |wf|)
    ensures |ByThread(out, ByReader, rf)| + |ByThread(out, ByWriter, wf)| == |out|
  {
    if out != [] {
      ThreadsShareOut(out[..|out| - 1], rf, wf);
    }
  }

  lemma {:induction false} ThreadInOrder(out: seq<Entry>, source: Source, log: seq<Bytes>, h: nat)
    requires InLogOrder(out) && h <= |log| && Behind(out, source, h)
    ensures Subsequence(ByThread(out, source, log), log[..h])
    decreases |out|
  {
    if out != [] {
      var e, init := out[|out| - 1], out[..|out| - 1];
      if e.source == source {
        ThreadInOrder(init, source, log, e.index);
        SubsequenceSnoc(ByThread(init, source, log), log[..e.index], log[e.index]);
        TakeNext(log, e.index);
        SubsequenceExtend(ByThread(out, source, log), log[..e.index + 1], log[e.index + 1..h]);
        assert log[..e.index + 1] + log[e.index + 1..h] == log[..h];
      } else {
        ThreadInOrder(init, source, log, h);
        Nothing(ByThread(init, source, log));
      }
    }
  }

  function ReaderFrames(rl: seq<Record>): (r: seq<Bytes>)
    ensures |r| == |rl|
  {
    seq(|rl|, k requires 0 <= k < |rl| => rl[k].msg.content)
  }

  function WriterFrames(wl: seq<Notice>): (r: seq<Bytes>)
    ensures |r| == |wl|
  {
    seq(|wl|, k requires 0 <= k < |wl| => wl[k].msg.content)
  }

  /** What a client is sent is made of a part, in order, of the one list of frames that the
      reader delivers to anybody, and a part, in order, of the writer's logout notices. */
  lemma TwoLogsInterleaved(states: seq<State>, acts: seq<Action>, k: nat, c: nat)
    requires IsRun(states, acts) && k < |states| && c < |states[k].clients|
    ensures var s := states[k];
      && Behind(s.clients[c].out, ByReader, |s.readerLog|) && Behind(s.clients[c].out, ByWriter, |s.writerLog|)
      && Subsequence(ByThread(s.clients[c].out, ByReader, ReaderFrames(s.readerLog)), ReaderFrames(s.readerLog))
      && Subsequence(ByThread(s.clients[c].out, ByWriter, WriterFrames(s.writerLog)), WriterFrames(s.writerLog))
  {
    Invariant(states, acts, k);
    var s := states[k];
    BehindTheLog(s);
    var rf, wf := ReaderFrames(s.readerLog), WriterFrames(s.writerLog);
    ThreadInOrder(s.clients[c].out, ByReader, rf, |rf|);
    ThreadInOrder(s.clients[c].out, ByWriter, wf, |wf|);
    assert rf[..|rf|] == rf && wf[..|wf|] == wf;
  }

  // ----- from end to end

  /** A frame that was delivered to a client before a pass of the writer began has been
      written to its socket, whole and as a message of its own, when the pass has flushed:
      for every client that is listed when it begins and healthy when it has, and for which
      memory sufficed. */
  lemma ArrivesOnTheSocket(states: seq<State>, acts: seq<Action>, j: nat, p: nat, f: nat, c: nat, q: nat)
    requires IsRun(states, acts) && j <= p < f < |acts|
    requires acts[p] == Writes(WriterSnapshot) && acts[f] == Writes(FlushesEnd)
    requires forall n :: p < n < f ==> acts[n] != Writes(FlushesEnd)
    requires c < |states[j].clients| && c in states[p].registry && q < |states[j].clients[c].out|
    ensures c < |states[f].clients|
    ensures var s := states[j];
      && OutputOk(s.clients[c], s.readerLog, s.writerLog)
      && var frames := Frames(s.clients[c], s.readerLog, s.writerLog);
         Healthy(states[f].clients[c]) && s.clients[c].sent == frames ==>
           frames <= Messages(states[f].clients[c].flushed) && frames[q] in Messages(states[f].clients[c].flushed)
  {
    FlushedByThePass(states, acts, j, p, f, c);
    OutputIntegrity(states, acts, j, c);
    var s, x, y := states[j], states[j].clients[c], states[f].clients[c];
    if Healthy(y) && x.sent == Frames(x, s.readerLog, s.writerLog) {
      PrefixArrives(Stream(x), y.flushed, Frames(x, s.readerLog, s.writerLog), q);
    }
  }

  lemma PrefixArrives(stream: Bytes, flushed: Bytes, frames: seq<Bytes>, p: nat)
    requires stream <= flushed && Messages(stream) == frames && p < |frames|
    ensures frames <= Messages(flushed) && frames[p] in Messages(flushed)
  {
    var more := flushed[|stream|..];
    assert flushed == stream + more;
    MessagesAppend(stream, more);
    assert Messages(flushed)[p] == frames[p];
  }
}
