// What comes in and goes out over each connection, in every interleaving: messages are
// handled once and in order, and the output is made of whole frames.

module Streams {
  import opened Bytes
  import opened Framing
  import opened Protocol
  import opened ServerSteps

  // ----- input

  /** The name of a client that has sent these messages. */
  function NameAfter(ms: seq<Bytes>): Bytes
    requires AllMessages(ms)
  {
    if ms == [] then UNKNOWN_CLIENT
    else Handle(NameAfter(ms[..|ms| - 1]), ms[|ms| - 1]).0
  }

  /** What one of its messages has others be sent: a matter of that client's input alone. */
  function MsgAt(ms: seq<Bytes>, h: nat): Option<Msg>
    requires AllMessages(ms) && h < |ms|
  {
    Handle(NameAfter(ms[..h]), ms[h]).1
  }

  lemma {:induction false} NamesAreNames(ms: seq<Bytes>)
    requires AllMessages(ms)
    ensures IsName(NameAfter(ms))
  {
    if ms != [] {
      NamesAreNames(ms[..|ms| - 1]);
      HandleIsSound(NameAfter(ms[..|ms| - 1]), ms[|ms| - 1]);
    }
  }

  /** Later messages do not change what earlier ones said. */
  lemma MsgAtPrefix(ms: seq<Bytes>, more: seq<Bytes>, h: nat)
    requires AllMessages(ms + more) && h < |ms|
    ensures AllMessages(ms) && MsgAt(ms + more, h) == MsgAt(ms, h)
  {
    assert forall i :: 0 <= i < |ms| ==> ms[i] == (ms + more)[i];
    assert (ms + more)[..h] == ms[..h];
  }

  /** The messages handled and what is in the buffer are the bytes received; the name is
      the one that those messages give. */
  ghost predicate InputOk(x: Client) {
    && AllMessages(x.handled)
    && Concat(x.handled) + x.inbox.inbuf == x.received
    && x.name == NameAfter(x.handled)
  }

  /** The client whose messages the reader is handling. */
  function Parsing(r: Reader): set<nat> {
    match r
    case RParse(round, _) => if round.i < |round.snap| then {round.snap[round.i]} else {}
    case RSend(round, _) => if round.i < |round.snap| then {round.snap[round.i]} else {}
    case RDeliver(round, _, _) => if round.i < |round.snap| then {round.snap[round.i]} else {}
    case _ => {}
  }

  /** No complete message waits in the buffer of a client that the reader is not busy with. */
  ghost predicate Drained(cs: seq<Client>, busy: set<nat>) {
    forall c :: 0 <= c < |cs| && c !in busy ==> !HasNewline(cs[c].inbox.inbuf)
  }

  ghost predicate AllInputOk(cs: seq<Client>) {
    forall c :: 0 <= c < |cs| ==> InputOk(cs[c])
  }

  ghost predicate InputsOk(s: State) {
    Sane(s) && AllInputOk(s.clients) && Drained(s.clients, Parsing(s.reader))
  }

  lemma FedInput(x: Client, data: Bytes)
    requires InputOk(x)
    ensures InputOk(Fed(x, data))
  {
    Associate(Concat(x.handled), x.inbox.inbuf, data);
  }

  lemma ParsedInput(x: Client)
    requires InputOk(x) && ScanIsSound(x.inbox)
    ensures var y := Parsed(x).0;
      && InputOk(y)
      && x.handled <= y.handled
      && (y.handled == x.handled <==> !HasNewline(x.inbox.inbuf))
      && (y.handled == x.handled ==> y.inbox.inbuf == x.inbox.inbuf && y.name == x.name)
      && (y.handled != x.handled ==> |y.handled| == |x.handled| + 1 && MsgAt(y.handled, |x.handled|) == Parsed(x).1)
  {
    FetchTakesTheFirst(x.inbox);
    var (m, box) := Fetch(x.inbox);
    if m.Some? {
      var more := x.handled + [m.value];
      ConcatSnoc(x.handled, m.value);
      Associate(Concat(x.handled), m.value, box.inbuf);
      assert more[..|x.handled|] == x.handled;
    }
  }

  lemma InputsStart()
    ensures InputsOk(Initial())
  {
    IdleIsSane();
  }

  lemma InputsPreserved(s: State, a: Action)
    requires InputsOk(s) && Enabled(s, a)
    ensures InputsOk(Apply(s, a))
  {
    SanePreserved(s, a);
    match a
    case Listens(l) =>
    case Reads(r) => InputsRead(s, r);
    case Writes(w) =>
      WriteKeepsInput(s, w);
      InputUnread(s.clients, WriteStep(s, w).clients, Parsing(s.reader));
  }

  /** Nothing that the input depends on is different. */
  ghost predicate SameInput(cs: seq<Client>, cs': seq<Client>) {
    |cs| == |cs'| && forall c :: 0 <= c < |cs| ==>
      && cs[c].inbox == cs'[c].inbox && cs[c].received == cs'[c].received
      && cs[c].handled == cs'[c].handled && cs[c].name == cs'[c].name
  }

  lemma InputUnread(cs: seq<Client>, cs': seq<Client>, busy: set<nat>)
    requires SameInput(cs, cs') && AllInputOk(cs) && Drained(cs, busy)
    ensures AllInputOk(cs') && Drained(cs', busy)
  {
  }

  lemma WriteKeepsInput(s: State, w: Write)
    requires Sane(s) && CanWrite(s, w)
    ensures SameInput(s.clients, WriteStep(s, w).clients) && WriteStep(s, w).reader == s.reader
  {
  }

  lemma ReadKeepsInput(s: State, r: Read)
    requires Sane(s) && CanRead(s, r) && !r.ReaderFetch? && !r.ParseOne?
    ensures SameInput(s.clients, ReadStep(s, r).clients)
    ensures Parsing(s.reader) <= Parsing(ReadStep(s, r).reader)
  {
  }

  lemma InputsRead(s: State, r: Read)
    requires InputsOk(s) && CanRead(s, r) && Sane(ReadStep(s, r))
    ensures InputsOk(ReadStep(s, r))
  {
    if r.ReaderFetch? {
      FedInput(s.clients[At(s.reader.round)], r.data);
    } else if r.ParseOne? {
      InputsParse(s, r.alloc);
    } else {
      ReadKeepsInput(s, r);
      InputUnread(s.clients, ReadStep(s, r).clients, Parsing(ReadStep(s, r).reader));
    }
  }

  lemma InputsParse(s: State, alloc: bool)
    requires InputsOk(s) && s.reader.RParse? && Sane(ParseStep(s, alloc))
    ensures InputsOk(ParseStep(s, alloc))
  {
    ParsedInput(s.clients[At(s.reader.round)]);
    ParseFrame(s, alloc);
  }

  /** One message leaves the buffer and is handled, or there is none. */
  lemma ParsedStream(x: Client)
    requires ScanIsSound(x.inbox)
    ensures var y := Parsed(x).0;
      if HasNewline(x.inbox.inbuf) then
        && |y.handled| == |x.handled| + 1 && |y.inbox.inbuf| < |x.inbox.inbuf|
        && y.handled + Messages(y.inbox.inbuf) == x.handled + Messages(x.inbox.inbuf)
        && Residue(y.inbox.inbuf) == Residue(x.inbox.inbuf)
      else y.handled == x.handled && y.inbox.inbuf == x.inbox.inbuf
  {
    FetchTakesTheFirst(x.inbox);
    var (m, box) := Fetch(x.inbox);
    if m.Some? {
      MessagesCons(m.value, box.inbuf);
      Associate(x.handled, [m.value], Messages(box.inbuf));
    }
  }

  /** The shape of a parsing step. */
  lemma ParseStepIs(s: State, alloc: bool)
    requires Sane(s) && s.reader.RParse?
    ensures Enabled(s, Reads(ParseOne(alloc))) && Sane(Apply(s, Reads(ParseOne(alloc))))
    ensures var c := At(s.reader.round);
      var x, (y, msg) := s.clients[c], Parsed(s.clients[c]);
      Apply(s, Reads(ParseOne(alloc))) ==
        if !HasNewline(x.inbox.inbuf) then
          s.(clients := s.clients[c := y], reader := RNotify(s.reader.round, s.reader.need))
        else if msg == None || !alloc then s.(clients := s.clients[c := y])
        else
          s.(clients := s.clients[c := y], readerLog := s.readerLog + [Record(c, |x.handled|, msg.value)],
             reader := RSend(s.reader.round, s.reader.need))
  {
    SanePreserved(s, Reads(ParseOne(alloc)));
    ParsedStream(s.clients[At(s.reader.round)]);
  }

  lemma ParseFrame(s: State, alloc: bool)
    requires Sane(s) && s.reader.RParse?
    ensures var s', c := ParseStep(s, alloc), At(s.reader.round);
      && s'.clients == s.clients[c := Parsed(s.clients[c]).0]
      && (s'.reader.RNotify? ==> s'.clients[c].handled == s.clients[c].handled && s'.readerLog == s.readerLog)
      && (!s'.reader.RNotify? ==> Parsing(s'.reader) == {c})
  {
    ParseStepIs(s, alloc);
    ParsedStream(s.clients[At(s.reader.round)]);
  }

  // ----- output

  /** The message that an entry is about. */
  function MsgOf(e: Entry, rl: seq<Record>, wl: seq<Notice>): Msg
    requires e.index < if e.source.ByReader? then |rl| else |wl|
  {
    if e.source.ByReader? then rl[e.index].msg else wl[e.index].msg
  }

  /** A frame was stored, or a first part of it, for a client that it was meant for. */
  ghost predicate EntryOk(e: Entry, d: Bytes, rl: seq<Record>, wl: seq<Notice>) {
    && e.index < (if e.source.ByReader? then |rl| else |wl|)
    && d <= MsgOf(e, rl, wl).content
    && Eligible(MsgOf(e, rl, wl), e.to, false)
  }

  /** What has been written to the socket and what waits to be are the frames, in order. */
  ghost predicate OutputOk(x: Client, rl: seq<Record>, wl: seq<Notice>) {
    && |x.out| == |x.sent|
    && x.flushed + x.pending == Concat(x.sent)
    && forall k :: 0 <= k < |x.out| ==> EntryOk(x.out[k], x.sent[k], rl, wl)
  }

  ghost predicate LogsOk(rl: seq<Record>, wl: seq<Notice>) {
    && (forall k :: 0 <= k < |rl| ==> IsFrame(rl[k].msg))
    && (forall k :: 0 <= k < |wl| ==> IsFrame(wl[k].msg))
  }

  ghost predicate AllOutputOk(cs: seq<Client>, rl: seq<Record>, wl: seq<Notice>) {
    forall c :: 0 <= c < |cs| ==> OutputOk(cs[c], rl, wl)
  }

  ghost predicate OutputsOk(s: State) {
    InputsOk(s) && LogsOk(s.readerLog, s.writerLog) && AllOutputOk(s.clients, s.readerLog, s.writerLog)
  }

  lemma GivenOutput(x: Client, e: Entry, d: Bytes, rl: seq<Record>, wl: seq<Notice>)
    requires OutputOk(x, rl, wl) && EntryOk(e, d, rl, wl)
    ensures OutputOk(Given(x, e, d), rl, wl)
  {
    ConcatSnoc(x.sent, d);
    Associate(x.flushed, x.pending, d);
  }

  lemma FlushedOutput(x: Client, written: nat, rl: seq<Record>, wl: seq<Notice>)
    requires OutputOk(x, rl, wl) && written <= |x.pending|
    ensures OutputOk(Flushed(x, written), rl, wl)
  {
    CutJoins(x.pending, written);
    Associate(x.flushed, x.pending[..written], x.pending[written..]);
  }

  lemma LoggedOutput(x: Client, rl: seq<Record>, wl: seq<Notice>, rl': seq<Record>, wl': seq<Notice>)
    requires OutputOk(x, rl, wl) && rl <= rl' && wl <= wl'
    ensures OutputOk(x, rl', wl')
  {
  }

  lemma OfferOutput(cs: seq<Client>, c: nat, e: Entry, accepted: nat, rl: seq<Record>, wl: seq<Notice>)
    requires c < |cs| && OutputOk(cs[c], rl, wl)
    requires e.index < (if e.source.ByReader? then |rl| else |wl|) && e.to == cs[c].name
    requires accepted <= |MsgOf(e, rl, wl).content|
    ensures var cs' := Offer(cs, c, e.source, e.index, MsgOf(e, rl, wl), accepted).0;
      |cs'| == |cs| && cs' == cs[c := cs'[c]] && OutputOk(cs'[c], rl, wl)
    ensures AllOutputOk(cs, rl, wl) ==>
      AllOutputOk(Offer(cs, c, e.source, e.index, MsgOf(e, rl, wl), accepted).0, rl, wl)
  {
    var msg := MsgOf(e, rl, wl);
    if Eligible(msg, cs[c].name, cs[c].failed) {
      GivenOutput(cs[c], e, msg.content[..accepted], rl, wl);
    }
  }

  lemma OutputsStart()
    ensures OutputsOk(Initial())
  {
    InputsStart();
  }

  lemma OutputsPreserved(s: State, a: Action)
    requires OutputsOk(s) && Enabled(s, a)
    ensures OutputsOk(Apply(s, a))
  {
    InputsPreserved(s, a);
    match a
    case Listens(l) =>
    case Reads(r) => OutputsRead(s, r);
    case Writes(w) => OutputsWrite(s, w);
  }

  /** Nothing that the output depends on is different. */
  ghost predicate SameOutput(cs: seq<Client>, cs': seq<Client>) {
    |cs| == |cs'| && forall c :: 0 <= c < |cs| ==>
      && cs[c].out == cs'[c].out && cs[c].sent == cs'[c].sent
      && cs[c].flushed == cs'[c].flushed && cs[c].pending == cs'[c].pending
  }

  lemma OutputUntouched(s: State, s': State)
    requires OutputsOk(s) && SameOutput(s.clients, s'.clients) && s.readerLog <= s'.readerLog
      && s.writerLog <= s'.writerLog
    ensures AllOutputOk(s'.clients, s'.readerLog, s'.writerLog)
  {
    forall c | 0 <= c < |s'.clients|
      ensures OutputOk(s'.clients[c], s'.readerLog, s'.writerLog)
    {
      LoggedOutput(s.clients[c], s.readerLog, s.writerLog, s'.readerLog, s'.writerLog);
    }
  }

  lemma ReadKeepsOutput(s: State, r: Read)
    requires Sane(s) && CanRead(s, r) && !r.DeliverOne?
    ensures var s' := ReadStep(s, r);
      && SameOutput(s.clients, s'.clients) && s.readerLog <= s'.readerLog && s.writerLog == s'.writerLog
      && (!r.ParseOne? ==> s'.readerLog == s.readerLog)
  {
  }

  lemma OutputsRead(s: State, r: Read)
    requires OutputsOk(s) && CanRead(s, r) && InputsOk(ReadStep(s, r))
    ensures OutputsOk(ReadStep(s, r))
  {
    var s' := ReadStep(s, r);
    match r
    case DeliverOne(accepted) =>
      var d := s.reader.delivery;
      var c := d.targets[d.pos];
      OfferOutput(s.clients, c, Entry(ByReader, |s.readerLog| - 1, s.clients[c].name), accepted, s.readerLog,
          s.writerLog);
    case ParseOne(alloc) =>
      ReadKeepsOutput(s, r);
      OutputUntouched(s, s');
      ParsedFrame(s, alloc);
    case _ =>
      ReadKeepsOutput(s, r);
      OutputUntouched(s, s');
  }

  /** What a parsing step puts into the log is one frame. */
  lemma ParsedFrame(s: State, alloc: bool)
    requires InputsOk(s) && s.reader.RParse? && LogsOk(s.readerLog, s.writerLog)
    ensures LogsOk(ParseStep(s, alloc).readerLog, s.writerLog)
  {
    var x := s.clients[At(s.reader.round)];
    FetchTakesTheFirst(x.inbox);
    NamesAreNames(x.handled);
    if Fetch(x.inbox).0.Some? {
      HandleIsSound(x.name, Fetch(x.inbox).0.value);
    }
  }

  lemma WriteKeepsOutput(s: State, w: Write)
    requires Sane(s) && CanWrite(s, w) && !w.LogoutDeliverOne? && !w.Flush?
    ensures var s' := WriteStep(s, w);
      && SameOutput(s.clients, s'.clients) && s.readerLog == s'.readerLog && s.writerLog <= s'.writerLog
      && (!w.LogoutAnnounce? ==> s'.writerLog == s.writerLog)
  {
  }

  lemma OutputsWrite(s: State, w: Write)
    requires OutputsOk(s) && CanWrite(s, w) && InputsOk(WriteStep(s, w))
    ensures OutputsOk(WriteStep(s, w))
  {
    if w.LogoutDeliverOne? {
      OutputsLogoutDeliver(s, w.taken);
    } else if w.Flush? {
      OutputsFlush(s, w.written);
    } else {
      WriteKeepsOutput(s, w);
      OutputUntouched(s, WriteStep(s, w));
      NoticesAreFrames(s, w);
    }
  }

  lemma OutputsLogoutDeliver(s: State, taken: nat)
    requires OutputsOk(s) && CanWrite(s, LogoutDeliverOne(taken)) && InputsOk(WriteStep(s, LogoutDeliverOne(taken)))
    ensures OutputsOk(WriteStep(s, LogoutDeliverOne(taken)))
  {
    var c := s.writer.delivery.targets[s.writer.delivery.pos];
    OfferOutput(s.clients, c, Entry(ByWriter, |s.writerLog| - 1, s.clients[c].name), taken, s.readerLog, s.writerLog);
  }

  lemma OutputsFlush(s: State, written: nat)
    requires OutputsOk(s) && CanWrite(s, Flush(written)) && InputsOk(WriteStep(s, Flush(written)))
    ensures OutputsOk(WriteStep(s, Flush(written)))
  {
    FlushedOutput(s.clients[s.writer.snap[s.writer.i]], written, s.readerLog, s.writerLog);
  }

  /** What the writer puts into its log is one frame. */
  lemma NoticesAreFrames(s: State, w: Write)
    requires InputsOk(s) && CanWrite(s, w) && LogsOk(s.readerLog, s.writerLog) && !w.Flush? && !w.LogoutDeliverOne?
    ensures LogsOk(WriteStep(s, w).readerLog, WriteStep(s, w).writerLog)
  {
    if w.LogoutAnnounce? {
      var x := s.clients[s.writer.snap[s.writer.i]];
      NamesAreNames(x.handled);
      NoticeIsFrame(x.name);
    } else {
      WriteKeepsOutput(s, w);
    }
  }

  // ----- what follows for the stream a client is sent

  /** The frames delivered to a client, whole. */
  ghost function Frames(x: Client, rl: seq<Record>, wl: seq<Notice>): (r: seq<Bytes>)
    requires OutputOk(x, rl, wl)
    ensures |r| == |x.out|
    ensures forall k :: 0 <= k < |r| ==> EntryOk(x.out[k], x.sent[k], rl, wl) && r[k] == MsgOf(x.out[k], rl, wl).content
  {
    assert forall k :: 0 <= k < |x.out| ==> EntryOk(x.out[k], x.sent[k], rl, wl);
    seq(|x.out|, k requires 0 <= k < |x.out| => MsgOf(x.out[k], rl, wl).content)
  }

  /** Cutting at newlines what was written and what waits to be written gives back the
      frames that were delivered, and nothing else, exactly if all of each was stored. */
  lemma OutputIsFrames(x: Client, rl: seq<Record>, wl: seq<Notice>)
    requires OutputOk(x, rl, wl) && LogsOk(rl, wl)
    ensures Messages(x.flushed + x.pending) == Frames(x, rl, wl) <==> x.sent == Frames(x, rl, wl)
    ensures x.sent == Frames(x, rl, wl) ==> Residue(x.flushed + x.pending) == []
  {
    var frames := Frames(x, rl, wl);
    forall k | 0 <= k < |frames|
      ensures IsMessage(frames[k])
    {
      assert IsFrame(MsgOf(x.out[k], rl, wl));
    }
    if x.sent == frames {
      WholeSplit(frames);
    }
    if Messages(x.flushed + x.pending) == frames {
      SplitRejoins(x.flushed + x.pending);
      PartsAreWhole(x.sent, frames);
    }
  }

  /** Parts that are together no shorter than the whole are the whole. */
  lemma {:induction false} PartsAreWhole(parts: seq<Bytes>, wholes: seq<Bytes>)
    requires |parts| == |wholes| && forall k :: 0 <= k < |parts| ==> parts[k] <= wholes[k]
    ensures |Concat(parts)| <= |Concat(wholes)|
    ensures |Concat(parts)| == |Concat(wholes)| ==> parts == wholes
  {
    if parts != [] {
      PartsAreWhole(parts[1..], wholes[1..]);
      if |Concat(parts)| == |Concat(wholes)| {
        assert parts[0] == wholes[0];
        assert parts == [parts[0]] + parts[1..] == [wholes[0]] + wholes[1..] == wholes;
      }
    }
  }
}
