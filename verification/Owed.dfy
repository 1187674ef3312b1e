// The other half of what is heard: nothing that a client's messages say is left out, and it
// gets to the sockets of those that it is for.

module Owed {
  import opened Bytes
  import opened Protocol
  import opened ServerSteps
  import opened Streams
  import opened Deliveries
  import opened WakeUp
  import opened Runs

  /** Memory has sufficed so far for what the reader builds and copies. */
  predicate ReaderHasMemory(acts: seq<Action>, k: nat)
    requires k <= |acts|
  {
    forall n :: 0 <= n < k ==> acts[n] != Reads(ParseOne(false)) && acts[n] != Reads(DeliverSnapshot(false))
  }

  /** The reader is not in the middle of a client's messages. */
  predicate BetweenClients(r: Reader) { r.RIdle? || r.RPoll? || r.RNotify? }

  /** A pass of the writer begins at p and has flushed at f. */
  predicate PassOf(acts: seq<Action>, p: nat, f: nat) {
    && p < f < |acts| && acts[p] == Writes(WriterSnapshot) && acts[f] == Writes(FlushesEnd)
    && forall n :: p < n < f ==> acts[n] != Writes(FlushesEnd)
  }

  /** How many frames a thread has logged, and what the last one says. */
  function Logged(s: State, source: Source): nat {
    match source
    case ByReader => |s.readerLog|
    case ByWriter => |s.writerLog|
  }

  function LastFrame(s: State, source: Source): Bytes
    requires Logged(s, source) > 0
  {
    match source
    case ByReader => ReaderMsg(s).content
    case ByWriter => WriterMsg(s).content
  }

  /** Place q of a client's output is where frame r of that thread is. */
  predicate IsPlaceOf(out: seq<Entry>, q: nat, source: Source, r: int) {
    q < |out| && out[q].source == source && out[q].index == r
  }

  /** Frame r, in its own place, and all frames before it, are among the messages on a
      socket. */
  predicate OnTheSocket(out: seq<Entry>, frames: seq<Bytes>, source: Source, r: int, frame: Bytes, flushed: Bytes)
    requires |frames| == |out|
  {
    frames <= Messages(flushed)
    && exists q :: 0 <= q < |out| && IsPlaceOf(out, q, source, r) && frames[q] == Messages(flushed)[q] == frame
  }

  /** The last frame that the thread has logged at e and given to client b is on its socket at
      f, if b could be served. */
  ghost predicate OwedArrives(states: seq<State>, e: nat, p: nat, f: nat, b: nat, source: Source)
    requires e < |states| && p < |states| && f < |states| && Logged(states[e], source) > 0
  {
    b < |states[e].clients| && OutputOk(states[e].clients[b], states[e].readerLog, states[e].writerLog)
    && var x, r := states[e].clients[b], Logged(states[e], source) - 1;
       var frames := Frames(x, states[e].readerLog, states[e].writerLog);
       b in states[p].registry && x.sent == frames ==>
         b < |states[f].clients|
         && (Healthy(states[f].clients[b]) ==>
               OnTheSocket(x.out, frames, source, r, LastFrame(states[e], source), states[f].clients[b].flushed))
  }

  /** It gets to the socket of every one of them, in every pass that begins after e. */
  ghost predicate AllArrives(states: seq<State>, acts: seq<Action>, e: nat, to: set<nat>, source: Source)
    requires |states| == |acts| + 1 && e < |states| && Logged(states[e], source) > 0
  {
    forall p, f, b :: PassOf(acts, p, f) && e <= p && b in to ==> OwedArrives(states, e, p, f, b, source)
  }

  /** What the reader's log ends with. */
  function LastRecord(s: State): Record
    requires s.readerLog != []
  {
    s.readerLog[|s.readerLog| - 1]
  }

  /** For every message that has come in from anybody and says something, once the reader is
      between two clients: there has been a delivery for just that message, of what it says,
      to exactly those on the list for whom it was; and a pass of the writer that begins
      after it puts it, in its own place, on the socket of each of them that is still listed
      when the pass begins and healthy when it has flushed, if memory sufficed for that
      client's buffer. */
  lemma WhatIsSaidArrives(states: seq<State>, acts: seq<Action>, k: nat, a: nat, h: nat, msg: Msg)
    returns (j: nat, e: nat)
    requires IsRun(states, acts) && k <= |acts| && ReaderHasMemory(acts, k) && BetweenClients(states[k].reader)
    requires a < |states[k].clients| && AllMessages(Messages(states[k].clients[a].received))
    requires h < |Messages(states[k].clients[a].received)|
    requires MsgAt(Messages(states[k].clients[a].received), h) == Some(msg)
    ensures j < e < k && acts[j] == Reads(DeliverSnapshot(true)) && acts[e] == Reads(DeliverEnds)
    ensures states[e].readerLog != [] && LastRecord(states[e]) == Record(a, h, msg)
    ensures Reached(states[e].clients, ByReader, |states[e].readerLog| - 1)
      == Meant(states[e].clients, states[j].registry, msg)
    ensures AllArrives(states, acts, e, Meant(states[e].clients, states[j].registry, msg), ByReader)
  {
    var r := HasRecord(states, acts, k, a, h, msg);
    e := DeliveryEnded(states, acts, k, r);
    LogGrows(states, acts, e, k);
    j := ExactDeliverySet(states, acts, e);
    ReachedArrives(states, acts, e, ByReader);
  }

  /** So it is with the last frame of either thread, for all whom it has reached. */
  lemma ReachedArrives(states: seq<State>, acts: seq<Action>, e: nat, source: Source)
    requires IsRun(states, acts) && e < |states| && Logged(states[e], source) > 0
    ensures AllArrives(states, acts, e, Reached(states[e].clients, source, Logged(states[e], source) - 1), source)
  {
    var reached := Reached(states[e].clients, source, Logged(states[e], source) - 1);
    forall p, f, b | PassOf(acts, p, f) && e <= p && b in reached
      ensures OwedArrives(states, e, p, f, b, source)
    {
      GotArrives(states, acts, e, p, f, b, source);
    }
  }

  lemma GotArrives(states: seq<State>, acts: seq<Action>, e: nat, p: nat, f: nat, b: nat, source: Source)
    requires IsRun(states, acts) && e <= p && PassOf(acts, p, f) && Logged(states[e], source) > 0
    requires b in Reached(states[e].clients, source, Logged(states[e], source) - 1)
    ensures OwedArrives(states, e, p, f, b, source)
  {
    OutputIntegrity(states, acts, e, b);
    var q := FrameGot(states[e], states[e].clients[b], source);
    if b in states[p].registry {
      ArrivesOnTheSocket(states, acts, e, p, f, b, q);
    }
  }

  lemma FrameGot(s: State, x: Client, source: Source) returns (q: nat)
    requires OutputOk(x, s.readerLog, s.writerLog) && Logged(s, source) > 0 && Got(x.out, source, Logged(s, source) - 1)
    ensures IsPlaceOf(x.out, q, source, Logged(s, source) - 1)
    ensures Frames(x, s.readerLog, s.writerLog)[q] == LastFrame(s, source)
  {
    q :| 0 <= q < |x.out| && x.out[q].source == source && x.out[q].index == Logged(s, source) - 1;
  }

  /** Two messages, even if they say the same, have deliveries of their own, and with every
      client places of their own. */
  lemma EachItsOwn(states: seq<State>, acts: seq<Action>, e: nat, e': nat, b: nat, q: nat, q': nat)
    requires IsRun(states, acts) && e < |states| && e' < |states|
    requires states[e].readerLog != [] && states[e'].readerLog != []
    requires LastRecord(states[e]) != LastRecord(states[e'])
    requires b < |states[e].clients| && b < |states[e'].clients|
    requires IsPlaceOf(states[e].clients[b].out, q, ByReader, |states[e].readerLog| - 1)
    requires IsPlaceOf(states[e'].clients[b].out, q', ByReader, |states[e'].readerLog| - 1)
    ensures e != e' && q != q'
  {
    if e < e' {
      LogGrows(states, acts, e, e');
      OutputOnlyGrows(states, acts, e, e', b);
    } else {
      LogGrows(states, acts, e', e);
      OutputOnlyGrows(states, acts, e', e, b);
    }
  }

  lemma {:induction false} OutputOnlyGrows(states: seq<State>, acts: seq<Action>, e: nat, k: nat, b: nat)
    requires IsRun(states, acts) && e <= k < |states| && b < |states[e].clients|
    ensures b < |states[k].clients| && states[e].clients[b].out <= states[k].clients[b].out
  {
    if e < k {
      OutputOnlyGrows(states, acts, e, k - 1, b);
      OutputStep(states[k - 1], acts[k - 1], b);
    }
  }

  lemma OutputStep(s: State, a: Action, b: nat)
    requires Sane(s) && Enabled(s, a) && b < |s.clients|
    ensures b < |Apply(s, a).clients| && s.clients[b].out <= Apply(s, a).clients[b].out
  {
    match a
    case Listens(l) =>
    case Reads(r) => ReadOutput(s, r, b);
    case Writes(w) => WriteOutput(s, w, b);
  }

  lemma ReadOutput(s: State, r: Read, b: nat)
    requires Sane(s) && CanRead(s, r) && b < |s.clients|
    ensures b < |ReadStep(s, r).clients| && s.clients[b].out <= ReadStep(s, r).clients[b].out
  {
  }

  lemma WriteOutput(s: State, w: Write, b: nat)
    requires Sane(s) && CanWrite(s, w) && b < |s.clients|
    ensures b < |WriteStep(s, w).clients| && s.clients[b].out <= WriteStep(s, w).clients[b].out
  {
  }

  // ----- every message has its record

  lemma HasRecord(states: seq<State>, acts: seq<Action>, k: nat, a: nat, h: nat, msg: Msg) returns (r: nat)
    requires IsRun(states, acts) && k <= |acts| && ReaderHasMemory(acts, k) && BetweenClients(states[k].reader)
    requires a < |states[k].clients| && AllMessages(Messages(states[k].clients[a].received))
    requires h < |Messages(states[k].clients[a].received)|
    requires MsgAt(Messages(states[k].clients[a].received), h) == Some(msg)
    ensures r < |states[k].readerLog| && states[k].readerLog[r] == Record(a, h, msg)
  {
    HandledExactly(states, acts, k, a);
    AllRecorded(states, acts, k);
    r :| 0 <= r < |states[k].readerLog| && IsRecordOf(states[k].readerLog[r], a, h);
    RecordSays(states, acts, k, r);
  }

  lemma RecordSays(states: seq<State>, acts: seq<Action>, k: nat, r: nat)
    requires IsRun(states, acts) && k < |states| && r < |states[k].readerLog|
    ensures RecordOk(states[k].clients, states[k].readerLog[r])
  {
    Invariant(states, acts, k);
  }

  predicate IsRecordOf(r: Record, a: nat, h: nat) { r.sender == a && r.order == h }

  /** Every message that says something has its record. */
  ghost predicate Recorded(cs: seq<Client>, rl: seq<Record>) {
    forall a :: 0 <= a < |cs| ==> AllMessages(cs[a].handled) && RecordedFor(rl, a, cs[a].handled)
  }

  ghost predicate RecordedFor(rl: seq<Record>, a: nat, ms: seq<Bytes>)
    requires AllMessages(ms)
  {
    forall h :: 0 <= h < |ms| && MsgAt(ms, h).Some? ==> exists r :: 0 <= r < |rl| && IsRecordOf(rl[r], a, h)
  }

  lemma {:induction false} AllRecorded(states: seq<State>, acts: seq<Action>, k: nat)
    requires IsRun(states, acts) && k <= |acts| && ReaderHasMemory(acts, k)
    ensures Recorded(states[k].clients, states[k].readerLog)
  {
    if k > 0 {
      AllRecorded(states, acts, k - 1);
      Invariant(states, acts, k - 1);
      var s, a := states[k - 1], acts[k - 1];
      match a
      case Listens(l) =>
      case Reads(r) =>
        if r.ParseOne? {
          ParseRecords(s);
        } else {
          ReadHandlesNothing(s, r);
          StillRecorded(s.clients, states[k].clients, s.readerLog);
        }
      case Writes(w) =>
        WriteKeepsInput(s, w);
        WriteLogsNothing(s, w);
        StillRecorded(s.clients, states[k].clients, s.readerLog);
    }
  }

  lemma StillRecorded(cs: seq<Client>, cs': seq<Client>, rl: seq<Record>)
    requires SameHandled(cs, cs') && Recorded(cs, rl)
    ensures Recorded(cs', rl)
  {
  }

  lemma ParseRecords(s: State)
    requires DeliveriesOk(s) && s.reader.RParse? && Recorded(s.clients, s.readerLog)
    ensures Recorded(ParseStep(s, true).clients, ParseStep(s, true).readerLog)
  {
    var s', c := ParseStep(s, true), At(s.reader.round);
    var x := s.clients[c];
    var y := Parsed(x).0;
    ParsedInput(x);
    ParseLogs(s);
    forall a | 0 <= a < |s'.clients|
      ensures AllMessages(s'.clients[a].handled) && RecordedFor(s'.readerLog, a, s'.clients[a].handled)
    {
      if a == c {
        OneMoreRecorded(s.readerLog, s'.readerLog, c, x.handled, y.handled);
      } else {
        MoreRecords(s.readerLog, s'.readerLog, a, s.clients[a].handled);
      }
    }
  }

  lemma MoreRecords(rl: seq<Record>, rl': seq<Record>, a: nat, ms: seq<Bytes>)
    requires rl <= rl' && AllMessages(ms) && RecordedFor(rl, a, ms)
    ensures RecordedFor(rl', a, ms)
  {
    forall h | 0 <= h < |ms| && MsgAt(ms, h).Some?
      ensures exists r :: 0 <= r < |rl'| && IsRecordOf(rl'[r], a, h)
    {
      var r :| 0 <= r < |rl| && IsRecordOf(rl[r], a, h);
      assert IsRecordOf(rl'[r], a, h);
    }
  }

  lemma OneMoreRecorded(rl: seq<Record>, rl': seq<Record>, c: nat, ms: seq<Bytes>, ms': seq<Bytes>)
    requires AllMessages(ms) && AllMessages(ms') && RecordedFor(rl, c, ms) && rl <= rl' && ms <= ms'
      && |ms'| <= |ms| + 1
    requires |ms'| > |ms| && MsgAt(ms', |ms|).Some? ==> |rl'| > |rl| && IsRecordOf(rl'[|rl|], c, |ms|)
    ensures RecordedFor(rl', c, ms')
  {
    MoreRecords(rl, rl', c, ms);
    forall h | 0 <= h < |ms'| && MsgAt(ms', h).Some?
      ensures exists r :: 0 <= r < |rl'| && IsRecordOf(rl'[r], c, h)
    {
      if h < |ms| {
        assert ms + ms'[|ms|..] == ms';
        MsgAtPrefix(ms, ms'[|ms|..], h);
      }
    }
  }

  // ----- every record has been delivered

  lemma {:induction false} LogGrows(states: seq<State>, acts: seq<Action>, e: nat, k: nat)
    requires IsRun(states, acts) && e <= k < |states|
    ensures states[e].readerLog <= states[k].readerLog
  {
    if e < k {
      LogGrows(states, acts, e, k - 1);
      LogGrowsAt(states, acts, k - 1);
    }
  }

  lemma LogGrowsAt(states: seq<State>, acts: seq<Action>, k: nat)
    requires IsRun(states, acts) && k < |acts|
    ensures states[k].readerLog <= states[k + 1].readerLog
  {
    LogStep(states[k], acts[k]);
  }

  lemma LogStep(s: State, a: Action)
    requires Sane(s) && Enabled(s, a)
    ensures s.readerLog <= Apply(s, a).readerLog
  {
    match a
    case Listens(l) =>
    case Reads(r) =>
      if r.ParseOne? {
        ParseStepIs(s, r.alloc);
      } else {
        ReadHandlesNothing(s, r);
      }
    case Writes(w) => WriteLogsNothing(s, w);
  }

  /** The record that the reader is busy delivering, if any, is the last one. */
  predicate Busy(r: Reader) { r.RSend? || r.RDeliver? }

  /** Every record that the reader is not busy with has been delivered. */
  lemma {:induction false} DeliveryEnded(states: seq<State>, acts: seq<Action>, k: nat, r: nat) returns (e: nat)
    requires IsRun(states, acts) && k < |states|
    requires r < |states[k].readerLog| - if Busy(states[k].reader) then 1 else 0
    ensures e < k && acts[e] == Reads(DeliverEnds) && |states[e].readerLog| == r + 1
  {
    BusyStep(states[k - 1], acts[k - 1]);
    if acts[k - 1] == Reads(DeliverEnds) && |states[k - 1].readerLog| == r + 1 {
      e := k - 1;
    } else {
      e := DeliveryEnded(states, acts, k - 1, r);
    }
  }

  lemma BusyStep(s: State, a: Action)
    requires Sane(s) && Enabled(s, a)
    ensures var s' := Apply(s, a);
      var done, done' := |s.readerLog| - (if Busy(s.reader) then 1 else 0),
          |s'.readerLog| - if Busy(s'.reader) then 1 else 0;
      if a == Reads(DeliverEnds) then done' == |s.readerLog| == done + 1 else done' == done
  {
    match a
    case Listens(l) =>
    case Reads(r) =>
      if r.ParseOne? {
        ParseStepIs(s, r.alloc);
      }
    case Writes(w) => WriteLogsNothing(s, w);
  }
}
