// Who gets the notice of a logout while the other threads go on: a client's name, or its
// mark, can change between two places of the delivery.

module Notices {
  import opened Bytes
  import opened Protocol
  import opened ServerSteps
  import opened Registry
  import opened Streams
  import opened Deliveries
  import opened Runs

  /** At step n of a run the writer's delivery comes to place q, where client c is; and the
      message is for that client, as it is then, exactly if `got`. */
  ghost predicate ComesTo(states: seq<State>, acts: seq<Action>, n: nat, q: nat, c: nat, msg: Msg, got: bool)
    requires |states| == |acts| + 1 && n < |acts|
  {
    && acts[n].Writes? && acts[n].w.LogoutDeliverOne?
    && states[n].writer.WDeliver? && states[n].writer.delivery.pos == q && c < |states[n].clients|
    && (got <==> Eligible(msg, states[n].clients[c].name, states[n].clients[c].failed))
  }

  /** There is such a step between j and k. */
  ghost predicate OfferedOnce(states: seq<State>, acts: seq<Action>, j: nat, k: nat, q: nat, c: nat, msg: Msg,
                              got: bool)
    requires |states| == |acts| + 1 && k < |states|
  {
    exists n :: j < n < k && ComesTo(states, acts, n, q, c, msg, got)
  }

  /** Every place that the delivery has come to was come to in a step in which its client
      was, or was not, one that the message is for; and just so it has got the frame. */
  ghost predicate OfferedTo(states: seq<State>, acts: seq<Action>, j: nat, k: nat, d: Delivery, n: int, msg: Msg)
    requires |states| == |acts| + 1 && k < |states| && DeliveryFits(|states[k].clients|, d)
  {
    forall q :: 0 <= q < d.pos ==>
      OfferedOnce(states, acts, j, k, q, d.targets[q], msg, Got(states[k].clients[d.targets[q]].out, ByWriter, n))
  }

  /** The writer's delivery that is under way at k began at j, goes through the list as it
      was then, and has reached just whom it was for of those it has come to. */
  ghost predicate NoticeFrom(states: seq<State>, acts: seq<Action>, j: nat, k: nat)
    requires |states| == |acts| + 1
  {
    && j < k < |states| && acts[j].Writes? && acts[j].w.LogoutSnapshot? && states[k].writer.WDeliver?
    && var s, d := states[k], states[k].writer.delivery;
       && s.writerLog != [] && s.writerLog == states[j].writerLog && DeliveryFits(|s.clients|, d)
       && d.targets == (if acts[j].w.clients then states[j].registry else [])
       && OfferedTo(states, acts, j, k, d, |s.writerLog| - 1, WriterMsg(s))
  }

  /** Whatever the other threads do before and after, of the clients it has come to it has
      reached exactly those that the message was for at the step in which it came to them. */
  lemma {:induction false} NoticeReaches(states: seq<State>, acts: seq<Action>, k: nat) returns (j: nat)
    requires IsRun(states, acts) && k < |states| && states[k].writer.WDeliver?
    ensures NoticeFrom(states, acts, j, k)
  {
    var begins := NoticeGoesOn(states, acts, k);
    if begins {
      j := k - 1;
    } else {
      j := NoticeReaches(states, acts, k - 1);
      NoticeStep(states, acts, j, k - 1);
    }
  }

  /** The last step has begun the delivery, or it was under way. */
  lemma NoticeGoesOn(states: seq<State>, acts: seq<Action>, k: nat) returns (begins: bool)
    requires IsRun(states, acts) && k < |states| && states[k].writer.WDeliver?
    ensures k > 0 && (begins ==> NoticeFrom(states, acts, k - 1, k))
    ensures !begins ==> states[k - 1].writer.WDeliver? && !(acts[k - 1].Writes? && acts[k - 1].w.LogoutSnapshot?)
  {
    NoticeFits(states, acts, k);
    begins := acts[k - 1].Writes? && acts[k - 1].w.LogoutSnapshot?;
    if begins {
      NoticeBegins(states[k - 1], acts[k - 1].w.clients);
    } else {
      StillNotifying(states[k - 1], acts[k - 1]);
    }
  }

  lemma NoticeStep(states: seq<State>, acts: seq<Action>, j: nat, k: nat)
    requires IsRun(states, acts) && k < |acts| && NoticeFrom(states, acts, j, k) && states[k + 1].writer.WDeliver?
    requires !(acts[k].Writes? && acts[k].w.LogoutSnapshot?)
    ensures NoticeFrom(states, acts, j, k + 1)
  {
    NoticeFits(states, acts, k + 1);
    NoticeStays(states, acts, k);
    OfferedStep(states, acts, j, k);
    NoticeGoes(states, acts, j, k);
  }

  lemma NoticeStays(states: seq<State>, acts: seq<Action>, k: nat)
    requires IsRun(states, acts) && k < |acts| && states[k + 1].writer.WDeliver?
    requires !(acts[k].Writes? && acts[k].w.LogoutSnapshot?)
    ensures states[k].writer.WDeliver? && states[k + 1].writerLog == states[k].writerLog
    ensures states[k + 1].writer.delivery.targets == states[k].writer.delivery.targets
  {
    StillNotifying(states[k], acts[k]);
  }

  lemma NoticeGoes(states: seq<State>, acts: seq<Action>, j: nat, k: nat)
    requires |states| == |acts| + 1 && k < |acts| && NoticeFrom(states, acts, j, k) && states[k + 1].writer.WDeliver?
    requires states[k + 1].writerLog == states[k].writerLog
    requires states[k + 1].writer.delivery.targets == states[k].writer.delivery.targets
    requires DeliveryFits(|states[k + 1].clients|, states[k + 1].writer.delivery)
    requires OfferedTo(states, acts, j, k + 1, states[k + 1].writer.delivery, |states[k].writerLog| - 1,
        WriterMsg(states[k]))
    ensures NoticeFrom(states, acts, j, k + 1)
  {
  }

  lemma NoticeBegins(s: State, clients: bool)
    requires Sane(s) && CanWrite(s, LogoutSnapshot(clients))
    ensures var s' := Apply(s, Writes(LogoutSnapshot(clients)));
      && s'.writer.WDeliver? && s'.writer.delivery == Delivery(if clients then s.registry else [], 0, 0)
      && s'.writerLog == s.writerLog
  {
  }

  lemma NoticeFits(states: seq<State>, acts: seq<Action>, k: nat)
    requires IsRun(states, acts) && k < |states| && states[k].writer.WDeliver?
    ensures k > 0 && states[k].writerLog != [] && DeliveryFits(|states[k].clients|, states[k].writer.delivery)
  {
    Invariant(states, acts, k);
  }

  lemma OfferedStep(states: seq<State>, acts: seq<Action>, j: nat, k: nat)
    requires IsRun(states, acts) && j < k < |acts|
    requires states[k].writer.WDeliver? && states[k + 1].writer.WDeliver? && states[k].writerLog != []
    requires !(acts[k].Writes? && acts[k].w.LogoutSnapshot?)
    requires DeliveryFits(|states[k].clients|, states[k].writer.delivery)
    requires DeliveryFits(|states[k + 1].clients|, states[k + 1].writer.delivery)
    requires OfferedTo(states, acts, j, k, states[k].writer.delivery, |states[k].writerLog| - 1, WriterMsg(states[k]))
    ensures OfferedTo(states, acts, j, k + 1, states[k + 1].writer.delivery, |states[k].writerLog| - 1,
        WriterMsg(states[k]))
  {
    var s, a, d, d' := states[k], acts[k], states[k].writer.delivery, states[k + 1].writer.delivery;
    var n, msg := |s.writerLog| - 1, WriterMsg(s);
    Invariant(states, acts, k);
    StillNotifying(s, a);
    forall q | 0 <= q < d'.pos
      ensures OfferedOnce(states, acts, j, k + 1, q, d'.targets[q], msg,
          Got(states[k + 1].clients[d'.targets[q]].out, ByWriter, n))
    {
      if q < d.pos {
        PastOneStays(s, a, q);
        OfferedBefore(states, acts, j, k, q, d.targets[q], msg, Got(s.clients[d.targets[q]].out, ByWriter, n));
      } else {
        NextOneGets(s, a);
        assert ComesTo(states, acts, k, q, d.targets[q], msg,
                 Got(states[k + 1].clients[d.targets[q]].out, ByWriter, n));
      }
    }
  }

  lemma OfferedBefore(states: seq<State>, acts: seq<Action>, j: nat, k: nat, q: nat, c: nat, msg: Msg, got: bool)
    requires |states| == |acts| + 1 && k < |acts| && OfferedOnce(states, acts, j, k, q, c, msg, got)
    ensures OfferedOnce(states, acts, j, k + 1, q, c, msg, got)
  {
    var n :| j < n < k && ComesTo(states, acts, n, q, c, msg, got);
  }

  /** Only the snapshot begins a delivery of the writer, and only its own steps move it on. */
  lemma StillNotifying(s: State, a: Action)
    requires Sane(s) && Enabled(s, a) && Apply(s, a).writer.WDeliver? && !(a.Writes? && a.w.LogoutSnapshot?)
    ensures s.writer.WDeliver? && s.writerLog == Apply(s, a).writerLog
    ensures var d, d' := s.writer.delivery, Apply(s, a).writer.delivery;
      && d'.targets == d.targets && d'.pos == d.pos + if a.Writes? && a.w.LogoutDeliverOne? then 1 else 0
  {
    if a.Reads? {
      ReadFrame(s, a.r);
    }
  }

  /** What a client that the delivery is past has got of the frame does not change. */
  lemma PastOneStays(s: State, a: Action, q: nat)
    requires DeliveriesOk(s) && Enabled(s, a) && s.writer.WDeliver? && Apply(s, a).writer.WDeliver?
    requires q < s.writer.delivery.pos
    ensures var c := s.writer.delivery.targets[q];
      && c < |s.clients| && c < |Apply(s, a).clients|
      && var n := |s.writerLog| - 1;
         Got(Apply(s, a).clients[c].out, ByWriter, n) <==> Got(s.clients[c].out, ByWriter, n)
  {
    match a
    case Listens(l) =>
    case Reads(r) => ReadGivesNoNotice(s, r, s.writer.delivery.targets[q]);
    case Writes(w) => WriteGivesOnlyNext(s, w, q);
  }

  lemma WriteGivesOnlyNext(s: State, w: Write, q: nat)
    requires DeliveriesOk(s) && CanWrite(s, w) && s.writer.WDeliver? && WriteStep(s, w).writer.WDeliver?
    requires q < s.writer.delivery.pos
    ensures var c := s.writer.delivery.targets[q];
      c < |s.clients| == |WriteStep(s, w).clients| && WriteStep(s, w).clients[c] == s.clients[c]
  {
    var d := s.writer.delivery;
    assert w.LogoutDeliverOne?;
    assert d.targets[d.pos] != d.targets[q];
  }

  lemma ReadGivesNoNotice(s: State, r: Read, c: nat)
    requires Sane(s) && CanRead(s, r) && c < |s.clients|
    ensures |ReadStep(s, r).clients| == |s.clients|
    ensures forall n :: Got(ReadStep(s, r).clients[c].out, ByWriter, n) <==> Got(s.clients[c].out, ByWriter, n)
  {
    if r.DeliverOne? {
      forall n
        ensures Got(ReadStep(s, r).clients[c].out, ByWriter, n) <==> Got(s.clients[c].out, ByWriter, n)
      {
        OneMore(s.clients[c].out, Entry(ByReader, |s.readerLog| - 1, s.clients[c].name), ByWriter, n);
      }
    } else {
      ReadKeepsOutput(s, r);
    }
  }

  /** The client that the delivery comes to gets the frame exactly if it is for it now. */
  lemma NextOneGets(s: State, a: Action)
    requires DeliveriesOk(s) && Enabled(s, a) && s.writer.WDeliver? && a.Writes? && a.w.LogoutDeliverOne?
    ensures var d := s.writer.delivery;
      var c := d.targets[d.pos];
      && d.pos < |d.targets| && c < |s.clients| && c < |Apply(s, a).clients| && s.writerLog != []
      && (Got(Apply(s, a).clients[c].out, ByWriter, |s.writerLog| - 1)
          <==> Eligible(WriterMsg(s), s.clients[c].name, s.clients[c].failed))
  {
    var d := s.writer.delivery;
    var c := d.targets[d.pos];
    TakeNext(d.targets, d.pos);
    assert c !in d.targets[..d.pos];
    OneMore(s.clients[c].out, Entry(ByWriter, |s.writerLog| - 1, s.clients[c].name), ByWriter, |s.writerLog| - 1);
  }

  /** When a delivery by the writer ends, exactly those clients have got the notice that were
      listed when it began and that it was for when it came to them; and that is how many it
      counts. */
  lemma ExactNoticeSet(states: seq<State>, acts: seq<Action>, k: nat) returns (j: nat)
    requires IsRun(states, acts) && k < |acts| && acts[k] == Writes(LogoutDeliverEnds)
    ensures states[k].writer.WDeliver? && states[k].writerLog != []
    ensures j < k && acts[j].Writes? && acts[j].w.LogoutSnapshot? && states[k].writerLog == states[j].writerLog
    ensures var s := states[k];
      var targets := if acts[j].w.clients then states[j].registry else [];
      var reached := Reached(s.clients, ByWriter, |s.writerLog| - 1);
      && s.writer.delivery.count == |reached| && (forall c :: c in reached ==> c in targets)
      && forall q :: 0 <= q < |targets| ==>
           OfferedOnce(states, acts, j, k, q, targets[q], WriterMsg(s), targets[q] in reached)
  {
    j := NoticeReaches(states, acts, k);
    NoticeDone(states, acts, k);
    OfferedAll(states, acts, j, k);
  }

  lemma OfferedAll(states: seq<State>, acts: seq<Action>, j: nat, k: nat)
    requires |states| == |acts| + 1 && k < |states| && states[k].writer.WDeliver? && states[k].writerLog != []
    requires DeliveryFits(|states[k].clients|, states[k].writer.delivery)
    requires states[k].writer.delivery.pos == |states[k].writer.delivery.targets|
    requires OfferedTo(states, acts, j, k, states[k].writer.delivery, |states[k].writerLog| - 1, WriterMsg(states[k]))
    ensures var s, targets := states[k], states[k].writer.delivery.targets;
      forall q :: 0 <= q < |targets| ==>
        OfferedOnce(states, acts, j, k, q, targets[q], WriterMsg(s),
          targets[q] in Reached(s.clients, ByWriter, |s.writerLog| - 1))
  {
    var s, d := states[k], states[k].writer.delivery;
    forall q | 0 <= q < |d.targets|
      ensures OfferedOnce(states, acts, j, k, q, d.targets[q], WriterMsg(s),
                d.targets[q] in Reached(s.clients, ByWriter, |s.writerLog| - 1))
    {
      assert d.targets[q] in Reached(s.clients, ByWriter, |s.writerLog| - 1)
        <==> Got(s.clients[d.targets[q]].out, ByWriter, |s.writerLog| - 1);
    }
  }

  lemma NoticeDone(states: seq<State>, acts: seq<Action>, k: nat)
    requires IsRun(states, acts) && k < |states|
    requires states[k].writer.WDeliver? && states[k].writer.delivery.pos == |states[k].writer.delivery.targets|
    ensures states[k].writerLog != []
    ensures var reached := Reached(states[k].clients, ByWriter, |states[k].writerLog| - 1);
      && states[k].writer.delivery.count == |reached|
      && forall c :: c in reached ==> c in states[k].writer.delivery.targets
  {
    Invariant(states, acts, k);
    var d := states[k].writer.delivery;
    assert d.targets[..d.pos] == d.targets;
  }
}
