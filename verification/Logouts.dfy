// A client that the reader has marked is logged out by the next pass of the writer, and the
// others are told.

module Logouts {
  import opened Protocol
  import opened ServerSteps
  import opened Registry
  import opened Deliveries
  import opened Notices
  import opened Owed
  import opened Runs

  /** The writer is in a pass over `snap`. */
  predicate InPass(w: Writer, snap: seq<nat>) {
    !w.WTop? && !w.WCheck? && !w.WWait? && w.snap == snap
  }

  /** As far as the pass has come, client `snap[q]` has been closed. */
  predicate SeenTo(w: Writer, closed: set<nat>, snap: seq<nat>, q: nat)
    requires InPass(w, snap) && q < |snap|
  {
    match w
    case WFlush(_, _) => true
    case WNotify(_, i, _) => q <= i ==> snap[q] in closed
    case _ => q < w.i ==> snap[q] in closed
  }

  /** No step takes the mark of failure off, or opens what was closed. */
  lemma MarksStay(s: State, a: Action, c: nat)
    requires Sane(s) && Enabled(s, a) && c < |s.clients|
    ensures c < |Apply(s, a).clients| && (s.clients[c].failed ==> Apply(s, a).clients[c].failed)
    ensures s.closed <= Apply(s, a).closed
  {
    match a
    case Listens(l) =>
    case Reads(r) =>
      if !r.MarkFail? {
        ReadStanding(s, r);
      }
    case Writes(w) => WriteStanding(s, w);
  }

  /** A pass goes on over the same clients, and passes over none that is marked. */
  lemma PassGoesOn(s: State, a: Action, snap: seq<nat>, q: nat)
    requires Sane(s) && Enabled(s, a) && InPass(s.writer, snap) && a != Writes(LogoutsEnd)
    requires q < |snap| && snap[q] < |s.clients| && s.clients[snap[q]].failed && SeenTo(s.writer, s.closed, snap, q)
    ensures InPass(Apply(s, a).writer, snap) && SeenTo(Apply(s, a).writer, Apply(s, a).closed, snap, q)
  {
    match a
    case Listens(l) =>
    case Reads(r) => ReadFrame(s, r);
    case Writes(w) =>
  }

  lemma {:induction false} PassReaches(states: seq<State>, acts: seq<Action>, j: nat, k: nat, q: nat)
    requires IsRun(states, acts) && j < k < |states| && acts[j] == Writes(WriterSnapshot)
    requires forall m :: j < m < k ==> acts[m] != Writes(LogoutsEnd)
    requires q < |states[j].registry| && states[j].registry[q] < |states[j].clients|
    requires states[j].clients[states[j].registry[q]].failed
    ensures var snap := states[j].registry;
      && snap[q] < |states[k].clients| && states[k].clients[snap[q]].failed
      && InPass(states[k].writer, snap) && SeenTo(states[k].writer, states[k].closed, snap, q)
  {
    var snap := states[j].registry;
    if k == j + 1 {
      MarksStay(states[j], acts[j], snap[q]);
    } else {
      PassReaches(states, acts, j, k - 1, q);
      MarksStay(states[k - 1], acts[k - 1], snap[q]);
      PassGoesOn(states[k - 1], acts[k - 1], snap, q);
    }
  }

  lemma {:induction false} MarkedForGood(states: seq<State>, acts: seq<Action>, i: nat, j: nat, c: nat)
    requires IsRun(states, acts) && i <= j < |states| && c < |states[i].clients|
    ensures c < |states[j].clients| && (states[i].clients[c].failed ==> states[j].clients[c].failed)
    ensures states[i].closed <= states[j].closed
  {
    if i < j {
      MarkedForGood(states, acts, i, j - 1, c);
      MarksStay(states[j - 1], acts[j - 1], c);
    }
  }

  /** At step m the reader marks client c as failed. */
  ghost predicate Marks(states: seq<State>, acts: seq<Action>, m: nat, c: nat)
    requires |states| == |acts| + 1
  {
    && m < |acts| && acts[m] == Reads(MarkFail) && states[m].reader.RPoll?
    && states[m].reader.round.i < |states[m].reader.round.snap| && c == At(states[m].reader.round)
    && c < |states[m].clients|
  }

  /** A client that the reader has marked is off the list, and its socket closed, at the end
      of the next pass that the writer begins. */
  lemma MarkedAreLoggedOut(states: seq<State>, acts: seq<Action>, m: nat, j: nat, k: nat, c: nat)
    requires IsRun(states, acts) && m < j < k < |acts| && Marks(states, acts, m, c)
    requires acts[j] == Writes(WriterSnapshot) && acts[k] == Writes(LogoutsEnd)
    requires forall n :: j < n < k ==> acts[n] != Writes(LogoutsEnd)
    ensures c in states[k].closed && c !in states[k].registry
  {
    Invariant(states, acts, j);
    Invariant(states, acts, k);
    assert states[m + 1].clients[c].failed;
    MarkedForGood(states, acts, m + 1, j, c);
    MarkedForGood(states, acts, j, k, c);
    ListedOrClosed(states[j], c);
    if c in states[j].registry {
      var q :| 0 <= q < |states[j].registry| && states[j].registry[q] == c;
      PassReaches(states, acts, j, k, q);
    }
    ListedOrClosed(states[k], c);
  }

  /** Between two logouts everybody is either listed or closed. */
  lemma ListedOrClosed(s: State, c: nat)
    requires RegistryOk(s) && c < |s.clients| && Leaving(s.writer) == {}
    ensures c in s.registry <==> c !in s.closed
  {
    assert c < |Fails(s.clients)|;
  }

  // ----- the others are told

  /** Memory has sufficed so far for what the writer builds and copies. */
  predicate WriterHasMemory(acts: seq<Action>, k: nat)
    requires k <= |acts|
  {
    forall n :: 0 <= n < k ==> acts[n] != Writes(LogoutAnnounce(false)) && acts[n] != Writes(LogoutSnapshot(false))
  }

  /** The notice of client c, under the name it bears, is in the writer's log. */
  predicate HasNotice(log: seq<Notice>, cs: seq<Client>, c: nat) {
    c < |cs| && exists r :: 0 <= r < |log| && log[r] == Notice(c, LogoutNotice(cs[c].name))
  }

  /** Whoever has been closed, or is about to be, has been announced. */
  ghost predicate AllTold(s: State) {
    forall c :: c in s.closed + Announcing(s.writer) ==> HasNotice(s.writerLog, s.clients, c)
  }

  /** A client that has failed keeps its name: the reader handles nothing of it any more. */
  lemma NameStands(s: State, a: Action, c: nat)
    requires RegistryOk(s) && Enabled(s, a) && c < |s.clients| && s.clients[c].failed
    ensures c < |Apply(s, a).clients| && Apply(s, a).clients[c].name == s.clients[c].name
  {
    match a
    case Listens(l) =>
    case Reads(r) => NameStandsRead(s, r, c);
    case Writes(w) => NameStandsWrite(s, w, c);
  }

  lemma NameStandsRead(s: State, r: Read, c: nat)
    requires RegistryOk(s) && CanRead(s, r) && c < |s.clients| && s.clients[c].failed
    ensures c < |ReadStep(s, r).clients| && ReadStep(s, r).clients[c].name == s.clients[c].name
  {
    if r.ParseOne? {
      assert !Fails(s.clients)[At(s.reader.round)];
    }
  }

  lemma NameStandsWrite(s: State, w: Write, c: nat)
    requires Sane(s) && CanWrite(s, w) && c < |s.clients|
    ensures c < |WriteStep(s, w).clients| && WriteStep(s, w).clients[c].name == s.clients[c].name
  {
  }

  lemma NameStandsAt(states: seq<State>, acts: seq<Action>, k: nat, c: nat)
    requires IsRun(states, acts) && k < |acts| && c < |states[k].clients| && states[k].clients[c].failed
    ensures c < |states[k + 1].clients| && states[k + 1].clients[c].failed
    ensures states[k + 1].clients[c].name == states[k].clients[c].name
  {
    Invariant(states, acts, k);
    MarksStay(states[k], acts[k], c);
    NameStands(states[k], acts[k], c);
  }

  lemma {:induction false} NameKept(states: seq<State>, acts: seq<Action>, i: nat, j: nat, c: nat)
    requires IsRun(states, acts) && i <= j < |states| && c < |states[i].clients| && states[i].clients[c].failed
    ensures c < |states[j].clients| && states[j].clients[c].failed
    ensures states[j].clients[c].name == states[i].clients[c].name
  {
    if i < j {
      NameKept(states, acts, i, j - 1, c);
      NameStandsAt(states, acts, j - 1, c);
    }
  }

  lemma StillTold(log: seq<Notice>, log': seq<Notice>, cs: seq<Client>, cs': seq<Client>, c: nat)
    requires HasNotice(log, cs, c) && log <= log' && c < |cs'| && cs'[c].name == cs[c].name
    ensures HasNotice(log', cs', c)
  {
    var r :| 0 <= r < |log| && log[r] == Notice(c, LogoutNotice(cs[c].name));
    assert log'[r] == log[r];
  }

  /** Who is closed or about to be after a step was so before, or is announced in it. */
  lemma NewlyTold(s: State, a: Action)
    requires RegistryOk(s) && Enabled(s, a) && a != Writes(LogoutAnnounce(false))
    ensures var s' := Apply(s, a);
      && s.writerLog <= s'.writerLog
      && forall c :: c in s'.closed + Announcing(s'.writer) && c !in s.closed + Announcing(s.writer) ==>
           c < |s.clients| && s'.writerLog == s.writerLog + [Notice(c, LogoutNotice(s.clients[c].name))]
             && s'.clients == s.clients
  {
    match a
    case Listens(l) =>
    case Reads(r) => ReadFrame(s, r);
    case Writes(w) =>
      if !w.LogoutRemove? && !w.LogoutAnnounce? && !w.Close? {
        WriteFrame(s, w);
      }
  }

  lemma ToldStep(s: State, a: Action)
    requires RegistryOk(s) && Enabled(s, a) && AllTold(s) && a != Writes(LogoutAnnounce(false))
    ensures AllTold(Apply(s, a))
  {
    var s' := Apply(s, a);
    NewlyTold(s, a);
    forall c | c in s'.closed + Announcing(s'.writer)
      ensures HasNotice(s'.writerLog, s'.clients, c)
    {
      if c in s.closed + Announcing(s.writer) {
        FailedAlready(s, c);
        NameStands(s, a, c);
        StillTold(s.writerLog, s'.writerLog, s.clients, s'.clients, c);
      } else {
        assert s'.writerLog[|s.writerLog|] == Notice(c, LogoutNotice(s'.clients[c].name));
      }
    }
  }

  lemma FailedAlready(s: State, c: nat)
    requires RegistryOk(s) && c in s.closed + Announcing(s.writer)
    ensures c < |s.clients| && s.clients[c].failed
  {
    assert c in s.closed + Leaving(s.writer) && Fails(s.clients)[c];
  }

  lemma {:induction false} EverybodyTold(states: seq<State>, acts: seq<Action>, k: nat)
    requires IsRun(states, acts) && k <= |acts| && WriterHasMemory(acts, k)
    ensures AllTold(states[k])
  {
    if k > 0 {
      EverybodyTold(states, acts, k - 1);
      Invariant(states, acts, k - 1);
      ToldStep(states[k - 1], acts[k - 1]);
    }
  }

  lemma TheNotice(s: State, c: nat) returns (r: nat)
    requires AllTold(s) && c in s.closed
    ensures c < |s.clients| && r < |s.writerLog|
    ensures s.writerLog[r] == Notice(c, LogoutNotice(s.clients[c].name))
  {
    assert c in s.closed + Announcing(s.writer);
    r :| 0 <= r < |s.writerLog| && s.writerLog[r] == Notice(c, LogoutNotice(s.clients[c].name));
  }

  /** The notice that the writer is busy delivering, if any, is the last one. */
  predicate Telling(w: Writer) { w.WSend? || w.WDeliver? }

  /** Every notice that the writer is not busy with has been delivered. */
  lemma {:induction false} NoticeEnded(states: seq<State>, acts: seq<Action>, k: nat, r: nat) returns (e: nat)
    requires IsRun(states, acts) && k < |states|
    requires r < |states[k].writerLog| - if Telling(states[k].writer) then 1 else 0
    ensures e < k && acts[e] == Writes(LogoutDeliverEnds) && |states[e].writerLog| == r + 1
  {
    TellingStep(states[k - 1], acts[k - 1]);
    if acts[k - 1] == Writes(LogoutDeliverEnds) && |states[k - 1].writerLog| == r + 1 {
      e := k - 1;
    } else {
      e := NoticeEnded(states, acts, k - 1, r);
    }
  }

  lemma {:induction false} NoticesGrow(states: seq<State>, acts: seq<Action>, e: nat, k: nat)
    requires IsRun(states, acts) && e <= k < |states|
    ensures states[e].writerLog <= states[k].writerLog
  {
    if e < k {
      NoticesGrow(states, acts, e, k - 1);
      NoticesGrowAt(states, acts, k - 1);
    }
  }

  lemma NoticesGrowAt(states: seq<State>, acts: seq<Action>, k: nat)
    requires IsRun(states, acts) && k < |acts|
    ensures states[k].writerLog <= states[k + 1].writerLog
  {
    TellingStep(states[k], acts[k]);
  }

  lemma TellingStep(s: State, a: Action)
    requires Sane(s) && Enabled(s, a)
    ensures var s' := Apply(s, a);
      var done, done' := |s.writerLog| - (if Telling(s.writer) then 1 else 0),
          |s'.writerLog| - if Telling(s'.writer) then 1 else 0;
      && s.writerLog <= s'.writerLog
      && if a == Writes(LogoutDeliverEnds) then done' == |s.writerLog| == done + 1 else done' == done
  {
    if a.Reads? {
      ReadFrame(s, a.r);
    }
  }

  /** A delivery from b to e has told of one logout exactly those listed at b that the notice
      was for when the delivery came to them. */
  ghost predicate Tells(states: seq<State>, acts: seq<Action>, b: nat, e: nat, notice: Notice, reached: set<nat>)
    requires |states| == |acts| + 1
  {
    && b < e < |acts| && acts[b] == Writes(LogoutSnapshot(true)) && acts[e] == Writes(LogoutDeliverEnds)
    && states[e].writerLog != [] && states[e].writerLog[|states[e].writerLog| - 1] == notice
    && reached == Reached(states[e].clients, ByWriter, |states[e].writerLog| - 1)
    && (forall x :: x in reached ==> x in states[b].registry)
    && (forall q :: 0 <= q < |states[b].registry| ==>
          OfferedOnce(states, acts, b, e, q, states[b].registry[q], WriterMsg(states[e]),
              states[b].registry[q] in reached))
  }

  lemma LastIsTold(states: seq<State>, acts: seq<Action>, e: nat, k: nat) returns (b: nat)
    requires IsRun(states, acts) && e < k <= |acts| && WriterHasMemory(acts, k)
    requires acts[e] == Writes(LogoutDeliverEnds)
    ensures states[e].writerLog != []
    ensures Tells(states, acts, b, e, states[e].writerLog[|states[e].writerLog| - 1],
        Reached(states[e].clients, ByWriter, |states[e].writerLog| - 1))
  {
    b := ExactNoticeSet(states, acts, e);
  }

  /** By the end of the next pass that the writer begins, the logout of a client that the
      reader has marked has been told, under the name it had; and it gets to the sockets of
      those who were told. */
  lemma MarkedAreAnnounced(states: seq<State>, acts: seq<Action>, m: nat, j: nat, k: nat, c: nat)
    returns (b: nat, e: nat, reached: set<nat>)
    requires IsRun(states, acts) && m < j < k < |acts| && WriterHasMemory(acts, k) && Marks(states, acts, m, c)
    requires acts[j] == Writes(WriterSnapshot) && acts[k] == Writes(LogoutsEnd)
    requires forall n :: j < n < k ==> acts[n] != Writes(LogoutsEnd)
    ensures e < k && Tells(states, acts, b, e, Notice(c, LogoutNotice(states[m].clients[c].name)), reached)
    ensures AllArrives(states, acts, e, reached, ByWriter)
  {
    MarkedAreLoggedOut(states, acts, m, j, k, c);
    EverybodyTold(states, acts, k);
    MarkedName(states, acts, m, k, c);
    var r := TheNotice(states[k], c);
    NotTelling(states, acts, k);
    e := NoticeEnded(states, acts, k, r);
    NoticesGrow(states, acts, e, k);
    b := LastIsTold(states, acts, e, k);
    reached := Reached(states[e].clients, ByWriter, |states[e].writerLog| - 1);
    ReachedArrives(states, acts, e, ByWriter);
  }

  lemma NotTelling(states: seq<State>, acts: seq<Action>, k: nat)
    requires IsRun(states, acts) && k < |acts| && acts[k] == Writes(LogoutsEnd)
    ensures !Telling(states[k].writer)
  {
  }

  lemma MarkedName(states: seq<State>, acts: seq<Action>, m: nat, k: nat, c: nat)
    requires IsRun(states, acts) && m < k < |states| && Marks(states, acts, m, c)
    ensures c < |states[k].clients| && states[k].clients[c].name == states[m].clients[c].name
  {
    assert states[m + 1].clients[c].failed && states[m + 1].clients[c].name == states[m].clients[c].name;
    NameKept(states, acts, m + 1, k, c);
  }
}
