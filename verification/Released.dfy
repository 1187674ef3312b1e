// Which steps meet a client that the writer has already released: only deliveries of the
// reader, and exactly when the release came after their copy of the list.

module Released {
  import opened Bytes
  import opened Framing
  import opened Protocol
  import opened ServerSteps
  import opened Registry
  import opened Streams
  import opened Notices
  import opened Runs
  import opened Environment
  import opened ServerCode

  /** The clients whose fields a step of the reader reads. */
  ghost function MetByReader(s: State, r: Read): set<nat>
    requires Sane(s) && CanRead(s, r)
  {
    match r
    case ReaderSnapshot => set c | c in s.registry
    // what was not polled is passed over unseen
    case ReaderSkip => if s.reader.round.polled[s.reader.round.i] then {At(s.reader.round)} else {}
    case ReaderFetch(_) => {At(s.reader.round)}
    case ReaderFetchFails => {At(s.reader.round)}
    case MarkFail => {At(s.reader.round)}
    case ParseOne(_) => {At(s.reader.round)}
    case DeliverOne(_) => {s.reader.delivery.targets[s.reader.delivery.pos]}
    case _ => {}
  }

  /** The clients whose fields a step of the writer reads. */
  ghost function MetByWriter(s: State, w: Write): set<nat>
    requires Sane(s) && CanWrite(s, w)
  {
    match w
    case Flush(_) => {s.writer.snap[s.writer.i]}
    case LogoutSkip => {s.writer.snap[s.writer.i]}
    case LogoutRemove => {s.writer.snap[s.writer.i]} + set c | c in s.registry
    case LogoutAnnounce(_) => {s.writer.snap[s.writer.i]}
    case LogoutDeliverOne(_) => {s.writer.delivery.targets[s.writer.delivery.pos]}
    case Close => {s.writer.snap[s.writer.i]}
    case _ => {}
  }

  ghost function Met(s: State, a: Action): set<nat>
    requires Sane(s) && Enabled(s, a)
  {
    match a
    case Listens(_) => {}
    case Reads(r) => MetByReader(s, r)
    case Writes(w) => MetByWriter(s, w)
  }

  /** In this step the writer closes and releases client c. */
  predicate Releases(s: State, a: Action, c: nat) {
    a == Writes(Close) && s.writer.WClose? && s.writer.i < |s.writer.snap| && s.writer.snap[s.writer.i] == c
  }

  ghost predicate ReleasedIn(states: seq<State>, acts: seq<Action>, j: nat, k: nat, c: nat)
    requires |states| == |acts| + 1 && k <= |acts|
  {
    exists n :: j <= n < k && Releases(states[n], acts[n], c)
  }

  lemma ReleasedNext(states: seq<State>, acts: seq<Action>, j: nat, k: nat, c: nat)
    requires |states| == |acts| + 1 && j <= k < |acts|
    ensures ReleasedIn(states, acts, j, k + 1, c)
      <==> ReleasedIn(states, acts, j, k, c) || Releases(states[k], acts[k], c)
  {
    if ReleasedIn(states, acts, j, k, c) {
      var n :| j <= n < k && Releases(states[n], acts[n], c);
      assert j <= n < k + 1;
    }
  }

  /** Closed is who has been released. */
  lemma {:induction false} ClosedSince(states: seq<State>, acts: seq<Action>, j: nat, k: nat, c: nat)
    requires IsRun(states, acts) && j <= k <= |acts| && c !in states[j].closed
    ensures c in states[k].closed <==> ReleasedIn(states, acts, j, k, c)
  {
    if j < k {
      ClosedSince(states, acts, j, k - 1, c);
      ClosedStep(states[k - 1], acts[k - 1], c);
      ReleasedNext(states, acts, j, k - 1, c);
    }
  }

  lemma ClosedStep(s: State, a: Action, c: nat)
    requires Sane(s) && Enabled(s, a)
    ensures c in Apply(s, a).closed <==> c in s.closed || Releases(s, a, c)
  {
    if a.Reads? {
      ReadFrame(s, a.r);
    }
  }

  /** A delivery of the reader meets a client that has been released if and only if it has
      been released since that delivery copied the list. */
  lemma ReaderMeetsReleased(states: seq<State>, acts: seq<Action>, k: nat) returns (j: nat)
    requires IsRun(states, acts) && k < |acts| && acts[k].Reads? && acts[k].r.DeliverOne?
    ensures states[k].reader.RDeliver? && states[k].reader.delivery.pos < |states[k].reader.delivery.targets|
    ensures j < k && acts[j] == Reads(DeliverSnapshot(true))
    ensures var c := states[k].reader.delivery.targets[states[k].reader.delivery.pos];
      c in states[j].registry && (c in states[k].closed <==> ReleasedIn(states, acts, j, k, c))
  {
    j := DeliveryBegan(states, acts, k);
    var c := states[k].reader.delivery.targets[states[k].reader.delivery.pos];
    ListedIsOpen(states, acts, j, c);
    ClosedSince(states, acts, j, k, c);
  }

  lemma ListedIsOpen(states: seq<State>, acts: seq<Action>, j: nat, c: nat)
    requires IsRun(states, acts) && j < |states| && c in states[j].registry
    ensures c !in states[j].closed
  {
    Invariant(states, acts, j);
    assert c < |Fails(states[j].clients)|;
  }

  /** No other step of any thread does. */
  lemma OthersMeetNoReleased(states: seq<State>, acts: seq<Action>, k: nat)
    requires IsRun(states, acts) && k < |acts| && !(acts[k].Reads? && acts[k].r.DeliverOne?)
    ensures Sane(states[k]) && Enabled(states[k], acts[k]) && Met(states[k], acts[k]) !! states[k].closed
  {
    Invariant(states, acts, k);
    match acts[k]
    case Listens(l) =>
    case Reads(r) => ReaderMeetsListed(states[k], r);
    case Writes(w) =>
      if w.LogoutDeliverOne? {
        TellingMeetsOpen(states, acts, k);
      } else {
        WriterMeetsOpen(states[k], w);
      }
  }

  lemma ReaderMeetsListed(s: State, r: Read)
    requires RegistryOk(s) && CanRead(s, r) && !r.DeliverOne?
    ensures MetByReader(s, r) !! s.closed
  {
    var fails := Fails(s.clients);
    forall c | c in MetByReader(s, r)
      ensures c !in s.closed
    {
      assert c < |fails|;
      if !r.ReaderSnapshot? {
        assert !fails[c];
      }
    }
  }

  lemma WriterMeetsOpen(s: State, w: Write)
    requires RegistryOk(s) && CanWrite(s, w) && !w.LogoutDeliverOne?
    ensures MetByWriter(s, w) !! s.closed
  {
    forall c | c in MetByWriter(s, w)
      ensures c !in s.closed
    {
      assert c in s.registry || c in Leaving(s.writer);
      assert c in s.registry ==> c < |Fails(s.clients)|;
    }
  }

  lemma TellingMeetsOpen(states: seq<State>, acts: seq<Action>, k: nat)
    requires IsRun(states, acts) && k < |acts| && acts[k].Writes? && acts[k].w.LogoutDeliverOne?
    ensures states[k].writer.WDeliver? && states[k].writer.delivery.pos < |states[k].writer.delivery.targets|
    ensures states[k].writer.delivery.targets[states[k].writer.delivery.pos] !in states[k].closed
  {
    var j := NobodyReleased(states, acts, k);
    ListedIsOpen(states, acts, j, states[k].writer.delivery.targets[states[k].writer.delivery.pos]);
  }

  /** While it delivers, the writer releases nobody. */
  lemma {:induction false} NobodyReleased(states: seq<State>, acts: seq<Action>, k: nat) returns (j: nat)
    requires IsRun(states, acts) && k < |states| && states[k].writer.WDeliver?
    ensures j < k && states[k].closed == states[j].closed
    ensures forall c :: c in states[k].writer.delivery.targets ==> c in states[j].registry
  {
    j := k - 1;
    ClosedWhileTelling(states[j], acts[j]);
    if !(acts[j].Writes? && acts[j].w.LogoutSnapshot?) {
      StillNotifying(states[j], acts[j]);
      j := NobodyReleased(states, acts, j);
    }
  }

  lemma ClosedWhileTelling(s: State, a: Action)
    requires Sane(s) && Enabled(s, a) && Apply(s, a).writer.WDeliver?
    ensures Apply(s, a).closed == s.closed
    ensures a.Writes? && a.w.LogoutSnapshot? ==>
      forall c :: c in Apply(s, a).writer.delivery.targets ==> c in s.registry
  {
    if a.Reads? {
      ReadFrame(s, a.r);
    }
  }

  // ----- that it happens

  /** A client has registered. */
  function Joined(s: State, fd: int): State {
    s.(registry := s.registry + [|s.clients|], count := s.count + 1, clients := s.clients + [NewClient(fd)],
       open := s.open + {fd})
  }

  lemma OneJoins(s: State, acts: seq<Action>, t: State, fd: int)
    requires Reaches(s, acts, t) && Sane(t) && t.listener.Listening? && fd >= 0 && fd !in t.open
    ensures Reaches(s, acts + [Listens(Accept(fd))] + [Listens(Register)], Joined(t, fd)) && Sane(Joined(t, fd))
  {
    var u := t.(open := t.open + {fd}, listener := Accepted(fd));
    ReachesSnoc(s, acts, t, Listens(Accept(fd)));
    ReachesSnoc(s, acts + [Listens(Accept(fd))], u, Listens(Register));
  }

  /** Two clients have. */
  function TwoClients(): State { Joined(Joined(Initial(), 3), 4) }

  lemma TwoJoin() returns (acts: seq<Action>)
    ensures Reaches(Initial(), acts, TwoClients())
  {
    IdleIsSane();
    OneJoins(Initial(), [], Initial(), 3);
    acts := [] + [Listens(Accept(3))] + [Listens(Register)];
    OneJoins(Initial(), acts, Joined(Initial(), 3), 4);
    acts := acts + [Listens(Accept(4))] + [Listens(Register)];
  }

  lemma TwoClientsAre()
    ensures var s := TwoClients();
      && s.registry == [0, 1] && s.clients == [NewClient(3), NewClient(4)] && s.reader == RIdle && s.writer == WTop
      && s.closed == {} && Sane(s)
  {
    assert Joined(Initial(), 3).clients == [NewClient(3)];
  }

  /** The reader is about to deliver to both; the first has failed. */
  predicate Halfway(s: State) {
    && Sane(s) && s.registry == [0, 1] && |s.clients| == 2 && s.closed == {} && s.writer == WTop && s.readerLog != []
    && s.clients[0].failed && s.clients[0].socket != s.clients[1].socket
    && s.reader.RDeliver? && s.reader.delivery == Delivery([0, 1], 0, 0)
  }

  /** The first client fails, and the second one says something. */
  lemma FailsAndSays(m: Bytes) returns (acts: seq<Action>, t: State)
    requires IsMessage(m) && Handle(UNKNOWN_CLIENT, m).1.Some?
    ensures Reaches(TwoClients(), acts, t) && Halfway(t)
  {
    var s := TwoClients();
    TwoClientsAre();
    var round := Round([0, 1], [true, true], 0);
    var s1 := s.(reader := RPoll(round));
    assert Polled(s) == [true, true];
    ReachesSnoc(s, [], s, Reads(ReaderSnapshot));
    assert Apply(s, Reads(ReaderSnapshot)) == s1;
    var s2 := s1.(clients := [NewClient(3).(failed := true), NewClient(4)], reader := RPoll(Next(round)));
    ReachesSnoc(s, [] + [Reads(ReaderSnapshot)], s1, Reads(MarkFail));
    assert Apply(s1, Reads(MarkFail)) == s2;
    acts := [] + [Reads(ReaderSnapshot)] + [Reads(MarkFail)];
    acts, t := Says(s, acts, s2, Next(round), m);
  }

  lemma Says(s: State, acts: seq<Action>, s2: State, round: Round, m: Bytes) returns (acts': seq<Action>, t: State)
    requires Reaches(s, acts, s2) && Sane(s2) && s2.reader == RPoll(round) && round.snap == [0, 1] && round.i == 1
    requires s2.registry == [0, 1] && |s2.clients| == 2 && s2.closed == {} && s2.writer == WTop
    requires s2.clients[0].failed && s2.clients[0].socket != s2.clients[1].socket
    requires |round.polled| == 2 && round.polled[1] && s2.clients[1] == NewClient(4)
    requires IsMessage(m) && Handle(UNKNOWN_CLIENT, m).1.Some?
    ensures Reaches(s, acts', t) && Halfway(t)
  {
    ReachesSnoc(s, acts, s2, Reads(ReaderFetch(m)));
    var s3 := Apply(s2, Reads(ReaderFetch(m)));
    OneMessage(NewClient(4), m);
    ParseStepIs(s3, true);
    ReachesSnoc(s, acts + [Reads(ReaderFetch(m))], s3, Reads(ParseOne(true)));
    var s4 := Apply(s3, Reads(ParseOne(true)));
    ReachesSnoc(s, acts + [Reads(ReaderFetch(m))] + [Reads(ParseOne(true))], s4, Reads(DeliverSnapshot(true)));
    acts' := acts + [Reads(ReaderFetch(m))] + [Reads(ParseOne(true))] + [Reads(DeliverSnapshot(true))];
    t := Apply(s4, Reads(DeliverSnapshot(true)));
  }

  lemma OneMessage(x: Client, m: Bytes)
    requires IsMessage(m) && x.inbox == Inbox([], 0)
    ensures var y := Fed(x, m);
      && ScanIsSound(y.inbox) && HasNewline(y.inbox.inbuf)
      && Parsed(y).1 == Handle(x.name, m).1 && Parsed(y).0.socket == x.socket
  {
    Nothing(m);
    var y := Fed(x, m);
    assert forall i :: 0 <= i < |m| - 1 ==> m[i] == m[..|m| - 1][i];
    IndexFromIsLeast(m, 0, NL, |m| - 1);
    FetchTakesTheFirst(y.inbox);
    assert m[..|m|] == m;
  }

  /** The writer goes once round its loops as far as the release. */
  lemma Leaves(s: State) returns (acts: seq<Action>, t: State)
    requires Halfway(s)
    ensures Reaches(s, acts, t) && t.reader == s.reader && t.readerLog == s.readerLog && t.closed == {0}
  {
    var s1 := s.(writer := WFlush([0, 1], 0));
    ReachesSnoc(s, [], s, Writes(WriterSnapshot));
    assert Apply(s, Writes(WriterSnapshot)) == s1;
    var s2 := s1.(writer := WFlush([0, 1], 1));
    ReachesSnoc(s, [] + [Writes(WriterSnapshot)], s1, Writes(Flush(0)));
    assert Apply(s1, Writes(Flush(0))) == s2;
    acts := [] + [Writes(WriterSnapshot)] + [Writes(Flush(0))];
    ReachesSnoc(s, acts, s2, Writes(Flush(0)));
    acts := acts + [Writes(Flush(0))];
    var s3 := Apply(s2, Writes(Flush(0)));
    assert s3.writer == WFlush([0, 1], 2) && s3.clients[0] == s.clients[0]
      && s3.clients[1].socket == s.clients[1].socket;
    ReachesSnoc(s, acts, s3, Writes(FlushesEnd));
    acts := acts + [Writes(FlushesEnd)];
    acts, t := LogsOut(s, acts, s3.(writer := WLogout([0, 1], 0)));
  }

  lemma LogsOut(s: State, acts: seq<Action>, s1: State) returns (acts': seq<Action>, t: State)
    requires Reaches(s, acts, s1) && Sane(s1) && s1.writer == WLogout([0, 1], 0) && |s1.clients| == 2
    requires s1.registry == [0, 1] && s1.clients[0].failed && s1.closed == {}
    ensures Reaches(s, acts', t) && t.reader == s1.reader && t.readerLog == s1.readerLog && t.closed == {0}
  {
    ReachesSnoc(s, acts, s1, Writes(LogoutRemove));
    var s2 := Apply(s1, Writes(LogoutRemove));
    acts' := acts + [Writes(LogoutRemove)];
    ReachesSnoc(s, acts', s2, Writes(LogoutAnnounce(false)));
    var s3 := Apply(s2, Writes(LogoutAnnounce(false)));
    acts' := acts' + [Writes(LogoutAnnounce(false))];
    ReachesSnoc(s, acts', s3, Writes(Close));
    acts' := acts' + [Writes(Close)];
    t := Apply(s3, Writes(Close));
  }

  /** A run in which the next step is a delivery of the reader to a client that has been
      released. */
  lemma ReleasedIsMet() returns (states: seq<State>, acts: seq<Action>)
    ensures IsRun(states, acts)
    ensures var t := states[|acts|];
      && Sane(t) && Enabled(t, Reads(DeliverOne(0)))
      && t.reader.delivery.targets[t.reader.delivery.pos] in t.closed
  {
    var m := CMD_TO_ALL + " " + [NL];
    EmptyBroadcast(m);
    var first := TwoJoin();
    var more, t := FailsAndSays(m);
    var last, u := Leaves(t);
    ReachesAppend(TwoClients(), more, t, last, u);
    ReachesAppend(Initial(), first, TwoClients(), more + last, u);
    acts := first + (more + last);
    states := RunGoesOn([Initial()], [], acts, u);
    Nothing(acts);
    Invariant(states, acts, |acts|);
  }

  lemma EmptyBroadcast(m: Bytes)
    requires m == CMD_TO_ALL + " " + [NL]
    ensures IsMessage(m) && Handle(UNKNOWN_CLIENT, m).1.Some?
  {
    assert m[..|m| - 1] == CMD_TO_ALL + " ";
    assert CMD_TO_ALL <= m;
    ParseByPrefix(m);
  }
}
