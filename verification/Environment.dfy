// What is not up to the server: memory, the sockets, poll and accept. Given what they
// answer, each thread has one way to go.

module Environment {
  import opened Bytes
  import opened Chains
  import opened ServerSteps

  /** What poll reports of a client's socket, and what fetch_from_client then comes to: nothing
      happened, an error or a hang-up, something to read that cannot be read, or these bytes. */
  datatype Report = Quiet | Hangup | Unreadable | Readable(data: Bytes)

  /** The answers. A frame is known by the thread that delivers it and its place in that
      thread's log, a message by its sender and its place among that sender's. */
  datatype World = World(
    accepted: int,                          // what accept returns
    joins: bool,                            // memory for a new client
    polling: bool,                          // memory for the list of a pass of the reader
    poll: int,                              // what poll returns
    report: nat -> Report,                  // what it reports of a client
    builds: (nat, nat) -> bool,             // memory for what a message has others be sent
    listing: bool,                          // memory for the list of a pass of the writer
    drains: nat -> nat,                     // how much of its output a client's socket takes
    notices: nat -> bool,                   // memory for the notice of a client's logout
    copies: (Source, nat) -> bool,          // memory for the list of a delivery
    room: (Source, nat, nat) -> nat         // how much of a frame a client's buffer has memory for
  )

  /** How much of a frame is stored for client c. */
  function Stores(w: World, source: Source, index: nat, c: nat, content: Bytes): (n: nat)
    ensures n <= |content| && n <= w.room(source, index, c) && (n == |content| || n == w.room(source, index, c))
  {
    Min(|content|, w.room(source, index, c))
  }

  /** How much of what is pending a flush writes. */
  function Drains(w: World, c: nat, pending: Bytes): (n: nat)
    ensures n <= |pending| && n <= w.drains(c) && (n == |pending| || n == w.drains(c))
  {
    Min(|pending|, w.drains(c))
  }

  /** The step is the one that these answers lead to. */
  predicate Agrees(w: World, s: State, a: Action)
    requires Sane(s) && Enabled(s, a)
  {
    match a
    case Listens(l) => ListenAgrees(w, l)
    case Reads(r) => ReadAgrees(w, s, r)
    case Writes(x) => WriteAgrees(w, s, x)
  }

  predicate ListenAgrees(w: World, l: Listen) {
    match l
    case Accept(fd) => fd == w.accepted
    case Register => w.joins
    case RegisterFails => !w.joins
  }

  predicate ReadAgrees(w: World, s: State, r: Read)
    requires Sane(s) && CanRead(s, r)
  {
    match r
    case ReaderSnapshot => w.polling
    case ReaderSkip =>
      w.poll > 0 && (s.reader.round.polled[s.reader.round.i] ==> w.report(At(s.reader.round)) == Quiet)
    case ReaderFetch(data) => w.poll > 0 && w.report(At(s.reader.round)) == Readable(data)
    case ReaderFetchFails => w.poll > 0 && w.report(At(s.reader.round)) == Unreadable
    case MarkFail =>
      w.poll > 0 && (w.report(At(s.reader.round)) == Hangup || w.report(At(s.reader.round)) == Readable([]))
    case ReaderRoundEnds => w.poll <= 0 || s.reader.round.i == |s.reader.round.snap|
    case ParseOne(alloc) =>
      alloc == w.builds(At(s.reader.round), |s.clients[At(s.reader.round)].handled|)
    case DeliverSnapshot(list) => list == w.copies(ByReader, |s.readerLog| - 1)
    case DeliverOne(accepted) =>
      var d := s.reader.delivery;
      accepted == Stores(w, ByReader, |s.readerLog| - 1, d.targets[d.pos], ReaderMsg(s).content)
    case DeliverEnds => true
    case Notify => true
  }

  predicate WriteAgrees(w: World, s: State, x: Write)
    requires Sane(s) && CanWrite(s, x)
  {
    match x
    case WriterSnapshot => w.listing
    case Flush(written) =>
      var c := s.writer.snap[s.writer.i];
      written == Drains(w, c, s.clients[c].pending)
    case LogoutAnnounce(memory) => memory == w.notices(s.writer.snap[s.writer.i])
    case LogoutSnapshot(clients) => clients == w.copies(ByWriter, |s.writerLog| - 1)
    case LogoutDeliverOne(taken) =>
      var d := s.writer.delivery;
      taken == Stores(w, ByWriter, |s.writerLog| - 1, d.targets[d.pos], WriterMsg(s).content)
    case _ => true
  }

  /** A step; if there are answers given, the one that they lead to. */
  ghost predicate Leads(g: Option<World>, s: State, a: Action, t: State) {
    Sane(s) && Enabled(s, a) && t == Apply(s, a) && (g.Some? ==> Agrees(g.value, s, a))
  }

  /** These steps, one after another, lead from one state to the other. */
  ghost predicate Reaches(s: State, acts: seq<Action>, t: State) {
    Chain(Leads, None, s, acts, t)
  }

  /** And are those that these answers lead to. */
  ghost predicate Follows(w: World, s: State, acts: seq<Action>, t: State) {
    Chain(Leads, Some(w), s, acts, t)
  }

  lemma ReachesAppend(s: State, acts: seq<Action>, t: State, more: seq<Action>, u: State)
    requires Reaches(s, acts, t) && Reaches(t, more, u)
    ensures Reaches(s, acts + more, u)
  {
    ChainAppend(Leads, None, s, acts, t, more, u);
  }

  lemma ReachesSnoc(s: State, acts: seq<Action>, t: State, a: Action)
    requires Reaches(s, acts, t) && Sane(t) && Enabled(t, a)
    ensures Reaches(s, acts + [a], Apply(t, a)) && Sane(Apply(t, a))
  {
    SanePreserved(t, a);
    ChainSnoc(Leads, None, s, acts, t, a, Apply(t, a));
  }

  lemma FollowsAppend(w: World, s: State, acts: seq<Action>, t: State, more: seq<Action>, u: State)
    requires Follows(w, s, acts, t) && Follows(w, t, more, u)
    ensures Follows(w, s, acts + more, u)
  {
    ChainAppend(Leads, Some(w), s, acts, t, more, u);
  }

  lemma FollowsSnoc(w: World, s: State, acts: seq<Action>, t: State, a: Action)
    requires Follows(w, s, acts, t) && Sane(t) && Enabled(t, a) && Agrees(w, t, a)
    ensures Follows(w, s, acts + [a], Apply(t, a)) && Sane(Apply(t, a))
  {
    SanePreserved(t, a);
    ChainSnoc(Leads, Some(w), s, acts, t, a, Apply(t, a));
  }

  lemma {:induction false} FollowsReaches(w: World, s: State, acts: seq<Action>, t: State)
    requires Follows(w, s, acts, t)
    ensures Reaches(s, acts, t)
    decreases |acts|
  {
    if acts != [] {
      var m :| Leads(Some(w), s, acts[0], m) && Chain(Leads, Some(w), m, acts[1..], t);
      FollowsReaches(w, m, acts[1..], t);
      assert Leads(None, s, acts[0], m);
    }
  }

  // ----- stretches of one thread

  /** A step inside a pass of the thread. */
  predicate StepOf(source: Source, a: Action) {
    match source
    case ByReader => a.Reads? && !a.r.ReaderSnapshot? && !a.r.ReaderRoundEnds?
    case ByWriter => a.Writes? && !a.w.WriterSnapshot? && !a.w.WriterCheck? && !a.w.Wake?
  }

  /** These steps, all of them inside a pass of the one thread, and as the answers have it,
      lead from one state to the other. */
  ghost predicate DoneBy(w: World, source: Source, s: State, acts: seq<Action>, t: State) {
    Follows(w, s, acts, t) && forall n :: 0 <= n < |acts| ==> StepOf(source, acts[n])
  }

  lemma DoneByAppend(w: World, source: Source, s: State, acts: seq<Action>, t: State, more: seq<Action>, u: State)
    requires DoneBy(w, source, s, acts, t) && DoneBy(w, source, t, more, u)
    ensures DoneBy(w, source, s, acts + more, u)
  {
    FollowsAppend(w, s, acts, t, more, u);
  }

  lemma DoneBySnoc(w: World, source: Source, s: State, acts: seq<Action>, t: State, a: Action)
    requires DoneBy(w, source, s, acts, t) && Sane(t) && Enabled(t, a) && Agrees(w, t, a) && StepOf(source, a)
    ensures DoneBy(w, source, s, acts + [a], Apply(t, a)) && Sane(Apply(t, a))
  {
    FollowsSnoc(w, s, acts, t, a);
  }

  /** How a thread's pass begins and how it ends. */
  function First(source: Source): Action {
    match source
    case ByReader => Reads(ReaderSnapshot)
    case ByWriter => Writes(WriterSnapshot)
  }

  function Last(source: Source): Action {
    match source
    case ByReader => Reads(ReaderRoundEnds)
    case ByWriter => Writes(WriterCheck)
  }

  /** One pass, from its beginning to its end. */
  predicate IsPass(source: Source, acts: seq<Action>) {
    && |acts| >= 2 && acts[0] == First(source) && acts[|acts| - 1] == Last(source)
    && forall n :: 0 < n < |acts| - 1 ==> StepOf(source, acts[n])
  }

  lemma PassJoins(w: World, source: Source, s: State, acts: seq<Action>, t: State)
    requires Sane(s) && Enabled(s, First(source)) && Agrees(w, s, First(source))
    requires DoneBy(w, source, Apply(s, First(source)), acts, t)
    requires Sane(t) && Enabled(t, Last(source)) && Agrees(w, t, Last(source))
    ensures var all := [First(source)] + acts + [Last(source)];
      Follows(w, s, all, Apply(t, Last(source))) && IsPass(source, all) && Sane(Apply(t, Last(source)))
  {
    FollowsSnoc(w, s, [], s, First(source));
    assert [] + [First(source)] == [First(source)];
    FollowsAppend(w, s, [First(source)], Apply(s, First(source)), acts, t);
    FollowsSnoc(w, s, [First(source)] + acts, t, Last(source));
  }

  // ----- one way to go

  predicate SameThread(a: Action, b: Action) {
    (a.Listens? <==> b.Listens?) && (a.Reads? <==> b.Reads?)
  }

  /** In any state, the answers leave each thread at most one step. */
  lemma OneWay(w: World, s: State, a: Action, b: Action)
    requires Sane(s) && Enabled(s, a) && Enabled(s, b) && SameThread(a, b)
    requires Agrees(w, s, a) && Agrees(w, s, b)
    ensures a == b
  {
    match a
    case Listens(l) =>
    case Reads(r) => OneRead(w, s, r, b.r);
    case Writes(x) => OneWrite(w, s, x, b.w);
  }

  lemma OneRead(w: World, s: State, r: Read, q: Read)
    requires Sane(s) && CanRead(s, r) && CanRead(s, q) && ReadAgrees(w, s, r) && ReadAgrees(w, s, q)
    ensures r == q
  {
  }

  lemma OneWrite(w: World, s: State, x: Write, y: Write)
    requires Sane(s) && CanWrite(s, x) && CanWrite(s, y) && WriteAgrees(w, s, x) && WriteAgrees(w, s, y)
    ensures x == y
  {
  }

  /** So of two stretches of one thread from the same state, under the same answers, one is
      the beginning of the other; and if they are equally long, they end in the same state. */
  lemma {:induction false} Determined(w: World, s: State, acts: seq<Action>, t: State, acts': seq<Action>, t': State)
    requires Follows(w, s, acts, t) && Follows(w, s, acts', t') && |acts| <= |acts'|
    requires forall n :: 0 <= n < |acts| ==> SameThread(acts[n], acts'[n])
    ensures acts <= acts' && (|acts| == |acts'| ==> t == t')
    decreases |acts|
  {
    if acts != [] {
      var m :| Leads(Some(w), s, acts[0], m) && Chain(Leads, Some(w), m, acts[1..], t);
      var m' :| Leads(Some(w), s, acts'[0], m') && Chain(Leads, Some(w), m', acts'[1..], t');
      OneWay(w, s, acts[0], acts'[0]);
      Determined(w, m, acts[1..], t, acts'[1..], t');
      assert acts == [acts[0]] + acts[1..] && acts' == [acts'[0]] + acts'[1..];
    }
  }

  lemma NotLonger(w: World, source: Source, s: State, acts: seq<Action>, t: State, acts': seq<Action>, t': State)
    requires Follows(w, s, acts, t) && Follows(w, s, acts', t') && IsPass(source, acts) && IsPass(source, acts')
    requires |acts| <= |acts'|
    ensures acts == acts' && t == t'
  {
    Determined(w, s, acts, t, acts', t');
    assert acts[|acts| - 1] == acts'[|acts| - 1];
  }

  /** A pass is determined by the answers: there is no second way to go through it. */
  lemma PassIsDetermined(w: World, source: Source, s: State, acts: seq<Action>, t: State, acts': seq<Action>, t': State)
    requires Follows(w, s, acts, t) && Follows(w, s, acts', t') && IsPass(source, acts) && IsPass(source, acts')
    ensures acts == acts' && t == t'
  {
    if |acts| <= |acts'| {
      NotLonger(w, source, s, acts, t, acts', t');
    } else {
      NotLonger(w, source, s, acts', t', acts, t);
    }
  }
}
