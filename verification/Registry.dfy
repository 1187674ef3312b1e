// The client list under the listener and the writer: who is on it, which sockets are in
// use, who is logged out, in every interleaving.

module Registry {
  import opened Bytes
  import opened ServerSteps

  // ----- what the list depends on

  ghost function Socks(cs: seq<Client>): (r: seq<int>)
    ensures |r| == |cs| && forall c :: 0 <= c < |cs| ==> r[c] == cs[c].socket
  {
    seq(|cs|, c requires 0 <= c < |cs| => cs[c].socket)
  }

  ghost function Fails(cs: seq<Client>): (r: seq<bool>)
    ensures |r| == |cs| && forall c :: 0 <= c < |cs| ==> r[c] == cs[c].failed
  {
    seq(|cs|, c requires 0 <= c < |cs| => cs[c].failed)
  }

  predicate Distinct(ids: seq<nat>) {
    forall i, j :: 0 <= i < j < |ids| ==> ids[i] != ids[j]
  }

  /** The client that the writer has taken off the list and not yet closed. */
  function Leaving(w: Writer): set<nat> {
    match w
    case WRemoved(snap, i) => if i < |snap| then {snap[i]} else {}
    case WSend(snap, i) => if i < |snap| then {snap[i]} else {}
    case WDeliver(snap, i, _) => if i < |snap| then {snap[i]} else {}
    case WClose(snap, i, _) => if i < |snap| then {snap[i]} else {}
    case _ => {}
  }

  /** The list holds, each once, all clients but those logged out, and those have failed. */
  ghost predicate ListOk(fails: seq<bool>, registry: seq<nat>, count: int, closed: set<nat>, leaving: set<nat>) {
    && count == |registry| && Distinct(registry) && closed !! leaving
    && (forall c :: c in registry ==> c < |fails|)
    && (forall c :: 0 <= c < |fails| ==> (c in registry <==> c !in closed + leaving))
    && (forall c :: c in closed + leaving ==> c < |fails| && fails[c])
  }

  /** Sockets of clients that are not closed are in use, and no two are the same. */
  ghost predicate SocketsOk(socks: seq<int>, closed: set<nat>, open: set<int>, listener: Listener) {
    && (listener.Accepted? ==> listener.fd in open && listener.fd >= 0)
    && (forall a :: 0 <= a < |socks| ==> socks[a] >= 0)
    && (forall a :: 0 <= a < |socks| && a !in closed ==>
           socks[a] in open && (listener.Accepted? ==> socks[a] != listener.fd))
    && (forall a, b :: 0 <= a < b < |socks| && a !in closed && b !in closed ==> socks[a] != socks[b])
  }

  /** What is still to be polled in a round has not failed. */
  ghost predicate RoundOk(fails: seq<bool>, r: Round, inside: bool) {
    && Distinct(r.snap) && RoundFits(|fails|, r, inside)
    && (forall j :: r.i <= j < |r.snap| && r.polled[j] ==> !fails[r.snap[j]])
    && (inside ==> r.polled[r.i])
  }

  ghost predicate ReaderOk(fails: seq<bool>, reader: Reader) {
    match reader
    case RIdle => true
    case RPoll(r) => RoundOk(fails, r, false)
    case RParse(r, _) => RoundOk(fails, r, true)
    case RSend(r, _) => RoundOk(fails, r, true)
    case RDeliver(r, _, d) => RoundOk(fails, r, true) && Distinct(d.targets)
    case RNotify(r, _) => RoundOk(fails, r, true)
  }

  /** What the writer has still to look at is on the list. */
  ghost predicate Ahead(registry: seq<nat>, snap: seq<nat>, i: nat) {
    Distinct(snap) && forall j :: i <= j < |snap| ==> snap[j] in registry
  }

  ghost predicate WriterOk(registry: seq<nat>, writer: Writer) {
    match writer
    case WFlush(snap, i) => Ahead(registry, snap, 0)
    case WLogout(snap, i) => Ahead(registry, snap, i)
    case WRemoved(snap, i) => Ahead(registry, snap, i + 1)
    case WSend(snap, i) => Ahead(registry, snap, i + 1)
    case WDeliver(snap, i, d) => Ahead(registry, snap, i + 1) && Distinct(d.targets)
    case WClose(snap, i, _) => Ahead(registry, snap, i + 1)
    case WNotify(snap, i, _) => Ahead(registry, snap, i + 1)
    case _ => true
  }

  /** Logouts are announced once, and only those of clients that are off the list. */
  ghost predicate NoticesOk(log: seq<Notice>, closed: set<nat>, announced: set<nat>) {
    && (forall i :: 0 <= i < |log| ==> log[i].who in closed + announced)
    && (forall i, j :: 0 <= i < j < |log| ==> log[i].who != log[j].who)
  }

  /** Those leaving whose announcement may have begun. */
  function Announcing(w: Writer): set<nat> {
    if w.WRemoved? then {} else Leaving(w)
  }

  ghost predicate RegistryOk(s: State) {
    && Sane(s)
    && ListOk(Fails(s.clients), s.registry, s.count, s.closed, Leaving(s.writer))
    && SocketsOk(Socks(s.clients), s.closed, s.open, s.listener)
    && ReaderOk(Fails(s.clients), s.reader)
    && WriterOk(s.registry, s.writer)
    && NoticesOk(s.writerLog, s.closed, Announcing(s.writer))
  }

  // ----- steps

  /** The clients stand as before: no socket and no mark of failure has changed. */
  ghost predicate SameStanding(cs: seq<Client>, cs': seq<Client>) {
    |cs| == |cs'| && forall c :: 0 <= c < |cs| ==> cs[c].socket == cs'[c].socket && cs[c].failed == cs'[c].failed
  }

  lemma StandingKept(cs: seq<Client>, cs': seq<Client>)
    requires SameStanding(cs, cs')
    ensures Socks(cs) == Socks(cs') && Fails(cs) == Fails(cs')
  {
  }

  lemma RegistryStarts()
    ensures RegistryOk(Initial())
  {
    IdleIsSane();
  }

  lemma RegistryPreserved(s: State, a: Action)
    requires RegistryOk(s) && Enabled(s, a)
    ensures RegistryOk(Apply(s, a))
  {
    SanePreserved(s, a);
    match a
    case Listens(l) => RegistryListen(s, l);
    case Reads(r) => RegistryRead(s, r);
    case Writes(w) => RegistryWrite(s, w);
  }

  lemma RegistryListen(s: State, l: Listen)
    requires RegistryOk(s) && CanListen(s, l) && Sane(ListenStep(s, l))
    ensures RegistryOk(ListenStep(s, l))
  {
    if l.Register? {
      var s' := ListenStep(s, l);
      assert Fails(s'.clients) == Fails(s.clients) + [false];
      assert Socks(s'.clients) == Socks(s.clients) + [s.listener.fd];
      ReaderKept(Fails(s.clients), Fails(s'.clients), s.reader);
    }
  }

  /** A client more, none of the others failing, changes nothing for a round. */
  lemma ReaderKept(fails: seq<bool>, fails': seq<bool>, reader: Reader)
    requires ReaderOk(fails, reader) && fails <= fails'
    ensures ReaderOk(fails', reader)
  {
  }

  lemma RegistryRead(s: State, r: Read)
    requires RegistryOk(s) && CanRead(s, r) && Sane(ReadStep(s, r))
    ensures RegistryOk(ReadStep(s, r))
  {
    var s' := ReadStep(s, r);
    ReadFrame(s, r);
    if r.MarkFail? {
      assert Socks(s'.clients) == Socks(s.clients);
      assert Fails(s'.clients) == Fails(s.clients)[At(s.reader.round) := true];
    } else {
      ReadStanding(s, r);
      StandingKept(s.clients, s'.clients);
      ReaderMoves(s, r);
    }
  }

  /** What the reader never touches. */
  lemma ReadFrame(s: State, r: Read)
    requires Sane(s) && CanRead(s, r)
    ensures var s' := ReadStep(s, r);
      && s'.registry == s.registry && s'.count == s.count && s'.open == s.open && s'.closed == s.closed
      && s'.listener == s.listener && s'.writer == s.writer && s'.writerLog == s.writerLog
  {
  }

  lemma ReaderMoves(s: State, r: Read)
    requires RegistryOk(s) && CanRead(s, r) && !r.MarkFail?
    ensures ReaderOk(Fails(s.clients), ReadStep(s, r).reader)
  {
  }

  /** Apart from MarkFail, the reader leaves sockets and marks alone. */
  lemma ReadStanding(s: State, r: Read)
    requires Sane(s) && CanRead(s, r) && !r.MarkFail?
    ensures SameStanding(s.clients, ReadStep(s, r).clients)
  {
  }

  lemma WriteStanding(s: State, w: Write)
    requires Sane(s) && CanWrite(s, w)
    ensures SameStanding(s.clients, WriteStep(s, w).clients)
  {
  }

  lemma RegistryWrite(s: State, w: Write)
    requires RegistryOk(s) && CanWrite(s, w) && Sane(WriteStep(s, w))
    ensures RegistryOk(WriteStep(s, w))
  {
    WriteStanding(s, w);
    StandingKept(s.clients, WriteStep(s, w).clients);
    if w.LogoutRemove? {
      RegistryRemove(s);
    } else if w.LogoutAnnounce? {
      RegistryAnnounce(s, w);
    } else if w.Close? {
      RegistryClose(s);
    } else {
      RegistryElse(s, w);
    }
  }

  lemma RegistryElse(s: State, w: Write)
    requires RegistryOk(s) && CanWrite(s, w) && !w.LogoutRemove? && !w.LogoutAnnounce? && !w.Close?
    requires Sane(WriteStep(s, w))
    requires Socks(WriteStep(s, w).clients) == Socks(s.clients) && Fails(WriteStep(s, w).clients) == Fails(s.clients)
    ensures RegistryOk(WriteStep(s, w))
  {
    WriteFrame(s, w);
    WriterMoves(s, w);
  }

  /** What the writer leaves alone but for these three steps. */
  lemma WriteFrame(s: State, w: Write)
    requires Sane(s) && CanWrite(s, w) && !w.LogoutRemove? && !w.LogoutAnnounce? && !w.Close?
    ensures var s' := WriteStep(s, w);
      && s'.registry == s.registry && s'.count == s.count && s'.open == s.open && s'.closed == s.closed
      && s'.listener == s.listener && s'.reader == s.reader && s'.writerLog == s.writerLog
      && Leaving(s'.writer) == Leaving(s.writer) && Announcing(s'.writer) == Announcing(s.writer)
  {
  }

  lemma WriterMoves(s: State, w: Write)
    requires RegistryOk(s) && CanWrite(s, w) && !w.LogoutRemove? && !w.LogoutAnnounce? && !w.Close?
    ensures WriterOk(s.registry, WriteStep(s, w).writer)
  {
  }

  lemma RegistryRemove(s: State)
    requires RegistryOk(s) && CanWrite(s, LogoutRemove) && Sane(WriteStep(s, LogoutRemove))
    ensures RegistryOk(WriteStep(s, LogoutRemove))
  {
    LogoutRemovesItsOwn(s, s.writer.snap[s.writer.i]);
  }

  lemma RegistryAnnounce(s: State, w: Write)
    requires RegistryOk(s) && w.LogoutAnnounce? && CanWrite(s, w) && Sane(WriteStep(s, w))
    ensures RegistryOk(WriteStep(s, w))
  {
  }

  lemma RegistryClose(s: State)
    requires RegistryOk(s) && CanWrite(s, Close) && Sane(WriteStep(s, Close))
    ensures RegistryOk(WriteStep(s, Close))
  {
    var c := s.writer.snap[s.writer.i];
    assert c in Leaving(s.writer);
    assert s.closed + {c} + {} == s.closed + Leaving(s.writer);
  }

  /** The search by socket takes exactly the client itself off the list. */
  lemma LogoutRemovesItsOwn(s: State, c: nat)
    requires RegistryOk(s) && c in s.registry
    ensures var left := Remove(s.clients, s.registry, s.clients[c].socket);
      && |left| == |s.registry| - 1 && Distinct(left)
      && (forall id :: id in left <==> id in s.registry && id != c)
      && Subsequence(left, s.registry)
  {
    var p :| 0 <= p < |s.registry| && s.registry[p] == c;
    OthersDiffer(s, p);
    RemoveAt(s.clients, s.registry, p);
    WithoutOne(s.registry, p);
    SubsequenceSkip(s.registry, p);
  }

  lemma OthersDiffer(s: State, p: nat)
    requires RegistryOk(s) && p < |s.registry|
    ensures forall j :: 0 <= j < p ==> s.clients[s.registry[j]].socket != s.clients[s.registry[p]].socket
  {
    var socks := Socks(s.clients);
    forall j | 0 <= j < p
      ensures s.clients[s.registry[j]].socket != s.clients[s.registry[p]].socket
    {
      var a, b := s.registry[j], s.registry[p];
      assert a in s.registry && b in s.registry;
      assert a != b && a !in s.closed && b !in s.closed;
      assert socks[a] != socks[b];
    }
  }

  lemma WithoutOne(ids: seq<nat>, p: nat)
    requires Distinct(ids) && p < |ids|
    ensures var left := ids[..p] + ids[p + 1..];
      && |left| == |ids| - 1 && Distinct(left)
      && forall id :: id in left <==> id in ids && id != ids[p]
  {
    var left := ids[..p] + ids[p + 1..];
    forall id | id in ids && id != ids[p]
      ensures id in left
    {
      var k :| 0 <= k < |ids| && ids[k] == id;
      assert left[if k < p then k else k - 1] == id;
    }
  }

  lemma {:induction false} RemoveAt(cs: seq<Client>, registry: seq<nat>, p: nat)
    requires Known(|cs|, registry) && p < |registry|
    requires forall j :: 0 <= j < p ==> cs[registry[j]].socket != cs[registry[p]].socket
    ensures Remove(cs, registry, cs[registry[p]].socket) == registry[..p] + registry[p + 1..]
  {
    if p > 0 {
      RemoveAt(cs, registry[1..], p - 1);
      assert registry[1..][..p - 1] == registry[1..p];
    }
  }
}
