// From what is typed at one client to what is written to another's socket.

module EndToEnd {
  import opened Bytes
  import opened Protocol
  import opened ChatClient
  import opened ClientInput
  import opened ServerSteps
  import opened Streams
  import opened Deliveries
  import opened Owed
  import opened Runs

  /** All that a client sends: its login, and what is typed, as reads bring it. */
  function Session(name: Bytes, pieces: seq<Bytes>): Bytes {
    LoginLine(name) + Sent(pieces)
  }

  /** The messages in it. */
  function SessionMessages(name: Bytes, pieces: seq<Bytes>): seq<Bytes> {
    [LoginLine(name)] + Messages(Sent(pieces))
  }

  /** Prefixes have come into line i just as they should. */
  predicate Kept(pieces: seq<Bytes>, i: nat) {
    i < |LinesOf(Weave(pieces))| && KeepsPromise(LinesOf(Weave(pieces))[i])
  }

  predicate AllKept(pieces: seq<Bytes>) {
    forall i :: 0 <= i < |LinesOf(Weave(pieces))| ==> Kept(pieces, i)
  }

  /** No line before line i goes to the server as another login. */
  predicate NoLoginBefore(pieces: seq<Bytes>, i: nat) {
    forall j :: 0 <= j < i && j < |Messages(Sent(pieces))| ==> !StartsWith(Messages(Sent(pieces))[j], CMD_LOGIN)
  }

  /** What a line is to make the server deliver. */
  function PromisedMsg(sender: Bytes, line: Bytes): Msg {
    match Promised(line)
    case Private(target, body) => Msg(target, sender, PeerFrame(sender, body))
    case Broadcast(body) => Msg(CMD_TO_ALL, sender, PeerFrame(sender, body))
    case _ => Msg([], sender, [])
  }

  /** Which is this frame, byte for byte. */
  lemma PromisedBytes(sender: Bytes, line: Bytes)
    ensures Promised(line).Private? ==>
      PromisedMsg(sender, line)
        == Msg(Promised(line).target, sender, "FROM " + sender + ": " + Promised(line).body + "\n")
    ensures !Promised(line).Private? ==>
      PromisedMsg(sender, line) == Msg("TO-ALL:", sender, "FROM " + sender + ": " + line + "\n")
  {
    PromisedOnlyIf(line);
    match Promised(line)
    case Private(target, body) => PeerFrameBytes(sender, body);
    case _ => PeerFrameBytes(sender, line);
  }

  function PromisedFrames(sender: Bytes, lines: seq<Bytes>): (r: seq<Bytes>)
    ensures |r| == |lines|
  {
    seq(|lines|, i requires 0 <= i < |lines| => PromisedMsg(sender, lines[i]).content)
  }

  /** The server cuts a session into the login and one message for each line. */
  lemma SessionIsCut(name: Bytes, pieces: seq<Bytes>)
    requires !HasNewline(name)
    ensures AllMessages(SessionMessages(name, pieces))
    ensures Messages(Session(name, pieces)) == SessionMessages(name, pieces)
    ensures |SessionMessages(name, pieces)| == 1 + |TypedLines(pieces)|
  {
    LoginRoundTrip(name, []);
    AnyReads(pieces);
    MessagesCons(LoginLine(name), Sent(pieces));
  }

  /** What the server makes of a line that is kept. */
  lemma LineIsHandled(name: Bytes, pieces: seq<Bytes>, i: nat)
    requires Kept(pieces, i)
    ensures i < |TypedLines(pieces)| == |Messages(Sent(pieces))| && IsMessage(Messages(Sent(pieces))[i])
    ensures Handle(name, Messages(Sent(pieces))[i]) == (name, Some(PromisedMsg(name, TypedLines(pieces)[i])))
  {
    AnyReads(pieces);
    PromiseHandled(name, Messages(Sent(pieces))[i], TypedLines(pieces)[i]);
  }

  lemma PromiseHandled(name: Bytes, m: Bytes, line: Bytes)
    requires IsMessage(m) && Parse(m) == Promised(line)
    ensures Handle(name, m) == (name, Some(PromisedMsg(name, line)))
  {
  }

  // ----- whatever is heard was promised

  /** These messages are a login and lines that are each understood as promised. */
  predicate Understood(name: Bytes, ms: seq<Bytes>, lines: seq<Bytes>) {
    && AllMessages(ms) && |ms| == 1 + |lines| && ms[0] == LoginLine(name)
    && forall i :: 0 <= i < |lines| ==>
         Handle(Truncate(name), ms[i + 1]) == (Truncate(name), Some(PromisedMsg(Truncate(name), lines[i])))
  }

  /** The first n lines are said as they should be. */
  ghost predicate SaysSoFar(name: Bytes, ms: seq<Bytes>, lines: seq<Bytes>, n: nat) {
    && n < |ms| && n <= |lines| && AllMessages(ms) && NameAfter(ms[..n + 1]) == Truncate(name)
    && Said(ms[..n + 1]) == [LoginNotice(Truncate(name)).content] + PromisedFrames(Truncate(name), lines[..n])
  }

  lemma {:induction false} UnderstoodIsSaid(name: Bytes, ms: seq<Bytes>, lines: seq<Bytes>, n: nat)
    requires !HasNewline(name) && Understood(name, ms, lines) && n <= |lines|
    ensures SaysSoFar(name, ms, lines, n)
  {
    if n == 0 {
      assert ms[..1] == [LoginLine(name)];
      SessionOpens(name);
    } else {
      UnderstoodIsSaid(name, ms, lines, n - 1);
      var sender := Truncate(name);
      TakeNext(ms, n);
      SaidSnoc(ms[..n], ms[n], sender, PromisedMsg(sender, lines[n - 1]));
      OneFrameMore([LoginNotice(sender).content], sender, lines, n - 1);
    }
  }

  /** The server makes of each line what its user was promised, under the name of the login. */
  lemma SessionSays(name: Bytes, pieces: seq<Bytes>)
    requires !HasNewline(name) && AllKept(pieces)
    ensures AllMessages(SessionMessages(name, pieces))
    ensures NameAfter(SessionMessages(name, pieces)) == Truncate(name)
    ensures Said(SessionMessages(name, pieces))
      == [LoginNotice(Truncate(name)).content] + PromisedFrames(Truncate(name), TypedLines(pieces))
  {
    var ms, lines := SessionMessages(name, pieces), TypedLines(pieces);
    SessionUnderstood(name, pieces);
    UnderstoodIsSaid(name, ms, lines, |lines|);
    TakeAll(ms, |lines| + 1);
    TakeAll(lines, |lines|);
  }

  lemma SessionUnderstood(name: Bytes, pieces: seq<Bytes>)
    requires !HasNewline(name) && AllKept(pieces)
    ensures Understood(name, SessionMessages(name, pieces), TypedLines(pieces))
  {
    SessionIsCut(name, pieces);
    AnyReads(pieces);
    forall i | 0 <= i < |TypedLines(pieces)|
      ensures Handle(Truncate(name), SessionMessages(name, pieces)[i + 1])
        == (Truncate(name), Some(PromisedMsg(Truncate(name), TypedLines(pieces)[i])))
    {
      LineIsHandled(Truncate(name), pieces, i);
    }
  }

  lemma TakeAll<T>(s: seq<T>, n: nat)
    requires n == |s|
    ensures s[..n] == s
  {
  }

  lemma SessionOpens(name: Bytes)
    requires !HasNewline(name)
    ensures AllMessages([LoginLine(name)]) && NameAfter([LoginLine(name)]) == Truncate(name)
    ensures Said([LoginLine(name)]) == [LoginNotice(Truncate(name)).content] + PromisedFrames(Truncate(name), [])
  {
    LoginRoundTrip(name, UNKNOWN_CLIENT);
    SaidSnoc([], LoginLine(name), Truncate(name), LoginNotice(Truncate(name)));
    Nothing([LoginLine(name)]);
    Nothing([LoginNotice(Truncate(name)).content]);
  }

  lemma OneFrameMore(front: seq<Bytes>, sender: Bytes, lines: seq<Bytes>, n: nat)
    requires n < |lines|
    ensures front + PromisedFrames(sender, lines[..n + 1])
      == front + PromisedFrames(sender, lines[..n]) + [PromisedMsg(sender, lines[n]).content]
  {
    assert PromisedFrames(sender, lines[..n + 1])
        == PromisedFrames(sender, lines[..n]) + [PromisedMsg(sender, lines[n]).content];
  }

  lemma SaidSnoc(ms: seq<Bytes>, m: Bytes, name: Bytes, msg: Msg)
    requires AllMessages(ms) && IsMessage(m) && Handle(NameAfter(ms), m) == (name, Some(msg))
    ensures AllMessages(ms + [m]) && NameAfter(ms + [m]) == name
    ensures Said(ms + [m]) == Said(ms) + [msg.content]
  {
    assert (ms + [m])[..|ms|] == ms;
  }

  /** Whatever a client is sent of a session whose lines are kept, as far as it has come, is,
      in order and without repetition, among the login notice and the frames that its lines
      promise. */
  lemma SessionIsHeard(states: seq<State>, acts: seq<Action>, k: nat, a: nat, b: nat, name: Bytes, pieces: seq<Bytes>)
    requires IsRun(states, acts) && k < |states| && a < |states[k].clients| && b < |states[k].clients|
    requires !HasNewline(name) && AllKept(pieces) && states[k].clients[a].received <= Session(name, pieces)
    ensures var s := states[k];
      && Behind(s.clients[b].out, ByReader, |s.readerLog|)
      && Subsequence(Heard(s.clients[b].out, s.readerLog, a),
           [LoginNotice(Truncate(name)).content] + PromisedFrames(Truncate(name), TypedLines(pieces)))
  {
    FirstInFirstOut(states, acts, k, a, b);
    SessionIsCut(name, pieces);
    SessionSays(name, pieces);
    var heard, said := Messages(states[k].clients[a].received), SessionMessages(name, pieces);
    MessagesOfPrefix(states[k].clients[a].received, Session(name, pieces));
    assert said[..|heard|] == heard;
    var more := SaidPrefix(said, |heard|);
    SubsequenceExtend(Heard(states[k].clients[b].out, states[k].readerLog, a), Said(heard), more);
  }

  // ----- nothing that is promised gets lost

  /** Without another login the name stays that of the first. */
  lemma {:induction false} NameStays(name: Bytes, ms: seq<Bytes>, n: nat)
    requires !HasNewline(name) && AllMessages(ms) && n < |ms| && ms[0] == LoginLine(name)
    requires forall j :: 0 < j <= n ==> !StartsWith(ms[j], CMD_LOGIN)
    ensures NameAfter(ms[..n + 1]) == Truncate(name)
  {
    if n == 0 {
      assert ms[..1] == [LoginLine(name)];
      SessionOpens(name);
    } else {
      NameStays(name, ms, n - 1);
      assert ms[..n + 1][..n] == ms[..n];
      NotALogin(Truncate(name), ms[n]);
    }
  }

  lemma NotALogin(name: Bytes, m: Bytes)
    requires IsMessage(m) && !StartsWith(m, CMD_LOGIN)
    ensures Handle(name, m).0 == name
  {
  }

  lemma NoLoginInside(name: Bytes, pieces: seq<Bytes>, i: nat)
    requires NoLoginBefore(pieces, i) && i <= |Messages(Sent(pieces))|
    ensures forall j :: 0 < j <= i ==> !StartsWith(SessionMessages(name, pieces)[j], CMD_LOGIN)
  {
    forall j | 0 < j <= i
      ensures !StartsWith(SessionMessages(name, pieces)[j], CMD_LOGIN)
    {
      assert SessionMessages(name, pieces)[j] == Messages(Sent(pieces))[j - 1];
    }
  }

  /** What the message of a line has others be sent. */
  lemma SessionMsgAt(name: Bytes, pieces: seq<Bytes>, i: nat)
    requires !HasNewline(name) && Kept(pieces, i) && NoLoginBefore(pieces, i)
    ensures AllMessages(SessionMessages(name, pieces))
    ensures i < |TypedLines(pieces)| && |SessionMessages(name, pieces)| == 1 + |TypedLines(pieces)|
    ensures MsgAt(SessionMessages(name, pieces), i + 1) == Some(PromisedMsg(Truncate(name), TypedLines(pieces)[i]))
  {
    SessionIsCut(name, pieces);
    LineIsHandled(Truncate(name), pieces, i);
    NoLoginInside(name, pieces, i);
    NameStays(name, SessionMessages(name, pieces), i);
  }

  lemma MsgAtInPrefix(ms: seq<Bytes>, all: seq<Bytes>, h: nat, msg: Msg)
    requires ms <= all && AllMessages(all) && h < |ms| && MsgAt(all, h) == Some(msg)
    ensures AllMessages(ms) && MsgAt(ms, h) == Some(msg)
  {
    assert ms + all[|ms|..] == all;
    MsgAtPrefix(ms, all[|ms|..], h);
  }

  /** For every line of a session that is kept and has come in, once the reader is between two
      clients: there has been a delivery of its own for it, of just what the user was
      promised, to exactly those on the list for whom it was, and it gets to the sockets of
      those as WhatIsSaidArrives says. */
  lemma PromisesAreKept(states: seq<State>, acts: seq<Action>, k: nat, a: nat, name: Bytes, pieces: seq<Bytes>, i: nat)
    returns (j: nat, e: nat)
    requires IsRun(states, acts) && k <= |acts| && ReaderHasMemory(acts, k) && BetweenClients(states[k].reader)
    requires a < |states[k].clients| && !HasNewline(name) && Kept(pieces, i) && NoLoginBefore(pieces, i)
    requires states[k].clients[a].received <= Session(name, pieces)
    requires i + 1 < |Messages(states[k].clients[a].received)|
    ensures j < e < k && acts[j] == Reads(DeliverSnapshot(true)) && acts[e] == Reads(DeliverEnds)
    ensures states[e].readerLog != [] && i < |TypedLines(pieces)|
    ensures var msg := PromisedMsg(Truncate(name), TypedLines(pieces)[i]);
      var meant := Meant(states[e].clients, states[j].registry, msg);
      && LastRecord(states[e]) == Record(a, i + 1, msg)
      && Reached(states[e].clients, ByReader, |states[e].readerLog| - 1) == meant
      && AllArrives(states, acts, e, meant, ByReader)
  {
    SessionSoFar(states[k].clients[a].received, name, pieces, i);
    j, e := WhatIsSaidArrives(states, acts, k, a, i + 1, PromisedMsg(Truncate(name), TypedLines(pieces)[i]));
  }

  lemma SessionSoFar(received: Bytes, name: Bytes, pieces: seq<Bytes>, i: nat)
    requires !HasNewline(name) && Kept(pieces, i) && NoLoginBefore(pieces, i)
    requires received <= Session(name, pieces) && i + 1 < |Messages(received)|
    ensures AllMessages(Messages(received)) && i < |TypedLines(pieces)|
    ensures MsgAt(Messages(received), i + 1) == Some(PromisedMsg(Truncate(name), TypedLines(pieces)[i]))
  {
    SessionIsCut(name, pieces);
    MessagesOfPrefix(received, Session(name, pieces));
    SessionMsgAt(name, pieces, i);
    MsgAtInPrefix(Messages(received), SessionMessages(name, pieces), i + 1,
      PromisedMsg(Truncate(name), TypedLines(pieces)[i]));
  }
}
