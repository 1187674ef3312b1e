// The reading side of a connection as a value: bytes that have arrived, and how far they
// have been searched for the end of a message (src/entity/client_info.c:153-171).

module Framing {
  import opened Bytes

  /** `scan` is last_check_cmd_index. */
  datatype Inbox = Inbox(inbuf: Bytes, scan: nat)

  /** No message ends in the part that has been searched. */
  predicate ScanIsSound(box: Inbox) {
    box.scan <= |box.inbuf| && NL !in box.inbuf[..box.scan]
  }

  /** Bytes from the socket go behind those that are there. */
  function Arrive(box: Inbox, d: Bytes): Inbox {
    box.(inbuf := box.inbuf + d)
  }

  /** fetch_msg_from_client: the search resumes where the last one ended. */
  function Fetch(box: Inbox): (Option<Bytes>, Inbox) {
    var pos := IndexFrom(box.inbuf, box.scan, NL);
    if pos == |box.inbuf| then (None, box.(scan := |box.inbuf|))
    else (Some(box.inbuf[..pos + 1]), Inbox(box.inbuf[pos + 1..], 0))
  }

  /** A search from the remembered position finds what a search of everything would. */
  lemma ResumedScan(box: Inbox)
    requires ScanIsSound(box)
    ensures IndexFrom(box.inbuf, box.scan, NL) == IndexFrom(box.inbuf, 0, NL)
  {
    var r := IndexFrom(box.inbuf, box.scan, NL);
    forall i | 0 <= i < r
      ensures box.inbuf[i] != NL
    {
      if i < box.scan {
        assert box.inbuf[..box.scan][i] == box.inbuf[i];
      }
    }
    IndexFromIsLeast(box.inbuf, 0, NL, r);
  }

  lemma ArriveIsSound(box: Inbox, d: Bytes)
    requires ScanIsSound(box)
    ensures ScanIsSound(Arrive(box, d))
  {
    assert Arrive(box, d).inbuf[..box.scan] == box.inbuf[..box.scan];
  }

  /** What is fetched is the first message, if there is one, and the rest stays. */
  lemma FetchTakesTheFirst(box: Inbox)
    requires ScanIsSound(box)
    ensures ScanIsSound(Fetch(box).1)
    ensures Fetch(box).0 == None <==> !HasNewline(box.inbuf)
    ensures Fetch(box).0 == None ==> Fetch(box).1.inbuf == box.inbuf
    ensures Fetch(box).0.Some? ==>
      var m := Fetch(box).0.value;
      && IsMessage(m) && box.inbuf == m + Fetch(box).1.inbuf
      && |Fetch(box).1.inbuf| < |box.inbuf|
      && Messages(box.inbuf) == [m] + Messages(Fetch(box).1.inbuf)
  {
    ResumedScan(box);
    var pos := IndexFrom(box.inbuf, 0, NL);
    if pos < |box.inbuf| {
      FirstMessage(box.inbuf);
      CutJoins(box.inbuf, pos + 1);
    } else {
      assert box.inbuf[..|box.inbuf|] == box.inbuf;
    }
  }

  // ----- runs

  /** What can happen to the reading side: bytes arrive, in pieces of any size, and
      messages are asked for, at any time. */
  datatype Event = Arrival(data: Bytes) | Request

  function Received(events: seq<Event>): Bytes {
    if events == [] then []
    else Received(events[..|events| - 1]) + Brought(events[|events| - 1])
  }

  function Brought(e: Event): Bytes {
    match e
    case Arrival(d) => d
    case Request => []
  }

  function Found(m: Option<Bytes>): seq<Bytes> {
    match m
    case None => []
    case Some(x) => [x]
  }

  /** The reading side after a run, and the messages that were fetched in it. */
  function After(events: seq<Event>): (Inbox, seq<Bytes>) {
    if events == [] then (Inbox([], 0), [])
    else
      var (box, fetched) := After(events[..|events| - 1]);
      match events[|events| - 1]
      case Arrival(d) => (Arrive(box, d), fetched)
      case Request =>
        var (m, rest) := Fetch(box);
        (rest, fetched + Found(m))
  }

  /** However the stream is cut, messages come out whole and in order, nothing is lost and
      the remembered position is sound. */
  lemma {:induction false} RunIsFaithful(events: seq<Event>)
    ensures var (box, fetched) := After(events);
      && ScanIsSound(box)
      && AllMessages(fetched)
      && Concat(fetched) + box.inbuf == Received(events)
      && fetched + Messages(box.inbuf) == Messages(Received(events))
      && Residue(box.inbuf) == Residue(Received(events))
  {
    if events != [] {
      var before := events[..|events| - 1];
      var (box, fetched) := After(before);
      RunIsFaithful(before);
      match events[|events| - 1]
      case Arrival(d) =>
        ArriveIsSound(box, d);
        Associate(Concat(fetched), box.inbuf, d);
        SplitIsUnique(fetched, box.inbuf + d);
      case Request =>
        Nothing(Received(before));
        RequestIsFaithful(box, fetched);
    }
  }

  lemma RequestIsFaithful(box: Inbox, fetched: seq<Bytes>)
    requires ScanIsSound(box) && AllMessages(fetched)
    ensures ScanIsSound(Fetch(box).1) && AllMessages(fetched + Found(Fetch(box).0))
    ensures Concat(fetched + Found(Fetch(box).0)) + Fetch(box).1.inbuf == Concat(fetched) + box.inbuf
    ensures fetched + Found(Fetch(box).0) + Messages(Fetch(box).1.inbuf) == fetched + Messages(box.inbuf)
    ensures Residue(Fetch(box).1.inbuf) == Residue(box.inbuf)
  {
    FetchTakesTheFirst(box);
    var (m, rest) := Fetch(box);
    if m == None {
      Nothing(fetched);
    } else {
      ConcatSnoc(fetched, m.value);
      Associate(Concat(fetched), m.value, rest.inbuf);
      MessagesCons(m.value, rest.inbuf);
      Associate(fetched, [m.value], Messages(rest.inbuf));
    }
  }

  /** Once a request has found nothing, what was fetched depends on the bytes alone: two
      runs over the same stream, cut in any two ways, give the same messages. */
  lemma FragmentationIndependence(a: seq<Event>, b: seq<Event>)
    requires Received(a) == Received(b)
    requires !HasNewline(After(a).0.inbuf) && !HasNewline(After(b).0.inbuf)
    ensures After(a).1 == After(b).1 == Messages(Received(a))
    ensures After(a).0.inbuf == After(b).0.inbuf == Residue(Received(a))
  {
    RunIsFaithful(a);
    RunIsFaithful(b);
    NoNewlineNoMessages(After(a).0.inbuf);
    NoNewlineNoMessages(After(b).0.inbuf);
    Nothing(After(a).1);
    Nothing(After(b).1);
  }
}
