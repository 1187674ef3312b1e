// Where the code departs from what it is evidently meant to do, most often because -1 is
// kept in an unsigned size_t: what it does instead, and exactly when that is the same.

module AsWritten {
  import opened Bytes
  import opened CachePool
  import opened Chunks
  import opened Framing

  // size_t
  const WORD: nat := 0x1_0000_0000_0000_0000

  const NUL: char := '\0'

  // ----- find_in_buffer and fetch_msg_from_client

  /** check_command_suffix: `index` stops at a NUL, and -1 is the largest size_t. */
  function SuffixAsWritten(live: Bytes): nat {
    var p := IndexFrom(live, 0, NL);
    if p < |live| && NUL !in live[..p] then p else WORD - 1
  }

  /** find_in_buffer: a result is always taken to be a position, so the first chunk that is
      searched ends the search. */
  function FindAsWritten(ns: seq<InnerNode>, node_first_pos: nat, start_pos: nat): nat {
    if ns == [] then node_first_pos
    else
      var live := Live(ns[0]);
      if node_first_pos >= start_pos then (node_first_pos + SuffixAsWritten(live)) % WORD
      else if node_first_pos + |live| > start_pos then
        (start_pos + SuffixAsWritten(live[start_pos - node_first_pos..])) % WORD
      else FindAsWritten(ns[1..], node_first_pos + |live|, start_pos)
  }

  /** fetch_msg_from_client: there is always a position to read up to, so the remembered
      position is always 0. No bytes read means no message. */
  function FetchAsWritten(ns: seq<InnerNode>): Bytes {
    var size := (FindAsWritten(ns, 0, 0) + 1) % WORD;
    Flatten(ns)[..Min(size, |Flatten(ns)|)]
  }

  /** What is meant to be fetched. */
  function FetchIntended(ns: seq<InnerNode>): Bytes {
    match Fetch(Inbox(Flatten(ns), 0)).0
    case None => []
    case Some(m) => m
  }

  /** The first message ends inside the first chunk, and no NUL comes before its end. */
  predicate EndsInFirstChunk(ns: seq<InnerNode>) {
    var p := IndexFrom(Flatten(ns), 0, NL);
    ns != [] && p < |Live(ns[0])| && NUL !in Flatten(ns)[..p]
  }

  /** The code fetches what it should if and only if there is nothing to fetch or the first
      message ends in the first chunk; otherwise it fetches nothing. */
  lemma FetchAgreesIff(ns: seq<InnerNode>)
    requires |Flatten(ns)| < WORD - 1
    ensures FetchAsWritten(ns) == FetchIntended(ns) <==> !HasNewline(Flatten(ns)) || EndsInFirstChunk(ns)
    ensures FetchAsWritten(ns) != FetchIntended(ns) ==> FetchAsWritten(ns) == []
  {
    var s := Flatten(ns);
    FetchTakesTheFirst(Inbox(s, 0));
    if ns == [] {
      assert s == [];
    } else {
      FirstChunkDecides(ns);
    }
  }

  /** Only the first chunk is ever looked at. */
  lemma FirstChunkDecides(ns: seq<InnerNode>)
    requires ns != [] && |Flatten(ns)| < WORD - 1
    ensures EndsInFirstChunk(ns) ==> FetchAsWritten(ns) == Flatten(ns)[..IndexFrom(Flatten(ns), 0, NL) + 1]
    ensures !EndsInFirstChunk(ns) ==> FetchAsWritten(ns) == []
  {
    SuffixInFirst(Live(ns[0]), Flatten(ns[1..]));
    Wraps(SuffixAsWritten(Live(ns[0])));
  }

  lemma Wraps(x: nat)
    requires x < WORD
    ensures (0 + x) % WORD == x && (x + 1) % WORD == if x == WORD - 1 then 0 else x + 1
  {
  }

  lemma SuffixInFirst(live: Bytes, rest: Bytes)
    requires |live + rest| < WORD - 1
    ensures var p := IndexFrom(live + rest, 0, NL);
      SuffixAsWritten(live) == if p < |live| && NUL !in (live + rest)[..p] then p else WORD - 1
  {
    var s, q := live + rest, IndexFrom(live, 0, NL);
    assert forall i :: 0 <= i < |live| ==> s[i] == live[i];
    if q < |live| {
      IndexFromIsLeast(s, 0, NL, q);
      assert s[..q] == live[..q];
    }
  }

  /** In what is live of the first chunk, a NUL comes before any newline. */
  predicate NulFirst(live: Bytes) { NUL in live[..IndexFrom(live, 0, NL)] }

  /** The first chunk will never yield a message: the search ends at a NUL in it, or it is
      full and holds no newline. */
  predicate Stuck(ns: seq<InnerNode>) {
    ns != [] && (NulFirst(Live(ns[0])) || (NL !in Live(ns[0]) && ns[0].w_offset == CHUNK))
  }

  lemma StuckFetchesNothing(ns: seq<InnerNode>)
    requires Stuck(ns)
    ensures FetchAsWritten(ns) == []
  {
    Wraps(WORD - 1);
  }

  // ----- the same over runs

  function NewChunk(id: nat): InnerNode {
    InnerNode(0, 0, Cache(id, CHUNK, CHUNK, Zeros(CHUNK)))
  }

  /** What an append that finds memory does to the chunks. */
  function AppendTo(ns: seq<InnerNode>, d: Bytes): (r: seq<InnerNode>)
    requires Shape(ns)
    ensures Shape(r) && (ns != [] ==> r != [] && Live(ns[0]) <= Live(r[0]))
    ensures ns != [] && ns[0].w_offset == CHUNK ==> r[0] == ns[0]
    decreases |d|, if NeedsChunk(ns) then 1 else 0
  {
    if d == [] then ns
    else if NeedsChunk(ns) then AppendTo(ns + [NewChunk(|ns|)], d)
    else
      var n := Min(|d|, CHUNK - ns[|ns| - 1].w_offset);
      LiveStore(ns[|ns| - 1], d[..n]);
      AppendTo(StoreLast(ns, d[..n]), d[n..])
  }

  lemma {:induction false} AppendToAppends(ns: seq<InnerNode>, d: Bytes)
    requires Shape(ns)
    ensures Flatten(AppendTo(ns, d)) == Flatten(ns) + d
    decreases |d|, if NeedsChunk(ns) then 1 else 0
  {
    if d == [] {
      Nothing(Flatten(ns));
    } else if NeedsChunk(ns) {
      FlattenSnoc(ns, NewChunk(|ns|));
      Nothing(Flatten(ns));
      AppendToAppends(ns + [NewChunk(|ns|)], d);
    } else {
      var n := Min(|d|, CHUNK - ns[|ns| - 1].w_offset);
      FlattenStoreLast(ns, d[..n]);
      AppendToAppends(StoreLast(ns, d[..n]), d[n..]);
      Associate(Flatten(ns), d[..n], d[n..]);
      CutJoins(d, n);
    }
  }

  /** read_from_buffer takes the bytes that it returns. */
  function DropBytes(ns: seq<InnerNode>, n: nat): (r: seq<InnerNode>)
    requires Shape(ns)
    ensures Shape(r)
    decreases n
  {
    if n == 0 || ns == [] || Live(ns[0]) == [] then ns
    else
      var k := Min(n, |Live(ns[0])|);
      ShapeTakeFirst(ns, k);
      DropBytes(TakeFirst(ns, k), n - k)
  }

  /** The chunks after a run of arrivals and requests, and the messages fetched, to the letter. */
  function AfterAsWritten(ns: seq<InnerNode>, events: seq<Event>): (seq<InnerNode>, seq<Bytes>)
    requires Shape(ns)
    decreases |events|
  {
    if events == [] then (ns, [])
    else
      match events[0]
      case Arrival(d) => AfterAsWritten(AppendTo(ns, d), events[1..])
      case Request =>
        var m := FetchAsWritten(ns);
        var (last, ms) := AfterAsWritten(DropBytes(ns, |m|), events[1..]);
        (last, if m == [] then ms else [m] + ms)
  }

  lemma StuckStays(ns: seq<InnerNode>, d: Bytes)
    requires Shape(ns) && Stuck(ns)
    ensures Stuck(AppendTo(ns, d))
  {
    var live, more := Live(ns[0]), Live(AppendTo(ns, d)[0]);
    if NulFirst(live) {
      NulStaysFirst(live, more);
    }
  }

  lemma NulStaysFirst(live: Bytes, more: Bytes)
    requires live <= more && NulFirst(live)
    ensures NulFirst(more)
  {
    var p := IndexFrom(live, 0, NL);
    assert forall i :: 0 <= i < |live| ==> more[i] == live[i];
    assert p <= IndexFrom(more, 0, NL);
    var i :| 0 <= i < p && live[i] == NUL;
    assert more[..IndexFrom(more, 0, NL)][i] == NUL;
  }

  /** So a message that goes on after a full first chunk, or has a NUL in the first chunk, is
      never fetched, nor is any after it, whatever arrives and however often it is asked
      for; although it is there to be. */
  lemma {:induction false} LongMessageStalls(ns: seq<InnerNode>, events: seq<Event>)
    requires Shape(ns) && Stuck(ns)
    ensures var (last, fetched) := AfterAsWritten(ns, events);
      && fetched == [] && Shape(last) && Stuck(last)
      && Flatten(last) == Flatten(ns) + Arrived(events)
      && (HasNewline(Flatten(ns) + Arrived(events)) ==> IsMessage(FetchIntended(last)))
    decreases |events|
  {
    if events == [] {
      Nothing(Flatten(ns));
    } else {
      match events[0]
      case Arrival(d) =>
        AppendToAppends(ns, d);
        StuckStays(ns, d);
        LongMessageStalls(AppendTo(ns, d), events[1..]);
        Associate(Flatten(ns), d, Arrived(events[1..]));
      case Request =>
        StuckFetchesNothing(ns);
        LongMessageStalls(ns, events[1..]);
        Nothing(Arrived(events[1..]));
    }
    var last := AfterAsWritten(ns, events).0;
    FetchTakesTheFirst(Inbox(Flatten(last), 0));
  }

  /** Nothing is ever fetched again, whatever happens, if and only if the first chunk is stuck;
      otherwise a request fetches something, now or after a newline. */
  lemma StallsIff(ns: seq<InnerNode>)
    requires Shape(ns)
    ensures (forall events :: AfterAsWritten(ns, events).1 == []) <==> Stuck(ns)
    ensures !Stuck(ns) ==>
      AfterAsWritten(ns, [Request]).1 != [] || AfterAsWritten(ns, [Arrival([NL]), Request]).1 != []
  {
    if Stuck(ns) {
      forall events
        ensures AfterAsWritten(ns, events).1 == []
      {
        LongMessageStalls(ns, events);
      }
    } else if ns != [] && NL in Live(ns[0]) {
      OneRequest(ns);
    } else {
      NewlineThenRequest(ns);
    }
  }

  /** A newline that the search gets to is fetched up to. */
  lemma FetchesUpTo(ns: seq<InnerNode>)
    requires ns != [] && SuffixAsWritten(Live(ns[0])) < |Live(ns[0])| < WORD
    ensures |FetchAsWritten(ns)| == SuffixAsWritten(Live(ns[0])) + 1
  {
    Wraps(SuffixAsWritten(Live(ns[0])));
  }

  lemma OneRequest(ns: seq<InnerNode>)
    requires Shape(ns) && ns != [] && NL in Live(ns[0]) && !NulFirst(Live(ns[0]))
    ensures AfterAsWritten(ns, [Request]).1 != []
  {
    FetchesUpTo(ns);
    assert [Request][1..] == [];
  }

  lemma NewlineThenRequest(ns: seq<InnerNode>)
    requires Shape(ns) && !Stuck(ns) && (ns != [] ==> NL !in Live(ns[0]))
    ensures AfterAsWritten(ns, [Arrival([NL]), Request]).1 != []
  {
    var more := AppendTo(ns, [NL]);
    NewlineInFirst(ns);
    OneRequest(more);
    assert [Arrival([NL]), Request][1..] == [Request];
  }

  lemma NewlineInFirst(ns: seq<InnerNode>)
    requires Shape(ns) && !Stuck(ns) && (ns != [] ==> NL !in Live(ns[0]))
    ensures var more := AppendTo(ns, [NL]);
      more != [] && NL in Live(more[0]) && !NulFirst(Live(more[0]))
  {
    if ns == [] {
      NewlineStored([NewChunk(0)]);
    } else {
      assert |ns| == 1;
      NewlineStored(ns);
    }
  }

  lemma NewlineStored(ns: seq<InnerNode>)
    requires Shape(ns) && |ns| == 1 && ns[0].w_offset < CHUNK && NL !in Live(ns[0]) && NUL !in Live(ns[0])
    ensures var more := AppendTo(ns, [NL]);
      more != [] && Live(more[0]) == Live(ns[0]) + [NL] && !NulFirst(Live(more[0]))
  {
    var live := Live(ns[0]);
    LiveStore(ns[0], [NL]);
    assert [NL][..1] == [NL] && [NL][1..] == [];
    IndexFromIsLeast(live + [NL], 0, NL, |live|);
    assert (live + [NL])[..|live|] == live;
  }

  function Arrived(events: seq<Event>): Bytes {
    if events == [] then [] else Brought(events[0]) + Arrived(events[1..])
  }

  /** A line of 513 bytes, for example. */
  lemma LineAcrossChunks(line: InnerNode, end: InnerNode)
    requires line == InnerNode(0, CHUNK, Cache(0, CHUNK, CHUNK, seq(CHUNK, _ => 'a')))
    requires end == InnerNode(0, 1, Cache(1, CHUNK, CHUNK, [NL] + Zeros(CHUNK - 1)))
    ensures Shape([line, end]) && FetchAsWritten([line, end]) == []
    ensures FetchIntended([line, end]) == Live(line) + [NL]
  {
    var ns := [line, end];
    assert Live(end) == [NL] && Live(line) == seq(CHUNK, _ => 'a');
    assert Flatten(ns) == Live(line) + [NL] by {
      assert ns[1..] == [end] && [end][1..] == [];
      assert Flatten([end]) == [NL] + Flatten([]) == [NL];
    }
    IndexFromIsLeast(Flatten(ns), 0, NL, CHUNK);
    StuckFetchesNothing(ns);
  }

  // ----- a failed read

  function WOffsets(ns: seq<InnerNode>): (r: seq<int>)
    ensures |r| == |ns| && forall i :: 0 <= i < |r| ==> r[i] == ns[i].w_offset
  {
    seq(|ns|, i requires 0 <= i < |ns| => ns[i].w_offset)
  }

  /** error_with_read: last_w_offset >= 0 always holds, so it is always written back to what
      is taken for the last node; with no node there, to memory that is not one. */
  function WOffsetsAfterFailure(was: seq<InnerNode>): Option<seq<int>> {
    var last_w_offset := if NeedsChunk(was) then -1 else was[|was| - 1].w_offset;
    if was == [] then None
    else Some(WOffsets(was)[|was| - 1 := last_w_offset])
  }

  /** The rollback restores the offsets if and only if the last chunk had room to begin with. */
  lemma RollbackAgreesIff(was: seq<InnerNode>)
    ensures WOffsetsAfterFailure(was) == Some(WOffsets(was)) <==> !NeedsChunk(was)
  {
    if was != [] && !NeedsChunk(was) {
      assert WOffsets(was)[|was| - 1 := was[|was| - 1].w_offset] == WOffsets(was);
    }
    if was != [] && NeedsChunk(was) {
      assert WOffsets(was)[|was| - 1 := -1][|was| - 1] == -1;
    }
  }

  // ----- a failed write

  datatype Outcome = Wrote(k: nat) | Failed

  /** How far write_from_buffer is: the chunks still on the list, each by its two offsets; how
      many have left it; the count of bytes written; and the writes that succeeded, each by
      its chunk, offset and length. */
  datatype Progress = Progress(nodes: seq<(int, int)>, gone: nat, already: nat, writes: seq<(nat, int, nat)>)

  predicate LoopEnds(p: Progress, size: nat) { p.nodes == [] || p.already >= size }

  /** A first chunk that is exhausted leaves the list. */
  function Settle(p: Progress): Progress
    requires p.nodes != []
  {
    if p.nodes[0].0 == p.nodes[0].1 then p.(nodes := p.nodes[1..], gone := p.gone + 1) else p
  }

  /** A write of at most k bytes, as many as the chunk and the request leave. */
  function Advance(p: Progress, size: nat, k: nat): Progress
    requires !LoopEnds(p, size)
  {
    var (r, w) := p.nodes[0];
    var n := Min(k, Min(size - p.already, if r <= w then w - r else 0));
    Settle(Progress(p.nodes[0 := (r + n, w)], p.gone, (p.already + n) % WORD, p.writes + [(p.gone, r, n)]))
  }

  /** As it is meant: a failure ends the loop. */
  function WritesIntended(p: Progress, size: nat, outcomes: seq<Outcome>): Progress
    decreases |outcomes|
  {
    if outcomes == [] || LoopEnds(p, size) then p
    else
      match outcomes[0]
      case Wrote(k) => WritesIntended(Advance(p, size, k), size, outcomes[1..])
      case Failed => p
  }

  /** As it is: -1 is never less than 0, and is added to the count and to the offset. */
  function WritesAsWritten(p: Progress, size: nat, outcomes: seq<Outcome>): Progress
    decreases |outcomes|
  {
    if outcomes == [] || LoopEnds(p, size) then p
    else
      match outcomes[0]
      case Wrote(k) => WritesAsWritten(Advance(p, size, k), size, outcomes[1..])
      case Failed => WritesAsWritten(StepBack(p), size, outcomes[1..])
  }

  function StepBack(p: Progress): Progress
    requires p.nodes != []
  {
    var (r, w) := p.nodes[0];
    Settle(p.(nodes := p.nodes[0 := (r - 1, w)], already := (p.already + WORD - 1) % WORD))
  }

  /** The loop gets as far as a write that fails. */
  predicate MeetsFailure(p: Progress, size: nat, outcomes: seq<Outcome>)
    decreases |outcomes|
  {
    outcomes != [] && !LoopEnds(p, size) &&
    match outcomes[0]
    case Wrote(k) => MeetsFailure(Advance(p, size, k), size, outcomes[1..])
    case Failed => true
  }

  /** No chunk is read beyond what was written to it. */
  predicate InBounds(p: Progress) {
    forall i :: 0 <= i < |p.nodes| ==> p.nodes[i].0 <= p.nodes[i].1
  }

  /** The loop does what it should if and only if it meets no failure. */
  lemma {:induction false} WritesAgreeIff(p: Progress, size: nat, outcomes: seq<Outcome>)
    requires InBounds(p)
    ensures WritesAsWritten(p, size, outcomes) == WritesIntended(p, size, outcomes)
      <==> !MeetsFailure(p, size, outcomes)
    decreases |outcomes|
  {
    if outcomes != [] && !LoopEnds(p, size) {
      match outcomes[0]
      case Wrote(k) => WritesAgreeIff(Advance(p, size, k), size, outcomes[1..]);
      case Failed => NeverForward(StepBack(p), size, outcomes[1..]);
    }
  }

  /** The offset does not come forward again but by another write. */
  lemma {:induction false} NeverForward(p: Progress, size: nat, outcomes: seq<Outcome>)
    requires InBounds(p) && p.nodes != []
    ensures var q := WritesAsWritten(p, size, outcomes);
      p.writes <= q.writes
        && (q.writes == p.writes ==> q.nodes != [] && q.gone == p.gone && q.nodes[0].0 <= p.nodes[0].0)
    decreases |outcomes|
  {
    if outcomes != [] && !LoopEnds(p, size) {
      match outcomes[0]
      case Wrote(k) =>
        if Advance(p, size, k).nodes != [] {
          NeverForward(Advance(p, size, k), size, outcomes[1..]);
        }
      case Failed => NeverForward(StepBack(p), size, outcomes[1..]);
    }
  }

  /** That other write begins with a byte that has been written before. */
  lemma FailureRepeatsAByte(r: nat, w: nat, rest: seq<(int, int)>, k: nat, size: nat)
    requires 0 < k < w - r && k < size < WORD
    ensures var p := Progress([(r, w)] + rest, 0, 0, []);
      && WritesIntended(p, size, [Wrote(k), Failed, Wrote(1)]).writes == [(0, r, k)]
      && WritesAsWritten(p, size, [Wrote(k), Failed, Wrote(1)]).writes == [(0, r, k), (0, r + k - 1, 1)]
  {
    var p, outcomes := Progress([(r, w)] + rest, 0, 0, []), [Wrote(k), Failed, Wrote(1)];
    assert outcomes[1..] == [Failed, Wrote(1)] && outcomes[1..][1..] == [Wrote(1)] && outcomes[1..][1..][1..] == [];
    var q := Advance(p, size, k);
    assert q == Progress([(r + k, w)] + rest, 0, k, [(0, r, k)]);
    assert StepBack(q) == Progress([(r + k - 1, w)] + rest, 0, k - 1, [(0, r, k)]);
    assert WritesAsWritten(StepBack(q), size, [Wrote(1)]) == Advance(StepBack(q), size, 1);
    assert WritesAsWritten(q, size, outcomes[1..]) == WritesAsWritten(StepBack(q), size, outcomes[1..][1..]);
  }

  // ----- the size classes

  // sizeof(specified_cache_size), in bytes
  const SIZEOF_CLASSES: nat := 24

  /** make_sure_cache_mm makes a list for each byte of the array, not for each entry: what
      lies behind the six sizes becomes sizes as well. */
  predicate ClassesAsWritten(sizes: seq<int>) {
    |sizes| == SIZEOF_CLASSES && forall k :: 0 <= k < CLASSES ==> sizes[k] == Size(k)
  }

  /** The walk of get_new_cache: the first list whose caches are large enough. */
  function FirstFit(sizes: seq<int>, size: int, from: nat): (k: nat)
    requires from <= |sizes|
    ensures from <= k <= |sizes|
    ensures k < |sizes| ==> sizes[k] >= size
    ensures forall j :: from <= j < k ==> sizes[j] < size
    decreases |sizes| - from
  {
    if from == |sizes| || sizes[from] >= size then from else FirstFit(sizes, size, from + 1)
  }

  /** Every request that a class fits is served by the right one, whatever lies behind the
      array; a larger one is refused if and only if nothing there passes for a larger size. */
  lemma ClassesAgreeIff(sizes: seq<int>, size: int)
    requires ClassesAsWritten(sizes)
    ensures size <= 2048 ==> FirstFit(sizes, size, 0) == ClassOf(size)
    ensures size > 2048 ==>
      (FirstFit(sizes, size, 0) == |sizes| <==> forall k :: CLASSES <= k < |sizes| ==> sizes[k] < size)
  {
    assert forall j :: 0 <= j < CLASSES ==> sizes[j] == Size(j) <= 2048;
    if size <= 2048 {
      var c := ClassOf(size);
      assert forall j :: 0 <= j < c ==> sizes[j] == Size(j) < size;
      assert sizes[c] == Size(c) >= size;
    }
  }
}
