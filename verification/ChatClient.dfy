// The line encoder of src/IMClient.c, and what the server makes of it.

module ChatClient {
  import opened Bytes
  import opened Protocol

  const CACHE_SIZE: nat := 1024
  const BROADCAST_PREFIX: Bytes := CMD_TO_ALL + " "

  /** The least position at or after `start` of a colon and a space, or the length when
      there is none. */
  function IndicatorFrom(s: Bytes, start: nat): (r: nat)
    ensures r <= |s|
    ensures r < |s| ==> start <= r < |s| - 1 && s[r] == ':' && s[r + 1] == ' '
    ensures forall i :: start <= i < r && i < |s| - 1 ==> !(s[i] == ':' && s[i + 1] == ' ')
    decreases |s| - start
  {
    if start + 1 >= |s| then |s|
    else if s[start] == ':' && s[start + 1] == ' ' then start
    else IndicatorFrom(s, start + 1)
  }

  /** The input already reads as a private message, by the client's own test. */
  predicate SentAsIs(input: Bytes) {
    var p := IndicatorFrom(input, 0);
    StartsWith(input, CMD_TO_C) && p < |input| && p < |CMD_TO_C| + CLIENT_NAME_MAXIMUM_SIZE
  }

  /** What goes to the server for a piece of input. */
  function Encode(input: Bytes): Bytes {
    if SentAsIs(input) then input else BROADCAST_PREFIX + input
  }

  // main, the branch for standard input: the input lies behind room for the prefix.
  method EncodeInput(buff: array<char>, read_size: nat) returns (write_pos: nat, size: nat)
    requires buff.Length == CACHE_SIZE && read_size <= CACHE_SIZE - |CMD_TO_ALL| - 1
    modifies buff
    ensures write_pos + size <= buff.Length
    ensures buff[write_pos..write_pos + size] == Encode(old(buff[|CMD_TO_ALL| + 1..|CMD_TO_ALL| + 1 + read_size]))
  {
    var cmd_len := |CMD_TO_ALL|;
    var start := cmd_len + 1;
    ghost var input := buff[start..start + read_size];
    var indicator := FindIndicator(buff, start, start + read_size);
    var prefixed := HasPrefix(buff, start, start + read_size, CMD_TO_C);
    write_pos, size := 0, read_size;
    if prefixed && indicator < start + read_size {
      if indicator - start < |CMD_TO_C| + CLIENT_NAME_MAXIMUM_SIZE {
        write_pos := start;
      }
    }
    if write_pos == 0 {
      var i := 0;
      while i < start
        invariant i <= start
        invariant buff[..i] == BROADCAST_PREFIX[..i]
        invariant buff[start..start + read_size] == input
      {
        buff[i] := BROADCAST_PREFIX[i];
        i := i + 1;
      }
      size := size + start;
      assert buff[..start + read_size] == buff[..start] + buff[start..start + read_size];
    }
  }

  // strstr for the indicator
  method FindIndicator(buff: array<char>, start: nat, end: nat) returns (pos: nat)
    requires start <= end <= buff.Length
    ensures pos == start + IndicatorFrom(buff[start..end], 0)
  {
    ghost var s := buff[start..end];
    pos := start;
    while pos + 1 < end && !(buff[pos] == ':' && buff[pos + 1] == ' ')
      invariant start <= pos <= end
      invariant IndicatorFrom(s, pos - start) == IndicatorFrom(s, 0)
    {
      assert s[pos - start] == buff[pos] && s[pos + 1 - start] == buff[pos + 1];
      pos := pos + 1;
    }
    if pos + 1 < end {
      assert s[pos - start] == buff[pos] && s[pos + 1 - start] == buff[pos + 1];
    } else {
      pos := end;
    }
  }

  // strstr for the command, of which only a find at the start is used
  method HasPrefix(buff: array<char>, start: nat, end: nat, prefix: Bytes) returns (b: bool)
    requires start <= end <= buff.Length
    ensures b <==> StartsWith(buff[start..end], prefix)
  {
    ghost var s := buff[start..end];
    if end - start < |prefix| {
      return false;
    }
    for i := 0 to |prefix|
      invariant s[..i] == prefix[..i]
    {
      assert s[i] == buff[start + i];
      if buff[start + i] != prefix[i] {
        return false;
      }
    }
    return true;
  }

  // ----- what the server makes of a line

  /** A line that names its addressee: the command, a name that can be one, the indicator. */
  predicate NamesAddressee(line: Bytes) {
    var p := IndicatorFrom(line, 0);
    && StartsWith(line, CMD_TO_C) && p < |line|
    && p - |CMD_TO_C| < CLIENT_NAME_MAXIMUM_SIZE && p >= |CMD_TO_C| && ':' !in line[|CMD_TO_C|..p]
  }

  /** What the user is promised for a line. */
  function Promised(line: Bytes): Request {
    if NamesAddressee(line) then
      var p := IndicatorFrom(line, 0);
      Private(line[|CMD_TO_C|..p], line[p + 2..])
    else Broadcast(line)
  }

  /** A line to one person is one like this, with a name of fewer than 30 bytes and no colon;
      any other is for everybody. */
  lemma PromisedIs(name: Bytes, body: Bytes)
    requires |name| < 30 && ':' !in name
    ensures Promised("TO-C-" + name + ": " + body) == Private(name, body)
  {
    var line, p := "TO-C-" + name + ": " + body, 5 + |name|;
    assert line[..5] == "TO-C-" && line[5..p] == name && line[p] == ':' && line[p + 1] == ' ';
    assert line[p + 2..] == body && forall i :: 5 <= i < p ==> line[i] == name[i - 5];
    IndicatorHere(line, 0, p);
  }

  lemma PromisedOnlyIf(line: Bytes)
    ensures Promised(line) == Broadcast(line) || Promised(line).Private?
    ensures Promised(line).Private? ==>
      var (name, body) := (Promised(line).target, Promised(line).body);
      |name| < 30 && ':' !in name && line == "TO-C-" + name + ": " + body
  {
    if NamesAddressee(line) {
      var p := IndicatorFrom(line, 0);
      assert line == line[..5] + line[5..p] + line[p..p + 2] + line[p + 2..];
      assert line[..5] == "TO-C-" && line[p..p + 2] == ": ";
    }
  }

  /** The client lets a line through as a private message although its name holds a colon. */
  predicate ColonInName(line: Bytes) {
    SentAsIs(line) && IndexFrom(line, 0, ':') < IndicatorFrom(line, 0)
  }

  lemma {:induction false} IndicatorBeforeNewline(line: Bytes, start: nat)
    ensures var p := IndicatorFrom(line, start);
      IndicatorFrom(line + [NL], start) == if p < |line| then p else |line| + 1
    decreases |line| - start
  {
    var s := line + [NL];
    if start + 1 < |line| {
      assert s[start] == line[start] && s[start + 1] == line[start + 1];
      if !(line[start] == ':' && line[start + 1] == ' ') {
        IndicatorBeforeNewline(line, start + 1);
      }
    } else if start + 1 < |s| {
      assert s[start + 1] == NL;
    }
  }

  lemma AsIsWithNewline(line: Bytes)
    ensures SentAsIs(line + [NL]) <==> SentAsIs(line)
  {
    IndicatorBeforeNewline(line, 0);
    if StartsWith(line + [NL], CMD_TO_C) {
      assert CMD_TO_C[4] == '-' && (line + [NL])[4] == '-';
      assert |line| >= |CMD_TO_C|;
    }
  }

  lemma CutLineAt(line: Bytes, i: nat)
    requires !HasNewline(line) && i <= |line|
    ensures CutLine((line + [NL])[i..]) == line[i..]
  {
    var s := (line + [NL])[i..];
    assert s == line[i..] + [NL];
    IndexFromIsLeast(s, 0, NL, |line| - i);
  }

  lemma BroadcastLine(line: Bytes)
    requires !HasNewline(line)
    ensures IsMessage(BROADCAST_PREFIX + (line + [NL])) && Parse(BROADCAST_PREFIX + (line + [NL])) == Broadcast(line)
  {
    var m := BROADCAST_PREFIX + (line + [NL]);
    assert m[..|m| - 1] == BROADCAST_PREFIX + line;
    assert m[|CMD_TO_ALL| + 1..] == (line + [NL])[0..];
    assert CMD_TO_ALL == m[..|CMD_TO_ALL|];
    ParseByPrefix(m);
    CutLineAt(line, 0);
  }

  /** The first colon of a line that is sent as it is. */
  lemma FirstColon(line: Bytes)
    requires !HasNewline(line) && SentAsIs(line)
    ensures var m, p, q := line + [NL], IndicatorFrom(line, 0), IndexFrom(line, 0, ':');
      && IsMessage(m) && StartsWith(m, CMD_TO_C) && IndexFrom(m, 0, ':') == q
      && q <= p <= |line| - 2
  {
    var m, p, q := line + [NL], IndicatorFrom(line, 0), IndexFrom(line, 0, ':');
    assert m[..|m| - 1] == line;
    assert q <= p by {
      assert line[p] == ':';
    }
    IndexFromIsLeast(m, 0, ':', q);
    assert CMD_TO_C <= m;
  }

  lemma PrivateLine(line: Bytes)
    requires !HasNewline(line) && SentAsIs(line)
    ensures IsMessage(line + [NL])
    ensures var q := IndexFrom(line, 0, ':');
      && |CMD_TO_C| <= q <= IndicatorFrom(line, 0) && q + 2 <= |line|
      && Parse(line + [NL]) == Private(line[|CMD_TO_C|..q], line[q + 2..])
  {
    FirstColon(line);
    ColonInside(line + [NL]);
    PrivateParts(line, |CMD_TO_C|, IndexFrom(line, 0, ':'));
    PrivateMessage(line + [NL], line, IndexFrom(line, 0, ':'));
  }

  lemma PrivateMessage(m: Bytes, line: Bytes, q: nat)
    requires IsMessage(m) && StartsWith(m, CMD_TO_C) && q == IndexFrom(m, 0, ':') && |CMD_TO_C| <= q
    requires q + 2 <= |line| <= |m| && q - |CMD_TO_C| <= LARGEST_CACHE
    requires m[|CMD_TO_C|..q] == line[|CMD_TO_C|..q] && CutLine(m[q + 2..]) == line[q + 2..]
    ensures Parse(m) == Private(line[|CMD_TO_C|..q], line[q + 2..])
  {
    ParseByPrefix(m);
  }

  lemma PrivateParts(line: Bytes, i: nat, q: nat)
    requires !HasNewline(line) && i <= q && q + 2 <= |line|
    ensures (line + [NL])[i..q] == line[i..q] && CutLine((line + [NL])[q + 2..]) == line[q + 2..]
  {
    CutLineAt(line, q + 2);
  }

  /** A line that one read brings: the server sees the addressee and the text that were
      typed, or else a broadcast of the line, if and only if the client has not let through a
      name with a colon in it; then the name ends at the colon. */
  lemma OneReadRoundTrip(line: Bytes)
    requires !HasNewline(line)
    ensures IsMessage(Encode(line + [NL]))
    ensures Parse(Encode(line + [NL])) == Promised(line) <==> !ColonInName(line)
    ensures ColonInName(line) ==>
      var q := IndexFrom(line, 0, ':');
      && |CMD_TO_C| <= q && q + 2 <= |line|
      && Parse(Encode(line + [NL])) == Private(line[|CMD_TO_C|..q], line[q + 2..])
  {
    AsIsWithNewline(line);
    if SentAsIs(line) {
      PrivateLine(line);
      FirstColon(line);
      PromisedAsIs(line);
    } else {
      BroadcastLine(line);
    }
  }

  lemma PromisedAsIs(line: Bytes)
    requires SentAsIs(line) && |CMD_TO_C| <= IndexFrom(line, 0, ':') <= IndicatorFrom(line, 0) <= |line| - 2
    ensures var q := IndexFrom(line, 0, ':');
      Private(line[|CMD_TO_C|..q], line[q + 2..]) == Promised(line) <==> !ColonInName(line)
  {
    AddresseeIsColonFree(line);
  }

  lemma AddresseeIsColonFree(line: Bytes)
    requires SentAsIs(line) && |CMD_TO_C| <= IndexFrom(line, 0, ':') <= IndicatorFrom(line, 0)
    ensures NamesAddressee(line) <==> !ColonInName(line)
  {
    var p, q := IndicatorFrom(line, 0), IndexFrom(line, 0, ':');
    var name := line[|CMD_TO_C|..p];
    if q < p {
      assert name[q - |CMD_TO_C|] == ':';
    }
    assert forall i :: 0 <= i < |name| ==> name[i] == line[|CMD_TO_C| + i];
  }

  /** The case the promise misses: the text goes to another name, with part of the name in it. */
  lemma ColonInNameMisdirects(line: Bytes)
    requires line == "TO-C-a:b: hi"
    ensures !HasNewline(line) && IsMessage(Encode(line + [NL]))
    ensures Parse(Encode(line + [NL])) == Private("a", ": hi") && Promised(line) == Broadcast(line)
  {
    ItsColons(line);
    ItsParts(line);
    OneReadRoundTrip(line);
  }

  lemma ItsParts(line: Bytes)
    requires line == "TO-C-a:b: hi"
    ensures line[|CMD_TO_C|..6] == "a" && line[6 + 2..] == ": hi"
  {
  }

  lemma ItsColons(line: Bytes)
    requires line == "TO-C-a:b: hi"
    ensures !HasNewline(line) && ColonInName(line) && Promised(line) == Broadcast(line)
    ensures IndexFrom(line, 0, ':') == 6
  {
    IndicatorHere(line, 0, 8);
    IndexFromIsLeast(line, 0, ':', 6);
    assert CMD_TO_C <= line;
    assert line[5..8][1] == ':';
  }

  lemma {:induction false} IndicatorHere(s: Bytes, start: nat, p: nat)
    requires start <= p < |s| - 1 && s[p] == ':' && s[p + 1] == ' '
    requires forall i :: start <= i < p ==> !(s[i] == ':' && s[i + 1] == ' ')
    ensures IndicatorFrom(s, start) == p
    decreases p - start
  {
    if start < p {
      IndicatorHere(s, start + 1, p);
    }
  }

  // ----- lines that reads cut, and reads that bring several lines

  // What one read of standard input can bring at most.
  const READ_SIZE: nat := CACHE_SIZE - |CMD_TO_ALL| - 1

  /** The input comes in these pieces, none longer than a read. A read can bring nothing, when
      the end of input is typed at a terminal; the last one brings the end of the input. */
  predicate ComesAs(input: Bytes, pieces: seq<Bytes>) {
    && Concat(pieces) == input && (pieces != [] ==> pieces[|pieces| - 1] != [])
    && forall k :: 0 <= k < |pieces| ==> |pieces[k]| <= READ_SIZE
  }

  /** What the client writes to the server: each read is encoded by itself. */
  function Sent(pieces: seq<Bytes>): Bytes {
    if pieces == [] then [] else Encode(pieces[0]) + Sent(pieces[1..])
  }

  /** None of the reads gets the prefix for a broadcast. */
  predicate NonePrefixed(pieces: seq<Bytes>) {
    forall k :: 0 <= k < |pieces| ==> SentAsIs(pieces[k])
  }

  /** A prefix makes what is sent longer than what was typed. */
  lemma {:induction false} PrefixesLengthen(pieces: seq<Bytes>)
    ensures if NonePrefixed(pieces) then Sent(pieces) == Concat(pieces) else |Sent(pieces)| > |Concat(pieces)|
  {
    if pieces != [] {
      PrefixesLengthen(pieces[1..]);
      assert NonePrefixed(pieces) <==> SentAsIs(pieces[0]) && NonePrefixed(pieces[1..]);
    }
  }

  lemma JustOne(x: Bytes)
    ensures Concat([x]) == x && Sent([x]) == Encode(x)
  {
    assert [x][1..] == [];
    Nothing(x);
    Nothing(Encode(x));
  }

  lemma InFront(a: Bytes, m: Bytes)
    requires IsMessage(m)
    ensures IsMessage(a + m) <==> !HasNewline(a)
  {
    assert (a + m)[..|a + m| - 1] == a + m[..|m| - 1];
    if HasNewline(a) {
      var i :| 0 <= i < |a| && a[i] == NL;
      assert (a + m)[..|a + m| - 1][i] == NL;
    }
  }

  lemma {:induction false} LastBrings(pieces: seq<Bytes>)
    requires pieces != [] && pieces[|pieces| - 1] != []
    ensures Concat(pieces) != []
  {
    if |pieces| > 1 {
      LastBrings(pieces[1..]);
    }
  }

  /** However a line is cut into reads, one message is sent. */
  lemma {:induction false} SentIsMessage(pieces: seq<Bytes>)
    requires IsMessage(Concat(pieces)) && (pieces != [] ==> pieces[|pieces| - 1] != [])
    ensures IsMessage(Sent(pieces)) && pieces != []
    ensures |pieces| > 1 ==> !HasNewline(pieces[0]) && IsMessage(Concat(pieces[1..])) && IsMessage(Sent(pieces[1..]))
  {
    assert !HasNewline(BROADCAST_PREFIX);
    if |pieces| == 1 {
      assert pieces == [pieces[0]];
      JustOne(pieces[0]);
      InFront(BROADCAST_PREFIX, pieces[0]);
    } else {
      LastBrings(pieces[1..]);
      LastPart(pieces[0], Concat(pieces[1..]));
      SentIsMessage(pieces[1..]);
      InFront(Encode(pieces[0]), Sent(pieces[1..]));
    }
  }

  lemma LastPart(a: Bytes, b: Bytes)
    requires IsMessage(a + b) && b != []
    ensures !HasNewline(a) && IsMessage(b)
  {
    var m := a + b;
    assert m[..|m| - 1] == a + b[..|b| - 1];
    assert b[|b| - 1] == m[|m| - 1];
  }

  /** More input does not change how a read that goes as it is begins. */
  lemma AsIsExtends(read: Bytes, more: Bytes)
    requires SentAsIs(read)
    ensures SentAsIs(read + more) && IndicatorFrom(read + more, 0) == IndicatorFrom(read, 0) < |read| - 1
  {
    var p := IndicatorFrom(read, 0);
    assert forall i :: 0 <= i < |read| ==> (read + more)[i] == read[i];
    IndicatorHere(read + more, 0, p);
  }

  /** The text of a message. */
  function TextOf(m: Bytes): (line: Bytes)
    requires IsMessage(m)
    ensures !HasNewline(line) && m == line + [NL]
  {
    m[..|m| - 1]
  }

  /** For every line and every way in which reads can bring it: the server sees what the user
      was promised if and only if no later read is given a prefix, and the first is given
      one exactly if the line names nobody that can be addressed. */
  lemma LineRoundTrip(line: Bytes, pieces: seq<Bytes>)
    requires !HasNewline(line) && ComesAs(line + [NL], pieces)
    ensures pieces != [] && IsMessage(Sent(pieces))
    ensures Parse(Sent(pieces)) == Promised(line) <==>
      NonePrefixed(pieces[1..]) && if SentAsIs(pieces[0]) then !ColonInName(line) else !NamesAddressee(line)
  {
    var first, typed, sent := pieces[0], Concat(pieces[1..]), Sent(pieces[1..]);
    assert IsMessage(line + [NL]) by {
      assert (line + [NL])[..|line|] == line;
    }
    SentIsMessage(pieces);
    PrefixesLengthen(pieces[1..]);
    assert IsMessage(first + sent) by {
      if |pieces| == 1 {
        assert pieces[1..] == [];
        Nothing(first);
      } else {
        InFront(first, sent);
      }
    }
    var text := TextOf(first + sent);
    if SentAsIs(first) {
      AsIsText(first, typed, line);
      AsIsText(first, sent, text);
      FirstAsIs(first, line, text);
    } else {
      Associate(BROADCAST_PREFIX, first, sent);
      BroadcastLine(text);
    }
  }

  /** A first read that goes as it is makes the whole line one that does. */
  lemma AsIsText(first: Bytes, rest: Bytes, line: Bytes)
    requires SentAsIs(first) && first + rest == line + [NL] && !HasNewline(line)
    ensures SentAsIs(line) && IndicatorFrom(line, 0) == IndicatorFrom(first, 0)
    ensures IndexFrom(line, 0, ':') == IndexFrom(first, 0, ':') <= IndicatorFrom(first, 0)
  {
    AsIsExtends(first, rest);
    AsIsWithNewline(line);
    IndicatorBeforeNewline(line, 0);
    var p, q := IndicatorFrom(first, 0), IndexFrom(first, 0, ':');
    assert first[p] == ':' && p < |line|;
    assert forall i :: 0 <= i <= p ==> line[i] == (line + [NL])[i] == (first + rest)[i] == first[i];
    IndexFromIsLeast(line, 0, ':', q);
  }

  /** Two lines that begin with the same read that goes as it is. */
  lemma FirstAsIs(first: Bytes, line: Bytes, text: Bytes)
    requires SentAsIs(line) && SentAsIs(text) && !HasNewline(line) && !HasNewline(text) && |text| >= |line|
    requires IndicatorFrom(line, 0) == IndicatorFrom(text, 0) && IndexFrom(line, 0, ':') == IndexFrom(text, 0, ':')
    requires |text| == |line| ==> text == line
    ensures IsMessage(text + [NL])
    ensures Parse(text + [NL]) == Promised(line) <==> text == line && !ColonInName(line)
  {
    PrivateLine(text);
    FirstColon(line);
    FirstColon(text);
    PromisedAsIs(line);
    var p, q := IndicatorFrom(line, 0), IndexFrom(line, 0, ':');
    if text != line {
      assert |text[q + 2..]| > |line[p + 2..]|;
    }
  }

  /** A line that with its newline is no longer than a read can come in one, and then only a
      name with a colon in it breaks the promise. A longer one cannot. */
  lemma FitsOneRead(line: Bytes, pieces: seq<Bytes>)
    requires !HasNewline(line) && ComesAs(line + [NL], pieces)
    ensures |line| >= 1016 ==> |pieces| > 1
    ensures |line| < 1016 ==> ComesAs(line + [NL], [line + [NL]]) && Sent([line + [NL]]) == Encode(line + [NL])
  {
    JustOne(line + [NL]);
    if |pieces| == 1 {
      assert pieces == [pieces[0]];
      JustOne(pieces[0]);
    }
  }

  /** A line of 1016 bytes, the shortest that does not: its text grows by a prefix. */
  lemma LongLineGrows(line: Bytes, pieces: seq<Bytes>)
    requires line == seq(1016, _ => 'a') && pieces == [line, [NL]]
    ensures !HasNewline(line) && ComesAs(line + [NL], pieces) && IsMessage(Sent(pieces))
    ensures Promised(line) == Broadcast(line) && Parse(Sent(pieces)) == Broadcast(line + BROADCAST_PREFIX)
  {
    assert pieces[1..] == [[NL]];
    JustOne([NL]);
    assert line[0] == 'a' != CMD_TO_C[0];
    LineRoundTrip(line, pieces);
    var text := line + BROADCAST_PREFIX;
    assert Sent(pieces) == (BROADCAST_PREFIX + line) + (BROADCAST_PREFIX + [NL]) == BROADCAST_PREFIX + (text + [NL]);
    BroadcastLine(text);
  }

  /** An end of input, typed on an empty terminal line before a line to one person: the client
      answers it with a prefix, so that the line goes to everybody. */
  lemma EmptyReadPublishes(line: Bytes, pieces: seq<Bytes>)
    requires line == "TO-C-bob: hi" && pieces == [[], line + [NL]]
    ensures !HasNewline(line) && ComesAs(line + [NL], pieces) && IsMessage(Sent(pieces))
    ensures Promised(line) == Private("bob", "hi") && Parse(Sent(pieces)) == Broadcast(line)
  {
    ToBob(line);
    assert pieces[1..] == [line + [NL]];
    JustOne(line + [NL]);
    AsIsWithNewline(line);
    Nothing(BROADCAST_PREFIX);
    BroadcastLine(line);
  }

  lemma ToBob(line: Bytes)
    requires line == "TO-C-bob: hi"
    ensures !HasNewline(line) && SentAsIs(line) && Promised(line) == Private("bob", "hi")
  {
    assert CMD_TO_C <= line;
    IndicatorHere(line, 0, 8);
    assert line[|CMD_TO_C|..8] == "bob" && line[10..] == "hi";
  }

  /** Lines with their newlines. */
  function Ended(lines: seq<Bytes>): (r: seq<Bytes>)
    ensures |r| == |lines| && forall i :: 0 <= i < |r| ==> r[i] == lines[i] + [NL]
  {
    seq(|lines|, i requires 0 <= i < |lines| => lines[i] + [NL])
  }

  /** A line that goes to the server bare. */
  lemma BareLine(line: Bytes)
    requires !HasNewline(line)
    ensures IsMessage(line + [NL])
    ensures Parse(line + [NL]) == Promised(line) <==> NamesAddressee(line)
  {
    var m := line + [NL];
    assert m[..|m| - 1] == line;
    if NamesAddressee(line) {
      PrivateLine(line);
      FirstColon(line);
      AddresseeIsColonFree(line);
      PromisedAsIs(line);
    } else if StartsWith(m, CMD_TO_ALL) {
      ParseByPrefix(m);
      assert |CutLine(m[|CMD_TO_ALL| + 1..])| < |line|;
    }
  }

  /** For every read that brings several whole lines: only the first can get a prefix, so each
      later one is understood as promised if and only if it names an addressee. */
  lemma ReadRoundTrip(lines: seq<Bytes>)
    requires lines != [] && forall i :: 0 <= i < |lines| ==> !HasNewline(lines[i])
    ensures var ms := Messages(Encode(Concat(Ended(lines))));
      && |ms| == |lines| && AllMessages(ms)
      && (Parse(ms[0]) == Promised(lines[0])
          <==> NamesAddressee(lines[0]) || !SentAsIs(Concat(Ended(lines))))
      && forall i :: 0 < i < |lines| ==> (Parse(ms[i]) == Promised(lines[i]) <==> NamesAddressee(lines[i]))
  {
    var ended := Ended(lines);
    forall i | 0 <= i < |lines|
      ensures IsMessage(ended[i]) && (Parse(ended[i]) == Promised(lines[i]) <==> NamesAddressee(lines[i]))
    {
      BareLine(lines[i]);
    }
    BroadcastLine(lines[0]);
    EncodedOnce(ended);
    if NamesAddressee(lines[0]) {
      AsIsWithNewline(lines[0]);
      AsIsExtends(ended[0], Concat(ended[1..]));
    }
  }

  /** Only the first message of a read can get the prefix. */
  function WithPrefix(ms: seq<Bytes>): seq<Bytes>
    requires ms != []
  {
    if SentAsIs(Concat(ms)) then ms else ms[0 := BROADCAST_PREFIX + ms[0]]
  }

  lemma EncodedOnce(ms: seq<Bytes>)
    requires ms != [] && AllMessages(ms)
    ensures AllMessages(WithPrefix(ms)) && Messages(Encode(Concat(ms))) == WithPrefix(ms)
  {
    var sent := WithPrefix(ms);
    assert !HasNewline(BROADCAST_PREFIX);
    InFront(BROADCAST_PREFIX, ms[0]);
    assert sent[1..] == ms[1..];
    Associate(BROADCAST_PREFIX, ms[0], Concat(ms[1..]));
    WholeSplit(sent);
  }

  /** Two lines in one read: the second is not understood at all. */
  lemma SecondLineIgnored(lines: seq<Bytes>)
    requires lines == ["hi", "yo"]
    ensures var ms := Messages(Encode(Concat(Ended(lines))));
      && ms == [BROADCAST_PREFIX + ("hi" + [NL]), "yo" + [NL]] && AllMessages(ms)
      && Parse(ms[0]) == Broadcast("hi") && Parse(ms[1]) == Ignored
  {
    var ended := Ended(lines);
    assert ended == ["hi" + [NL], "yo" + [NL]];
    BareLine("hi");
    BareLine("yo");
    BroadcastLine("hi");
    assert Concat(ended)[0] == 'h' != CMD_TO_C[0];
    EncodedOnce(ended);
  }

  // ----- logging in

  /** What the client sends first. */
  function LoginLine(name: Bytes): Bytes { CMD_LOGIN + name + [NL] }

  /** The server takes the client's name from it, cut to 29 bytes, and tells the others. */
  lemma LoginRoundTrip(name: Bytes, was: Bytes)
    ensures IsMessage(LoginLine(name)) <==> !HasNewline(name)
    ensures IsMessage(LoginLine(name)) ==>
      Handle(was, LoginLine(name)) == (Truncate(name), Some(LoginNotice(Truncate(name))))
    ensures |name| < CLIENT_NAME_MAXIMUM_SIZE ==> Truncate(name) == name
  {
    var m := LoginLine(name);
    assert m[..|m| - 1] == CMD_LOGIN + name;
    assert NL in CMD_LOGIN + name <==> NL in name;
    if IsMessage(m) {
      assert CMD_LOGIN <= m && m[|CMD_LOGIN|..] == (name + [NL])[0..];
      CutLineAt(name, 0);
    }
  }
}
