// Any reads of any number of lines at the client: which lines the server understands as
// their users were promised.

module ClientInput {
  import opened Bytes
  import opened Protocol
  import opened ChatClient

  /** What goes to the server, piece by piece: a byte that was typed, or a prefix that the
      client puts in. */
  datatype Item = Typed(c: char) | Prefix

  function Typing(s: Bytes): (r: seq<Item>)
    ensures |r| == |s| && forall i :: 0 <= i < |s| ==> r[i] == Typed(s[i])
  {
    seq(|s|, i requires 0 <= i < |s| => Typed(s[i]))
  }

  /** A read as the client sends it: a prefix goes in front if it does not read as a private
      message. */
  function Woven(piece: Bytes): seq<Item> {
    (if SentAsIs(piece) then [] else [Prefix]) + Typing(piece)
  }

  function Weave(pieces: seq<Bytes>): seq<Item> {
    if pieces == [] then [] else Woven(pieces[0]) + Weave(pieces[1..])
  }

  /** As a text, with `mark` for each prefix. */
  function Spelled(w: seq<Item>, mark: Bytes): Bytes {
    if w == [] then [] else (if w[0].Typed? then [w[0].c] else mark) + Spelled(w[1..], mark)
  }

  /** What was typed of it, and what is sent of it. */
  function Plain(w: seq<Item>): Bytes { Spelled(w, []) }

  function Rendered(w: seq<Item>): Bytes { Spelled(w, BROADCAST_PREFIX) }

  /** Where the line ends that it begins with. */
  function LineEnd(w: seq<Item>): (r: nat)
    ensures r <= |w| && Typed(NL) !in w[..r] && (r < |w| ==> w[r] == Typed(NL))
  {
    if w == [] || w[0] == Typed(NL) then 0
    else
      assert w == [w[0]] + w[1..];
      1 + LineEnd(w[1..])
  }

  /** The lines in it, without their newlines. */
  function LinesOf(w: seq<Item>): seq<seq<Item>>
    decreases |w|
  {
    var n := LineEnd(w);
    if n == |w| then [] else [w[..n]] + LinesOf(w[n + 1..])
  }

  /** The prefix for a broadcast, any number of times. */
  predicate Prefixes(s: Bytes)
    decreases |s|
  {
    s == [] || (StartsWith(s, BROADCAST_PREFIX) && Prefixes(s[|BROADCAST_PREFIX|..]))
  }

  /** Exactly one prefix has come into the line, and nothing was typed in front of it that
      is not the prefix itself. */
  predicate PrefixedOnce(w: seq<Item>) {
    exists n :: 0 <= n < |w| && w[n] == Prefix && Prefix !in w[..n] && Prefix !in w[n + 1..] && Prefixes(Plain(w[..n]))
  }

  /** A line to one person gets no prefix; any other line gets just the one. */
  predicate KeepsPromise(w: seq<Item>) {
    if NamesAddressee(Plain(w)) then Prefix !in w else PrefixedOnce(w)
  }

  /** The lines that are complete in what was typed. */
  function TypedLines(pieces: seq<Bytes>): seq<Bytes> {
    SplitIsClean(Concat(pieces));
    var ms := Messages(Concat(pieces));
    seq(|ms|, i requires 0 <= i < |ms| => TextOf(ms[i]))
  }

  /** For all reads that there can be: the server gets one message for each line that was
      typed, and sees in it what the user was promised if and only if no prefix has come into
      a line to one person, and just one, in front, into any other. */
  lemma AnyReads(pieces: seq<Bytes>)
    ensures var lines, sent, ws := TypedLines(pieces), Messages(Sent(pieces)), LinesOf(Weave(pieces));
      && AllMessages(sent) && |lines| == |sent| == |ws|
      && forall i :: 0 <= i < |ws| ==>
           Plain(ws[i]) == lines[i] && (Parse(sent[i]) == Promised(lines[i]) <==> KeepsPromise(ws[i]))
  {
    WeaveIs(pieces);
    LinesAreMessages(Weave(pieces), []);
    LinesAreMessages(Weave(pieces), BROADCAST_PREFIX);
    var ws := LinesOf(Weave(pieces));
    forall i | 0 <= i < |ws|
      ensures Parse(Rendered(ws[i]) + [NL]) == Promised(Plain(ws[i])) <==> KeepsPromise(ws[i])
    {
      LineIsUnderstood(ws[i]);
    }
  }

  lemma {:induction false} SpelledAppend(v: seq<Item>, w: seq<Item>, mark: Bytes)
    ensures Spelled(v + w, mark) == Spelled(v, mark) + Spelled(w, mark)
  {
    if v == [] {
      Nothing(w);
      Nothing(Spelled(w, mark));
    } else {
      assert (v + w)[1..] == v[1..] + w;
      SpelledAppend(v[1..], w, mark);
      Associate(if v[0].Typed? then [v[0].c] else mark, Spelled(v[1..], mark), Spelled(w, mark));
    }
  }

  lemma {:induction false} TypingIs(s: Bytes, mark: Bytes)
    ensures Spelled(Typing(s), mark) == s
  {
    if s != [] {
      assert Typing(s)[1..] == Typing(s[1..]);
      TypingIs(s[1..], mark);
    }
  }

  lemma OneItem(x: Item, mark: Bytes)
    ensures Spelled([x], mark) == if x.Typed? then [x.c] else mark
  {
    assert [x][1..] == [];
    Nothing(if x.Typed? then [x.c] else mark);
  }

  lemma WovenIs(piece: Bytes)
    ensures Plain(Woven(piece)) == piece && Rendered(Woven(piece)) == Encode(piece)
  {
    TypingIs(piece, []);
    TypingIs(piece, BROADCAST_PREFIX);
    if SentAsIs(piece) {
      Nothing(Typing(piece));
    } else {
      SpelledAppend([Prefix], Typing(piece), []);
      SpelledAppend([Prefix], Typing(piece), BROADCAST_PREFIX);
      OneItem(Prefix, []);
      OneItem(Prefix, BROADCAST_PREFIX);
      Nothing(piece);
    }
  }

  lemma {:induction false} WeaveIs(pieces: seq<Bytes>)
    ensures Plain(Weave(pieces)) == Concat(pieces) && Rendered(Weave(pieces)) == Sent(pieces)
  {
    if pieces != [] {
      WovenIs(pieces[0]);
      WeaveIs(pieces[1..]);
      SpelledAppend(Woven(pieces[0]), Weave(pieces[1..]), []);
      SpelledAppend(Woven(pieces[0]), Weave(pieces[1..]), BROADCAST_PREFIX);
    }
  }

  /** Within a line there is no newline. */
  lemma {:induction false} NoNewlineInside(w: seq<Item>, mark: Bytes)
    requires Typed(NL) !in w && !HasNewline(mark)
    ensures !HasNewline(Spelled(w, mark))
  {
    if w != [] {
      NoNewlineInside(w[1..], mark);
      assert w[0] in w;
    }
  }

  /** Each message is one of the lines with its newline. */
  predicate AreLines(ms: seq<Bytes>, ws: seq<seq<Item>>, mark: Bytes) {
    && AllMessages(ms) && |ms| == |ws|
    && forall i :: 0 <= i < |ws| ==> ms[i] == Spelled(ws[i], mark) + [NL] && Typed(NL) !in ws[i]
  }

  lemma {:induction false} LinesAreMessages(w: seq<Item>, mark: Bytes)
    requires !HasNewline(mark)
    ensures AreLines(Messages(Spelled(w, mark)), LinesOf(w), mark)
    decreases |w|
  {
    var n := LineEnd(w);
    if n == |w| {
      NoLine(w, mark);
    } else {
      LinesAreMessages(w[n + 1..], mark);
      FirstLine(w[..n], w[n + 1..], mark);
      OneLineMore(w[..n], LinesOf(w[n + 1..]), Messages(Spelled(w[n + 1..], mark)), mark);
      FirstLineOff(w);
    }
  }

  lemma NoLine(w: seq<Item>, mark: Bytes)
    requires !HasNewline(mark) && LineEnd(w) == |w|
    ensures Messages(Spelled(w, mark)) == [] && LinesOf(w) == []
  {
    assert w[..|w|] == w;
    NoNewlineInside(w, mark);
    NoNewlineNoMessages(Spelled(w, mark));
  }

  lemma FirstLineOff(w: seq<Item>)
    requires LineEnd(w) < |w|
    ensures w == w[..LineEnd(w)] + [Typed(NL)] + w[LineEnd(w) + 1..]
    ensures LinesOf(w) == [w[..LineEnd(w)]] + LinesOf(w[LineEnd(w) + 1..])
  {
    CutAround(w, LineEnd(w));
  }

  lemma CutAround<T>(s: seq<T>, i: nat)
    requires i < |s|
    ensures s == s[..i] + [s[i]] + s[i + 1..]
  {
  }

  lemma OneLineMore(l: seq<Item>, ws: seq<seq<Item>>, ms: seq<Bytes>, mark: Bytes)
    requires Typed(NL) !in l && IsMessage(Spelled(l, mark) + [NL]) && AreLines(ms, ws, mark)
    ensures AreLines([Spelled(l, mark) + [NL]] + ms, [l] + ws, mark)
  {
  }

  lemma FirstLine(l: seq<Item>, rest: seq<Item>, mark: Bytes)
    requires Typed(NL) !in l && !HasNewline(mark)
    ensures IsMessage(Spelled(l, mark) + [NL])
    ensures Messages(Spelled(l + [Typed(NL)] + rest, mark)) == [Spelled(l, mark) + [NL]] + Messages(Spelled(rest, mark))
  {
    NoNewlineInside(l, mark);
    SpelledAppend(l + [Typed(NL)], rest, mark);
    SpelledAppend(l, [Typed(NL)], mark);
    OneItem(Typed(NL), mark);
    EndsLine(Spelled(l, mark));
    MessagesCons(Spelled(l, mark) + [NL], Spelled(rest, mark));
  }

  lemma EndsLine(line: Bytes)
    requires !HasNewline(line)
    ensures IsMessage(line + [NL])
  {
    assert (line + [NL])[..|line|] == line;
  }

  // ----- one line

  function Count(w: seq<Item>): nat {
    if w == [] then 0 else (if w[0] == Prefix then 1 else 0) + Count(w[1..])
  }

  lemma {:induction false} CountLengthens(w: seq<Item>)
    ensures |Rendered(w)| == |Plain(w)| + |BROADCAST_PREFIX| * Count(w)
    ensures Count(w) == 0 <==> Prefix !in w
    ensures Count(w) == 0 ==> Rendered(w) == Plain(w)
  {
    if w != [] {
      CountLengthens(w[1..]);
      assert Prefix in w <==> w[0] == Prefix || Prefix in w[1..];
    }
  }

  /** Where the first prefix is. */
  lemma {:induction false} FirstPrefix(w: seq<Item>) returns (n: nat)
    requires Count(w) > 0
    ensures n < |w| && w[n] == Prefix && Prefix !in w[..n] && Count(w[n + 1..]) == Count(w) - 1
  {
    if w[0] == Prefix {
      n := 0;
    } else {
      n := FirstPrefix(w[1..]);
      n := n + 1;
      assert w[..n] == [w[0]] + w[1..][..n - 1] && w[n + 1..] == w[1..][n..];
    }
  }

  lemma LineIsUnderstood(w: seq<Item>)
    requires Typed(NL) !in w
    ensures IsMessage(Rendered(w) + [NL])
    ensures Parse(Rendered(w) + [NL]) == Promised(Plain(w)) <==> KeepsPromise(w)
  {
    var line, text := Plain(w), Rendered(w);
    NoNewlineInside(w, []);
    NoNewlineInside(w, BROADCAST_PREFIX);
    CountLengthens(w);
    EndsLine(text);
    if Prefix !in w {
      BareLine(line);
    } else if NamesAddressee(line) {
      LongerIsNotPrivate(line, text);
    } else {
      AsBroadcast(line, text);
      OnlyInFront(w);
    }
  }

  /** A text that has grown by a prefix is not the line to one person that it was. */
  lemma LongerIsNotPrivate(line: Bytes, text: Bytes)
    requires NamesAddressee(line) && IsMessage(text + [NL]) && |text| > |line|
    ensures Parse(text + [NL]) != Promised(line)
  {
    var m := text + [NL];
    if Parse(m).Private? {
      ColonInside(m);
      var q := IndexFrom(m, 0, ':');
      if q + 2 <= |text| {
        assert m[..|text|] == text;
        CutLineAt(text, q + 2);
      }
    }
  }

  /** The text reads like the line with one prefix in front. */
  predicate ReadsLikeInFront(text: Bytes, line: Bytes) {
    |text| >= |BROADCAST_PREFIX| && StartsWith(text, CMD_TO_ALL) && text[|BROADCAST_PREFIX|..] == line
  }

  /** When the server sees a broadcast of a line that has grown. */
  lemma AsBroadcast(line: Bytes, text: Bytes)
    requires !NamesAddressee(line) && !HasNewline(text) && IsMessage(text + [NL])
    requires |text| >= |line| + |BROADCAST_PREFIX|
    ensures Parse(text + [NL]) == Promised(line) <==> ReadsLikeInFront(text, line)
  {
    var m := text + [NL];
    CutLineAt(text, |BROADCAST_PREFIX|);
    if StartsWith(m, CMD_TO_ALL) {
      ParseByPrefix(m);
    }
    assert StartsWith(m, CMD_TO_ALL) <==> StartsWith(text, CMD_TO_ALL);
  }

  /** It does if there is just one prefix, and nothing else in front of it. */
  lemma OnlyInFront(w: seq<Item>)
    requires Prefix in w
    ensures ReadsLikeInFront(Rendered(w), Plain(w)) <==> PrefixedOnce(w)
  {
    CountLengthens(w);
    var n := FirstPrefix(w);
    CountLengthens(w[n + 1..]);
    FirstIsTheOne(w, n);
    if Count(w) == 1 {
      OneIsInFront(w, n);
    } else {
      assert |Rendered(w)| - |BROADCAST_PREFIX| > |Plain(w)|;
    }
  }

  lemma OneIsInFront(w: seq<Item>, n: nat)
    requires n < |w| && w[n] == Prefix && Prefix !in w[..n] && Prefix !in w[n + 1..]
    ensures ReadsLikeInFront(Rendered(w), Plain(w)) <==> Prefixes(Plain(w[..n]))
  {
    OneAt(w, n);
    InMiddle(Plain(w[..n]), Plain(w[n + 1..]));
  }

  lemma OneAt(w: seq<Item>, n: nat)
    requires n < |w| && w[n] == Prefix && Prefix !in w[..n] && Prefix !in w[n + 1..]
    ensures Plain(w) == Plain(w[..n]) + Plain(w[n + 1..])
    ensures Rendered(w) == Plain(w[..n]) + BROADCAST_PREFIX + Plain(w[n + 1..])
  {
    CutAround(w, n);
    OneAmong(w[..n], w[n + 1..]);
  }

  lemma OneAmong(a: seq<Item>, b: seq<Item>)
    requires Prefix !in a && Prefix !in b
    ensures Plain(a + [Prefix] + b) == Plain(a) + Plain(b)
    ensures Rendered(a + [Prefix] + b) == Plain(a) + BROADCAST_PREFIX + Plain(b)
  {
    CountLengthens(a);
    CountLengthens(b);
    OneItem(Prefix, []);
    OneItem(Prefix, BROADCAST_PREFIX);
    SpelledAppend(a + [Prefix], b, []);
    SpelledAppend(a, [Prefix], []);
    SpelledAppend(a + [Prefix], b, BROADCAST_PREFIX);
    SpelledAppend(a, [Prefix], BROADCAST_PREFIX);
    Nothing(Plain(a));
  }

  lemma NotBefore(w: seq<Item>, n: nat)
    requires n <= |w| && Prefix !in w[..n]
    ensures forall i :: 0 <= i < n ==> w[i] != Prefix
  {
    assert forall i :: 0 <= i < n ==> w[i] == w[..n][i];
  }

  lemma FirstIsTheOne(w: seq<Item>, n: nat)
    requires n < |w| && w[n] == Prefix && Prefix !in w[..n]
    ensures PrefixedOnce(w) <==> Prefix !in w[n + 1..] && Prefixes(Plain(w[..n]))
  {
    if PrefixedOnce(w) {
      var k :| 0 <= k < |w| && w[k] == Prefix && Prefix !in w[..k] && Prefix !in w[k + 1..] && Prefixes(Plain(w[..k]));
      NotBefore(w, n);
      NotBefore(w, k);
    }
  }

  /** A prefix put in behind `a` reads like one put in front if and only if `a` is made of
      prefixes. */
  lemma InMiddle(a: Bytes, b: Bytes)
    ensures ReadsLikeInFront(a + BROADCAST_PREFIX + b, a + b) <==> Prefixes(a)
  {
    var n := |BROADCAST_PREFIX|;
    var text, front := a + BROADCAST_PREFIX + b, a + BROADCAST_PREFIX;
    assert text[n..] == front[n..] + b;
    assert front[n..] + b == a + b <==> front[n..] == a by {
      if front[n..] + b == a + b {
        assert (front[n..] + b)[..|a|] == front[n..] && (a + b)[..|a|] == a;
      }
    }
    assert StartsWith(text, CMD_TO_ALL) <==> StartsWith(front, CMD_TO_ALL) by {
      assert text[..|CMD_TO_ALL|] == front[..|CMD_TO_ALL|];
    }
    Rotates(a);
  }

  lemma {:induction false} Rotates(a: Bytes)
    ensures var front := a + BROADCAST_PREFIX;
      StartsWith(front, CMD_TO_ALL) && front[|BROADCAST_PREFIX|..] == a <==> Prefixes(a)
    decreases |a|
  {
    var p, n := BROADCAST_PREFIX, |BROADCAST_PREFIX|;
    if a == [] {
      Nothing(p);
    } else if |a| < n {
      ShortRotates(a);
    } else {
      var rest := a[n..];
      Rotates(rest);
      assert (a + p)[n..] == rest + p;
      if rest + p == a {
        assert StartsWith(a, CMD_TO_ALL) <==> StartsWith(a + p, CMD_TO_ALL);
      }
      if Prefixes(rest) {
        Commutes(rest);
      }
      CutJoins(a, n);
    }
  }

  lemma ShortRotates(a: Bytes)
    requires 0 < |a| < |BROADCAST_PREFIX|
    ensures !Prefixes(a)
    ensures !(StartsWith(a + BROADCAST_PREFIX, CMD_TO_ALL) && (a + BROADCAST_PREFIX)[|BROADCAST_PREFIX|..] == a)
  {
    var p := BROADCAST_PREFIX;
    assert (a + p)[|p|] == p[|p| - |a|];
    assert p[1] != 'T' && p[2] != 'T' && p[3] != 'T' && p[4] != 'T' && p[5] != 'T' && p[6] != 'T' && p[7] != 'T';
    assert CMD_TO_ALL[0] == 'T';
    assert (a + p)[0] == a[0];
  }

  lemma {:induction false} Commutes(a: Bytes)
    requires Prefixes(a)
    ensures a + BROADCAST_PREFIX == BROADCAST_PREFIX + a
    decreases |a|
  {
    if a == [] {
      Nothing(BROADCAST_PREFIX);
    } else {
      var rest := a[|BROADCAST_PREFIX|..];
      Commutes(rest);
      assert a == BROADCAST_PREFIX + rest;
      Associate(BROADCAST_PREFIX, rest, BROADCAST_PREFIX);
    }
  }

  // ----- two cases

  /** Lines that come one by one, each with its newline: each is understood as promised unless
      the client lets a name with a colon through. */
  lemma LineByLine(lines: seq<Bytes>)
    requires forall i :: 0 <= i < |lines| ==> !HasNewline(lines[i])
    ensures TypedLines(Ended(lines)) == lines && |LinesOf(Weave(Ended(lines)))| == |lines|
    ensures forall i :: 0 <= i < |lines| ==> (KeepsPromise(LinesOf(Weave(Ended(lines)))[i]) <==> !ColonInName(lines[i]))
  {
    var pieces := Ended(lines);
    AnyReads(pieces);
    forall i | 0 <= i < |lines|
      ensures IsMessage(pieces[i]) && IsMessage(Encode(pieces[i]))
      ensures Parse(Encode(pieces[i])) == Promised(lines[i]) <==> !ColonInName(lines[i])
    {
      EndsLine(lines[i]);
      OneReadRoundTrip(lines[i]);
    }
    WholeSplit(pieces);
    SentOneByOne(pieces);
    WholeSplit(EachEncoded(pieces));
  }

  function EachEncoded(pieces: seq<Bytes>): (r: seq<Bytes>)
    ensures |r| == |pieces| && forall i :: 0 <= i < |r| ==> r[i] == Encode(pieces[i])
  {
    seq(|pieces|, i requires 0 <= i < |pieces| => Encode(pieces[i]))
  }

  lemma {:induction false} SentOneByOne(pieces: seq<Bytes>)
    ensures Sent(pieces) == Concat(EachEncoded(pieces))
  {
    if pieces != [] {
      SentOneByOne(pieces[1..]);
      assert EachEncoded(pieces)[1..] == EachEncoded(pieces[1..]);
    }
  }

  /** A read that ends in the middle of the next line's command: a prefix comes into it, and
      the server ignores the line. */
  lemma CommandCutInTwo(first: Bytes, begun: Bytes, ended: Bytes)
    requires first == "TO-C-bob: a" + [NL] && begun == "TO-C" && ended == "-eve: b" + [NL]
    ensures var sent := Messages(Sent([first + begun, ended]));
      sent == [first, begun + BROADCAST_PREFIX + ended] && AllMessages(sent) && Parse(sent[1]) == Ignored
  {
    OnlyFirstAsIs(first + begun, ended);
    EndsLine("TO-C-bob: a");
    EndsLine("-eve: b");
    CutInTwo(first, begun, ended);
    NoCommand(begun + BROADCAST_PREFIX + ended);
  }

  lemma OnlyFirstAsIs(a: Bytes, b: Bytes)
    requires a == "TO-C-bob: a" + [NL] + "TO-C" && b == "-eve: b" + [NL]
    ensures SentAsIs(a) && !SentAsIs(b)
  {
    assert CMD_TO_C <= a;
    IndicatorHere(a, 0, 8);
    assert b[0] == '-' != CMD_TO_C[0];
  }

  lemma CutInTwo(first: Bytes, begun: Bytes, ended: Bytes)
    requires IsMessage(first) && !HasNewline(begun) && IsMessage(ended)
    requires SentAsIs(first + begun) && !SentAsIs(ended)
    ensures IsMessage(begun + BROADCAST_PREFIX + ended)
    ensures Messages(Sent([first + begun, ended])) == [first, begun + BROADCAST_PREFIX + ended]
  {
    var pieces, ms := [first + begun, ended], [first, begun + BROADCAST_PREFIX + ended];
    assert !HasNewline(BROADCAST_PREFIX);
    InFront(begun + BROADCAST_PREFIX, ended);
    assert pieces[1..] == [ended] && ms[1..] == [ms[1]];
    JustOne(ended);
    JustOne(ms[1]);
    Associate(first, begun, BROADCAST_PREFIX + ended);
    Associate(begun, BROADCAST_PREFIX, ended);
    WholeSplit(ms);
  }

  lemma NoCommand(m: Bytes)
    requires IsMessage(m) && StartsWith(m, "TO-CTO")
    ensures Parse(m) == Ignored
  {
    assert m[0] == 'T' && m[3] == 'C' && m[4] == 'T';
    assert CMD_LOGIN[0] == 'L' && CMD_TO_ALL[3] == 'A' && CMD_TO_C[4] == '-';
  }
}
