// Byte strings, their split at newlines, and ordered sub-selection: the plain
// mathematics every other module is measured against.

module Bytes {

  datatype Option<+T> = None | Some(value: T)

  /** C's `char`; the program moves bytes around and only ever compares them. */
  type Bytes = seq<char>

  const NL: char := '\n'

  function Min(a: int, b: int): int { if a < b then a else b }

  /** The least position at or after `start` that holds `b`, or the length when there is none. */
  function IndexFrom(s: Bytes, start: nat, b: char): (r: nat)
    ensures r <= |s|
    ensures r < |s| ==> start <= r && s[r] == b
    ensures forall i :: start <= i < r ==> s[i] != b
    decreases |s| - start
  {
    if start >= |s| then |s|
    else if s[start] == b then start
    else IndexFrom(s, start + 1, b)
  }

  predicate HasNewline(s: Bytes) { NL in s }

  /** One complete message: its only newline is its last byte. */
  predicate IsMessage(m: Bytes) {
    m != [] && m[|m| - 1] == NL && NL !in m[..|m| - 1]
  }

  predicate AllMessages(ms: seq<Bytes>) {
    forall i :: 0 <= i < |ms| ==> IsMessage(ms[i])
  }

  function Concat(ms: seq<Bytes>): Bytes {
    if ms == [] then [] else ms[0] + Concat(ms[1..])
  }

  /** The newline-terminated pieces of a stream, in order. */
  function Messages(s: Bytes): seq<Bytes>
    decreases |s|
  {
    var i := IndexFrom(s, 0, NL);
    if i == |s| then [] else [s[..i + 1]] + Messages(s[i + 1..])
  }

  /** What follows the last newline of a stream. */
  function Residue(s: Bytes): Bytes
    decreases |s|
  {
    var i := IndexFrom(s, 0, NL);
    if i == |s| then s else Residue(s[i + 1..])
  }

  // ----- lemmas

  lemma IndexFromIsLeast(s: Bytes, start: nat, b: char, r: nat)
    requires r <= |s|
    requires r < |s| ==> start <= r && s[r] == b
    requires forall i :: start <= i < r ==> s[i] != b
    ensures r == IndexFrom(s, start, b)
  {
  }

  lemma SplitLast<T>(s: seq<T>, x: T)
    requires s != []
    ensures s == s[..|s| - 1] + [s[|s| - 1]]
    ensures s[|s| - 1 := x] == s[..|s| - 1] + [x]
  {
  }

  lemma Nothing<T>(a: seq<T>)
    ensures a + [] == a == [] + a
  {
  }

  lemma TakeNext<T>(s: seq<T>, i: nat)
    requires i < |s|
    ensures s[..i + 1] == s[..i] + [s[i]]
  {
  }

  lemma {:induction false} ConcatAppend(a: seq<Bytes>, b: seq<Bytes>)
    ensures Concat(a + b) == Concat(a) + Concat(b)
  {
    if a == [] {
      assert a + b == b;
    } else {
      assert (a + b)[1..] == a[1..] + b;
      ConcatAppend(a[1..], b);
    }
  }

  lemma ConcatSnoc(a: seq<Bytes>, m: Bytes)
    ensures Concat(a + [m]) == Concat(a) + m
  {
    ConcatAppend(a, [m]);
    assert Concat([m]) == m + Concat([]) == m;
  }

  lemma ConcatCons(m: Bytes, ms: seq<Bytes>)
    ensures Concat([m] + ms) == m + Concat(ms)
  {
    assert ([m] + ms)[1..] == ms;
  }

  lemma Associate<T>(a: seq<T>, b: seq<T>, c: seq<T>)
    ensures (a + b) + c == a + (b + c)
  {
  }

  /** Messages and residue together are the whole stream. */
  lemma {:induction false} SplitRejoins(s: Bytes)
    ensures Concat(Messages(s)) + Residue(s) == s
    decreases |s|
  {
    var i := IndexFrom(s, 0, NL);
    if i < |s| {
      var m, rest := s[..i + 1], s[i + 1..];
      SplitRejoins(rest);
      Rejoin(m, Messages(rest), Residue(rest));
      CutJoins(s, i + 1);
    }
  }

  lemma CutJoins<T>(s: seq<T>, i: nat)
    requires i <= |s|
    ensures s[..i] + s[i..] == s
  {
  }

  lemma Rejoin(m: Bytes, ms: seq<Bytes>, r: Bytes)
    ensures Concat([m] + ms) + r == m + (Concat(ms) + r)
  {
    ConcatCons(m, ms);
    Associate(m, Concat(ms), r);
  }

  lemma {:induction false} SplitIsClean(s: Bytes)
    ensures !HasNewline(Residue(s))
    ensures AllMessages(Messages(s))
    decreases |s|
  {
    var i := IndexFrom(s, 0, NL);
    if i < |s| {
      SplitIsClean(s[i + 1..]);
      FirstMessage(s);
    }
  }

  lemma FirstMessage(s: Bytes)
    requires HasNewline(s)
    ensures IndexFrom(s, 0, NL) < |s|
    ensures IsMessage(s[..IndexFrom(s, 0, NL) + 1])
  {
    var i := IndexFrom(s, 0, NL);
    assert s[..i + 1][..i] == s[..i];
  }

  /** Putting a message in front of a stream adds exactly that message. */
  lemma MessagesCons(m: Bytes, s: Bytes)
    requires IsMessage(m)
    ensures Messages(m + s) == [m] + Messages(s)
    ensures Residue(m + s) == Residue(s)
  {
    var t := m + s;
    assert forall i :: 0 <= i < |m| - 1 ==> t[i] == m[..|m| - 1][i];
    IndexFromIsLeast(t, 0, NL, |m| - 1);
    assert t[..|m|] == m && t[|m|..] == s;
  }

  /** The split is unique: any list of messages followed by newline-free bytes is it. */
  lemma {:induction false} SplitIsUnique(ms: seq<Bytes>, rest: Bytes)
    requires AllMessages(ms)
    ensures Messages(Concat(ms) + rest) == ms + Messages(rest)
    ensures Residue(Concat(ms) + rest) == Residue(rest)
  {
    if ms == [] {
      assert Concat(ms) + rest == rest;
    } else {
      var m, others := ms[0], ms[1..];
      SplitIsUnique(others, rest);
      MessagesCons(m, Concat(others) + rest);
      Associate(m, Concat(others), rest);
      assert Concat(ms) == m + Concat(others);
      assert [m] + (others + Messages(rest)) == ms + Messages(rest);
    }
  }

  /** Messages by themselves are cut just so. */
  lemma WholeSplit(ms: seq<Bytes>)
    requires AllMessages(ms)
    ensures Messages(Concat(ms)) == ms && Residue(Concat(ms)) == []
  {
    SplitIsUnique(ms, []);
    Nothing(Concat(ms));
    Nothing(ms);
  }

  lemma NoNewlineNoMessages(s: Bytes)
    requires !HasNewline(s)
    ensures Messages(s) == [] && Residue(s) == s
  {
    IndexFromIsLeast(s, 0, NL, |s|);
  }

  /** The messages of a stream only ever grow at the end when bytes are added to it. */
  lemma MessagesAppend(a: Bytes, b: Bytes)
    ensures Messages(a + b) == Messages(a) + Messages(Residue(a) + b)
    ensures Residue(a + b) == Residue(Residue(a) + b)
  {
    SplitRejoins(a);
    SplitIsClean(a);
    Associate(Concat(Messages(a)), Residue(a), b);
    SplitIsUnique(Messages(a), Residue(a) + b);
  }

  /** The messages of a first part of a stream come first. */
  lemma MessagesOfPrefix(a: Bytes, s: Bytes)
    requires a <= s
    ensures Messages(a) <= Messages(s)
  {
    assert s == a + s[|a|..];
    MessagesAppend(a, s[|a|..]);
  }

  // ----- sub-selection in order

  /** `a` can be read off `b` by skipping elements, keeping order. */
  ghost predicate Subsequence<T>(a: seq<T>, b: seq<T>)
    decreases |b|
  {
    if a == [] then true
    else if b == [] then false
    else
      || (a[|a| - 1] == b[|b| - 1] && Subsequence(a[..|a| - 1], b[..|b| - 1]))
      || Subsequence(a, b[..|b| - 1])
  }

  /** These places of b, in order, hold the elements of a. */
  ghost predicate Selects<T>(a: seq<T>, b: seq<T>, places: seq<nat>) {
    && |places| == |a|
    && (forall i :: 0 <= i < |a| ==> places[i] < |b| && b[places[i]] == a[i])
    && (forall i, j :: 0 <= i < j < |a| ==> places[i] < places[j])
  }

  /** That is what it means: there are such places, if and only if a is a subsequence of b. */
  lemma {:induction false} SubsequenceHasPlaces<T>(a: seq<T>, b: seq<T>) returns (places: seq<nat>)
    requires Subsequence(a, b)
    ensures Selects(a, b, places)
    decreases |b|
  {
    if a == [] {
      places := [];
    } else {
      var init, last := b[..|b| - 1], |b| - 1;
      if a[|a| - 1] == b[last] && Subsequence(a[..|a| - 1], init) {
        places := SubsequenceHasPlaces(a[..|a| - 1], init);
        places := places + [last];
      } else {
        places := SubsequenceHasPlaces(a, init);
      }
    }
  }

  lemma {:induction false} PlacesMakeSubsequence<T>(a: seq<T>, b: seq<T>, places: seq<nat>)
    requires Selects(a, b, places)
    ensures Subsequence(a, b)
    decreases |b|
  {
    if a != [] {
      var n, last := |a| - 1, |b| - 1;
      assert places[n] < |b|;
      if places[n] == last {
        PlacesMakeSubsequence(a[..n], b[..last], places[..n]);
      } else {
        PlacesMakeSubsequence(a, b[..last], places);
      }
    }
  }

  lemma {:induction false} SubsequenceExtend<T>(a: seq<T>, b: seq<T>, more: seq<T>)
    requires Subsequence(a, b)
    ensures Subsequence(a, b + more)
    decreases |more|
  {
    if more == [] {
      assert b + more == b;
    } else {
      SubsequenceExtend(a, b, more[..|more| - 1]);
      assert (b + more)[..|b + more| - 1] == b + more[..|more| - 1];
    }
  }

  lemma SubsequenceSnoc<T>(a: seq<T>, b: seq<T>, x: T)
    requires Subsequence(a, b)
    ensures Subsequence(a + [x], b + [x])
  {
    assert (a + [x])[..|a|] == a && (b + [x])[..|b|] == b;
  }

  lemma {:induction false} SubsequenceSelf<T>(a: seq<T>)
    ensures Subsequence(a, a)
  {
    if a != [] {
      SubsequenceSelf(a[..|a| - 1]);
    }
  }

  /** Leaving one element out keeps the order of the others. */
  lemma {:induction false} SubsequenceSkip<T>(s: seq<T>, p: nat)
    requires p < |s|
    ensures Subsequence(s[..p] + s[p + 1..], s)
    decreases |s|
  {
    var a, n := s[..p] + s[p + 1..], |s| - 1;
    if p == n {
      assert a == s[..n];
      SubsequenceSelf(a);
    } else {
      SubsequenceSkip(s[..n], p);
      assert a[..|a| - 1] == s[..n][..p] + s[..n][p + 1..];
    }
  }
}
