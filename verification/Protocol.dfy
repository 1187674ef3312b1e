// src/entity/message.c, the commands of src/IMServer.c, and the line encoder of
// src/IMClient.c: what is said on the wire and whom it is for.

module Protocol {
  import opened Bytes

  const CLIENT_NAME_MAXIMUM_SIZE: nat := 30
  const UNKNOWN_CLIENT: Bytes := "unknown"
  const CMD_LOGIN: Bytes := "LOGIN: "
  const CMD_TO_ALL: Bytes := "TO-ALL:"
  const CMD_TO_C: Bytes := "TO-C-"
  const MSG_SYS_PREFIX: Bytes := "FROM SYSTEM:"
  const MSG_PEER_PREFIX: Bytes := "FROM"
  const MSG_LOGIN_SUFFIX: Bytes := "is online now"
  const MSG_LOGOUT_SUFFIX: Bytes := "has logged out"
  const LARGEST_CACHE: nat := 2048

  datatype Msg = Msg(target: Bytes, exclude: Bytes, content: Bytes)

  /** The part of a C string that is left when its first newline becomes a NUL. */
  function CutLine(s: Bytes): (r: Bytes)
    ensures !HasNewline(r)
  {
    s[..IndexFrom(s, 0, NL)]
  }

  // update_client_name
  function Truncate(name: Bytes): Bytes {
    name[..Min(|name|, CLIENT_NAME_MAXIMUM_SIZE - 1)]
  }

  /** A name of up to 29 bytes stays as it is; of a longer one the first 29 are kept. */
  lemma TruncateIs(name: Bytes)
    ensures |name| <= 29 ==> Truncate(name) == name
    ensures |name| > 29 ==> |Truncate(name)| == 29 && Truncate(name) <= name
  {
    assert |Truncate(name)| == Min(|name|, 29);
  }

  predicate IsName(name: Bytes) {
    |name| < CLIENT_NAME_MAXIMUM_SIZE && !HasNewline(name)
  }

  // ----- frames

  function PeerFrame(sender: Bytes, body: Bytes): Bytes {
    MSG_PEER_PREFIX + " " + sender + ":" + " " + body + [NL]
  }

  function SystemFrame(text: Bytes): Bytes {
    MSG_SYS_PREFIX + " " + text + [NL]
  }

  // create_p2p_msg_base_on_content: the content is written into a buffer whose size is
  // computed first, and that size, less the NUL, is what goes to the socket.
  method CreateP2p(sender: Bytes, target: Bytes, s_content: Bytes) returns (msg: Msg, size: nat)
    ensures msg == Msg(target, sender, PeerFrame(sender, CutLine(s_content)))
    ensures size == |msg.content|
  {
    var body := CutAtNewline(s_content);
    var message_len := |MSG_PEER_PREFIX| + |sender| + |body| + 5;
    msg := Msg(target, sender, PeerFrame(sender, body));
    size := message_len - 1;
  }

  // create_sys_msg_base_on_content
  method CreateSystem(target: Bytes, exclude: Bytes, s_content: Bytes) returns (msg: Msg, size: nat)
    ensures msg == Msg(target, exclude, SystemFrame(CutLine(s_content)))
    ensures size == |msg.content|
  {
    var text := CutAtNewline(s_content);
    var msg_len := |MSG_SYS_PREFIX| + |text| + 3;
    msg := Msg(target, exclude, SystemFrame(text));
    size := msg_len - 1;
  }

  // strchr for the newline, and the NUL put in its place
  method CutAtNewline(s: Bytes) returns (r: Bytes)
    ensures r == CutLine(s)
  {
    var enter := 0;
    while enter < |s| && s[enter] != NL
      invariant enter <= |s| && NL !in s[..enter]
    {
      enter := enter + 1;
    }
    assert forall i :: 0 <= i < enter ==> s[i] == s[..enter][i];
    IndexFromIsLeast(s, 0, NL, enter);
    r := s[..enter];
  }

  /** A frame built from a newline-free name and body is one message, and nothing else is. */
  lemma PeerFrameIsMessage(sender: Bytes, body: Bytes)
    ensures IsMessage(PeerFrame(sender, body)) <==> !HasNewline(sender) && !HasNewline(body)
  {
    var f := PeerFrame(sender, body);
    var front := MSG_PEER_PREFIX + " " + sender + ":" + " " + body;
    assert f == front + [NL] && f[..|f| - 1] == front;
    assert NL in front <==> NL in sender || NL in body;
  }

  lemma SystemFrameIsMessage(text: Bytes)
    ensures IsMessage(SystemFrame(text)) <==> !HasNewline(text)
  {
    var f := SystemFrame(text);
    var front := MSG_SYS_PREFIX + " " + text;
    assert f == front + [NL] && f[..|f| - 1] == front;
    assert NL in front <==> NL in text;
  }

  /** From a frame one can tell the body, given who sent it. */
  lemma PeerFrameInjective(sender: Bytes, a: Bytes, b: Bytes)
    requires PeerFrame(sender, a) == PeerFrame(sender, b)
    ensures a == b
  {
    var n := |MSG_PEER_PREFIX| + |sender| + 3;
    assert PeerFrame(sender, a)[n..][..|a|] == a;
    assert PeerFrame(sender, b)[n..][..|b|] == b;
  }

  // ----- what is on the wire, byte for byte

  /** The frame of a peer's text, in full. */
  lemma PeerFrameBytes(sender: Bytes, body: Bytes)
    ensures PeerFrame(sender, body) == "FROM " + sender + ": " + body + "\n"
  {
    assert MSG_PEER_PREFIX + " " == "FROM " && ":" + " " == ": ";
    var front := "FROM " + sender;
    assert front + ":" + " " == front + ": ";
  }

  lemma SystemFrameBytes(text: Bytes)
    ensures SystemFrame(text) == "FROM SYSTEM: " + text + "\n"
  {
    assert MSG_SYS_PREFIX + " " == "FROM SYSTEM: ";
  }

  /** What a recipient makes of a frame: the sender is named in front of the first colon, the
      text follows a space behind it. */
  function FrameFrom(f: Bytes): Option<(Bytes, Bytes)> {
    var q := IndexFrom(f, 0, ':');
    if IsMessage(f) && "FROM " <= f && q + 2 < |f| && f[q + 1] == ' ' && q >= 5 then
      Some((f[5..q], f[q + 2..|f| - 1]))
    else None
  }

  /** It is who sent it, and what was sent, for every sender whose name has no colon. */
  lemma FrameIsRead(sender: Bytes, body: Bytes)
    requires ':' !in sender && !HasNewline(sender) && !HasNewline(body)
    ensures FrameFrom(PeerFrame(sender, body)) == Some((sender, body))
  {
    var f, q := PeerFrame(sender, body), 5 + |sender|;
    PeerFrameIsMessage(sender, body);
    PeerFrameBytes(sender, body);
    FrameParts(sender, body, f);
    IndexFromIsLeast(f, 0, ':', q);
  }

  lemma FrameParts(sender: Bytes, body: Bytes, f: Bytes)
    requires f == "FROM " + sender + ": " + body + "\n"
    ensures var q := 5 + |sender|;
      && |f| == q + 3 + |body| && "FROM " <= f && f[5..q] == sender && f[q] == ':' && f[q + 1] == ' '
      && f[q + 2..|f| - 1] == body
      && (':' !in sender ==> forall i :: 0 <= i < q ==> f[i] != ':')
  {
    var q := 5 + |sender|;
    assert f[..5] == "FROM ";
    assert f[5..q] == sender;
    if ':' !in sender {
      assert forall i :: 5 <= i < q ==> f[i] == sender[i - 5];
    }
  }

  /** What the server itself says reads like the text of a client called SYSTEM. */
  lemma SystemReads(text: Bytes)
    requires !HasNewline(text)
    ensures FrameFrom(SystemFrame(text)) == Some(("SYSTEM", text))
  {
    SystemFrameBytes(text);
    PeerFrameBytes("SYSTEM", text);
    assert "FROM " + "SYSTEM" + ": " == "FROM SYSTEM: ";
    FrameIsRead("SYSTEM", text);
  }

  lemma HelloFrame()
    ensures PeerFrame("alice", "hi") == "FROM alice: hi\n"
    ensures SystemFrame("bye") == "FROM SYSTEM: bye\n"
  {
    PeerFrameBytes("alice", "hi");
    SystemFrameBytes("bye");
  }

  // ----- commands

  datatype Request =
    | Login(name: Bytes)
    | Broadcast(body: Bytes)
    | Private(target: Bytes, body: Bytes)
    | Ignored

  predicate StartsWith(s: Bytes, prefix: Bytes) {
    prefix <= s
  }

  /** What try_to_handle_msg makes of one message. */
  function Parse(m: Bytes): Request
    requires IsMessage(m)
  {
    if StartsWith(m, CMD_LOGIN) then Login(CutLine(m[|CMD_LOGIN|..]))
    else if StartsWith(m, CMD_TO_ALL) then
      Newline(m, CMD_TO_ALL);
      Broadcast(CutLine(m[|CMD_TO_ALL| + 1..]))
    else if StartsWith(m, CMD_TO_C) then
      var indicator := IndexFrom(m, 0, ':');
      if indicator == |m| then Ignored
      else
        ColonInside(m);
        var name := m[|CMD_TO_C|..indicator];
        // get_new_cache serves no more than this
        if |name| > LARGEST_CACHE then Ignored else Private(name, CutLine(m[indicator + 2..]))
    else Ignored
  }

  /** The commands do not shadow one another. */
  lemma ParseByPrefix(m: Bytes)
    requires IsMessage(m)
    ensures StartsWith(m, CMD_TO_ALL) ==> |m| > |CMD_TO_ALL| && Parse(m) == Broadcast(CutLine(m[|CMD_TO_ALL| + 1..]))
    ensures StartsWith(m, CMD_TO_C) && IndexFrom(m, 0, ':') < |m| ==>
      var q := IndexFrom(m, 0, ':');
      && |CMD_TO_C| <= q && q + 2 <= |m|
      && (q - |CMD_TO_C| <= LARGEST_CACHE ==> Parse(m) == Private(m[|CMD_TO_C|..q], CutLine(m[q + 2..])))
  {
    if StartsWith(m, CMD_TO_ALL) {
      assert m[0] == CMD_TO_ALL[0] == 'T' != CMD_LOGIN[0];
      Newline(m, CMD_TO_ALL);
    } else if StartsWith(m, CMD_TO_C) && IndexFrom(m, 0, ':') < |m| {
      assert m[0] == CMD_TO_C[0] == 'T' != CMD_LOGIN[0];
      ColonInside(m);
    }
    if StartsWith(m, CMD_TO_C) {
      assert m[3] == CMD_TO_C[3] == 'C' != CMD_TO_ALL[3];
    }
  }

  // A message is longer than a prefix without a newline.
  lemma Newline(m: Bytes, prefix: Bytes)
    requires IsMessage(m) && StartsWith(m, prefix) && !HasNewline(prefix)
    ensures |prefix| + 1 <= |m|
  {
    assert m[|m| - 1] == NL;
  }

  lemma ColonInside(m: Bytes)
    requires IsMessage(m) && StartsWith(m, CMD_TO_C) && IndexFrom(m, 0, ':') < |m|
    ensures |CMD_TO_C| <= IndexFrom(m, 0, ':') && IndexFrom(m, 0, ':') + 2 <= |m|
  {
    var q := IndexFrom(m, 0, ':');
    assert forall i :: 0 <= i < |CMD_TO_C| ==> m[i] == CMD_TO_C[i] != ':';
    assert m[|m| - 1] == NL;
  }

  /** The effect of one message from a client called `name`: its name afterwards, and what
      is to be delivered to others. */
  function Handle(name: Bytes, m: Bytes): (Bytes, Option<Msg>)
    requires IsMessage(m)
  {
    match Parse(m)
    case Login(n) => (Truncate(n), Some(LoginNotice(Truncate(n))))
    case Broadcast(body) => (name, Some(Msg(CMD_TO_ALL, name, PeerFrame(name, body))))
    case Private(target, body) => (name, Some(Msg(target, name, PeerFrame(name, body))))
    case Ignored => (name, None)
  }

  // user_login: everybody else hears of it
  function LoginNotice(name: Bytes): Msg {
    Msg(CMD_TO_ALL, name, SystemFrame(name + " " + MSG_LOGIN_SUFFIX))
  }

  // user_logout
  function LogoutNotice(name: Bytes): Msg {
    Msg(CMD_TO_ALL, name, SystemFrame(name + " " + MSG_LOGOUT_SUFFIX))
  }

  /** The two notices, for every name. */
  lemma NoticeBytes(name: Bytes)
    ensures LoginNotice(name) == Msg("TO-ALL:", name, "FROM SYSTEM: " + name + " is online now\n")
    ensures LogoutNotice(name) == Msg("TO-ALL:", name, "FROM SYSTEM: " + name + " has logged out\n")
  {
    NoticeText(name, MSG_LOGIN_SUFFIX);
    NoticeText(name, MSG_LOGOUT_SUFFIX);
    assert " " + MSG_LOGIN_SUFFIX + "\n" == " is online now\n";
    assert " " + MSG_LOGOUT_SUFFIX + "\n" == " has logged out\n";
  }

  lemma NoticeText(name: Bytes, suffix: Bytes)
    ensures SystemFrame(name + " " + suffix) == "FROM SYSTEM: " + name + (" " + suffix + "\n")
  {
    SystemFrameBytes(name + " " + suffix);
  }

  /** Nobody who is told of a login can take it for a logout. */
  lemma NoticesDiffer(a: Bytes, b: Bytes)
    ensures LoginNotice(a).content != LogoutNotice(b).content
  {
    NoticeBytes(a);
    NoticeBytes(b);
    var f, g := LoginNotice(a).content, LogoutNotice(b).content;
    assert f[|f| - 2] == 'w' && g[|g| - 2] == 't';
  }

  // ----- the commands, byte for byte

  /** What each command means, and when a message is that command. */
  lemma LoginIs(m: Bytes)
    requires IsMessage(m)
    ensures Parse(m).Login? <==> "LOGIN: " <= m
    ensures Parse(m).Login? ==> m == "LOGIN: " + Parse(m).name + "\n"
  {
    if "LOGIN: " <= m {
      CutAll(m, 7);
    }
  }

  lemma BroadcastIs(m: Bytes)
    requires IsMessage(m)
    ensures Parse(m).Broadcast? <==> "TO-ALL:" <= m
    ensures "TO-ALL: " <= m ==> m == "TO-ALL: " + Parse(m).body + "\n"
  {
    if "TO-ALL:" <= m {
      ParseByPrefix(m);
      if "TO-ALL: " <= m {
        Newline(m, "TO-ALL: ");
        CutAll(m, 8);
      }
    }
  }

  /** Without its last byte, the rest of a message is cut nowhere. */
  lemma CutAll(m: Bytes, i: nat)
    requires IsMessage(m) && i < |m|
    ensures CutLine(m[i..]) == m[i..|m| - 1] && m == m[..i] + CutLine(m[i..]) + "\n"
  {
    assert forall j :: 0 <= j < |m| - 1 ==> m[j] == m[..|m| - 1][j];
    IndexFromIsLeast(m[i..], 0, NL, |m| - 1 - i);
    assert m[i..][..|m| - 1 - i] == m[i..|m| - 1];
  }

  /** A message to one person, as the documentation has it. */
  lemma PrivateIs(name: Bytes, body: Bytes)
    requires ':' !in name && !HasNewline(name) && !HasNewline(body) && |name| <= 2048
    ensures IsMessage("TO-C-" + name + ": " + body + "\n")
    ensures Parse("TO-C-" + name + ": " + body + "\n") == Private(name, body)
  {
    var m, q := "TO-C-" + name + ": " + body + "\n", 5 + |name|;
    PrivateBytes(name, body, m);
    IndexFromIsLeast(m, 0, ':', q);
    ParseByPrefix(m);
    if q + 2 < |m| {
      CutAll(m, q + 2);
    }
  }

  lemma PrivateBytes(name: Bytes, body: Bytes, m: Bytes)
    requires m == "TO-C-" + name + ": " + body + "\n"
    requires ':' !in name && !HasNewline(name) && !HasNewline(body)
    ensures var q := 5 + |name|;
      && IsMessage(m) && |m| == q + 3 + |body| && "TO-C-" <= m && m[5..q] == name && m[q] == ':'
      && m[q + 2..|m| - 1] == body && forall i :: 0 <= i < q ==> m[i] != ':'
  {
    var q := 5 + |name|;
    var front := "TO-C-" + name + ": " + body;
    assert m[..|m| - 1] == front && NL !in front;
    assert m[..5] == "TO-C-" && m[5..q] == name;
    assert forall i :: 5 <= i < q ==> m[i] == name[i - 5];
  }

  /** So alice talks, and this is what the others are sent. */
  lemma Conversation(was: Bytes)
    ensures IsMessage("LOGIN: alice\n") && IsMessage("TO-ALL: hi\n") && IsMessage("TO-C-bob: hi\n")
    ensures Handle(was, "LOGIN: alice\n")
      == ("alice", Some(Msg("TO-ALL:", "alice", "FROM SYSTEM: alice is online now\n")))
    ensures Handle("alice", "TO-ALL: hi\n") == ("alice", Some(Msg("TO-ALL:", "alice", "FROM alice: hi\n")))
    ensures Handle("alice", "TO-C-bob: hi\n") == ("alice", Some(Msg("bob", "alice", "FROM alice: hi\n")))
  {
    AliceComes(was, "alice", "LOGIN: alice\n");
    AliceSays("alice", "bob", "hi", "TO-ALL: hi\n", "TO-C-bob: hi\n");
    HelloFrame();
  }

  lemma AliceComes(was: Bytes, alice: Bytes, m: Bytes)
    requires alice == "alice" && m == "LOGIN: alice\n"
    ensures IsMessage(m)
    ensures Handle(was, m) == (alice, Some(Msg("TO-ALL:", alice, "FROM SYSTEM: alice is online now\n")))
  {
    assert m == "LOGIN: " + alice + "\n";
    LoginSays(alice);
    assert Truncate(alice) == alice;
    NoticeBytes(alice);
    AliceIsOnline(alice);
  }

  lemma AliceIsOnline(alice: Bytes)
    requires alice == "alice"
    ensures "FROM SYSTEM: " + alice + " is online now\n" == "FROM SYSTEM: alice is online now\n"
  {
    assert "FROM SYSTEM: " + alice == "FROM SYSTEM: alice";
  }

  lemma AliceSays(alice: Bytes, bob: Bytes, hi: Bytes, all: Bytes, one: Bytes)
    requires alice == "alice" && bob == "bob" && hi == "hi" && all == "TO-ALL: hi\n" && one == "TO-C-bob: hi\n"
    ensures IsMessage(all) && Handle(alice, all) == (alice, Some(Msg("TO-ALL:", alice, PeerFrame(alice, hi))))
    ensures IsMessage(one) && Handle(alice, one) == (alice, Some(Msg(bob, alice, PeerFrame(alice, hi))))
  {
    assert all == "TO-ALL: " + hi + "\n";
    BroadcastSays(hi);
    assert one == "TO-C-" + bob + ": " + hi + "\n";
    PrivateIs(bob, hi);
  }

  lemma LoginSays(name: Bytes)
    requires !HasNewline(name)
    ensures IsMessage("LOGIN: " + name + "\n") && Parse("LOGIN: " + name + "\n") == Login(name)
  {
    var m := "LOGIN: " + name + "\n";
    assert m[..|m| - 1] == "LOGIN: " + name;
    CutAll(m, 7);
    assert m[7..|m| - 1] == name;
  }

  lemma BroadcastSays(body: Bytes)
    requires !HasNewline(body)
    ensures IsMessage("TO-ALL: " + body + "\n") && Parse("TO-ALL: " + body + "\n") == Broadcast(body)
  {
    var m := "TO-ALL: " + body + "\n";
    assert m[..|m| - 1] == "TO-ALL: " + body;
    assert "TO-ALL:" <= m;
    ParseByPrefix(m);
    CutAll(m, 8);
    assert m[8..|m| - 1] == body;
  }

  predicate IsFrame(msg: Msg) { IsMessage(msg.content) }

  /** Whatever a client sends, its name stays a name and what is delivered is one frame. */
  lemma HandleIsSound(name: Bytes, m: Bytes)
    requires IsName(name) && IsMessage(m)
    ensures IsName(Handle(name, m).0)
    ensures Handle(name, m).1.Some? ==> IsFrame(Handle(name, m).1.value)
    ensures Handle(name, m).1.Some? ==> Handle(name, m).1.value.exclude == Handle(name, m).0
  {
    match Parse(m)
    case Login(n) => NoticeIsFrame(Truncate(n));
    case Broadcast(body) => PeerFrameIsMessage(name, body);
    case Private(target, body) => PeerFrameIsMessage(name, body);
    case Ignored =>
  }

  lemma NoticeIsFrame(name: Bytes)
    requires !HasNewline(name)
    ensures IsFrame(LoginNotice(name)) && IsFrame(LogoutNotice(name))
  {
    SystemFrameIsMessage(name + " " + MSG_LOGIN_SUFFIX);
    SystemFrameIsMessage(name + " " + MSG_LOGOUT_SUFFIX);
  }

  // ----- routing

  /** Who gets a message: nobody who has failed, has not logged in or bears the excluded
      name; of the others, all of them or those who bear the target's name. */
  predicate Eligible(msg: Msg, name: Bytes, failed: bool) {
    && !failed
    && !FilterOut(msg, name)
    && (IsMsgToAll(msg) || IsTarget(msg, name))
  }

  // is_msg_to_all, filter_out, is_target
  predicate IsMsgToAll(msg: Msg) { msg.target == CMD_TO_ALL }
  predicate FilterOut(msg: Msg, name: Bytes) { msg.exclude == name || name == UNKNOWN_CLIENT }
  predicate IsTarget(msg: Msg, name: Bytes) { msg.target == name }

  /** A private message reaches exactly the clients of the name it is for, if they are not
      its sender: no name that can be typed is taken for the broadcast marker. */
  lemma PrivateIsPrivate(name: Bytes, m: Bytes, to: Bytes, failed: bool)
    requires IsMessage(m) && Parse(m).Private?
    ensures Eligible(Handle(name, m).1.value, to, failed)
      <==> !failed && to == Parse(m).target && to != name && to != "unknown"
  {
    ColonInside(m);
    var q := IndexFrom(m, 0, ':');
    var target := m[|CMD_TO_C|..q];
    assert forall i :: 0 <= i < |target| ==> target[i] == m[|CMD_TO_C| + i] != ':';
    assert CMD_TO_ALL[6] == ':';
    assert target != CMD_TO_ALL;
  }

  /** A broadcast, and the notice of a login, reach exactly the clients that have logged in
      under another name and have not failed. */
  lemma BroadcastIsToOthers(name: Bytes, m: Bytes, to: Bytes, failed: bool)
    requires IsMessage(m) && (Parse(m).Broadcast? || Parse(m).Login?)
    ensures Eligible(Handle(name, m).1.value, to, failed)
      <==> !failed && to != Handle(name, m).0 && to != "unknown"
  {
  }
}
