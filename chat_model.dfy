/** The routing state of the chat server as a value, and every step the server takes on it
    as a function: a client joining, one input line being dispatched, a whole session's
    read loop, the removal after a session ends, and the operator's disconnect.
    The class in chat_server.dfy implements these steps in place and is proved against them. */
module ChatModel {
  import opened JavaStrings

  datatype Option<T> = None | Some(value: T)

  /** The record kept per user name in `userInfoMap`. */
  datatype UserInfo = UserInfo(username: string, host: string, port: int)

  /** A client's PrintWriter: every line written through it, in order, whether `checkError()`
      reports a failure, and whether it has been closed. */
  datatype Writer = Writer(lines: seq<string>, error: bool, closed: bool)

  /** The writer `handleClient` opens on a new connection. */
  const FreshWriter := Writer([], false, false)

  /** `clients`, `userInfoMap`, and the chat area's lines. */
  datatype State = State(clients: map<string, Writer>, userInfo: map<string, UserInfo>, feed: seq<string>)

  /** What handling one line leaves the read loop to do. `Fault` is the unchecked exception a
      malformed `/private` or a too-short `/group` line throws out of the loop. */
  datatype LineOutcome = Continue | Exit | Fault

  datatype Step = Step(state: State, outcome: LineOutcome)

  // ---------------------------------------------------------------------------------------
  // Texts the server sends

  function JoinNotice(username: string): string {
    "Пользователь " + username + " присоединился к чату"
  }

  function LeaveNotice(username: string): string {
    "Пользователь " + username + " покинул чат"
  }

  function PlainLine(sender: string, message: string): string {
    sender + ": " + message
  }

  function PrivateLine(sender: string, message: string): string {
    sender + " (private): " + message
  }

  function GroupLine(sender: string, message: string): string {
    sender + " (group): " + message
  }

  const ExitLine := "/exit"

  // ---------------------------------------------------------------------------------------
  // User names

  /** `generateUniqueUsername`: "User_", the host with every '.' turned into '_', "_", the
      port in decimal, "_", and the acceptance time already formatted by the caller. */
  function GenerateUniqueUsername(host: string, port: int, timestamp: string): string {
    "User_" + ReplaceChar(host, '.', '_') + "_" + IntToString(port) + "_" + timestamp
  }

  /** Where each piece sits in a generated name: the host segment, right after "User_", is
      the host character for character except that each '.' reads '_', so it holds no '.';
      then come '_', the port's digits, '_' and the timestamp. */
  lemma UsernameLayout(host: string, port: int, timestamp: string)
    ensures var u := GenerateUniqueUsername(host, port, timestamp);
      && |u| == |host| + |IntToString(port)| + |timestamp| + 7
      && u[..5] == "User_"
      && (forall i :: 0 <= i < |host| ==> u[5 + i] == (if host[i] == '.' then '_' else host[i]))
      && '.' !in u[5..5 + |host|]
      && u[5 + |host|] == '_'
      && u[6 + |host|..6 + |host| + |IntToString(port)|] == IntToString(port)
      && u[|u| - |timestamp| - 1] == '_'
      && u[|u| - |timestamp|..] == timestamp
  {
    var hostPart := ReplaceChar(host, '.', '_');
    var portPart := IntToString(port);
    var u := GenerateUniqueUsername(host, port, timestamp);
    var front := "User_" + hostPart + "_" + portPart + "_";
    assert u == front + timestamp;
    assert |front| == |u| - |timestamp|;
    assert u[|front|..] == timestamp;
    assert u[5..5 + |host|] == hostPart;
    assert u[6 + |host|..6 + |host| + |portPart|] == portPart;
  }

  /** What follows the last `c` in `s` (all of `s` when there is no `c`). */
  function AfterLast(s: string, c: char): string
    decreases |s|
  {
    if s == [] then []
    else if s[|s| - 1] == c then []
    else AfterLast(s[..|s| - 1], c) + [s[|s| - 1]]
  }

  /** A `c`-free part after a `c` is recovered from the whole string. */
  lemma {:induction false} AfterLastSeparator(a: string, c: char, b: string)
    requires c !in b
    ensures AfterLast(a + [c] + b, c) == b
    decreases |b|
  {
    var s := a + [c] + b;
    if b == [] {
      assert s[|s| - 1] == c;
    } else {
      var front := b[..|b| - 1];
      assert s[..|s| - 1] == a + [c] + front;
      assert s[|s| - 1] == b[|b| - 1];
      AfterLastSeparator(a, c, front);
      assert b == front + [b[|b| - 1]];
    }
  }

  /** The last `c` splits a string uniquely when what follows it has no `c`. */
  lemma LastSeparatorUnique(a1: string, b1: string, a2: string, b2: string, c: char)
    requires c !in b1 && c !in b2
    requires a1 + [c] + b1 == a2 + [c] + b2
    ensures a1 == a2 && b1 == b2
  {
    AfterLastSeparator(a1, c, b1);
    AfterLastSeparator(a2, c, b2);
    ConcatCancel(a1 + [c], b1, a2 + [c], b2);
    ConcatCancel(a1, [c], a2, [c]);
  }

  /** Equal concatenations with equally long second halves have equal halves. */
  lemma ConcatCancel(x1: string, t1: string, x2: string, t2: string)
    requires x1 + t1 == x2 + t2 && |t1| == |t2|
    ensures x1 == x2 && t1 == t2
  {
    var m := x1 + t1;
    assert x1 == m[..|x1|] && x2 == m[..|x2|];
    assert t1 == m[|x1|..] && t2 == m[|x2|..];
  }

  /** Host addresses have no '_' (dotted IPv4, or IPv6 with ':'), and the formatted time has
      a fixed width; under those conditions distinct (host, port, time) triples get distinct
      user names, which is the uniqueness the name generation relies on. */
  lemma {:induction false} UsernameInjective(h1: string, p1: int, t1: string, h2: string, p2: int, t2: string)
    requires '_' !in h1 && '_' !in h2 && |t1| == |t2|
    requires GenerateUniqueUsername(h1, p1, t1) == GenerateUniqueUsername(h2, p2, t2)
    ensures h1 == h2 && p1 == p2 && t1 == t2
  {
    var r1, r2 := ReplaceChar(h1, '.', '_'), ReplaceChar(h2, '.', '_');
    var q1, q2 := IntToString(p1), IntToString(p2);
    var y1, y2 := "User_" + r1 + "_" + q1, "User_" + r2 + "_" + q2;
    ConcatCancel(y1 + "_", t1, y2 + "_", t2);
    ConcatCancel(y1, "_", y2, "_");
    LastSeparatorUnique("User_" + r1, q1, "User_" + r2, q2, '_');
    ConcatCancel("User_", r1, "User_", r2);
    ReplaceCharInjective(h1, h2, '.', '_');
    IntToStringInjective(p1, p2);
  }

  /** The identity of the example connection from localhost. */
  lemma UsernameExample(timestamp: string)
    ensures GenerateUniqueUsername("127.0.0.1", 54321, timestamp) == "User_" + "127_0_0_1" + "_" + "54321" + "_" + timestamp
  {
    LoopbackHostPart("127.0.0.1");
    ExamplePortDigits();
  }

  lemma LoopbackHostPart(host: string)
    requires host == "127.0.0.1"
    ensures ReplaceChar(host, '.', '_') == "127_0_0_1"
  {
    var hostPart := ReplaceChar(host, '.', '_');
    forall i | 0 <= i < 9
      ensures hostPart[i] == "127_0_0_1"[i]
    {
    }
  }

  lemma ExamplePortDigits()
    ensures IntToString(54321) == "54321"
  {
    assert NatToString(5) == "5";
    assert NatToString(54) == "54";
    assert NatToString(543) == "543";
    assert NatToString(5432) == "5432";
  }

  // ---------------------------------------------------------------------------------------
  // The registry invariant

  /** Every connected user name has its own record in userInfoMap (which may also hold
      records loaded at start-up for users no longer connected). */
  predicate Inv(s: State) {
    && s.clients.Keys <= s.userInfo.Keys
    && forall u :: u in s.clients ==> s.userInfo[u].username == u
  }

  // ---------------------------------------------------------------------------------------
  // Delivery

  /** `println`: an open writer records the line, whatever its error state; a closed one
      fails to write ("Stream closed"), which PrintWriter swallows and remembers as an error. */
  function Println(w: Writer, line: string): Writer {
    if w.closed then w.(error := true) else w.(lines := w.lines + [line])
  }

  /** A writer is never reopened by printing; an open one gains exactly the line and keeps its
      error state, a closed one gains nothing and reports an error from then on. This is the
      field-by-field reading of Println, for readers of the lemmas below. */
  lemma PrintlnEffect(w: Writer, line: string)
    ensures Println(w, line).closed == w.closed
    ensures !w.closed ==> Println(w, line).lines == w.lines + [line] && Println(w, line).error == w.error
    ensures w.closed ==> Println(w, line).lines == w.lines && Println(w, line).error
  {
  }

  /** `broadcastMessage`: the line goes to the chat area and to every registered writer. */
  function Broadcast(s: State, message: string): State {
    s.(clients := map u | u in s.clients :: Println(s.clients[u], message), feed := s.feed + [message])
  }

  /** Every registered client with an open writer, and nobody else, gets exactly one copy and
      keeps its error state; a closed writer gets nothing and reports an error from then on;
      the registries stay as they were. */
  lemma BroadcastReachesEveryone(s: State, message: string)
    ensures Broadcast(s, message).clients.Keys == s.clients.Keys
    ensures forall u :: u in s.clients && !s.clients[u].closed ==>
      Broadcast(s, message).clients[u] == s.clients[u].(lines := s.clients[u].lines + [message])
    ensures forall u :: u in s.clients && s.clients[u].closed ==>
      Broadcast(s, message).clients[u] == s.clients[u].(error := true)
    ensures Broadcast(s, message).userInfo == s.userInfo
    ensures Broadcast(s, message).feed == s.feed + [message]
  {
  }

  lemma BroadcastPreservesInv(s: State, message: string)
    requires Inv(s)
    ensures Inv(Broadcast(s, message))
  {
  }

  // ---------------------------------------------------------------------------------------
  // Joining

  /** The join part of `handleClient`: a fresh writer and a record are put under the
      generated name (replacing any entry with that name), then the join notice is broadcast. */
  function JoinStep(s: State, host: string, port: int, timestamp: string): State {
    var u := GenerateUniqueUsername(host, port, timestamp);
    var registered := s.(clients := s.clients[u := FreshWriter],
                         userInfo := s.userInfo[u := UserInfo(u, host, port)]);
    Broadcast(registered, JoinNotice(u))
  }

  /** After a join the newcomer is in both maps and its writer holds only the join notice;
      every other client got the notice once, and the chat area shows it. */
  lemma JoinRegisters(s: State, host: string, port: int, timestamp: string)
    ensures var u := GenerateUniqueUsername(host, port, timestamp);
      var r := JoinStep(s, host, port, timestamp);
      && r.clients.Keys == s.clients.Keys + {u}
      && r.clients[u] == Writer([JoinNotice(u)], false, false)
      && (forall v :: v in s.clients && v != u ==> r.clients[v] == Println(s.clients[v], JoinNotice(u)))
      && r.userInfo == s.userInfo[u := UserInfo(u, host, port)]
      && r.feed == s.feed + [JoinNotice(u)]
  {
  }

  lemma JoinPreservesInv(s: State, host: string, port: int, timestamp: string)
    requires Inv(s)
    ensures Inv(JoinStep(s, host, port, timestamp))
  {
  }

  // ---------------------------------------------------------------------------------------
  // Classifying and parsing an input line

  datatype Command = ExitCommand | PrivateCommand | GroupCommand | PlainText

  /** The if-chain of the read loop: an exact "/exit", else a "/private" prefix, else a
      "/group" prefix, else plain text. The two prefixes cannot both match, so the private
      and group paths are chosen by their prefix alone. */
  function Classify(line: string): (c: Command)
    ensures c == ExitCommand <==> line == ExitLine
    ensures c == PrivateCommand <==> "/private" <= line
    ensures c == GroupCommand <==> "/group" <= line
    ensures c == PlainText <==> line != ExitLine && !("/private" <= line) && !("/group" <= line)
  {
    assert "/private" <= line ==> line[1] == 'p';
    assert "/group" <= line ==> line[1] == 'g';
    if line == ExitLine then ExitCommand
    else if "/private" <= line then PrivateCommand
    else if "/group" <= line then GroupCommand
    else PlainText
  }

  /** First match decides: "/exit now" is plain text, "/privatex" takes the private path,
      and "/group" alone takes the group path. */
  lemma ClassifyExamples()
    ensures Classify("/exit") == ExitCommand
    ensures Classify("/exit now") == PlainText
    ensures Classify("/privatex") == PrivateCommand
    ensures Classify("/group") == GroupCommand
    ensures Classify("hello") == PlainText
  {
    assert "/exit now"[1] == 'e' && "hello"[0] == 'h';
    assert "/privatex"[..8] == "/private";
  }

  /** The three fields of `message.split(" ", 3)` that `sendPrivateMessage` uses. */
  datatype PrivateRequest = PrivateRequest(command: string, recipient: string, text: string)

  /** `message.split(" ", 3)` followed by `parts[1]` and `parts[2]`; None is the
      ArrayIndexOutOfBoundsException that a line with fewer than three parts throws. */
  function ParsePrivate(line: string): Option<PrivateRequest> {
    var parts := SplitLimit(line, ' ', 3);
    if |parts| < 3 then None else Some(PrivateRequest(parts[0], parts[1], parts[2]))
  }

  /** The parse fails exactly when the line holds fewer than two spaces; otherwise the line
      is the command, one space, the recipient, one space and the text, where the command
      and the recipient are the space-free words up to the first and second space. */
  lemma ParsePrivateSound(line: string)
    ensures ParsePrivate(line).None? <==> multiset(line)[' '] < 2
    ensures ParsePrivate(line).Some? ==> var p := ParsePrivate(line).value;
      && line == p.command + " " + p.recipient + " " + p.text
      && ' ' !in p.command && ' ' !in p.recipient
  {
    var parts := SplitLimit(line, ' ', 3);
    SplitLimitCount(line, ' ', 3);
    if |parts| == 3 {
      SplitLimitJoin(line, ' ', 3);
      SplitLimitParts(line, ' ', 3);
      JoinWithCons(parts[0], parts[1..], ' ');
      JoinWithCons(parts[1], parts[2..], ' ');
      assert parts[1..][1..] == parts[2..] && parts[2..] == [parts[2]];
    }
  }

  /** The line the client sends for a private message, "/private " + recipient + " " +
      message, parses back into that recipient and that message whenever the recipient has
      no space in it. */
  lemma {:induction false} ClientPrivateRoundTrip(recipient: string, message: string)
    requires ' ' !in recipient
    ensures Classify("/private " + recipient + " " + message) == PrivateCommand
    ensures ParsePrivate("/private " + recipient + " " + message) ==
            Some(PrivateRequest("/private", recipient, message))
  {
    var line := "/private " + recipient + " " + message;
    var parts := ["/private", recipient, message];
    JoinWithCons("/private", [recipient, message], ' ');
    JoinWithCons(recipient, [message], ' ');
    assert parts == ["/private"] + [recipient, message];
    assert JoinWith(parts, ' ') == line;
    SplitLimitUnique(line, ' ', 3, parts);
    assert line[..8] == "/private";
  }

  /** `message.substring(7)`; None is the StringIndexOutOfBoundsException for a line shorter
      than seven characters. */
  function GroupText(line: string): (r: Option<string>)
    ensures r.None? <==> |line| < 7
    ensures r.Some? ==> |r.value| == |line| - 7 && line[..7] + r.value == line
  {
    if |line| < 7 then None else Some(line[7..])
  }

  /** "/group " + text gives back exactly that text. */
  lemma GroupRoundTrip(text: string)
    ensures Classify("/group " + text) == GroupCommand
    ensures GroupText("/group " + text) == Some(text)
  {
    assert ("/group " + text)[..6] == "/group";
    assert ("/group " + text)[7..] == text;
  }

  // ---------------------------------------------------------------------------------------
  // Dispatching one line

  /** `sendPrivateMessage` after the parse: one line to the recipient's writer when the
      recipient is registered; nothing otherwise. */
  function PrivateDeliver(s: State, sender: string, recipient: string, text: string): State {
    if recipient in s.clients
    then s.(clients := s.clients[recipient := Println(s.clients[recipient], PrivateLine(sender, text))])
    else s
  }

  /** One iteration of the read loop of `handleClient` for the line `line` read from `sender`. */
  function DispatchStep(s: State, sender: string, line: string): Step {
    match Classify(line)
    case ExitCommand => Step(s, Exit)
    case PrivateCommand =>
      (match ParsePrivate(line)
       case None => Step(s, Fault)
       case Some(p) => Step(PrivateDeliver(s, sender, p.recipient, p.text), Continue))
    case GroupCommand =>
      (match GroupText(line)
       case None => Step(s, Fault)
       case Some(t) => Step(Broadcast(s, GroupLine(sender, t)), Continue))
    case PlainText => Step(Broadcast(s, PlainLine(sender, line)), Continue)
  }

  /** An exact "/exit" ends the loop and delivers nothing. */
  lemma DispatchExit(s: State, sender: string)
    ensures DispatchStep(s, sender, ExitLine) == Step(s, Exit)
  {
  }

  /** A plain line reaches every registered client once, the sender included, prefixed with
      the sender's name; the registries are unchanged. */
  lemma DispatchPlain(s: State, sender: string, line: string)
    requires Classify(line) == PlainText
    ensures var r := DispatchStep(s, sender, line);
      && r.outcome == Continue
      && r.state.clients.Keys == s.clients.Keys
      && (forall v :: v in s.clients ==> r.state.clients[v] == Println(s.clients[v], sender + ": " + line))
      && r.state.userInfo == s.userInfo
      && r.state.feed == s.feed + [sender + ": " + line]
  {
  }

  /** A well-formed private line grows the recipient's writer by one line and no other
      writer, not even the sender's; an unknown recipient changes nothing. */
  lemma DispatchPrivate(s: State, sender: string, line: string)
    requires "/private" <= line && ParsePrivate(line).Some?
    ensures var p := ParsePrivate(line).value;
      var r := DispatchStep(s, sender, line);
      && r.outcome == Continue
      && r.state.clients.Keys == s.clients.Keys
      && r.state.userInfo == s.userInfo
      && r.state.feed == s.feed
      && (forall v :: v in s.clients && v != p.recipient ==> r.state.clients[v] == s.clients[v])
      && (p.recipient in s.clients ==>
            r.state.clients[p.recipient] == Println(s.clients[p.recipient], sender + " (private): " + p.text))
      && (p.recipient !in s.clients ==> r.state == s)
  {
  }

  /** A "/private" line with fewer than two spaces fails before anything is delivered. */
  lemma DispatchPrivateMalformed(s: State, sender: string, line: string)
    requires "/private" <= line && multiset(line)[' '] < 2
    ensures DispatchStep(s, sender, line) == Step(s, Fault)
  {
    ParsePrivateSound(line);
  }

  /** "/group " + text goes to every registered client, marked as a group message. */
  lemma DispatchGroup(s: State, sender: string, text: string)
    ensures DispatchStep(s, sender, "/group " + text) ==
            Step(Broadcast(s, sender + " (group): " + text), Continue)
  {
    GroupRoundTrip(text);
  }

  /** "/group" alone is too short for `substring(7)` and fails before any delivery. */
  lemma DispatchGroupTooShort(s: State, sender: string)
    ensures DispatchStep(s, sender, "/group") == Step(s, Fault)
  {
  }

  /** Dispatching never changes who is registered. */
  lemma DispatchKeepsMembership(s: State, sender: string, line: string)
    ensures DispatchStep(s, sender, line).state.clients.Keys == s.clients.Keys
    ensures DispatchStep(s, sender, line).state.userInfo == s.userInfo
  {
    match Classify(line) {
      case ExitCommand =>
      case PrivateCommand =>
        match ParsePrivate(line) {
          case None =>
          case Some(p) =>
        }
      case GroupCommand =>
      case PlainText =>
    }
  }

  lemma DispatchPreservesInv(s: State, sender: string, line: string)
    requires Inv(s)
    ensures Inv(DispatchStep(s, sender, line).state)
  {
  }

  // ---------------------------------------------------------------------------------------
  // The read loop

  /** The lines `lines` dispatched in order until one of them ends the loop; the outcome is
      `Continue` when the input ran out (end of stream). */
  function RunLines(s: State, sender: string, lines: seq<string>): Step
    decreases |lines|
  {
    if lines == [] then Step(s, Continue)
    else
      var first := DispatchStep(s, sender, lines[0]);
      if first.outcome != Continue then first else RunLines(first.state, sender, lines[1..])
  }

  /** Running one more line after a prefix that did not end the loop is one more dispatch. */
  lemma {:induction false} RunLinesSnoc(s: State, sender: string, lines: seq<string>, line: string)
    requires RunLines(s, sender, lines).outcome == Continue
    ensures RunLines(s, sender, lines + [line]) ==
            DispatchStep(RunLines(s, sender, lines).state, sender, line)
    decreases |lines|
  {
    if lines != [] {
      var first := DispatchStep(s, sender, lines[0]);
      assert (lines + [line])[0] == lines[0];
      assert (lines + [line])[1..] == lines[1..] + [line];
      RunLinesSnoc(first.state, sender, lines[1..], line);
    }
  }

  /** Once a line ends the loop, the lines after it are never read. */
  lemma {:induction false} RunLinesStops(s: State, sender: string, lines: seq<string>, later: seq<string>)
    requires RunLines(s, sender, lines).outcome != Continue
    ensures RunLines(s, sender, lines + later) == RunLines(s, sender, lines)
    decreases |lines|
  {
    var first := DispatchStep(s, sender, lines[0]);
    assert (lines + later)[0] == lines[0];
    if first.outcome == Continue {
      assert (lines + later)[1..] == lines[1..] + later;
      RunLinesStops(first.state, sender, lines[1..], later);
    }
  }

  /** The read loop never changes who is registered, and keeps the invariant. */
  lemma {:induction false} RunLinesKeepsMembership(s: State, sender: string, lines: seq<string>)
    ensures RunLines(s, sender, lines).state.clients.Keys == s.clients.Keys
    ensures RunLines(s, sender, lines).state.userInfo == s.userInfo
    ensures Inv(s) ==> Inv(RunLines(s, sender, lines).state)
    decreases |lines|
  {
    if lines != [] {
      var first := DispatchStep(s, sender, lines[0]);
      DispatchKeepsMembership(s, sender, lines[0]);
      if Inv(s) {
        DispatchPreservesInv(s, sender, lines[0]);
      }
      RunLinesKeepsMembership(first.state, sender, lines[1..]);
    }
  }

  // ---------------------------------------------------------------------------------------
  // Session end

  /** Leaving the try-with-resources block of `handleClient` closes the session's writer, the
      one registered under its name. */
  function CloseStep(s: State, username: string): State {
    if username in s.clients
    then s.(clients := s.clients[username := s.clients[username].(closed := true)])
    else s
  }

  /** Closing marks that one writer closed and touches nothing else; in particular it does not
      make the writer report an error. This is the field-by-field reading of CloseStep. */
  lemma CloseMarksOne(s: State, username: string)
    ensures CloseStep(s, username).clients.Keys == s.clients.Keys
    ensures CloseStep(s, username).userInfo == s.userInfo && CloseStep(s, username).feed == s.feed
    ensures username in s.clients ==>
      CloseStep(s, username).clients[username] == s.clients[username].(closed := true)
    ensures forall v :: v in s.clients && v != username ==> CloseStep(s, username).clients[v] == s.clients[v]
  {
  }

  lemma ClosePreservesInv(s: State, username: string)
    requires Inv(s)
    ensures Inv(CloseStep(s, username))
  {
  }

  // ---------------------------------------------------------------------------------------
  // Removal

  /** Which entry `removeClient` may take, in whatever order the HashMap yields its entries:
      some client whose writer reports an error, or none when no writer does. (Its second
      test, a PrintWriter compared with a Socket, is never true.) */
  predicate RemovalChoice(s: State, choice: Option<string>) {
    match choice
    case None => forall u :: u in s.clients ==> !s.clients[u].error
    case Some(u) => u in s.clients && s.clients[u].error
  }

  /** `removeClient`: the chosen entry leaves both maps, then the leave notice is broadcast
      to the clients still registered. */
  function RemoveStep(s: State, choice: Option<string>): State
    requires RemovalChoice(s, choice)
  {
    match choice
    case None => s
    case Some(u) => Broadcast(s.(clients := s.clients - {u}, userInfo := s.userInfo - {u}), LeaveNotice(u))
  }

  /** Some entry can always be chosen, so removal never blocks. */
  lemma RemovalChoiceExists(s: State)
    ensures exists choice :: RemovalChoice(s, choice)
  {
    if exists u :: u in s.clients && s.clients[u].error {
      var u :| u in s.clients && s.clients[u].error;
      assert RemovalChoice(s, Some(u));
    } else {
      assert RemovalChoice(s, None);
    }
  }

  /** Removal takes out at most one entry, one whose writer is in error, from both maps; the
      clients left behind each get one leave notice; with no erroring writer nothing changes. */
  lemma RemoveAtMostOne(s: State, choice: Option<string>)
    requires RemovalChoice(s, choice)
    ensures choice.None? ==> RemoveStep(s, choice) == s
    ensures choice.Some? ==> var u := choice.value; var r := RemoveStep(s, choice);
      && s.clients[u].error
      && r.clients.Keys == s.clients.Keys - {u}
      && |r.clients| == |s.clients| - 1
      && r.userInfo == s.userInfo - {u}
      && (forall v :: v in r.clients ==> r.clients[v] == Println(s.clients[v], LeaveNotice(u)))
      && r.feed == s.feed + [LeaveNotice(u)]
  {
    if choice.Some? {
      var u := choice.value;
      var r := RemoveStep(s, choice);
      assert r.clients.Keys == s.clients.Keys - {u};
      assert |s.clients.Keys - {u}| == |s.clients.Keys| - 1;
    }
  }

  lemma RemovePreservesInv(s: State, choice: Option<string>)
    requires Inv(s) && RemovalChoice(s, choice)
    ensures Inv(RemoveStep(s, choice))
  {
  }

  /** The source's quirk: a session that ends cleanly while no writer reports an error stays
      registered, with its closed writer, since removal looks for an erroring writer rather
      than for the session. */
  lemma HealthySessionStaysAfterExit(s: State, sender: string, choice: Option<string>)
    requires sender in s.clients
    requires forall u :: u in s.clients ==> !s.clients[u].error
    requires RemovalChoice(CloseStep(DispatchStep(s, sender, ExitLine).state, sender), choice)
    ensures choice == None
    ensures var r := RemoveStep(CloseStep(DispatchStep(s, sender, ExitLine).state, sender), choice);
      sender in r.clients && r.clients[sender].closed
  {
  }

  /** A closed writer left registered fails at the next broadcast, so from then on removal
      may pick it. */
  lemma LeftoverWriterFailsOnBroadcast(s: State, u: string, message: string)
    requires u in s.clients && s.clients[u].closed
    ensures RemovalChoice(Broadcast(s, message), Some(u))
  {
  }

  // ---------------------------------------------------------------------------------------
  // Operator actions and writer failures

  /** The lookup part of `disconnectUser`: the dialog's answer (None when cancelled) names a
      registered client, whose writer then gets "/exit"; the flag says whether it was found. */
  function DisconnectStep(s: State, answer: Option<string>): (bool, State) {
    if answer.Some? && answer.value in s.clients
    then (true, s.(clients := s.clients[answer.value := Println(s.clients[answer.value], ExitLine)]))
    else (false, s)
  }

  /** Only the named client's writer grows, by "/exit"; an unknown or missing name changes
      nothing. This is the field-by-field reading of DisconnectStep. */
  lemma DisconnectTargetsOne(s: State, answer: Option<string>)
    ensures var (found, r) := DisconnectStep(s, answer);
      && (found <==> answer.Some? && answer.value in s.clients)
      && r.clients.Keys == s.clients.Keys
      && r.userInfo == s.userInfo && r.feed == s.feed
      && (forall v :: v in s.clients && (!found || v != answer.value) ==> r.clients[v] == s.clients[v])
      && (found ==> r.clients[answer.value] == Println(s.clients[answer.value], ExitLine))
  {
  }

  lemma DisconnectPreservesInv(s: State, answer: Option<string>)
    requires Inv(s)
    ensures Inv(DisconnectStep(s, answer).1)
  {
  }

  /** The environment makes a client's writer fail (peer gone, stream broken): from then on
      its `checkError()` reports true. */
  function WriterFailsStep(s: State, username: string): State {
    if username in s.clients
    then s.(clients := s.clients[username := s.clients[username].(error := true)])
    else s
  }

  lemma WriterFailsPreservesInv(s: State, username: string)
    requires Inv(s)
    ensures Inv(WriterFailsStep(s, username))
  {
  }
}
