/** The server object: its two registries and its chat area are fields that the methods
    update in place, and each method is proved to take exactly the step that ChatModel
    defines for it. */
module ChatServer {
  import opened JavaStrings
  import opened ChatModel

  /** The port the server listens on. */
  const ServerPort := 12345

  /** The line `startServer` puts in the chat area once the socket is bound. */
  function StartupNotice(): string {
    "Сервер запущен на порту " + IntToString(ServerPort)
  }

  class Server {
    /** `clients`: user name to that user's writer. */
    var clients: map<string, Writer>
    /** `userInfoMap`: user name to the record kept about it. */
    var userInfoMap: map<string, UserInfo>
    /** The lines of the chat area, oldest first. */
    var feed: seq<string>

    function Abstract(): State
      reads this
    {
      State(clients, userInfoMap, feed)
    }

    /** The registry invariant, kept by every method. No step needs it to be defined; it is
        what the server promises about its two maps between calls. */
    predicate Valid()
      reads this
    {
      Inv(Abstract())
    }

    /** The constructor's start-up, without the window: the chat area shows the saved history,
        the user records come from the saved file (an empty map when there is none), nobody
        is connected, and `startServer` announces the port. */
    constructor(history: seq<string>, savedInfo: Option<map<string, UserInfo>>)
      ensures Valid()
      ensures clients == map[]
      ensures userInfoMap == (if savedInfo.Some? then savedInfo.value else map[])
      ensures feed == history + [StartupNotice()]
    {
      clients := map[];
      userInfoMap := if savedInfo.Some? then savedInfo.value else map[];
      feed := history + [StartupNotice()];
    }

    /** `broadcastMessage`: the line goes to the chat area, then to each writer in turn. */
    method BroadcastMessage(message: string)
      requires Valid()
      modifies this
      ensures Valid()
      ensures Abstract() == Broadcast(old(Abstract()), message)
    {
      ghost var before := clients;
      feed := feed + [message];
      var pending := clients.Keys;
      while pending != {}
        invariant pending <= before.Keys
        invariant clients.Keys == before.Keys
        invariant forall u :: u in pending ==> clients[u] == before[u]
        invariant forall u :: u in before && u !in pending ==> clients[u] == Println(before[u], message)
        invariant userInfoMap == old(userInfoMap) && feed == old(feed) + [message]
        decreases pending
      {
        var u :| u in pending;
        clients := clients[u := Println(clients[u], message)];
        pending := pending - {u};
      }
      assert clients == (map u | u in before :: Println(before[u], message));
      BroadcastPreservesInv(old(Abstract()), message);
    }

    /** The join part of `handleClient`: the generated name gets the new writer and a record,
        and everybody, the newcomer included, is told. */
    method Join(host: string, port: int, timestamp: string) returns (username: string)
      requires Valid()
      modifies this
      ensures Valid()
      ensures username == GenerateUniqueUsername(host, port, timestamp)
      ensures Abstract() == JoinStep(old(Abstract()), host, port, timestamp)
    {
      username := GenerateUniqueUsername(host, port, timestamp);
      clients := clients[username := FreshWriter];
      userInfoMap := userInfoMap[username := UserInfo(username, host, port)];
      BroadcastMessage(JoinNotice(username));
    }

    /** `sendPrivateMessage`; `ok` is false when `parts[1]` or `parts[2]` is out of bounds,
        in which case the exception leaves before anything is sent. */
    method SendPrivateMessage(sender: string, message: string) returns (ok: bool)
      requires Valid()
      modifies this
      ensures Valid()
      ensures ok <==> ParsePrivate(message).Some?
      ensures !ok ==> Abstract() == old(Abstract())
      ensures ok ==> Abstract() == PrivateDeliver(old(Abstract()), sender,
                                                  ParsePrivate(message).value.recipient,
                                                  ParsePrivate(message).value.text)
    {
      var parts := SplitLimit(message, ' ', 3);
      if |parts| < 2 {
        return false;
      }
      var recipient := parts[1];
      if |parts| < 3 {
        return false;
      }
      var privateMessage := PrivateLine(sender, parts[2]);
      if recipient in clients {
        clients := clients[recipient := Println(clients[recipient], privateMessage)];
      }
      ok := true;
    }

    /** `sendGroupMessage`; `ok` is false when `substring(7)` is out of bounds, in which case
        the exception leaves before anything is sent. */
    method SendGroupMessage(sender: string, message: string) returns (ok: bool)
      requires Valid()
      modifies this
      ensures Valid()
      ensures ok <==> GroupText(message).Some?
      ensures !ok ==> Abstract() == old(Abstract())
      ensures ok ==> Abstract() == Broadcast(old(Abstract()), GroupLine(sender, GroupText(message).value))
    {
      if |message| < 7 {
        return false;
      }
      BroadcastMessage(GroupLine(sender, message[7..]));
      ok := true;
    }

    /** The body of the read loop for one line read from `username`'s socket. */
    method Dispatch(username: string, message: string) returns (outcome: LineOutcome)
      requires Valid()
      modifies this
      ensures Valid()
      ensures Step(Abstract(), outcome) == DispatchStep(old(Abstract()), username, message)
    {
      if message == ExitLine {
        outcome := Exit;
      } else if "/private" <= message {
        var ok := SendPrivateMessage(username, message);
        outcome := if ok then Continue else Fault;
      } else if "/group" <= message {
        var ok := SendGroupMessage(username, message);
        outcome := if ok then Continue else Fault;
      } else {
        BroadcastMessage(PlainLine(username, message));
        outcome := Continue;
      }
    }

    /** Closing the session's writer when the try-with-resources block is left. */
    method CloseWriter(username: string)
      requires Valid()
      modifies this
      ensures Valid()
      ensures Abstract() == CloseStep(old(Abstract()), username)
    {
      if username in clients {
        clients := clients[username := clients[username].(closed := true)];
      }
      ClosePreservesInv(old(Abstract()), username);
    }

    /** `removeClient`: walks the entries in the map's order and removes the first one whose
        writer reports an error, then tells the rest. The other test, the writer compared
        with the socket, is never true and is not modelled. */
    method RemoveClient() returns (removed: Option<string>)
      requires Valid()
      modifies this
      ensures Valid()
      ensures RemovalChoice(old(Abstract()), removed)
      ensures Abstract() == RemoveStep(old(Abstract()), removed)
    {
      var pending := clients.Keys;
      while pending != {}
        invariant pending <= clients.Keys
        invariant forall u :: u in clients && u !in pending ==> !clients[u].error
        invariant clients == old(clients) && userInfoMap == old(userInfoMap) && feed == old(feed)
        decreases pending
      {
        var u :| u in pending;
        if clients[u].error {
          clients := clients - {u};
          userInfoMap := userInfoMap - {u};
          BroadcastMessage(LeaveNotice(u));
          return Some(u);
        }
        pending := pending - {u};
      }
      removed := None;
    }

    /** `disconnectUser` without the dialogs: `answer` is what the operator typed (None when
        the dialog was cancelled); a registered name gets "/exit" on its writer. */
    method DisconnectUser(answer: Option<string>) returns (found: bool)
      requires Valid()
      modifies this
      ensures Valid()
      ensures (found, Abstract()) == DisconnectStep(old(Abstract()), answer)
    {
      if answer.Some? && answer.value in clients {
        clients := clients[answer.value := Println(clients[answer.value], ExitLine)];
        found := true;
      } else {
        found := false;
      }
      DisconnectPreservesInv(old(Abstract()), answer);
    }

    /** The environment: `username`'s connection breaks, so its writer starts reporting an
        error. */
    method WriterFails(username: string)
      requires Valid()
      modifies this
      ensures Valid()
      ensures Abstract() == WriterFailsStep(old(Abstract()), username)
    {
      if username in clients {
        clients := clients[username := clients[username].(error := true)];
      }
    }

    /** `handleClient` for one accepted connection from `host`:`port` at `timestamp`, whose
        socket delivers the lines `input` and then end of stream (or a read error, which ends
        the loop the same way). The loop stops at "/exit" or at a line whose handling throws;
        then the writer is closed and `removeClient` runs. */
    method HandleClient(host: string, port: int, timestamp: string, input: seq<string>)
      returns (username: string, outcome: LineOutcome, removed: Option<string>)
      requires Valid()
      modifies this
      ensures Valid()
      ensures username == GenerateUniqueUsername(host, port, timestamp)
      ensures var run := RunLines(JoinStep(old(Abstract()), host, port, timestamp), username, input);
        && outcome == run.outcome
        && RemovalChoice(CloseStep(run.state, username), removed)
        && Abstract() == RemoveStep(CloseStep(run.state, username), removed)
    {
      username := Join(host, port, timestamp);
      ghost var joined := Abstract();
      outcome := Continue;
      var i := 0;
      while i < |input|
        invariant 0 <= i <= |input|
        invariant Valid()
        invariant RunLines(joined, username, input[..i]) == Step(Abstract(), outcome)
        invariant outcome == Continue
        decreases |input| - i
      {
        RunLinesSnoc(joined, username, input[..i], input[i]);
        assert input[..i + 1] == input[..i] + [input[i]];
        var lineOutcome := Dispatch(username, input[i]);
        i := i + 1;
        if lineOutcome != Continue {
          outcome := lineOutcome;
          break;
        }
      }
      if i < |input| {
        RunLinesStops(joined, username, input[..i], input[i..]);
        assert input[..i] + input[i..] == input;
      } else {
        assert input[..i] == input;
      }
      CloseWriter(username);
      removed := RemoveClient();
    }
  }
}
