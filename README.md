# Chat server routing core in Dafny

This project models the message-routing core of the chat server in
`Server/src/main/java/org/example/server/Server.java`. The core covers:

- the two registries: `clients`, which maps each user name to the user's writer, and
  `userInfoMap`, which maps each user name to a record of user name, host and port;
- how a connection gets its user name and joins;
- how the read loop classifies each input line as `/exit`, `/private`, `/group` or plain text;
- private delivery, and broadcast to every connected writer;
- what `removeClient` takes out when a session ends;
- the operator's "disconnect user" action.

The model has three files:

- `java_strings.dfy` (module `JavaStrings`) states the Java string operations the server
  relies on. These are `String.replace` with one-character arguments, `Integer.toString`, and
  `String.split(" ", 3)`. The split is defined character by character. It is then proved to
  lose no character, to cut only at the first `limit - 1` separators, and to be the only list
  of parts with those properties.
- `chat_model.dfy` (module `ChatModel`) holds the server's state as a value:
  - `State` holds the clients map, the user-info map and the lines of the chat area.
  - Each server action is a pure step function on `State`: join, dispatch one line, the
    whole read loop, closing the session's writer, removal, operator disconnect, and a
    writer failing.
  - Lemmas state what each step delivers, to whom, and what it leaves alone.
  - All steps preserve the registry invariant `Inv`: every connected name has a record
    that carries that name.
  - The model keeps the source's removal behaviour, explained below.
- `chat_server.dfy` (module `ChatServer`) holds the class `Server`. Its map fields are
  updated in place, as the Java methods update theirs.
  - `BroadcastMessage` and `RemoveClient` loop over the key set in an unspecified order, as
    the `HashMap` iteration does.
  - `HandleClient` runs one whole session: join, the read loop over the lines the socket
    delivers, closing the writer, then `removeClient`.
  - Each method is proved to change the object's state exactly as the matching `ChatModel`
    step changes its value: `Abstract() == Step(old(Abstract()), ...)`.

A user record, `UserInfo(username, host, port)` in `ChatModel`, is the serializable
`UserInfo` class of Server.java:200-222 with its three fields; its getters are field
selection. `ChatModel.ExitLine` is the `"/exit"` text of Server.java:118 and :183.

A `PrintWriter` is modelled as `Writer(lines, error, closed)`.

- `lines` is every line written through it.
- `error` is what `checkError()` returns.
- `closed` records that the session's try-with-resources block has closed it.
- `println` on a closed writer writes nothing and sets the error flag. This is what
  `PrintWriter` does when its stream is closed.
- A connection that breaks is an environment event, `WriterFails`, which sets the error flag.

Behaviour kept as the code has it, though a more defensive design would do otherwise:

- **User name collision.** A generated name that is already registered overwrites the older
  entry in both maps. A defensive design would reject the collision and close the new
  connection.
- **Malformed `/private` and short `/group` lines.**
  - A `/private` line with fewer than two spaces throws from `parts[1]` or `parts[2]` before
    anything is sent.
  - A `/group` line shorter than seven characters throws from `substring(7)`.
  - Either exception ends the read loop: the `Fault` outcome. A defensive design would
    discard the malformed line and let the session go on.
- **Which entry removal takes.** `removeClient` removes the first entry whose writer reports
  an error, which need not be the session that ended. Its other test compares a `PrintWriter`
  with a `Socket`, so it is never true.
  - A session that ends cleanly while no writer is in error stays registered, with its
    closed writer (`HealthySessionStaysAfterExit`).
  - The next broadcast makes that closed writer report an error. Only then can a later
    removal take it (`LeftoverWriterFailsOnBroadcast`).
  - A defensive design would remove the ending session itself, exactly once.

## Model

| member | source | states |
|---|---|---|
| `JavaStrings.ReplaceChar` | Server/src/main/java/org/example/server/Server.java:137 | `host.replace(".", "_")` keeps the length, replaces each `.` by `_` position by position, and leaves no `.` behind. |
| `JavaStrings.ReplaceCharInjective` | Server/src/main/java/org/example/server/Server.java:137 | Two host strings that contain no `_` and give the same replacement are equal. |
| `JavaStrings.IntToString` | Server/src/main/java/org/example/server/Server.java:137 | The decimal text of the port is non-empty. It contains no `_`, `.` or space. It starts with `-` exactly when the number is negative, and all its other characters are digits. |
| `JavaStrings.IntToStringRoundTrip` | Server/src/main/java/org/example/server/Server.java:137 | Reading the decimal text back gives the number again. |
| `JavaStrings.IntToStringInjective` | Server/src/main/java/org/example/server/Server.java:137 | Different ports print differently. |
| `JavaStrings.SplitLimit` | Server/src/main/java/org/example/server/Server.java:141 | `split(" ", 3)` yields at least one part and at most `limit` parts. |
| `JavaStrings.SplitLimitJoin` | Server/src/main/java/org/example/server/Server.java:141 | Joining the parts with the separator gives the line back. |
| `JavaStrings.SplitLimitParts` | Server/src/main/java/org/example/server/Server.java:141 | Only the last part may contain the separator, and only when the limit was reached. |
| `JavaStrings.SplitLimitWhole` | Server/src/main/java/org/example/server/Server.java:141 | With no separator in the line, or a limit of 1, the split yields the whole line as one part. |
| `JavaStrings.SplitLimitUnique` | Server/src/main/java/org/example/server/Server.java:141 | Any list of parts that joins back to the line and cuts only at leading separators is the split result. |
| `JavaStrings.SplitLimitCount` | Server/src/main/java/org/example/server/Server.java:141-143 | The split yields fewer than `limit` parts exactly when the line has fewer than `limit - 1` separators. |
| `ChatModel.JoinNotice` | Server/src/main/java/org/example/server/Server.java:114 | The join announcement: "Пользователь ", the name, " присоединился к чату". |
| `ChatModel.LeaveNotice` | Server/src/main/java/org/example/server/Server.java:172 | The leave announcement: "Пользователь ", the name, " покинул чат". |
| `ChatModel.PlainLine` | Server/src/main/java/org/example/server/Server.java:125 | A plain chat line: the sender, ": ", the message. |
| `ChatModel.PrivateLine` | Server/src/main/java/org/example/server/Server.java:143 | A private line: the sender, " (private): ", the text. |
| `ChatModel.GroupLine` | Server/src/main/java/org/example/server/Server.java:152 | A group line: the sender, " (group): ", the text. |
| `ChatModel.GenerateUniqueUsername` | Server/src/main/java/org/example/server/Server.java:135-138 | Computes `User_`, the host with `.` replaced by `_`, `_`, the port in decimal, `_`, and the given formatted time. |
| `ChatModel.Inv` | Server/src/main/java/org/example/server/Server.java:110-111 | The registry invariant: every name in `clients` is in `userInfoMap`, with a record carrying that name (both puts at :110-111 and both removes at :170-171 keep it). |
| `ChatModel.Println` | Server/src/main/java/org/example/server/Server.java:163 | One `println`: an open writer appends the line; a closed writer appends nothing and sets its error flag. |
| `ChatModel.Broadcast` | Server/src/main/java/org/example/server/Server.java:156-165 | Appends the message to the chat area and applies `Println` to every writer in `clients`. |
| `ChatModel.JoinStep` | Server/src/main/java/org/example/server/Server.java:105-114 | Puts a fresh writer and the `UserInfo` record under the generated name, overwriting any entry, then broadcasts the join notice. |
| `ChatModel.ParsePrivate` | Server/src/main/java/org/example/server/Server.java:141-143 | Splits the line with limit 3 and returns the three parts, or None when there are fewer than three (the index exception). |
| `ChatModel.PrivateDeliver` | Server/src/main/java/org/example/server/Server.java:145-148 | Prints the private line to the recipient's writer when the recipient is in `clients`; otherwise leaves the state alone. |
| `ChatModel.DispatchStep` | Server/src/main/java/org/example/server/Server.java:117-126 | One line of the read loop: Exit on `/exit`; private parse and delivery or Fault; group text and broadcast or Fault; otherwise a plain broadcast with Continue. |
| `ChatModel.RunLines` | Server/src/main/java/org/example/server/Server.java:116-127 | Dispatches the lines in order, stopping at the first one whose outcome is not Continue; Continue when the lines run out. |
| `ChatModel.CloseStep` | Server/src/main/java/org/example/server/Server.java:101-104 | Marks the writer registered under the session's name as closed. |
| `ChatModel.RemovalChoice` | Server/src/main/java/org/example/server/Server.java:168-169 | Which entry the iteration may stop at: some registered name whose writer is in error, or none when no writer is. |
| `ChatModel.RemoveStep` | Server/src/main/java/org/example/server/Server.java:167-177 | Removes the chosen name from both maps and broadcasts its leave notice; with no choice, changes nothing. |
| `ChatModel.DisconnectStep` | Server/src/main/java/org/example/server/Server.java:179-187 | If the answer names a registered client, prints `/exit` to its writer and reports found; otherwise reports not found and changes nothing. |
| `ChatModel.WriterFailsStep` | Server/src/main/java/org/example/server/Server.java:169 | Sets the error flag that `checkError()` reads on the named client's writer; an unknown name changes nothing. |
| `ChatModel.UsernameLayout` | Server/src/main/java/org/example/server/Server.java:135-138 | A generated name reads: `User_`, then the host with each `.` as `_` (so no `.` in that segment), `_`, the port digits, `_`, and the timestamp. |
| `ChatModel.UsernameInjective` | Server/src/main/java/org/example/server/Server.java:135-138 | For hosts without `_` and timestamps of equal width, equal names come from the same host, port and time. |
| `ChatModel.UsernameExample` | Server/src/main/java/org/example/server/Server.java:137 | Host 127.0.0.1 with port 54321 gets `User_127_0_0_1_54321_` followed by the timestamp. |
| `ChatModel.PrintlnEffect` | Server/src/main/java/org/example/server/Server.java:163 | `println` on an open writer adds exactly that line and keeps its error state. On a closed writer it adds nothing and sets the error state. It never reopens a writer. |
| `ChatModel.BroadcastReachesEveryone` | Server/src/main/java/org/example/server/Server.java:156-165 | Every registered open writer, and no one else, gets exactly one copy. Closed writers are marked in error. The key set and `userInfoMap` are unchanged. The chat area gets the line. |
| `ChatModel.BroadcastPreservesInv` | Server/src/main/java/org/example/server/Server.java:156-165 | Broadcasting keeps the registry invariant. |
| `ChatModel.JoinRegisters` | Server/src/main/java/org/example/server/Server.java:105-114 | After a join the name is in both maps, with a record of that name, host and port. The newcomer's writer is open and holds only the join notice. Every other client gets the notice once, and so does the chat area. |
| `ChatModel.JoinPreservesInv` | Server/src/main/java/org/example/server/Server.java:105-114 | Joining keeps the registry invariant. |
| `ChatModel.Classify` | Server/src/main/java/org/example/server/Server.java:117-126 | A line is Exit exactly when it equals `/exit`, Private exactly when it starts with `/private`, Group exactly when it starts with `/group`, and plain text otherwise. |
| `ChatModel.ClassifyExamples` | Server/src/main/java/org/example/server/Server.java:118-124 | The first match wins: `/exit now` is plain text, `/privatex` is private, and `/group` alone is group. |
| `ChatModel.ParsePrivateSound` | Server/src/main/java/org/example/server/Server.java:141-143 | The `/private` parse fails exactly when the line has fewer than two spaces. Otherwise the line is the command, a space, a recipient without spaces, a space, and the text. |
| `ChatModel.ClientPrivateRoundTrip` | Client/src/main/java/org/example/client/Client.java:79 | The line the client sends for a private message is classified as private and parses back into that recipient and that message, provided the recipient has no space. |
| `ChatModel.GroupText` | Server/src/main/java/org/example/server/Server.java:152 | `substring(7)` fails exactly on lines shorter than 7 characters. Otherwise it gives the rest after the first 7 characters. |
| `ChatModel.GroupRoundTrip` | Server/src/main/java/org/example/server/Server.java:151-154 | `/group ` followed by a text is classified as group and yields exactly that text. |
| `ChatModel.DispatchExit` | Server/src/main/java/org/example/server/Server.java:118-119 | An exact `/exit` ends the loop and changes nothing. |
| `ChatModel.DispatchPlain` | Server/src/main/java/org/example/server/Server.java:124-126 | A plain line goes to every client as `sender: line`, the sender included. The registries are unchanged. |
| `ChatModel.DispatchPrivate` | Server/src/main/java/org/example/server/Server.java:140-149 | A well-formed private line prints `sender (private): text` to the recipient only. It changes nothing when the recipient is unknown. The chat area gets nothing. |
| `ChatModel.DispatchPrivateMalformed` | Server/src/main/java/org/example/server/Server.java:141-143 | A `/private` line with fewer than two spaces faults and delivers nothing. |
| `ChatModel.DispatchGroup` | Server/src/main/java/org/example/server/Server.java:151-154 | `/group ` followed by a text broadcasts `sender (group): text`. |
| `ChatModel.DispatchGroupTooShort` | Server/src/main/java/org/example/server/Server.java:152 | `/group` alone faults and delivers nothing. |
| `ChatModel.DispatchKeepsMembership` | Server/src/main/java/org/example/server/Server.java:116-127 | Handling a line never changes the key set of `clients` or `userInfoMap`. |
| `ChatModel.DispatchPreservesInv` | Server/src/main/java/org/example/server/Server.java:116-127 | Handling a line keeps the registry invariant. |
| `ChatModel.RunLinesSnoc` | Server/src/main/java/org/example/server/Server.java:117-127 | While the loop goes on, reading one more line is one more dispatch. |
| `ChatModel.RunLinesStops` | Server/src/main/java/org/example/server/Server.java:118-119 | Once a line ends the loop, later lines are never read. |
| `ChatModel.RunLinesKeepsMembership` | Server/src/main/java/org/example/server/Server.java:116-127 | The whole read loop leaves the registries' keys unchanged and keeps the invariant. |
| `ChatModel.CloseMarksOne` | Server/src/main/java/org/example/server/Server.java:101-104 | Leaving the try block closes the session's own writer and changes nothing else. In particular it does not set an error. |
| `ChatModel.ClosePreservesInv` | Server/src/main/java/org/example/server/Server.java:101-104 | Closing keeps the registry invariant. |
| `ChatModel.RemovalChoiceExists` | Server/src/main/java/org/example/server/Server.java:168-169 | The iteration always settles on an erroring entry or on none, so removal never blocks. |
| `ChatModel.RemoveAtMostOne` | Server/src/main/java/org/example/server/Server.java:167-177 | Removal takes out at most one entry, an erroring one, from both maps. Each client left behind gets one leave notice. With no erroring writer nothing changes. |
| `ChatModel.RemovePreservesInv` | Server/src/main/java/org/example/server/Server.java:167-177 | Removal keeps the registry invariant. |
| `ChatModel.HealthySessionStaysAfterExit` | Server/src/main/java/org/example/server/Server.java:128-177 | After `/exit` and the close, if no writer is in error, removal takes nothing. The leaving session stays registered with its closed writer. |
| `ChatModel.LeftoverWriterFailsOnBroadcast` | Server/src/main/java/org/example/server/Server.java:162-169 | A closed writer still registered reports an error after the next broadcast, so removal may then pick it. |
| `ChatModel.DisconnectTargetsOne` | Server/src/main/java/org/example/server/Server.java:179-187 | The operator's action finds the name exactly when it is registered. Only that writer then gets `/exit`, and nothing else changes. |
| `ChatModel.DisconnectPreservesInv` | Server/src/main/java/org/example/server/Server.java:179-187 | The disconnect keeps the registry invariant. |
| `ChatModel.WriterFailsPreservesInv` | Server/src/main/java/org/example/server/Server.java:169 | A writer going into error keeps the registry invariant. |
| `ChatServer.Server.constructor` | Server/src/main/java/org/example/server/Server.java:44-89 | Start-up leaves no one connected and loads the saved records, or an empty map when there are none. The chat area shows the history followed by the port announcement. |
| `ChatServer.Server.BroadcastMessage` | Server/src/main/java/org/example/server/Server.java:156-165 | The loop over the writers leaves exactly the `Broadcast` state and keeps `Valid`. |
| `ChatServer.Server.Join` | Server/src/main/java/org/example/server/Server.java:105-114 | Returns the generated name and leaves exactly the `JoinStep` state. |
| `ChatServer.Server.SendPrivateMessage` | Server/src/main/java/org/example/server/Server.java:140-149 | Succeeds exactly when the line parses. Success leaves the `PrivateDeliver` state; failure leaves the state untouched. |
| `ChatServer.Server.SendGroupMessage` | Server/src/main/java/org/example/server/Server.java:151-154 | Succeeds exactly when `substring(7)` is defined. Success broadcasts the group line; failure leaves the state untouched. |
| `ChatServer.Server.Dispatch` | Server/src/main/java/org/example/server/Server.java:117-126 | Handling one line gives exactly `DispatchStep`'s state and outcome. |
| `ChatServer.Server.CloseWriter` | Server/src/main/java/org/example/server/Server.java:101-104 | Leaves exactly the `CloseStep` state. |
| `ChatServer.Server.RemoveClient` | Server/src/main/java/org/example/server/Server.java:167-177 | The entry it removes is an allowed removal choice, and the new state is that choice's `RemoveStep`. |
| `ChatServer.Server.DisconnectUser` | Server/src/main/java/org/example/server/Server.java:179-187 | The found flag and the new state are exactly `DisconnectStep`'s. |
| `ChatServer.Server.WriterFails` | Server/src/main/java/org/example/server/Server.java:169 | Leaves exactly the `WriterFailsStep` state. |
| `ChatServer.Server.HandleClient` | Server/src/main/java/org/example/server/Server.java:100-133 | A whole session runs the join, then `RunLines` over the input, then the close, then one removal. The outcome is the read loop's. |

## Left out

- The Swing window is not modelled: the frame, the buttons, the caret position and the
  dialogs. The operator's typed answer to the disconnect dialog is the `answer` parameter.
  The "user not found" message dialog is not modelled.
- Files are not modelled.
  - `saveChatHistory` and every `saveClientInfo` call are left out.
  - `loadChatHistory` and `loadClientInfo` are modelled only by their results, which are
    constructor parameters. A file that cannot be read counts as an empty history or no
    saved records.
  - Stack traces printed on I/O errors are left out.
- The network is not modelled: `startServer`'s accept loop, the thread pool, and the reading
  of bytes.
  - A session is given the lines its socket delivers.
  - An `IOException` from `readLine` ends the loop like end of stream.
  - `new ServerSocket(PORT)` failing to bind is not modelled: start-up assumes the bind
    succeeds, so the port notice is always in the chat area.
  - Sessions run one after another. Interleaving between sessions and
    `ConcurrentModificationException` are not modelled, because concurrency is out of scope.
- `SwingUtilities.invokeLater` is modelled as if the chat area were appended to at once.
- The wall clock and `SimpleDateFormat` are not modelled. The formatted acceptance time is
  the `timestamp` parameter.
- `ChatModel.UsernameInjective` assumes hosts without `_` and timestamps of equal length.
  These are what dotted or colon-separated host addresses and the fixed `yyyyMMdd_HHmmss`
  pattern provide.
- Strings are sequences of Unicode characters, so lengths and indices count characters,
  not the UTF-16 code units of Java's `length()` and `substring`. `ChatModel.GroupText`
  therefore differs from `substring(7)` when a character outside the Basic Multilingual
  Plane directly follows `/group`: Java then cuts the surrogate pair, the model does not.
  Splitting on `' '`, the prefix tests, and which group lines are too short are the same
  either way.
- The port is an unbounded `int`. Real values lie in 0..65535, so Java's 32-bit width never
  matters here.
- `checkError()` is the `error` flag.
  - A broken connection is the environment event `WriterFails`.
  - A closed writer fails at its next `println`.
  - Autoflush and buffering are not modelled.
- `ChatServer.Server.CloseWriter` closes the writer registered under the session's name. If a
  later session overwrote that name, Java closes the older writer, which is no longer in the
  map. In that case the model closes the registered one instead.
- The `getValue().equals(clientSocket)` test in `removeClient` is never true, so it is left
  out.
- The Client program is left out, except the format of its private-message line.
- An exception that escapes `handleClient` (the `Fault` outcome) ends that session's thread
  after `finally` has run. Nothing beyond that is modelled.
