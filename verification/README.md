# A model of the chat server's data path

The repository is a chat system over TCP: a server with a listening, a reading and a
writing thread, and a line-based client. This project models the path of a byte through
it and proves what happens to it on the way:

* `IntrusiveList` is the circular doubly linked list, on the heap.
* `CachePool`, `Chunks` and `Buffers` are the size-class pool and the byte queue kept in
  512-byte chunks that draws on it: appends staged in a temporary list, partial socket
  writes, a failed read undone, a search across chunk boundaries. `Outcomes` says what a
  call comes to, given what memory and the socket answer to it, one answer after another.
* `Framing` and `Connection` are the resumable cutting of a byte stream into messages, as
  a value and as the object that owns the two buffers of a client.
* `Protocol`, `ChatClient` and `ClientInput` are the commands, the frames and the routing on
  the server, the line encoder on the client, and what becomes of lines that reads cut
  anywhere.
* `Layers` is where objects and values meet: clients whose buffers draw on one pool do what
  the step system says clients do, and no cache serves two of them.
* `ServerSteps` is the server as a step system. A step is what one thread does under a
  lock, or between two locks; any interleaving of steps is a run. `Registry`, `Streams`,
  `Deliveries` and `WakeUp` each prove an invariant of every step; `Runs`, `Notices`,
  `Owed`, `Logouts`, `Released` and `EndToEnd` draw the conclusions for whole runs.
* `Environment` collects what is not up to the server - memory, poll, accept, what sockets
  give and take - as answers that are given, and proves that they leave each thread one way
  to go. `Polling` says what a pass of the reader does with each client, by what poll
  reports of it.
* `ServerCode` holds the functions of the server as they are written, with their loops.
  Each is proved to be a stretch of a run of the step system in which every step is one of
  its own thread and the one that the answers lead to (`Environment.DoneBy`), so what holds
  of runs holds of them when they are executed so (`ServerCode.RunGoesOn`), and there is
  nothing else that they could have done (`Environment.PassIsDetermined`). That an execution
  of them with other threads in between is the interleaving of the same steps rests on
  reading which parts the locks protect; it is the step system that is proved for every
  interleaving. `Chains` is the notion of a stretch.
* `AsWritten` treats the places where the code departs from what it is evidently meant to
  do: it models the code to the letter and proves exactly when the two agree.
* `Bytes` is the mathematics of byte strings that everything is measured against.

The central results are: every pass of the writer puts on a client's socket all that was
put out for it before the pass began (`WakeUp.PassFlushes`, `Runs.ArrivesOnTheSocket`), and
the writer goes to sleep with nothing announced left behind (`WakeUp.NoStrandedMessage`); it
can still go to sleep if and only if every notification so far found it asleep
(`WakeUp.SleepsIff`). What anybody hears of a client is, in order and without repetition,
among what that client's bytes say (`Runs.FirstInFirstOut`), and nothing of it is left out:
each message has a delivery of its own, to exactly those it is for, and a place of its own on
their sockets (`Owed.WhatIsSaidArrives`, `Owed.EachItsOwn`); for a client of this repository
that is what its user was promised (`EndToEnd.SessionIsHeard`, `EndToEnd.PromisesAreKept`),
however reads cut what was typed, for each line into which the client's prefix has come
neither too often nor in the wrong place (`ClientInput.AnyReads`). A client that has failed
is logged out, and the others are told of it (`Logouts.MarkedAreLoggedOut`,
`Logouts.MarkedAreAnnounced`). Deliveries of both threads reach exactly whom they should in
every interleaving (`Runs.ExactDeliverySet`, `Notices.ExactNoticeSet`). Cutting a client's
output at newlines gives back exactly the frames delivered to it (`Runs.OutputIntegrity`),
and these are, byte for byte, what the protocol says (`Protocol.PeerFrameBytes`,
`Protocol.NoticeBytes`, `Protocol.Conversation`);
messages do not depend on how a stream is cut into reads (`Framing.FragmentationIndependence`);
the chunk list is a queue under every outcome of allocation, read and write, and takes and
gives just as much as these allow (`Buffers`, `Outcomes`); and
the pool never makes more caches of a size than were in use at once (`CachePool.HighWater`).

`dafny verify dfyconfig.toml` checks the whole project.

## How the code is read

The model follows what the code is evidently meant to do in these places; the ones with a
lemma are also modelled to the letter in `AsWritten`.

* -1 is kept in a `size_t`, so `< 0` is never true (`src/io/buffer.c:165`, `:198`, `:352`,
  `:403`, `:411`, `:420`, `src/entity/client_info.c:162`). As meant, these are signed.
  To the letter, only the first chunk is searched for a newline, the remembered position
  stays 0, and a message that does not end in the first chunk is never fetched: nothing
  ever is again, once that chunk is full without a newline or holds a NUL before one
  (`AsWritten.FetchAgreesIff`, `AsWritten.StallsIff`); a read that fails when the
  last chunk was full, or when there was none, corrupts an offset
  (`AsWritten.RollbackAgreesIff`); and after a write that fails a byte is written twice
  (`AsWritten.WritesAgreeIff`, `AsWritten.FailureRepeatsAByte`).
* The list of size classes is made with one entry for each byte of the array of sizes
  (`src/io/cache.c:41`; `AsWritten.ClassesAgreeIff`).
* A free-list node is read after it has been freed (`src/io/cache.c:92-94`). In the model
  caches are known by number, and so are clients.
* A client that the writer has released may still be in the list that a delivery of the
  reader is going through (`src/IMServer.c:252-254`, `:154-157`). It is met there if and only
  if it was released after that list was copied (`Released.ReaderMeetsReleased`, with a run in
  `Released.ReleasedIsMet`), and nowhere else (`Released.OthersMeetNoReleased`).
* A read or write that appends nothing loses the chunk it has just taken from the pool
  (`src/io/buffer.c:157-162`). The model keeps this: `dropped` names that cache, and is
  empty in every other case.
* A failed read drops bytes that earlier reads of the same call took from the socket
  (`src/io/buffer.c:164-177`). The model keeps this: `taken` is what the socket gave.
* The line the client sends for a name with a colon in it goes to the part before the
  colon (`src/IMClient.c:119-128` against `src/IMServer.c:290-302`). The client encodes each
  read of at most 1016 bytes by itself (`src/IMClient.c:116`), so a line of 1016 bytes or
  more can get the broadcast prefix in its middle, and of several lines that one read brings
  only the first can get it at all. A read that brings nothing, when the end of input is typed
  on an empty terminal line, does not end the client: it sends a prefix by itself, and a line
  to one person that follows goes to everybody (`ChatClient.EmptyReadPublishes`). The code is
  kept; `ChatClient.LineRoundTrip` and `ChatClient.ReadRoundTrip` say exactly when the promise
  holds for the reads of one line and for the lines of one read, and `ClientInput.AnyReads`
  says it for all reads of any lines.
* `sign_to_flush_msg` is cleared only after waiting, and the writer waits only if it is down
  (`src/IMServer.c:516-525`). So the first notification that is completed while the writer is
  not waiting leaves the sign up for good: the writer never waits again, and goes round
  without a pause until the server ends. Every announced logout does that. The model keeps
  it, and `WakeUp.SleepsIff` states it exactly.
* `TO-ALL:` directly followed by a newline is read one byte past its end
  (`src/IMServer.c:287`); the body of such a message is taken to be empty.
* The documentation says that a failed client is marked and the writing thread notified
  (`README.txt:42`); the code marks it without a notification (`src/IMServer.c:456-459`),
  and the model follows the code.

## Model

| member | source | states |
|---|---|---|
| WakeUp.PassFlushes | src/IMServer.c:485-505 | in every interleaving, while the writer flushes in a pass: all that had been put out for a client when the pass began, announced or not, is a prefix of what has been written to its socket once the pass has come by it, unless the client has failed or its flush did |
| WakeUp.FlushedByThePass | src/IMServer.c:485-505 | so whatever was put out at any earlier time, by either thread, is on the socket of every client listed when the pass began and healthy when it has flushed |
| WakeUp.SleepsIff | src/IMServer.c:515-525 | the writer is waiting, or can still come to wait, if and only if every notification so far was completed while it was waiting |
| WakeUp.NoStrandedMessage | src/IMServer.c:485-527 | for every completed notification: the writer waits later only if the notification found it waiting; and when it begins to wait, and for as long as it waits with the sign down, all that had been put out for a client when the notification completed is a prefix of what has been written to its socket, unless the client was logged out, has failed, or its last flush did |
| WakeUp.QuietMeansEmpty | src/IMServer.c:515-525 | while the writer waits with the sign down and the reader is not in the middle of a client's messages, the write buffer of every listed healthy client is empty |
| WakeUp.WakePreserved | src/IMServer.c:257-261 | every step of every thread keeps: with the sign down whatever was announced is out or ahead of the writer's pass, and nothing is unannounced unless a thread owes a notification |
| Runs.ArrivesOnTheSocket | src/IMServer.c:494-505 | a frame delivered before a pass began is, when the pass has flushed, a message of its own in the bytes written to the recipient's socket, with all frames before it, in order |
| Owed.WhatIsSaidArrives | src/IMServer.c:269-328 | for every message that has come in and says something, while memory lasts and once the reader is between two clients: there has been a delivery of its own, under its sender and its place among that sender's messages; it reached exactly those on the list for whom it was; and every pass that begins afterwards puts it, in its place in the output and with all frames before it, on the socket of each of them that is still listed and healthy, if all it had been given was stored whole |
| Owed.EachItsOwn | src/IMServer.c:147-172 | two messages, even if they say the same, have different deliveries and different places in every client's output |
| Owed.ReachedArrives | src/IMServer.c:494-505 | what either thread has delivered gets, in its own place, to the sockets of all whom it reached |
| Owed.AllRecorded | src/IMServer.c:275-312 | every message that says something has its place in the reader's log |
| Owed.DeliveryEnded | src/IMServer.c:308-312 | everything in the reader's log but what it is busy with has been delivered |
| Runs.FirstInFirstOut | src/IMServer.c:269-328 | what one client is sent of another's messages is a subsequence of what that other's received bytes say |
| Runs.HeardAt | src/IMServer.c:147-172 | every frame that a client was given of another's messages is among those it hears, in its turn |
| Runs.ThreadAt | src/IMServer.c:147-172 | every frame that it was given by a thread is among that thread's, in its turn |
| Runs.RecipientsAgree | src/IMServer.c:147-172 | two clients that both get two frames of one thread get them in the same order |
| Runs.TwoLogsInterleaved | src/IMServer.c:147-172 | a client's frames are a subsequence of the reader's one log and a subsequence of the writer's log of logouts |
| Runs.NothingPassedOver | src/IMServer.c:275-319 | as long as frames can be allocated, the reader's log holds for every client exactly what its handled messages say: none is passed over, none doubled |
| Runs.OutputIntegrity | src/entity/client_info.c:173-202 | at every moment the bytes written and pending are the stored parts of the frames delivered; cut at newlines they are the frames themselves if and only if each was stored whole |
| Runs.HandledExactly | src/IMServer.c:269-319 | the messages handled are those of the bytes received, each once, in order; all of them whenever the reader is not busy with that client |
| Runs.ExactDeliverySet | src/IMServer.c:147-172 | when a delivery by the reader ends, those who got the frame are exactly those on the list when it began who have not failed, are logged in, are not excluded, and are addressed; its count is their number; in every interleaving with the other threads |
| Notices.ExactNoticeSet | src/IMServer.c:231-249 | when a delivery by the writer ends, those who got the notice are exactly those on the list when it began for whom it was in the step in which the delivery came to them, whatever the other threads did to names and marks before and after; its count is their number |
| Notices.NoticeReaches | src/IMServer.c:147-172 | the same at every moment of such a delivery, for the clients it has come to |
| Runs.SnapshotsFit | src/IMServer.c:119-142 | the count that snapshots allocate for is the length of the list, the sockets on the list are open, and no two are the same |
| Runs.LoggedOutOnce | src/IMServer.c:212-262 | a client is logged out at most once, its logout takes exactly it off the list, and it is announced at most once |
| Logouts.MarkedAreLoggedOut | src/IMServer.c:456-459 | a client that the reader has marked as failed is off the list and its socket closed at the end of the next pass that the writer begins |
| Logouts.MarkedAreAnnounced | src/IMServer.c:231-249 | by the end of that pass, while memory lasts, the logout has been told under the name the client had, to exactly those on the list when the delivery began for whom the notice was when it came to them, and later passes put it on their sockets |
| Logouts.EverybodyTold | src/IMServer.c:231-254 | while memory lasts, every client that has been closed has its notice, with its name, in the writer's log |
| Logouts.NoticeEnded | src/IMServer.c:231-249 | every notice in the writer's log but the one it is busy with has been delivered |
| Logouts.PassReaches | src/IMServer.c:507-512 | a pass of the writer passes over no client that was marked when it began |
| Released.ReaderMeetsReleased | src/IMServer.c:154-157 | a delivery of the reader comes to a client that has been released if and only if it was released since that delivery copied the list |
| Released.OthersMeetNoReleased | src/IMServer.c:378-529 | every other step of every thread reads only clients that have not been released |
| Released.ReleasedIsMet | src/IMServer.c:252-254 | a concrete run in which a delivery is about to come to a released client |
| Runs.GoneForGood | src/IMServer.c:212-229 | who has left the list does not come back |
| Runs.ReaderStaysWithTheListed | src/IMServer.c:416-460 | the client the reader reads from, handles or marks is on the list, not closed, and its socket is open |
| Runs.ClosedGetNothing | src/IMServer.c:154-157 | no step puts anything out for, or writes anything to, a client that has been closed |
| Runs.Invariant | src/IMServer.c:31-60 | all invariants hold in every state of every run |
| EndToEnd.SessionIsHeard | src/IMClient.c:56-137 | for any reads of what is typed, if prefixes have come into its lines as they should: whatever anybody is sent of a client's session, as far as it has come in, is, in order and without repetition, among the login notice and the frames its lines promise |
| EndToEnd.PromisesAreKept | src/IMClient.c:113-137 | for any reads, and every line of a session that has come in, into which prefixes have come as they should and before which no other line was read as a login: there has been a delivery of its own for it, of just what its user was promised, to exactly those it was for, and it gets to their sockets |
| EndToEnd.PromisedBytes | src/entity/message.c:59-69 | what a line promises, byte for byte: "FROM ", the name of the login, ": ", and the text of the line |
| EndToEnd.SessionSays | src/IMClient.c:113-137 | the server makes of each such line of a session what its user was promised, under the name of the login |
| EndToEnd.SessionIsCut | src/IMClient.c:56-137 | the server cuts the bytes of a session, whatever the reads, into the login and one message for each line that was typed |
| Registry.RegistryPreserved | src/IMServer.c:567-574 | every step keeps: the list holds exactly the clients not logged out, each once, with the right count; open sockets are distinct; snapshots still to be worked through are on the list; logouts are announced once |
| Registry.LogoutRemovesItsOwn | src/IMServer.c:218-228 | the search by socket number takes exactly the client itself off the list and keeps the order of the others |
| Streams.InputsPreserved | src/IMServer.c:269-328 | every step keeps: handled messages and buffer are the bytes received, the name is what the messages say, and no complete message is left with a client the reader is not busy with |
| Streams.OutputsPreserved | src/entity/client_info.c:173-202 | every step keeps: written and pending bytes are the stored parts of the delivered frames, each for a client it was meant for |
| Streams.OutputIsFrames | src/entity/message.c:52-103 | splitting the output at newlines recovers the frames if and only if each was stored whole |
| Streams.NamesAreNames | src/entity/client_info.c:112-122 | whatever a client sends, its name has at most 29 bytes and no newline |
| Streams.ParsedStream | src/IMServer.c:271-319 | handling a message takes exactly the first message out of the buffer, which gets shorter; without one nothing changes |
| Deliveries.DeliveriesPreserved | src/IMServer.c:147-172 | every step keeps: frames come in log order and at most once, a delivery under way has reached exactly whom it should of those it has come to, and each record says what its message says |
| ServerSteps.SanePreserved | src/IMServer.c:378-529 | no step leaves the range in which every step of every thread is defined |
| ServerSteps.RemoveKeeps | src/IMServer.c:218-228 | the search takes at most one client off the list and adds none |
| Environment.OneWay | src/IMServer.c:378-574 | in any state, given what memory, poll, accept and the sockets answer, each thread has at most one step |
| Environment.PassIsDetermined | src/IMServer.c:388-527 | given those answers there is one way to go through a pass of the reader or of the writer, and one state that it ends in |
| Polling.PassReads | src/IMServer.c:416-460 | after a pass each polled client is as poll reported: quiet, nothing has changed; an error, or nothing to read, and it is marked; bytes, or a read that fails, and all complete messages that are then there have been handled; nothing has come of any other client |
| Polling.HandlingLogs | src/IMServer.c:269-319 | handling a client's messages adds to the reader's log exactly what each of them says, in order, as far as there is memory to build it |
| ServerCode.RunGoesOn | src/IMServer.c:378-529 | a run can be continued with any stretch of steps, such as those that the functions below do without another thread in between, so that the theorems on runs apply to them |
| ServerCode.Server.GetClientList | src/IMServer.c:119-142 | with memory for it the copy fills exactly `client_count` slots and is the list; without there is none |
| ServerCode.Server.GetPollingAndClientList | src/IMServer.c:333-370 | without memory for the block there is none; otherwise its two halves are the clients and, for each, its socket or -1 if it has failed |
| ServerCode.Server.OfferTo | src/IMServer.c:154-168 | one round of the loop gives the frame to a client exactly if it is eligible |
| ServerCode.Server.DeliverMsgToAllClients | src/IMServer.c:147-172 | the whole function is a stretch of steps of the calling thread; with memory for the list exactly those on it that the message is for get it once, as much of it as there is memory for, everybody else is untouched, and the number of them is returned |
| ServerCode.UserLogin | src/IMServer.c:178-205 | the new name is the line cut to 29 bytes; the notice is for everybody else |
| ServerCode.Dispatch | src/IMServer.c:279-306 | the branches of the loop compute what the message means for its sender and for others |
| ServerCode.Server.FetchAndDispatch | src/IMServer.c:271-306 | one message is taken and handled, if there is one |
| ServerCode.Server.HandleNext | src/IMServer.c:275-319 | one round of the loop keeps handled and remaining messages together the same, and shortens the buffer |
| ServerCode.Server.TryToHandleMsg | src/IMServer.c:269-328 | the loop ends; it handles exactly the complete messages in the buffer, in order, leaves the residue, adds to the reader's log exactly what they say, as far as there is memory to build it, and raises the sign by one exactly if somebody was given a frame |
| ServerCode.Server.NotifyWriter | src/IMServer.c:321-327 | the sign goes up by one exactly if something was delivered |
| ServerCode.Server.RemoveFromList | src/IMServer.c:214-229 | the loop removes the first client with the socket, and the count follows |
| ServerCode.Server.UserLogout | src/IMServer.c:212-262 | exactly this client leaves the list, its socket is closed, and the whole is a stretch of the writer's steps that keeps the registry invariant |
| ServerCode.Server.TellOthers | src/IMServer.c:231-249 | without memory for the notice nobody is told; otherwise it goes into the writer's log and exactly those on the list that it is for get it once, or nobody if there is no memory for the list |
| ServerCode.Server.RaiseSign | src/IMServer.c:256-261 | the sign goes up exactly if somebody was told |
| ServerCode.Server.FlushLoop | src/IMServer.c:494-505 | each client of the snapshot that has not failed is flushed exactly once, of as much as its socket takes, and nobody else is touched |
| ServerCode.Server.WritePass | src/IMServer.c:485-527 | without memory for the list the thread ends; otherwise once through the writer's loop is one pass, the one that the answers lead to, ending in a wait exactly if the sign is down |
| ServerCode.Server.AfterWait | src/IMServer.c:523-524 | the sign is cleared, after the wait and nowhere else in the loop |
| ServerCode.Server.ReadOne | src/IMServer.c:438-449 | if nothing was read the client gets the mark of failure and nothing else changes; after data or an error all complete messages that are then in the buffer have been handled, in order, and the residue is left |
| ServerCode.Server.ReadPass | src/IMServer.c:388-465 | without memory for the polling list the thread ends; otherwise once through the reader's loop is one pass, the one that the answers lead to: every client that was polled is dealt with as poll reported of it, nothing has come of any other, and no complete message is left in any reading buffer |
| ServerCode.Server.HandleListen | src/IMServer.c:545-574 | with a connection and memory a new client goes to the end of the list; without memory only its descriptor is in use; without a connection nothing changes |
| Framing.RunIsFaithful | src/entity/client_info.c:153-171 | for any run of arrivals and requests: fetched messages and buffer are the bytes received, fetched and still complete messages are the messages of the stream, and the remembered position is sound |
| Framing.FragmentationIndependence | src/entity/client_info.c:153-171 | two runs over the same bytes, cut in any two ways, fetch the same messages once drained |
| Framing.ResumedScan | src/entity/client_info.c:157-165 | the search from the remembered position finds what a full search would |
| Framing.FetchTakesTheFirst | src/entity/client_info.c:153-171 | a request yields the first message if and only if there is one, and leaves the rest |
| Bytes.SplitIsUnique | src/entity/client_info.c:153-171 | a list of messages followed by newline-free bytes is the only way to cut their concatenation |
| Bytes.MessagesAppend | src/entity/client_info.c:153-171 | more bytes only ever add messages at the end |
| Bytes.SplitRejoins | src/entity/client_info.c:153-171 | messages and residue together are the stream |
| Connection.ClientData.constructor | src/entity/client_info.c:48-110 | a new client has two empty, separate buffers and a name cut to 29 bytes |
| Connection.ClientData.FetchFromClient | src/entity/client_info.c:124-137 | as much as `Outcomes.ReadOf` says is read and appended to the reading buffer; after an error the buffer is as before; what the pool has lent to others stays with them |
| Connection.ClientData.FetchMsgFromClient | src/entity/client_info.c:153-171 | the object does on its chunked buffer what `Framing.Fetch` does on the byte string, the other buffer keeps its contents and its caches, and so does everybody else on the pool |
| Connection.ClientData.SendMsgToClient | src/entity/client_info.c:173-184 | the message, or the first part of it for whose nodes there is memory (`Outcomes.Written`), is appended to what is pending; caches lent to others stay with them |
| Connection.ClientData.FlushMessages | src/entity/client_info.c:186-202 | of what is pending as much goes to the socket as its writes accept (`Outcomes.SendUpTo`), all of it unless one fails; caches lent to others stay with them |
| Connection.ClientData.UpdateClientName | src/entity/client_info.c:112-122 | the name becomes the longest first part of the new one that has at most 29 bytes, all of it if it fits, and one without a newline stays so |
| Connection.ClientData.Release | src/entity/client_info.c:204-221 | exactly the caches of the two buffers go back |
| Connection.OthersStayApart | src/io/cache.c:51-133 | what a client does with its own loans leaves another client's loans in place, unaltered and apart from its own |
| Layers.OthersStand | src/entity/client_info.c:124-202 | among any number of clients on one pool, a step of one keeps every other one valid, as it was, and without a cache in common with any |
| Layers.FetchOne | src/entity/client_info.c:124-137 | on the object, this is what the step system calls `Fed`, or nothing after an error |
| Layers.HandleOne | src/IMServer.c:271-306 | on the object, fetching and handling a message is `Parsed` |
| Layers.GiveOne | src/entity/client_info.c:173-184 | on the object, this is `Given`, with exactly as much of the frame as there is memory for |
| Layers.RoomForWhole | src/io/buffer.c:302-341 | that is all of it if there is memory for the nodes it needs |
| Layers.GoesOutWhole | src/io/buffer.c:192-216 | and a flush writes all that is pending unless a write fails |
| Layers.FlushOne | src/entity/client_info.c:186-202 | on the object, this is `Flushed`, of all that is pending unless a write fails |
| Layers.FetchInto | src/entity/client_info.c:124-137 | `Fed` on one of many clients, while all keep standing for their values |
| Layers.HandleFrom | src/IMServer.c:271-306 | `Parsed` on one of many clients, likewise |
| Layers.GiveTo | src/entity/client_info.c:173-184 | `Given` on one of many clients, likewise |
| Layers.FlushOut | src/entity/client_info.c:186-202 | `Flushed` on one of many clients, likewise |
| Layers.Admit | src/IMServer.c:552-565 | a new client joins the others |
| Layers.Dismiss | src/entity/client_info.c:204-221 | a released client leaves the others as they were |
| Buffers.Buffer.WriteIntoBuffer | src/io/buffer.c:268-349 | the contents become old contents and a first part of the source, exactly as long as the room there was and the nodes there is memory for; -1 if it needs a node at once and there is none; new caches come from the pool and from nobody else |
| Buffers.Buffer.ReadIntoBuffer | src/io/buffer.c:82-181 | the contents become old contents and exactly what the reads deliver, each asked for the lesser of what is wanted and the room in the node, up to the first that fails, is short or meets the size, or after which there is no memory; -1 if and only if a read failed or the first node did; then chunks, offsets, contents and caches are those from before |
| Outcomes.WrittenAll | src/io/buffer.c:268-349 | all of the source is stored if and only if there is memory for the nodes that it needs |
| Outcomes.StoredIs | src/io/buffer.c:302-341 | with memory for k nodes and no more, those and the room there was are filled |
| Outcomes.ReadRounds | src/io/buffer.c:117-155 | the first read that fails, is short, brings enough, or after which there is no memory is the last: the result is an error exactly if it failed, and otherwise all that came before and what it brings |
| Outcomes.ReadsWhatWaits | src/io/buffer.c:117-155 | with memory, as many of the bytes that wait on a socket are taken as were asked for, in order |
| Outcomes.SomeWriteFails | src/io/buffer.c:192-216 | a write counts as failed only if the socket says so |
| Buffers.Buffer.Rollback | src/io/buffer.c:164-177 | the last offset is restored and every temporary chunk is back in the pool |
| Buffers.Buffer.ReadFromBuffer | src/io/buffer.c:221-266 | the first `size` bytes, or all there are, are returned and the rest stays |
| Buffers.Buffer.WriteFromBuffer | src/io/buffer.c:183-219 | exactly the prefix that the writes accept goes to the socket, all that was asked for unless one fails, and the rest stays |
| Buffers.Buffer.FindInBuffer | src/io/buffer.c:383-421 | the least position at or after the start that holds the byte, whichever chunk it and the start are in, or -1 |
| Buffers.FindInChunk | src/io/buffer.c:398-415 | the search of one chunk, with the start before, in or after it |
| Buffers.CheckCommandSuffix | src/entity/client_info.c:139-151 | the leftmost occurrence within the given bytes |
| Buffers.Buffer.BufferSize | src/io/buffer.c:423-439 | the sizes of the chunks add up to the length of the queue |
| Buffers.Buffer.Available | src/io/buffer.c:226-240 | the first pass finds how much of a request can be met |
| Buffers.Buffer.TakeNode | src/io/buffer.c:251-262 | bytes leave the first chunk, and an exhausted chunk leaves the list and gives its cache back |
| Buffers.Buffer.Destroy | src/io/buffer.c:63-80 | exactly the buffer's own caches go back to the pool |
| Buffers.AppendingStores | src/io/buffer.c:304-317 | filling the last chunk, on whichever list, keeps the invariant of an append under way |
| Buffers.AppendingEnds | src/io/buffer.c:344-348 | splicing the temporary list on gives a well-shaped list with the old and the new caches |
| Buffers.AppendingUndone | src/io/buffer.c:164-177 | dropping it and restoring the offset gives back the old chunks |
| Chunks.ChunkCount | src/io/buffer.c:91-155 | a well-shaped list has at most length / 512 + 2 chunks |
| Chunks.FlattenStoreLast | src/io/buffer.c:304-317 | bytes stored in the last chunk are bytes appended to the queue |
| Chunks.FlattenTakeFirst | src/io/buffer.c:251-262 | bytes taken from the first chunk are bytes taken from the front of the queue |
| Chunks.ShapeTakeFirst | src/io/buffer.c:251-262 | taking keeps the shape: only the first chunk is partly read, only the last partly written |
| CachePool.HighWater | src/io/cache.c:51-133 | over any run of requests and returns, the caches ever made of a class are as many as were outstanding at the busiest moment |
| CachePool.Pool.GetNewCache | src/io/cache.c:51-100 | a request is served by the smallest class that fits, with a clean cache nobody has, and refused if and only if it exceeds 2048 |
| CachePool.Pool.RecycleCache | src/io/cache.c:102-133 | the cache goes, zeroed, to the free list of its own class and to no other |
| CachePool.Pool.MakeSureCacheMm | src/io/cache.c:39-49 | the free lists exist, one for each of the six sizes |
| CachePool.CountIsPartition | src/io/cache.c:51-133 | every cache ever made of a size is either lent or free, never both |
| CachePool.BooksAllocate | src/io/cache.c:79-88 | making a cache keeps the books |
| CachePool.BooksReuse | src/io/cache.c:89-95 | reusing one keeps the books |
| CachePool.BooksRecycle | src/io/cache.c:107-128 | returning one keeps the books |
| CachePool.FindClass | src/io/cache.c:61-67 | the walk over the classes finds the smallest that fits |
| IntrusiveList.ListAddTail | include/collections/list.h:117-120 | the ring of `nodes` becomes the ring of `nodes + [n]` |
| IntrusiveList.ListAddBetween | include/collections/list.h:86-94 | the four pointers of an insertion |
| IntrusiveList.ListDel | include/collections/list.h:142-147 | exactly the one node leaves the ring |
| IntrusiveList.ListSplice | include/collections/list.h:193-216 | the ring becomes the concatenation of the two |
| IntrusiveList.ListEmpty | include/collections/list.h:188-191 | the pointer test tells whether there are nodes |
| IntrusiveList.ListForEach | include/collections/list.h:280-282 | the walk ends and meets each node once, in order |
| IntrusiveList.RingIsUnique | include/collections/list.h:64-66 | the pointers determine the sequence of nodes |
| Protocol.CreateP2p | src/entity/message.c:52-78 | the frame, for which the computed size is the exact length |
| Protocol.CreateSystem | src/entity/message.c:80-103 | the same for system messages |
| Protocol.PeerFrameBytes | src/entity/message.c:59-69 | the bytes of a frame: "FROM ", the sender, ": ", the text, a newline |
| Protocol.SystemFrameBytes | src/entity/message.c:87-96 | the same for system messages, with "FROM SYSTEM: " |
| Protocol.FrameIsRead | src/entity/message.c:59-69 | cutting a frame at its first colon gives back who sent it and what, for every name without a colon |
| Protocol.SystemReads | src/entity/message.c:87-96 | cut the same way, a system message reads like the text of a client called SYSTEM |
| Protocol.NoticeBytes | src/IMServer.c:185-240 | the texts of the two notices, for every name |
| Protocol.NoticesDiffer | src/IMServer.c:185-240 | no notice of a login is one of a logout |
| Protocol.LoginIs | src/IMServer.c:178-205 | a message is a login if and only if it begins with "LOGIN: "; the name is the rest of the line |
| Protocol.BroadcastIs | src/IMServer.c:280-288 | a message is a broadcast if and only if it begins with "TO-ALL:"; after "TO-ALL: " the text is the rest of the line |
| Protocol.PrivateIs | src/IMServer.c:289-303 | "TO-C-", a name without a colon, ": " and a text are a message with that text to that name |
| Protocol.Conversation | src/IMServer.c:269-319 | three concrete commands and the frames that others are sent for them |
| Protocol.TruncateIs | src/entity/client_info.c:112-122 | a name of up to 29 bytes is kept, of a longer one the first 29 |
| Protocol.PeerFrameIsMessage | src/entity/message.c:59-69 | a frame is one message if and only if name and text hold no newline |
| Protocol.SystemFrameIsMessage | src/entity/message.c:87-96 | the same for system messages |
| Protocol.PeerFrameInjective | src/entity/message.c:65-66 | given the sender, the frame determines the text |
| Protocol.HandleIsSound | src/IMServer.c:279-312 | whatever a client sends, it keeps a proper name and what is delivered is one frame, never back to the sender's name |
| Protocol.PrivateIsPrivate | src/entity/message.c:9-23 | a private message reaches exactly the clients of that name other than its sender; no target that can be typed is the broadcast marker |
| Protocol.BroadcastIsToOthers | src/entity/message.c:9-23 | a broadcast, and a login notice, reach exactly those who have logged in under another name and have not failed |
| Protocol.ParseByPrefix | src/IMServer.c:280-306 | the commands do not shadow one another |
| ChatClient.EncodeInput | src/IMClient.c:113-137 | the bytes of the buffer from the write position on are the encoded input |
| ChatClient.PromisedIs | src/IMClient.c:99-128 | "TO-C-", a name of fewer than 30 bytes without a colon, ": " and a text promise a message with that text to that name |
| ChatClient.PromisedOnlyIf | src/IMClient.c:118-133 | every other line is promised to everybody as it is |
| ChatClient.LineRoundTrip | src/IMClient.c:114-137 | for every line and every way in which reads of at most 1016 bytes, some of them perhaps empty, can bring it: one message is sent, and the server sees in it what the user was promised if and only if no later read is given the broadcast prefix and the first is given one exactly if it should be |
| ChatClient.FitsOneRead | src/IMClient.c:116-116 | a line of fewer than 1016 bytes can come in one read; a longer one cannot |
| ChatClient.OneReadRoundTrip | src/IMClient.c:118-133 | for a line that one read brings: the promise holds if and only if the client has not let through a name with a colon; then the name ends at the colon |
| ChatClient.ReadRoundTrip | src/IMClient.c:114-137 | for a read that brings any number of whole lines: which of them the server understands as promised, each if and only if |
| ChatClient.LongLineGrows | src/IMClient.c:116-133 | a concrete line of 1016 bytes whose text grows by a prefix |
| ChatClient.EmptyReadPublishes | src/IMClient.c:116-133 | a concrete line to one person, after an empty read, that goes to everybody |
| ClientInput.AnyReads | src/IMClient.c:113-137 | for all reads of anything typed: the server gets one message for each complete line, and sees in it what the user was promised if and only if no prefix has come into a line to one person, and into any other just one with nothing but prefixes typed in front of it |
| ClientInput.LineByLine | src/IMClient.c:114-137 | for lines that come one by one, that is so for exactly those whose name the client has not let through with a colon in it |
| ClientInput.CommandCutInTwo | src/IMClient.c:116-133 | a concrete read that ends in the middle of the next line's command, so that the line is ignored |
| ChatClient.SecondLineIgnored | src/IMClient.c:116-133 | a concrete read of two lines, of which the second is ignored |
| ChatClient.ColonInNameMisdirects | src/IMClient.c:119-128 | a concrete line for which the promise is missed |
| ChatClient.LoginRoundTrip | src/IMClient.c:56-66 | the login gives the client its name, cut to 29 bytes |
| AsWritten.FetchAgreesIff | src/entity/client_info.c:153-171 | to the letter, the right message is fetched if and only if there is none or the first ends in the first chunk with no NUL before its end; otherwise nothing is |
| AsWritten.LongMessageStalls | src/io/buffer.c:395-420 | to the letter, over every run of arrivals and requests: once the first chunk is full and holds no newline, or holds a NUL before any newline, no request ever fetches anything, while everything that arrives is kept and, once a newline is there, a message is to be fetched |
| AsWritten.StallsIff | src/io/buffer.c:395-420 | and that is so if and only if the first chunk is like that |
| AsWritten.AppendToAppends | src/io/buffer.c:117-155 | what a run appends to the chunks is appended to the queue |
| AsWritten.LineAcrossChunks | src/io/buffer.c:395-420 | a concrete line of 513 bytes |
| AsWritten.RollbackAgreesIff | src/io/buffer.c:164-168 | to the letter, a failed read restores the offsets if and only if the last chunk had room |
| AsWritten.WritesAgreeIff | src/io/buffer.c:192-216 | to the letter, the write loop, over any number of chunks and their removal, does what it should if and only if it meets no failing write |
| AsWritten.FailureRepeatsAByte | src/io/buffer.c:197-204 | to the letter, the write after a failing one begins with a byte already written |
| AsWritten.ClassesAgreeIff | src/io/cache.c:39-67 | with the overlong list of classes, requests up to 2048 are served right, and larger ones refused if and only if no entry behind the array passes for a larger size |

## Left out

- Buffers.Buffer: its chunk list and the caches in it are sequences of records in a field, not nodes on the heap; writes into a chunk and the aliasing of list nodes are therefore not captured there. The list operations themselves are proved on the heap in `IntrusiveList`, as the same changes to the sequence of nodes.
- CachePool.Pool: likewise keeps its free lists as sequences of records; its spin lock makes each call one step.
- ServerSteps.Apply: takes the test of a client's mark and name together with the write into its buffer as one step, and the building of a frame together with the handling of its message.
- ServerSteps.Remove: clients are numbers, so that what is read from the memory of a released client is not captured; when that happens is (`Released`).
- ServerCode.Server.FetchFromClient: has the outcome that `Environment.World` gives it, as do the stores and flushes of `ServerCode.Server`; that the objects of `Connection` do just this to any number of clients on one pool, and how much of it, is proved in `Layers` and `Outcomes`. The answers are given for one pass at a time.
- IntrusiveList: no other module uses it; the queue and the pool do on sequences what it proves of the pointers.
- EndToEnd.SessionIsHeard: is about sessions all of whose lines are given the prefix as they should be; which those are, for any reads, is `ClientInput.AnyReads`.
- Socket set-up, address parsing, `poll`, `ioctl`, `accept` and `close` (`src/net_util.c`, both `main` functions but for the encoder): their results are parameters.
- The start of the reading and writing threads by the first connection: in the model they are there from the start, with an empty list.
- The end of the server and of its threads, `is_running`, and `release_server_info`.
- The length of the writer's timed wait, and whether a thread ever gets its turn: the wait may end at any time, and all statements are about safety.
- C strings: names and texts are byte sequences without a newline; NUL bytes in the input, the search of a read of exactly 1016 bytes beyond its end, `sprintf` and `strcpy` into fixed buffers, and targets of more than 29 bytes, which overrun a field, are not captured. In the model such a target is nobody's name.
- The width of `sign_to_flush_msg`, `client_count` and the buffer sizes, except in `AsWritten`.
- Failures inside `new_client_info`, beyond that the client is not registered and its descriptor stays in use.
- A read of standard input that fails, after which the client sends the first seven bytes of its prefix.
- Peer address, login time, client type, logging, and the log macros.
- `simple_index_func` (`src/io/buffer.c:370-381`), which nothing uses, and the parts of `include/collections/list.h` that nothing uses.
- The client's display of what it receives, which copies bytes.
