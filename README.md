# A verified model of the OS-IHW3 table server and its drivers

OS-IHW3 is a small TCP system written in C. It has two servers and three drivers.

**The servers.** Each server keeps a table of ten integers in memory and serves two kinds of request over a socket:
- `READ i` replies `VALUE v`;
- `WRITE i v` stores `v` in slot `i`.

Every request arrives as a 4-byte length followed by its text. The server accepts the request only when the length lies in `0 < len < 1024`.

- The server of stages 4-5 (`4-5/server.c`) replies `UPDATED` to a WRITE.
- The server of stages 6-7 (`6-7/server.c`) replies `UPDATED FROM old TO new`. It also keeps a registry of five observer sockets and broadcasts a line to each of them for every connect, READ, WRITE and disconnect. It tells observers from clients by the first message of the connection, the handshake.

**The drivers.**
- The reader (`6-7/reader.c`) reads random slots and prints the Fibonacci number of each value.
- The writers (`6-7/writer.c` and, with the same round, `8/writer.c`) read a random slot. When the reply is a value, they overwrite that slot with a random value below 40.
- The writer of stages 4-5 (`4-5/writer.c`) does the same without a handshake. It writes after any reply.

The Dafny project models the sequential core of all of this:

- `clib.dfy` (`CLib`): the C behaviour the code relies on. This covers `%d` formatting as in `snprintf`, `%d` scanning as in `sscanf` and `atoi` (ISO C11 7.21.6.1, 7.21.6.2, 7.22.1.2), C strings and `strncmp`. It proves the format/scan round trip.
- `protocol.dfy` (`Protocol`): the request, reply and broadcast texts, and how the server parses a request. It proves the round trips from driver to server and back.
- `framing.dfy` (`Framing`): the length check and the loop that reassembles a body from partial reads into the handler's 1024-byte buffer. The buffer is kept for the whole connection and never cleared.
- `observed_server.dfy` (`ObservedServer`): the 6-7 server, as a class.
  - Fields: `db` and `monitor` arrays, plus an `outbox` of `(socket, text)` sends.
  - Methods: `init_db`, `notify_observers`, the handler loop, and the handshake/registration block of `main`.
  - Beside them sit the functions that specify them: `Serve`, `Session`, `Registered`, `Broadcast`.
- `basic_server.dfy` (`BasicServer`): the 4-5 server in the same form, with no observers and no handshake.
- `client.dfy` (`Client`): what the drivers share.
  - A request goes out as a `send` of its length and a `send` of its text.
  - The reply is read into a buffer that is cleared first.
  - A driver runs rounds until a send or a read fails (`Run`).
  - A driver with a handshake sends it first, then runs its rounds (`Greeted`).
- `reader.dfy` (`Reader`), `writer.dfy` (`Writer`) and `basic_writer.dfy` (`BasicWriter`) model the three drivers. Each driver is written twice:
  - a specification function for one round (`Step`) and for the driver (`Task`);
  - a method with the round loop on a reused reply buffer (`Turn`, `ReaderTask`/`WriterTask`), proved equal to that function.

  `Reader.Fib` is the iterative `fib` on 32-bit integers. It is proved equal to the recursive Fibonacci function, and proved never to overflow for arguments up to 46.

**Inputs from outside.** The network and `rand()` are parameters:
- a server connection is a list of `Frame`s, one per turn of the request loop: a length and what each read of the body returned;
- a driver round gets:
  - the raw `rand()` draws;
  - for each request, whether its two sends went through in full;
  - what the read of the reply returned.

**Undefined behaviour.** When the C code reaches undefined behaviour, the model stops with an explicit outcome (`Faulted`, `Command.Undefined`, `Role.HandshakeOverflow`, `Status.Faulted`) rather than modelling memory corruption. The cases are:
- an index outside the table;
- a failed `sscanf` of a WRITE;
- a body of exactly `READ` or `WRITE`, which makes the server read past the `strdup` copy;
- a 50-byte handshake;
- `fib` of a value above 46.

**Where the code and the system's description differ, the model follows the code:**
- The READ broadcast has two spaces before the index (`read value %d from index  %d`).
- The registry initialiser `{-1}` empties slot 0 only. See Findings.
- A length field read that returns 1 to 3 bytes does not end the loop in the code. Only a read of 0 or less does (see Left out).
- An index outside the table is not rejected with an error. It is undefined behaviour, modelled as `Faulted`.
- Observers are never removed from the registry.
- A body cut short by a failed read is still dispatched, with the rest of the text taken from the bytes an earlier request left in the buffer (`Framing.TruncatedBodyKeepsStaleBytes`).

## Model

| member | source | states |
|---|---|---|
| `CLib.CString` | OS-IHW3-main/6-7/server.c:59-61 | the C string of a buffer is its prefix before the first NUL, holds no NUL, and is followed by a NUL when shorter than the buffer |
| `CLib.Dec` | OS-IHW3-main/6-7/server.c:71 | `%d` prints a non-empty text with no NUL, with a `-` first exactly for a negative number |
| `CLib.DecDigits` | OS-IHW3-main/6-7/server.c:71 | every character `%d` prints after the optional `-` is a digit |
| `CLib.PrintfNulFree` | OS-IHW3-main/6-7/server.c:71-72 | `snprintf` with a NUL-free format prints no NUL, so `strlen` sends all of it |
| `CLib.Atoi` | OS-IHW3-main/6-7/server.c:63 | `atoi` gives 0 when the text after the white space starts with neither a digit nor a sign |
| `CLib.ScanIntFails` | OS-IHW3-main/6-7/server.c:78 | the conversion fails exactly when no digit follows the white space and the optional sign |
| `CLib.Scanf` | OS-IHW3-main/6-7/server.c:78 | `sscanf` assigns at most as many values as its format has conversions |
| `CLib.AtoiOfDec` | OS-IHW3-main/6-7/server.c:63 | `atoi` reads back every number `%d` prints |
| `CLib.ScanIntOfDec` | OS-IHW3-main/6-7/server.c:78 | one `%d` scan reads back a printed number and stops at the first non-digit after it |
| `CLib.MatchRender` | OS-IHW3-main/6-7/server.c:78 | scanning the text a format printed, with the same format, returns every argument, provided each conversion is followed by a literal that is not a digit |
| `CLib.ScanfPrintf` | OS-IHW3-main/6-7/writer.c:112 | `sscanf(snprintf(f, args), f) == args` for such formats |
| `Protocol.ReadRequestFormat` | OS-IHW3-main/6-7/reader.c:92 | `"READ %d"` prints `READ ` followed by the decimal index |
| `Protocol.WriteRequestFormat` | OS-IHW3-main/6-7/writer.c:95 | `"WRITE %d %d"` prints `WRITE `, the index, a space and the value |
| `Protocol.ValueReplyFormat` | OS-IHW3-main/6-7/server.c:71 | `"VALUE %d"` prints the reply to a READ |
| `Protocol.UpdatedReplyFormat` | OS-IHW3-main/6-7/server.c:88 | `"UPDATED FROM %d TO %d"` prints the reply to a WRITE |
| `Protocol.ReadNoticeFormat` | OS-IHW3-main/6-7/server.c:74 | the READ broadcast, with two spaces before the index |
| `Protocol.WriteNoticeFormat` | OS-IHW3-main/6-7/server.c:92 | the WRITE broadcast `DB[i] updated to new (old value old)` |
| `Protocol.TwoNumbersFormat` | OS-IHW3-main/6-7/server.c:78 | `"%d %d"` has two conversions separated by a literal, so it scans back what it prints |
| `Protocol.ScanTwoNumbers` | OS-IHW3-main/6-7/server.c:78 | `sscanf("%d %d")` of `snprintf("%d %d", i, v)` gives back `i` and `v` |
| `Protocol.ReadRequestFits` | OS-IHW3-main/6-7/reader.c:92-94 | a READ of a slot index is 6 bytes with no NUL, so `strlen` counts all of it and the server accepts its length |
| `Protocol.WriteRequestFits` | OS-IHW3-main/6-7/writer.c:95-96 | a WRITE of a slot index and a value below 40 is 9 or 10 bytes with no NUL |
| `Protocol.ParseReadRequest` | OS-IHW3-main/6-7/server.c:62-63 | the server's `strncmp` and `atoi(request + 5)` read every READ a driver prints as a READ of that index |
| `Protocol.ParseWriteRequest` | OS-IHW3-main/6-7/server.c:76-78 | the server's `sscanf(request + 6, "%d %d")` reads every WRITE a driver prints as that index and value |
| `Protocol.ParseWriteVerb` | OS-IHW3-main/6-7/server.c:76-78 | any text after `WRITE ` is parsed by the two-number scan; fewer than two numbers is undefined |
| `Protocol.DecodeValueReply` | OS-IHW3-main/6-7/reader.c:110-111 | a `VALUE v` reply starts with `VALUE`, and `atoi` from byte 6 gives back `v` |
| `Protocol.ScanValueReply` | OS-IHW3-main/4-5/writer.c:86 | `sscanf(reply, "VALUE %d")` gives back `v` |
| `Protocol.DecodeUpdatedReply` | OS-IHW3-main/6-7/writer.c:110-112 | an `UPDATED FROM` reply passes the 12-byte `strncmp`, and its scan gives back old and new |
| `Protocol.ValueReplyNulFree` | OS-IHW3-main/6-7/server.c:71-72 | a VALUE reply holds no NUL, so `strlen` sends all of it |
| `Protocol.UpdatedReplyNulFree` | OS-IHW3-main/6-7/server.c:88-89 | an UPDATED FROM reply holds no NUL |
| `Protocol.ParseCommand` | OS-IHW3-main/6-7/server.c:62-78 | a request is a READ only if it starts `READ`, a WRITE only if it starts `WRITE` and not `READ`, and neither exactly when it starts with neither; undefined behaviour happens only for those two verbs, and for a READ only when the body is exactly `READ` |
| `Framing.ReadBody` | OS-IHW3-main/6-7/server.c:51-59 | the body loop keeps `0 <= result <= msg_len`, and leaves the buffer as `BodyBuffer` says: reads stored in order, a NUL at `msg_len` |
| `Framing.Fill` | OS-IHW3-main/6-7/server.c:51-58 | the body loop keeps the buffer size and ends with `result` between where it started and `msg_len` |
| `Framing.BodyBuffer` | OS-IHW3-main/6-7/server.c:59 | after the body the buffer holds a NUL at `msg_len` |
| `Framing.Request` | OS-IHW3-main/6-7/server.c:59-61 | the request `strdup` copies holds no NUL and is at most `msg_len` long |
| `Framing.FillContents` | OS-IHW3-main/6-7/server.c:52-58 | the loop reads `min(delivered, msg_len)` bytes and stores exactly them at the front, keeping the rest of the buffer |
| `Framing.BodyBufferContents` | OS-IHW3-main/4-5/server.c:38-46 | the buffer after a body: delivered bytes, earlier bytes up to `msg_len`, a NUL, earlier bytes |
| `Framing.CompleteBody` | OS-IHW3-main/6-7/server.c:52-58 | the loop reaches `msg_len` if and only if the reads deliver that many bytes before one fails |
| `Framing.RequestOfFullBody` | OS-IHW3-main/6-7/server.c:59-61 | a fully delivered NUL-free body is exactly the request `strdup` copies |
| `Framing.TruncatedBodyKeepsStaleBytes` | OS-IHW3-main/6-7/server.c:52-61 | a body cut short keeps the earlier buffer bytes up to `msg_len`, and they are dispatched with it |
| `Framing.CStringOfTerminated` | OS-IHW3-main/6-7/server.c:59 | text followed by its NUL reads back as itself, whatever follows |
| `ObservedServer.FirstFree` | OS-IHW3-main/6-7/server.c:209-214 | the slot registration picks holds -1 and every slot before it does not; there is none exactly when no slot holds -1 |
| `ObservedServer.ApplyOutcome` | OS-IHW3-main/6-7/server.c:62-93 | undefined exactly for an unparsable command or an index outside the table; otherwise only the slot a WRITE names can change, and a reply and a broadcast are made exactly for READ and WRITE |
| `ObservedServer.ServeOutcome` | OS-IHW3-main/6-7/server.c:61-95 | the table keeps its length, only a request starting `WRITE` changes it, a request without a reply changes nothing, and undefined behaviour happens only for requests starting `READ` or `WRITE` |
| `ObservedServer.SessionRecipients` | OS-IHW3-main/6-7/server.c:38-108 | every send of a session goes to the client or to a socket in the registry that is not -1 |
| `ObservedServer.SessionSaysGoodbye` | OS-IHW3-main/6-7/server.c:101-105 | a session that ends without undefined behaviour ends with the disconnect broadcast |
| `ObservedServer.GreetingRole` | OS-IHW3-main/6-7/server.c:203-207 | a NUL-free handshake of 1 to 49 bytes registers an observer exactly when it is `OBSERVER`, and gets a request handler otherwise |
| `ObservedServer.ServeRead` | OS-IHW3-main/6-7/server.c:62-75 | READ of slot `i` leaves the table unchanged, replies `VALUE table[i]` and broadcasts the read |
| `ObservedServer.ServeWrite` | OS-IHW3-main/6-7/server.c:76-93 | WRITE sets slot `i` only, replies `UPDATED FROM old TO new` with the pre-state value, which the writer decodes back, and broadcasts it |
| `ObservedServer.ServeOutOfRange` | OS-IHW3-main/6-7/server.c:82-83 | READ or WRITE of an index outside the table is undefined behaviour |
| `ObservedServer.ServeUnknown` | OS-IHW3-main/6-7/server.c:62-95 | a request gets no reply and no broadcast and leaves the table if and only if it starts with neither `READ` nor `WRITE` |
| `ObservedServer.ReadInitial` | OS-IHW3-main/6-7/server.c:22-26 | after `init_db` slot `i` reads back `i + 1` |
| `ObservedServer.ReadAfterWrite` | OS-IHW3-main/6-7/server.c:67 | a READ after a WRITE of the same slot replies with the value written |
| `ObservedServer.BadLengthCloses` | OS-IHW3-main/6-7/server.c:96-105 | a length outside `0 < len < 1024` ends the loop with no reply, the table as it was, and the one disconnect broadcast |
| `ObservedServer.SessionStop` | OS-IHW3-main/6-7/server.c:45-48 | a failed length read ends the session with the disconnect broadcast |
| `ObservedServer.SessionSkipsUnknown` | OS-IHW3-main/6-7/server.c:62-95 | a request with another verb sends nothing, keeps the table, and the loop goes on |
| `ObservedServer.Server.AsWritten` | OS-IHW3-main/6-7/server.c:19 | the globals as the program starts: a zero table and the registry `[-1, 0, 0, 0, 0]` |
| `ObservedServer.Server.Intended` | OS-IHW3-main/6-7/server.c:19 | the globals with every registry slot empty |
| `ObservedServer.Server.InitDb` | OS-IHW3-main/6-7/server.c:22-26 | `db[i] == i + 1` for every slot |
| `ObservedServer.Server.Notify` | OS-IHW3-main/6-7/server.c:28-36 | one send per slot not holding -1, in slot order, the registry untouched |
| `ObservedServer.Server.Register` | OS-IHW3-main/6-7/server.c:208-215 | the socket goes into the first slot holding -1; no other slot changes; no change when none is free |
| `ObservedServer.Server.HandleRequest` | OS-IHW3-main/6-7/server.c:62-95 | the table and the sends after one request are those `Serve` gives, and nothing changes on undefined behaviour |
| `ObservedServer.Server.Execute` | OS-IHW3-main/6-7/server.c:64-93 | the READ and WRITE branches update `db` and the outbox as `Apply` says |
| `ObservedServer.Server.ServeFrame` | OS-IHW3-main/6-7/server.c:50-61 | one turn: the body into the buffer, then the request it holds |
| `ObservedServer.Server.ServeConnection` | OS-IHW3-main/6-7/server.c:38-108 | `handle_client` leaves the table and sends of `Session` from a zero buffer |
| `ObservedServer.Server.RequestLoop` | OS-IHW3-main/6-7/server.c:43-100 | the loop carries out the session it was started on |
| `ObservedServer.Server.Turn` | OS-IHW3-main/6-7/server.c:50-95 | one request of the loop, kept in step with the session |
| `ObservedServer.Server.Hangup` | OS-IHW3-main/6-7/server.c:101-105 | the end of the loop adds the disconnect broadcast |
| `ObservedServer.Server.Accept` | OS-IHW3-main/6-7/server.c:199-232 | the connect broadcast goes first; the handshake classifies the connection; only an `OBSERVER` handshake registers, and nothing else changes the registry |
| `ObservedServer.BroadcastRecipients` | OS-IHW3-main/6-7/server.c:30-33 | a broadcast sends once per occupied slot, to exactly the sockets in the registry, with the message unchanged |
| `ObservedServer.BroadcastSnoc` | OS-IHW3-main/6-7/server.c:30-33 | the broadcast over one more slot adds that slot's send at the end |
| `ObservedServer.RegisterFirstFree` | OS-IHW3-main/6-7/server.c:209-214 | registration writes the first slot holding -1 and no other, or changes nothing when none holds -1 |
| `ObservedServer.FirstFreeIs` | OS-IHW3-main/6-7/server.c:209-213 | a slot holding -1 with none before it is the one the loop breaks at |
| `ObservedServer.RegisterInOrder` | OS-IHW3-main/6-7/server.c:209-214 | observers registering into a run of empty slots fill them in arrival order |
| `ObservedServer.BroadcastFilled` | OS-IHW3-main/6-7/server.c:30-33 | a registry of observers followed by empty slots broadcasts to each observer once, in slot order |
| `ObservedServer.OnlyOneObserverEver` | OS-IHW3-main/6-7/server.c:19 | from the registry as written, the first observer takes slot 0 and every later one is dropped |
| `ObservedServer.FullRegistryStays` | OS-IHW3-main/6-7/server.c:209-214 | a registry with no slot holding -1 never changes |
| `ObservedServer.AsWrittenBroadcast` | OS-IHW3-main/6-7/server.c:28-36 | with the registry as written, every broadcast also goes four times to socket 0 |
| `ObservedServer.IntendedRegistryServesFive` | OS-IHW3-main/6-7/server.c:208-215 | from an empty registry up to five observers register in order and each gets every broadcast once |
| `BasicServer.ServeRead` | OS-IHW3-main/4-5/server.c:49-59 | READ replies `VALUE table[i]` and changes nothing |
| `BasicServer.ServeWrite` | OS-IHW3-main/4-5/server.c:60-71 | WRITE sets slot `i` only and replies exactly `UPDATED` |
| `BasicServer.ApplyOutcome` | OS-IHW3-main/4-5/server.c:49-72 | undefined exactly for an unparsable command or an index outside the table; otherwise only the slot a WRITE names can change, and a reply is made exactly for READ and WRITE |
| `BasicServer.ServeOutcome` | OS-IHW3-main/4-5/server.c:48-73 | the table keeps its length, only a request starting `WRITE` changes it, a request without a reply changes nothing, and undefined behaviour happens only for requests starting `READ` or `WRITE` |
| `BasicServer.ServeOutOfRange` | OS-IHW3-main/4-5/server.c:54 | an index outside the table is undefined behaviour |
| `BasicServer.ServeUnknown` | OS-IHW3-main/4-5/server.c:49-73 | no reply and the table kept if and only if neither verb matches |
| `BasicServer.BadLengthCloses` | OS-IHW3-main/4-5/server.c:37 | a length outside the window ends the loop with no reply and the table as it was |
| `BasicServer.SessionSkipsUnknown` | OS-IHW3-main/4-5/server.c:49-73 | a request with another verb sends nothing and the loop goes on |
| `BasicServer.SessionRepliesToClient` | OS-IHW3-main/4-5/server.c:30-78 | every send of a session goes to the client's own socket, at most one per request |
| `BasicServer.ReadInitial` | OS-IHW3-main/4-5/server.c:19-23 | after `init_db` slot `i` reads back `i + 1` |
| `BasicServer.ReadAfterWrite` | OS-IHW3-main/4-5/server.c:66 | a READ after a WRITE of the same slot replies with the value written |
| `BasicServer.Server.constructor` | OS-IHW3-main/4-5/server.c:14 | the table as the program starts |
| `BasicServer.Server.InitDb` | OS-IHW3-main/4-5/server.c:19-23 | `database[i] == i + 1` for every slot |
| `BasicServer.Server.Execute` | OS-IHW3-main/4-5/server.c:49-72 | the READ and WRITE branches update the table and the outbox as `Apply` says |
| `BasicServer.Server.ServeFrame` | OS-IHW3-main/4-5/server.c:37-48 | one turn: the body into the buffer, then the request it holds |
| `BasicServer.Server.ServeConnection` | OS-IHW3-main/4-5/server.c:25-82 | `handle_client` leaves the table and sends of `Session`; the first bytes of the connection are already a length field |
| `BasicServer.Server.RequestLoop` | OS-IHW3-main/4-5/server.c:30-78 | the loop carries out the session it was started on |
| `BasicServer.Server.Turn` | OS-IHW3-main/4-5/server.c:37-73 | one request of the loop, kept in step with the session |
| `Client.Receive` | OS-IHW3-main/6-7/reader.c:105-109 | `memset`, the read and the NUL leave the buffer holding the bytes read followed by zeros |
| `Client.ReplyBuffer` | OS-IHW3-main/6-7/reader.c:105-109 | the buffer after the read holds the bytes received, then zeros up to its size |
| `Client.ReplyBufferText` | OS-IHW3-main/6-7/writer.c:87-90 | a NUL-free reply reads back from the buffer as itself |
| `Client.BufferOfValueReply` | OS-IHW3-main/6-7/writer.c:91-92 | the buffer of a `VALUE v` reply passes the prefix test, and `atoi(buffer + 6)` is `v` |
| `Client.SendsOfRequest` | OS-IHW3-main/6-7/reader.c:94-103 | a request goes out as its length and then, if that went through, all of its text; the sends are framed |
| `Client.TwoRequests` | OS-IHW3-main/6-7/writer.c:76-104 | a READ and a WRITE that go through send length, text, length, text |
| `Client.FramedAppend` | OS-IHW3-main/6-7/writer.c:78-104 | framed sends followed by framed sends are framed |
| `Client.RunStatus` | OS-IHW3-main/6-7/reader.c:83-121 | the driver runs on if and only if every round does; when it stops, it stops with the status of a round |
| `Client.StopsAtFailure` | OS-IHW3-main/6-7/reader.c:95-120 | rounds after one that fails have no effect: the driver has left its loop |
| `Client.RunFramed` | OS-IHW3-main/6-7/writer.c:66-124 | when every round frames its requests, so does the driver |
| `Client.RunNoHandshake` | OS-IHW3-main/4-5/writer.c:60-115 | when no round sends a handshake, the driver does not either |
| `Client.Greeted` | OS-IHW3-main/6-7/reader.c:76-81 | a driver with a handshake sends it first, whether or not it went through |
| `Client.GreetedSends` | OS-IHW3-main/6-7/reader.c:76-83 | when every round frames its requests and sends no handshake, the handshake goes out once, first, and every later send is framed |
| `Reader.FibFromIs` | OS-IHW3-main/6-7/reader.c:31-35 | sliding the pair from (F(i), F(i+1)) k times gives F(i+k) |
| `Reader.FibMonotone` | OS-IHW3-main/6-7/reader.c:31-35 | the Fibonacci numbers never decrease |
| `Reader.FibFitsExactly` | OS-IHW3-main/6-7/reader.c:32 | F(46) is below 2^31 and F(47) is not: 46 is the last argument that does not overflow |
| `Reader.FibFits` | OS-IHW3-main/6-7/reader.c:32 | every F(i) with `i <= 46` is an `int` |
| `Reader.Fib` | OS-IHW3-main/6-7/reader.c:23-38 | the loop on 32-bit integers returns F(n) for every `0 <= n <= 46` and 1 for a negative `n` (`FibResult(n)`), with no overflow |
| `Reader.Turn` | OS-IHW3-main/6-7/reader.c:84-120 | one round on the reused buffer does what `Step` says |
| `Reader.ReaderTask` | OS-IHW3-main/6-7/reader.c:76-121 | the driver from its handshake on does what `Task` says |
| `Reader.StepSends` | OS-IHW3-main/6-7/reader.c:88-103 | each round asks for a slot in `[0, 10)` with `READ i`, framed by its `strlen` |
| `Reader.TaskSends` | OS-IHW3-main/6-7/reader.c:76-81 | `READER` is sent once and first; every later send is framed and none is a handshake |
| `Reader.GreetingServed` | OS-IHW3-main/6-7/reader.c:76-77 | the `READER` handshake, received in one piece, gets a request handler from the 6-7 server |
| `Reader.StepReports` | OS-IHW3-main/6-7/reader.c:110-116 | a reply starting `VALUE` yields the slot, its `atoi` value and its Fibonacci number; any other reply is echoed |
| `Reader.StepStops` | OS-IHW3-main/6-7/reader.c:95-120 | a round ends the driver's loop if and only if a send or the read fails, and reaches undefined behaviour if and only if the value is above 46 |
| `Reader.ReadsTable` | OS-IHW3-main/6-7/reader.c:110-113 | against the server's reply, a round reports the slot's value and its Fibonacci number |
| `Writer.Turn` | OS-IHW3-main/6-7/writer.c:66-124 | one round on the reused buffer does what `Step` says |
| `Writer.WriterTask` | OS-IHW3-main/8/writer.c:56-115 | the driver from its handshake on does what `Task` says |
| `Writer.StepSends` | OS-IHW3-main/6-7/writer.c:70-104 | index in `[0, 10)` and value in `[0, 40)`; READ, then WRITE only after a `VALUE` reply; all framed |
| `Writer.WriteFollowsValue` | OS-IHW3-main/8/writer.c:85-96 | a WRITE is sent if and only if the READ got a `VALUE` reply, and it names the READ's slot |
| `Writer.StepReports` | OS-IHW3-main/8/writer.c:99-104 | a report is made if and only if the WRITE's reply starts `UPDATED FROM`, and it carries the scanned numbers |
| `Writer.StepStops` | OS-IHW3-main/6-7/writer.c:78-122 | a round ends the driver's loop if and only if a send or a read it makes fails |
| `Writer.TaskSends` | OS-IHW3-main/6-7/writer.c:59-64 | `WRITER` is sent once and first; every later send is framed and none is a handshake |
| `Writer.GreetingServed` | OS-IHW3-main/6-7/writer.c:59-60 | the `WRITER` handshake, received in one piece, gets a request handler from the 6-7 server |
| `Writer.RoundOnReplies` | OS-IHW3-main/6-7/writer.c:76-113 | with replies `VALUE old` and `UPDATED FROM old TO new`, the round sends both requests and reports old and new |
| `Writer.RoundAgainstServer` | OS-IHW3-main/6-7/server.c:62-93 | against the server's own replies, the round reports the slot's previous value and the value written |
| `Writer.TableStaysInRange` | OS-IHW3-main/6-7/writer.c:70-71 | the initial table and every writer's WRITE keep all slots in `[0, 40)`, so no READ reply makes the reader's `fib` overflow |
| `BasicWriter.Turn` | OS-IHW3-main/4-5/writer.c:60-115 | one round on the reused buffer does what `Step` says; the old value is scanned before the buffer is overwritten |
| `BasicWriter.WriterTask` | OS-IHW3-main/4-5/writer.c:30-120 | the driver does what `Task` says |
| `BasicWriter.StepSends` | OS-IHW3-main/4-5/writer.c:64-98 | index in `[0, 10)` and value in `[0, 40)`; WRITE to the same slot after any reply to the READ; all framed |
| `BasicWriter.StepReports` | OS-IHW3-main/4-5/writer.c:100-106 | a report is made if and only if the WRITE's reply is exactly `UPDATED`, with the old value scanned from the READ's reply |
| `BasicWriter.StepStops` | OS-IHW3-main/4-5/writer.c:72-114 | a round ends the driver's loop if and only if a send or a read it makes fails |
| `BasicWriter.TaskSends` | OS-IHW3-main/4-5/writer.c:69-79 | no handshake: the first send is the length field of a READ, which the server reads as its first length |
| `BasicWriter.RoundOnReplies` | OS-IHW3-main/4-5/writer.c:81-106 | with replies `VALUE old` and `UPDATED`, the round sends both requests and reports old and new |
| `BasicWriter.RoundAgainstServer` | OS-IHW3-main/4-5/server.c:49-71 | against the server's own replies, the round reports the slot's previous value and the value written |

The following definitions model source code but only compute. Their properties are the contracts of the rows named beside them:
- `CLib.ScanInt` (OS-IHW3-main/6-7/server.c:78): `CLib.ScanIntFails`, `CLib.ScanIntOfDec`.
- `CLib.Pieces`, `CLib.Render` and `CLib.Printf` (OS-IHW3-main/6-7/server.c:71-72): `CLib.PrintfNulFree`, `CLib.MatchRender`, `CLib.ScanfPrintf`.
- `ObservedServer.Apply` and `ObservedServer.Serve` (OS-IHW3-main/6-7/server.c:61-95): `ObservedServer.ApplyOutcome`, `ObservedServer.ServeOutcome`, `ObservedServer.ServeRead`, `ObservedServer.ServeWrite`, `ObservedServer.ServeOutOfRange`, `ObservedServer.ServeUnknown`.
- `ObservedServer.Broadcast` and `ObservedServer.Sends` (OS-IHW3-main/6-7/server.c:28-36, 72-93): `ObservedServer.BroadcastRecipients`, `ObservedServer.BroadcastSnoc`, `ObservedServer.BroadcastFilled`, `ObservedServer.Server.Notify`.
- `ObservedServer.Session` (OS-IHW3-main/6-7/server.c:38-108): `ObservedServer.SessionRecipients`, `ObservedServer.SessionSaysGoodbye`, `ObservedServer.SessionStop`, `ObservedServer.SessionSkipsUnknown`, `ObservedServer.BadLengthCloses`, and the methods `ObservedServer.Server.ServeConnection` and `ObservedServer.Server.RequestLoop`.
- `BasicServer.Apply`, `BasicServer.Serve` and `BasicServer.Sends` (OS-IHW3-main/4-5/server.c:48-73): `BasicServer.ApplyOutcome`, `BasicServer.ServeOutcome`, `BasicServer.ServeRead`, `BasicServer.ServeWrite`, `BasicServer.ServeOutOfRange`, `BasicServer.ServeUnknown`.
- `BasicServer.Session` (OS-IHW3-main/4-5/server.c:30-78): `BasicServer.SessionRepliesToClient`, `BasicServer.SessionSkipsUnknown`, `BasicServer.BadLengthCloses`, and the methods `BasicServer.Server.ServeConnection` and `BasicServer.Server.RequestLoop`.
- `ObservedServer.Classify` (OS-IHW3-main/6-7/server.c:203-207): `ObservedServer.GreetingRole`, `ObservedServer.Server.Accept`.
- `ObservedServer.Registered` (OS-IHW3-main/6-7/server.c:208-215): `ObservedServer.RegisterFirstFree`, `ObservedServer.RegisterInOrder`, `ObservedServer.FullRegistryStays`.
- `Framing.Delivered` (OS-IHW3-main/6-7/server.c:52-58): `Framing.FillContents`, `Framing.CompleteBody`.
- `Client.RequestSends` (OS-IHW3-main/6-7/reader.c:94-103): `Client.SendsOfRequest`.
- `Client.Answer` (OS-IHW3-main/6-7/reader.c:95-109): `Client.ReplyBuffer`, `Client.BufferOfValueReply`.
- `Client.Run` (OS-IHW3-main/6-7/reader.c:83-121): `Client.RunStatus`, `Client.StopsAtFailure`, `Client.RunFramed`, `Client.RunNoHandshake`.
- `Reader.FibResult` (OS-IHW3-main/6-7/reader.c:23-38): `Reader.Fib`, against the recursive `Reader.F`.
- `Reader.Step` and `Reader.Task` (OS-IHW3-main/6-7/reader.c:76-121): `Reader.StepSends`, `Reader.StepReports`, `Reader.StepStops`, `Reader.TaskSends`, `Reader.ReadsTable`, and the methods `Reader.Turn` and `Reader.ReaderTask`.
- `Writer.Step` and `Writer.Task` (OS-IHW3-main/6-7/writer.c:59-124): `Writer.StepSends`, `Writer.WriteFollowsValue`, `Writer.StepReports`, `Writer.StepStops`, `Writer.TaskSends`, `Writer.RoundOnReplies`, `Writer.RoundAgainstServer`, and the methods `Writer.Turn` and `Writer.WriterTask`.
- `BasicWriter.Step` and `BasicWriter.Task` (OS-IHW3-main/4-5/writer.c:60-115): `BasicWriter.StepSends`, `BasicWriter.StepReports`, `BasicWriter.StepStops`, `BasicWriter.TaskSends`, `BasicWriter.RoundOnReplies`, `BasicWriter.RoundAgainstServer`, and the methods `BasicWriter.Turn` and `BasicWriter.WriterTask`.

## Left out

- Sockets: `socket`, `bind`, `listen`, `accept`, `connect` and `setsockopt`. The calls `send`, `recv` and `read` are replaced by their results:
  - on the servers, a `Frame` per turn and the `outbox`;
  - on the drivers, an `Exchange` per request and the list of `Wire` sends.
- A length field read that returns 1 to 3 bytes: the model reads the length field whole or not at all (`Frame.Closed`). The C code goes on with a partly filled `msg_len`.
- TCP message boundaries: a driver's single `read` is assumed to return one whole reply, as the drivers themselves assume.
- Threads and semaphores: each block guarded by `db_sem`, `writer_sem` or `observer_sem` is one atomic method. Interleavings between connections, and the ordering that `writer_sem` adds, are not modelled.
- `rand()`, `srand`, `sleep` and `usleep`: the draws are inputs. The model takes `% 10` and `% 40` of them, so the ranges are proved rather than assumed.
- Process-level code: `main` argument parsing, signal handlers, `malloc` failures, `pthread_create` failures, and all `printf`/`perror` logging. The driver results the logs print are kept as events.
- `8/observer.c`: it only connects, sends the literal `OBSERVER` and prints what arrives. The server's classification of that handshake is modelled (`ObservedServer.Server.Accept`).
- `CLib.Atoi`: does not model `int` overflow: values are unbounded integers. White space is the "C" locale set (space, `\t`, `\n`, `\v`, `\f`, `\r`); other locales are not modelled. The same holds for the `%d` scans.
- `Client.Greeted`: a handshake send is all or nothing. The drivers test only `send(...) == -1` (OS-IHW3-main/6-7/reader.c:77, OS-IHW3-main/6-7/writer.c:60, OS-IHW3-main/8/writer.c:57), so after a send that delivers only part of `READER` or `WRITER` the C code goes on into its loop. The model has no partial greeting, so `Reader.TaskSends` and `Writer.TaskSends` say the whole greeting went out.
- `Reader.Fib`: requires `n <= 46`. Above that, the C addition overflows, which is undefined. The driver model turns such a value into `Status.Faulted` instead of calling `fib`.
- The `old_value = atoi(buffer + 6)` of the 6-7 and 8 writers is computed and never used, so the model does not compute it.
- In the 6-7 and 8 writers, fewer than two numbers scanned from an `UPDATED FROM` reply leave the printed variables uninitialised. The same happens in the 4-5 writer when its `VALUE` scan fails. The model reports the list of numbers actually scanned.
- Undefined behaviour is modelled as an explicit outcome that ends the model's run, not as its effect on memory.

## Findings

| source | as written | input that shows it | evidently intended | confidence | as-written member | corrected member |
|---|---|---|---|---|---|---|
| OS-IHW3-main/6-7/server.c:19 | `int monitor_clients[MAX_CLIENTS] = {-1};` sets slot 0 to -1 and slots 1-4 to 0 | two observers connect: the first takes slot 0, and the second finds no slot holding -1 and is never registered. Every broadcast also goes four times to socket 0 | every slot starts at -1, so up to five observers register and each gets every broadcast once | high (not executed) | `ObservedServer.OnlyOneObserverEver` | `ObservedServer.IntendedRegistryServesFive` |
