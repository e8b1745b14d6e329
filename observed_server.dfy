/**
 * The server with observers: a table of ten integers, a registry of five
 * observer sockets, and the handlers that serve READ and WRITE requests and
 * broadcast every event to the observers.
 *
 * Each block the C code guards with a semaphore is one method here. What the
 * server sends is appended to `outbox`, a socket and a text per `send`.
 */
module ObservedServer {
  import opened CLib
  import opened Protocol
  import opened Framing

  const RegistrySize: nat := 5

  /** The registry's mark for a slot with no observer. */
  const NoObserver: int := -1

  /** The registry as its initialiser `{-1}` leaves it: only slot 0 holds -1, the others hold 0. */
  function AsWrittenRegistry(): seq<int>
  {
    [NoObserver, 0, 0, 0, 0]
  }

  /** The registry the initialiser was meant to produce: every slot empty. */
  function IntendedRegistry(): seq<int>
  {
    Vacant(RegistrySize)
  }

  /** `n` empty slots. */
  function Vacant(n: nat): seq<int>
  {
    seq(n, _ => NoObserver)
  }

  /** The slot registration writes to: the first that holds -1. */
  function FirstFree(slots: seq<int>): (k: Option<nat>)
    ensures k.Some? ==> k.value < |slots| && slots[k.value] == NoObserver
    ensures k.Some? ==> forall j :: 0 <= j < k.value ==> slots[j] != NoObserver
    ensures k.None? <==> NoObserver !in slots
  {
    if slots == [] then None
    else if slots[0] == NoObserver then Some(0)
    else match FirstFree(slots[1..])
      case None => None
      case Some(k) => Some(k + 1)
  }

  /** The registry after an observer registers; unchanged when no slot is free. */
  function Registered(slots: seq<int>, fd: int): seq<int>
  {
    match FirstFree(slots)
    case None => slots
    case Some(k) => slots[k := fd]
  }

  /** The sends of one broadcast: one per slot that does not hold -1, in slot order. */
  function Broadcast(slots: seq<int>, message: string): seq<Send>
  {
    if slots == [] then []
    else (if slots[0] != NoObserver then [(slots[0], message)] else []) + Broadcast(slots[1..], message)
  }

  /** The number of slots that are not empty. */
  function Occupied(slots: seq<int>): nat
  {
    if slots == [] then 0 else (if slots[0] != NoObserver then 1 else 0) + Occupied(slots[1..])
  }

  // ---------------------------------------------------------------------------
  // Requests

  /**
   * What a request does to the table, what it replies and what it
   * broadcasts. `Faulted` stands for undefined behaviour in the C code: an
   * index outside the table, or a request `ParseCommand` calls `Undefined`.
   */
  datatype Outcome = Served(table: seq<int>, reply: Option<string>, notice: Option<string>) | Faulted

  /** A parsed request against the table. */
  function Apply(table: seq<int>, cmd: Command): (o: Outcome)
    ensures o.Served? ==> |o.table| == |table|
  {
    match cmd
    case Read(i) =>
      if 0 <= i < |table| then Served(table, Some(ValueReply(table[i])), Some(ReadNotice(table[i], i)))
      else Faulted
    case Write(i, v) =>
      if 0 <= i < |table| then
        Served(table[i := v], Some(UpdatedReply(table[i], v)), Some(WriteNotice(i, v, table[i])))
      else Faulted
    case Unknown => Served(table, None, None)
    case Undefined => Faulted
  }

  /** The handler on the text of a request. */
  function Serve(table: seq<int>, request: string): Outcome
  {
    Apply(table, ParseCommand(request))
  }

  /**
   * A command is undefined behaviour exactly when it could not be parsed or
   * names a slot outside the table. Otherwise only the slot a WRITE names can
   * change, and a reply and a broadcast go out exactly for READ and WRITE.
   */
  lemma ApplyOutcome(table: seq<int>, cmd: Command)
    ensures var o := Apply(table, cmd);
      o.Faulted? <==> cmd.Undefined? || (!cmd.Unknown? && !(0 <= cmd.index < |table|))
    ensures var o := Apply(table, cmd);
      o.Served? ==>
        o.table == table || (cmd.Write? && 0 <= cmd.index < |table| && o.table == table[cmd.index := o.table[cmd.index]])
    ensures var o := Apply(table, cmd);
      o.Served? ==> (o.reply.Some? <==> !cmd.Unknown?) && (o.notice.Some? <==> !cmd.Unknown?)
  {
  }

  /**
   * Only a request starting `WRITE` changes the table, a request without a
   * reply changes nothing, and undefined behaviour needs one of the two verbs.
   */
  lemma ServeOutcome(table: seq<int>, request: string)
    ensures var o := Serve(table, request);
      o.Served? ==> |o.table| == |table| && (o.table == table || StartsWith(request, "WRITE"))
    ensures var o := Serve(table, request);
      o.Served? && o.reply.None? ==> o.table == table
    ensures var o := Serve(table, request);
      o.Faulted? ==> StartsWith(request, "READ") || StartsWith(request, "WRITE")
  {
    ApplyOutcome(table, ParseCommand(request));
  }

  /** The sends of a served request: the reply to the client, then the broadcast. */
  function Sends(fd: int, o: Outcome, slots: seq<int>): seq<Send>
    requires o.Served?
  {
    (if o.reply.Some? then [(fd, o.reply.value)] else []) +
    (if o.notice.Some? then Broadcast(slots, o.notice.value) else [])
  }

  // ---------------------------------------------------------------------------
  // Requests, against the text the drivers send

  /** READ replies with the slot's value, broadcasts it with its index, and changes nothing. */
  lemma ServeRead(table: seq<int>, index: int)
    requires 0 <= index < |table|
    ensures Serve(table, ReadRequest(index)) ==
      Served(table, Some(ValueReply(table[index])), Some(ReadNotice(table[index], index)))
  {
    ParseReadRequest(index);
    assert Serve(table, ReadRequest(index)) == Apply(table, Read(index));
  }

  /**
   * WRITE stores the value in its slot only, and reports the value it
   * replaced both to the client, in a reply the writers decode back into the
   * two numbers, and to the observers.
   */
  lemma ServeWrite(table: seq<int>, index: int, value: int)
    requires 0 <= index < |table|
    ensures var o := Serve(table, WriteRequest(index, value));
      o.Served? && |o.table| == |table| && o.table[index] == value &&
      (forall j :: 0 <= j < |table| && j != index ==> o.table[j] == table[j]) &&
      o.reply == Some(UpdatedReply(table[index], value)) &&
      o.notice == Some(WriteNotice(index, value, table[index])) &&
      UpdatedValues(o.reply.value) == [table[index], value]
  {
    ParseWriteRequest(index, value);
    assert Serve(table, WriteRequest(index, value)) == Apply(table, Write(index, value));
    DecodeUpdatedReply(table[index], value);
  }

  /** An index outside the table is undefined behaviour, for READ and WRITE alike. */
  lemma ServeOutOfRange(table: seq<int>, index: int, value: int)
    requires !(0 <= index < |table|)
    ensures Serve(table, ReadRequest(index)).Faulted? && Serve(table, WriteRequest(index, value)).Faulted?
  {
    ParseReadRequest(index);
    ParseWriteRequest(index, value);
  }

  /** A request with another verb gets no reply and no broadcast, and leaves the table alone. */
  lemma ServeUnknown(table: seq<int>, request: string)
    ensures Serve(table, request) == Served(table, None, None) <==>
      !StartsWith(request, "READ") && !StartsWith(request, "WRITE")
  {
  }

  /** Right after `init_db`, slot `i` reads back as `i + 1`. */
  lemma ReadInitial(index: int)
    requires 0 <= index < TableSize
    ensures Serve(InitialTable(), ReadRequest(index)) ==
      Served(InitialTable(), Some(ValueReply(index + 1)), Some(ReadNotice(index + 1, index)))
  {
    var t := InitialTable();
    assert t[index] == index + 1;
    ServeRead(t, index);
  }

  /** A READ after a WRITE of the same slot replies with the value written. */
  lemma ReadAfterWrite(table: seq<int>, index: int, value: int)
    requires 0 <= index < |table|
    ensures var w := Serve(table, WriteRequest(index, value));
      w.Served? && Serve(w.table, ReadRequest(index)) ==
        Served(w.table, Some(ValueReply(value)), Some(ReadNotice(value, index)))
  {
    ServeWrite(table, index, value);
    var t := Serve(table, WriteRequest(index, value)).table;
    ServeRead(t, index);
  }

  // ---------------------------------------------------------------------------
  // Connections

  /** What a session of requests leaves: the table, the sends, and whether it stayed defined. */
  datatype SessionEnd = SessionEnd(table: seq<int>, sent: seq<Send>, defined: bool)

  /**
   * The request loop of one client connection, from the table and the
   * handler's buffer: a closed connection or a length outside the window ends
   * it with the disconnect broadcast; undefined behaviour ends the model.
   */
  function Session(table: seq<int>, buf: seq<char>, slots: seq<int>, fd: int, frames: seq<Frame>): (r: SessionEnd)
    requires |buf| == BufferSize
    ensures |r.table| == |table|
    decreases |frames|
  {
    if frames == [] || frames[0].Closed? || !ValidLength(frames[0].msgLen) then
      SessionEnd(table, Broadcast(slots, DisconnectedNotice), true)
    else
      var f := frames[0];
      var buf' := BodyBuffer(buf, f.msgLen, f.parts);
      var o := Serve(table, CString(buf'));
      if o.Faulted? then SessionEnd(table, [], false)
      else
        var rest := Session(o.table, buf', slots, fd, frames[1..]);
        SessionEnd(rest.table, Sends(fd, o, slots) + rest.sent, rest.defined)
  }

  /** Every send of a session goes to the client or to an observer in the registry. */
  lemma {:induction false} SessionRecipients(table: seq<int>, buf: seq<char>, slots: seq<int>, fd: int, frames: seq<Frame>)
    requires |buf| == BufferSize
    ensures forall to, m | (to, m) in Session(table, buf, slots, fd, frames).sent ::
      to == fd || (to in slots && to != NoObserver)
    decreases |frames|
  {
    BroadcastRecipients(slots, DisconnectedNotice);
    if !(frames == [] || frames[0].Closed? || !ValidLength(frames[0].msgLen)) {
      var f := frames[0];
      var buf' := BodyBuffer(buf, f.msgLen, f.parts);
      var o := Serve(table, CString(buf'));
      if o.Served? {
        SessionRecipients(o.table, buf', slots, fd, frames[1..]);
        if o.notice.Some? {
          BroadcastRecipients(slots, o.notice.value);
        }
      }
    }
  }

  /** A session that ends without undefined behaviour ends with the disconnect broadcast. */
  lemma {:induction false} SessionSaysGoodbye(table: seq<int>, buf: seq<char>, slots: seq<int>, fd: int, frames: seq<Frame>)
    requires |buf| == BufferSize
    ensures var r := Session(table, buf, slots, fd, frames);
      r.defined ==> EndsWith(r.sent, Broadcast(slots, DisconnectedNotice))
    decreases |frames|
  {
    var r := Session(table, buf, slots, fd, frames);
    var bye := Broadcast(slots, DisconnectedNotice);
    if frames == [] || frames[0].Closed? || !ValidLength(frames[0].msgLen) {
      assert r.sent == bye;
      assert bye[|bye| - |bye|..] == bye;
    } else {
      var f := frames[0];
      var buf' := BodyBuffer(buf, f.msgLen, f.parts);
      var o := Serve(table, CString(buf'));
      if o.Served? {
        var rest := Session(o.table, buf', slots, fd, frames[1..]);
        assert r.sent == Sends(fd, o, slots) + rest.sent && r.defined == rest.defined;
        SessionSaysGoodbye(o.table, buf', slots, fd, frames[1..]);
        if rest.defined {
          EndsWithAppend(Sends(fd, o, slots), rest.sent, bye);
        }
      }
    }
  }

  /** `c` is the end of `s`. */
  predicate EndsWith(s: seq<Send>, c: seq<Send>)
  {
    |c| <= |s| && s[|s| - |c|..] == c
  }

  /** Helper for `SessionSaysGoodbye`: what ends `b` ends `a + b`. */
  lemma EndsWithAppend(a: seq<Send>, b: seq<Send>, c: seq<Send>)
    requires EndsWith(b, c)
    ensures EndsWith(a + b, c)
  {
    assert (a + b)[|a + b| - |c|..] == b[|b| - |c|..];
  }

  /** A session whose first frame closes the connection or has a bad length. */
  lemma SessionStop(table: seq<int>, buf: seq<char>, slots: seq<int>, fd: int, frames: seq<Frame>)
    requires |buf| == BufferSize
    requires frames == [] || frames[0].Closed? || !ValidLength(frames[0].msgLen)
    ensures Session(table, buf, slots, fd, frames) == SessionEnd(table, Broadcast(slots, DisconnectedNotice), true)
  {
  }

  /** Helper for the session lemmas: a first frame that carries a request is served, then the rest. */
  lemma SessionStep(table: seq<int>, buf: seq<char>, slots: seq<int>, fd: int, frames: seq<Frame>)
    requires |buf| == BufferSize
    requires frames != [] && frames[0].Frame? && ValidLength(frames[0].msgLen)
    ensures var buf' := BodyBuffer(buf, frames[0].msgLen, frames[0].parts);
      var o := Serve(table, CString(buf'));
      Session(table, buf, slots, fd, frames) ==
        if o.Faulted? then SessionEnd(table, [], false)
        else
          var rest := Session(o.table, buf', slots, fd, frames[1..]);
          SessionEnd(rest.table, Sends(fd, o, slots) + rest.sent, rest.defined)
  {
  }

  /**
   * A length outside `0 < len < 1024` ends the loop: no reply, the table as
   * it was, and the one disconnect broadcast.
   */
  lemma BadLengthCloses(table: seq<int>, buf: seq<char>, slots: seq<int>, fd: int, msgLen: int,
                        parts: seq<seq<char>>, rest: seq<Frame>)
    requires |buf| == BufferSize && !ValidLength(msgLen)
    ensures Session(table, buf, slots, fd, [Frame(msgLen, parts)] + rest) ==
      SessionEnd(table, Broadcast(slots, DisconnectedNotice), true)
  {
  }

  /**
   * A request with another verb is skipped: nothing is sent, the table is
   * unchanged, and the loop goes on with the next frame from the buffer the
   * body left.
   */
  lemma SessionSkipsUnknown(table: seq<int>, buf: seq<char>, slots: seq<int>, fd: int, frames: seq<Frame>)
    requires |buf| == BufferSize
    requires frames != [] && frames[0].Frame? && ValidLength(frames[0].msgLen)
    requires var request := CString(BodyBuffer(buf, frames[0].msgLen, frames[0].parts));
      !StartsWith(request, "READ") && !StartsWith(request, "WRITE")
    ensures Session(table, buf, slots, fd, frames) ==
      Session(table, BodyBuffer(buf, frames[0].msgLen, frames[0].parts), slots, fd, frames[1..])
  {
    SessionStep(table, buf, slots, fd, frames);
  }

  /** `whole` is what a session leaves when `sent` went out before it reached `table`, `buf` and `frames`. */
  ghost predicate Continues(whole: SessionEnd, sent: seq<Send>, table: seq<int>, buf: seq<char>,
                            slots: seq<int>, fd: int, frames: seq<Frame>)
  {
    |buf| == BufferSize &&
    var s := Session(table, buf, slots, fd, frames);
    whole == SessionEnd(s.table, sent + s.sent, s.defined)
  }

  /** A request taken off the connection and served: the session goes on from the new table and buffer. */
  lemma ContinuesServed(whole: SessionEnd, sent: seq<Send>, table: seq<int>, buf: seq<char>,
                        slots: seq<int>, fd: int, frames: seq<Frame>, buf': seq<char>, o: Outcome)
    requires Continues(whole, sent, table, buf, slots, fd, frames)
    requires frames != [] && frames[0].Frame? && ValidLength(frames[0].msgLen)
    requires buf' == BodyBuffer(buf, frames[0].msgLen, frames[0].parts)
    requires o == Serve(table, CString(buf')) && o.Served?
    ensures Continues(whole, sent + Sends(fd, o, slots), o.table, buf', slots, fd, frames[1..])
  {
    SessionStep(table, buf, slots, fd, frames);
    AppendAssociative(sent, Sends(fd, o, slots), Session(o.table, buf', slots, fd, frames[1..]).sent);
  }

  /** A request taken off the connection with undefined behaviour: the session ends there. */
  lemma ContinuesFaulted(whole: SessionEnd, sent: seq<Send>, table: seq<int>, buf: seq<char>,
                         slots: seq<int>, fd: int, frames: seq<Frame>, buf': seq<char>, o: Outcome)
    requires Continues(whole, sent, table, buf, slots, fd, frames)
    requires frames != [] && frames[0].Frame? && ValidLength(frames[0].msgLen)
    requires buf' == BodyBuffer(buf, frames[0].msgLen, frames[0].parts)
    requires o == Serve(table, CString(buf')) && o.Faulted?
    ensures whole == SessionEnd(table, sent, false)
  {
    SessionStep(table, buf, slots, fd, frames);
  }

  /**
   * A request taken off the connection, with the table and the sends it
   * leaves: the session goes on from them, or ends there on undefined
   * behaviour.
   */
  lemma ContinuesAfter(whole: SessionEnd, sent: seq<Send>, table: seq<int>, buf: seq<char>,
                       slots: seq<int>, fd: int, frames: seq<Frame>, buf': seq<char>, o: Outcome,
                       table': seq<int>, sent': seq<Send>)
    requires Continues(whole, sent, table, buf, slots, fd, frames)
    requires frames != [] && frames[0].Frame? && ValidLength(frames[0].msgLen)
    requires buf' == BodyBuffer(buf, frames[0].msgLen, frames[0].parts)
    requires o == Serve(table, CString(buf'))
    requires o.Served? ==> table' == o.table && sent' == sent + Sends(fd, o, slots)
    requires o.Faulted? ==> table' == table && sent' == sent
    ensures o.Served? ==> Continues(whole, sent', table', buf', slots, fd, frames[1..])
    ensures o.Faulted? ==> table' == whole.table && sent' == whole.sent && !whole.defined
  {
    if o.Served? {
      ContinuesServed(whole, sent, table, buf, slots, fd, frames, buf', o);
    } else {
      ContinuesFaulted(whole, sent, table, buf, slots, fd, frames, buf', o);
    }
  }

  /** The connection closed or sent a bad length: the session ends with the disconnect broadcast. */
  lemma ContinuesStop(whole: SessionEnd, sent: seq<Send>, table: seq<int>, buf: seq<char>,
                      slots: seq<int>, fd: int, frames: seq<Frame>)
    requires Continues(whole, sent, table, buf, slots, fd, frames)
    requires frames == [] || frames[0].Closed? || !ValidLength(frames[0].msgLen)
    ensures whole == SessionEnd(table, sent + Broadcast(slots, DisconnectedNotice), true)
  {
    SessionStop(table, buf, slots, fd, frames);
  }

  /** What the first bytes of a new connection make of it. */
  datatype Role =
    | Observer          // registered, no handler
    | Client            // gets a request handler
    | Dropped           // nothing received: the socket is closed
    | HandshakeOverflow // 50 bytes received: the NUL is written past the 50-byte buffer

  /** The handshake test on the bytes the single `recv` returned. */
  function Classify(received: seq<char>): Role
  {
    if |received| == 0 then Dropped
    else if |received| >= 50 then HandshakeOverflow
    else if CString(received) == "OBSERVER" then Observer
    else Client
  }

  /**
   * A greeting of 1 to 49 characters without a NUL, received in one piece, registers
   * an observer exactly when it is `OBSERVER`, and otherwise gets a request handler.
   */
  lemma GreetingRole(greeting: string)
    requires 0 < |greeting| < 50 && '\0' !in greeting
    ensures Classify(greeting) == Observer <==> greeting == "OBSERVER"
    ensures Classify(greeting) == Client <==> greeting != "OBSERVER"
  {
    assert CString(greeting) == greeting;
  }

  // ---------------------------------------------------------------------------
  // The server

  class Server {
    const db: array<int>
    const monitor: array<int>
    var outbox: seq<Send>

    ghost predicate Valid()
      reads this
    {
      db.Length == TableSize && monitor.Length == RegistrySize && db != monitor
    }

    /** The globals as the program starts: a zero table and the registry as written. */
    constructor AsWritten()
      ensures Valid() && fresh(db) && fresh(monitor)
      ensures db[..] == seq(TableSize, _ => 0) && monitor[..] == AsWrittenRegistry() && outbox == []
    {
      db := new int[TableSize](_ => 0);
      var m := new int[RegistrySize](_ => 0);
      m[0] := NoObserver;
      monitor := m;
      outbox := [];
      new;
      assert monitor[..] == [monitor[0], monitor[1], monitor[2], monitor[3], monitor[4]];
    }

    /** The globals with every registry slot empty, as the initialiser was meant to make them. */
    constructor Intended()
      ensures Valid() && fresh(db) && fresh(monitor)
      ensures db[..] == seq(TableSize, _ => 0) && monitor[..] == IntendedRegistry() && outbox == []
    {
      db := new int[TableSize](_ => 0);
      monitor := new int[RegistrySize](_ => NoObserver);
      outbox := [];
    }

    /** `init_db`. */
    method InitDb()
      requires Valid()
      modifies db
      ensures forall i :: 0 <= i < TableSize ==> db[i] == i + 1
      ensures db[..] == InitialTable()
    {
      var i := 1;
      while i < TableSize + 1
        invariant 1 <= i <= TableSize + 1
        invariant forall j :: 0 <= j < i - 1 ==> db[j] == j + 1
      {
        db[i - 1] := i;
        i := i + 1;
      }
    }

    /** `notify_observers`: one send per occupied slot, the registry untouched. */
    method Notify(message: string)
      requires Valid()
      modifies this
      ensures outbox == old(outbox) + Broadcast(monitor[..], message)
    {
      var i := 0;
      while i < RegistrySize
        invariant 0 <= i <= RegistrySize
        invariant outbox == old(outbox) + Broadcast(monitor[..i], message)
      {
        BroadcastSnoc(monitor[..i], monitor[i], message);
        assert monitor[..i + 1] == monitor[..i] + [monitor[i]];
        if monitor[i] != NoObserver {
          outbox := outbox + [(monitor[i], message)];
        }
        i := i + 1;
      }
      assert monitor[..RegistrySize] == monitor[..];
    }

    /** Registration of an observer socket, under the registry's semaphore. */
    method Register(fd: int)
      requires Valid()
      modifies monitor
      ensures monitor[..] == Registered(old(monitor[..]), fd)
    {
      var i := 0;
      while i < RegistrySize
        invariant 0 <= i <= RegistrySize
        invariant forall j :: 0 <= j < i ==> monitor[j] != NoObserver
        invariant monitor[..] == old(monitor[..])
      {
        if monitor[i] == NoObserver {
          FirstFreeIs(monitor[..], i);
          monitor[i] := fd;
          return;
        }
        i := i + 1;
      }
      assert NoObserver !in monitor[..];
    }

    /** One request of the handler loop, from its verb test to its broadcast. */
    method HandleRequest(fd: int, request: string) returns (defined: bool)
      requires Valid()
      modifies this, db
      ensures var o := Serve(old(db[..]), request);
        defined == o.Served? &&
        (defined ==> db[..] == o.table && outbox == old(outbox) + Sends(fd, o, monitor[..])) &&
        (!defined ==> db[..] == old(db[..]) && outbox == old(outbox))
    {
      defined := Execute(fd, ParseCommand(request));
    }

    /** The READ and WRITE branches of the handler, on a parsed request. */
    method Execute(fd: int, cmd: Command) returns (defined: bool)
      requires Valid()
      modifies this, db
      ensures var o := Apply(old(db[..]), cmd);
        defined == o.Served? &&
        (defined ==> db[..] == o.table && outbox == old(outbox) + Sends(fd, o, monitor[..])) &&
        (!defined ==> db[..] == old(db[..]) && outbox == old(outbox))
    {
      match cmd
      case Read(index) =>
        if !(0 <= index < TableSize) {
          return false;
        }
        var value := db[index];
        assert Apply(db[..], cmd) == Served(db[..], Some(ValueReply(value)), Some(ReadNotice(value, index)));
        AppendAssociative(outbox, [(fd, ValueReply(value))], Broadcast(monitor[..], ReadNotice(value, index)));
        outbox := outbox + [(fd, ValueReply(value))];
        Notify(ReadNotice(value, index));
        return true;
      case Write(index, newValue) =>
        if !(0 <= index < TableSize) {
          return false;
        }
        var oldValue := db[index];
        assert Apply(db[..], cmd) ==
          Served(db[..][index := newValue], Some(UpdatedReply(oldValue, newValue)), Some(WriteNotice(index, newValue, oldValue)));
        db[index] := newValue;
        AppendAssociative(outbox, [(fd, UpdatedReply(oldValue, newValue))], Broadcast(monitor[..], WriteNotice(index, newValue, oldValue)));
        outbox := outbox + [(fd, UpdatedReply(oldValue, newValue))];
        Notify(WriteNotice(index, newValue, oldValue));
        return true;
      case Unknown =>
        return true;
      case Undefined =>
        return false;
    }

    /** One turn of the request loop: the body into the handler's buffer, then the request. */
    method ServeFrame(fd: int, buffer: array<char>, f: Frame) returns (defined: bool, ghost o: Outcome)
      requires Valid() && buffer.Length == BufferSize
      requires f.Frame? && ValidLength(f.msgLen)
      modifies this, db, buffer
      ensures buffer[..] == BodyBuffer(old(buffer[..]), f.msgLen, f.parts) && monitor[..] == old(monitor[..])
      ensures o == Serve(old(db[..]), CString(buffer[..])) && defined == o.Served?
      ensures defined ==> db[..] == o.table && outbox == old(outbox) + Sends(fd, o, monitor[..])
      ensures !defined ==> db[..] == old(db[..]) && outbox == old(outbox)
    {
      var _ := ReadBody(buffer, f.msgLen, f.parts);
      o := Serve(db[..], CString(buffer[..]));
      defined := HandleRequest(fd, CString(buffer[..]));
    }

    /** `handle_client`: the request loop of one connection, then the disconnect broadcast. */
    method ServeConnection(fd: int, frames: seq<Frame>) returns (defined: bool)
      requires Valid()
      modifies this, db
      ensures var s := Session(old(db[..]), EmptyBuffer(), monitor[..], fd, frames);
        db[..] == s.table && outbox == old(outbox) + s.sent && defined == s.defined
    {
      var buffer := new char[BufferSize](_ => '\0');
      assert buffer[..] == EmptyBuffer();
      ghost var whole := Session(db[..], buffer[..], monitor[..], fd, frames);
      assert [] + whole.sent == whole.sent;
      defined := RequestLoop(fd, buffer, frames, whole);
    }

    /** The request loop on the handler's buffer; `whole` is the session it carries out. */
    method RequestLoop(fd: int, buffer: array<char>, frames: seq<Frame>, ghost whole: SessionEnd) returns (defined: bool)
      requires Valid() && buffer.Length == BufferSize
      requires Continues(whole, [], db[..], buffer[..], monitor[..], fd, frames)
      modifies this, db, buffer
      ensures db[..] == whole.table && outbox == old(outbox) + whole.sent && defined == whole.defined
    {
      ghost var base := outbox;
      ghost var sent: seq<Send> := [];
      var k := 0;
      assert frames[0..] == frames;
      while k < |frames|
        invariant 0 <= k <= |frames| && buffer.Length == BufferSize
        invariant outbox == base + sent
        invariant Continues(whole, sent, db[..], buffer[..], monitor[..], fd, frames[k..])
      {
        var f := frames[k];
        if f.Closed? || !ValidLength(f.msgLen) {
          break;
        }
        var ok;
        ok, sent := Turn(fd, buffer, frames[k..], whole, sent, base);
        if !ok {
          return false;
        }
        assert frames[k..][1..] == frames[k + 1..];
        k := k + 1;
      }
      Hangup(frames[k..], buffer, fd, whole, sent, base);
      return true;
    }

    /** One request of the loop, kept in step with the session it belongs to. */
    method Turn(fd: int, buffer: array<char>, frames: seq<Frame>, ghost whole: SessionEnd, ghost sent: seq<Send>,
                ghost base: seq<Send>)
      returns (defined: bool, ghost sent': seq<Send>)
      requires Valid() && buffer.Length == BufferSize
      requires frames != [] && frames[0].Frame? && ValidLength(frames[0].msgLen)
      requires Continues(whole, sent, db[..], buffer[..], monitor[..], fd, frames)
      requires outbox == base + sent
      modifies this, db, buffer
      ensures outbox == base + sent'
      ensures !defined ==> db[..] == whole.table && outbox == base + whole.sent && !whole.defined
      ensures defined ==> Continues(whole, sent', db[..], buffer[..], monitor[..], fd, frames[1..])
    {
      ghost var table := db[..];
      ghost var buf := buffer[..];
      ghost var slots := monitor[..];
      ghost var o;
      defined, o := ServeFrame(fd, buffer, frames[0]);
      sent' := if defined then sent + Sends(fd, o, slots) else sent;
      ContinuesAfter(whole, sent, table, buf, slots, fd, frames, buffer[..], o, db[..], sent');
      if defined {
        AppendAssociative(base, sent, Sends(fd, o, slots));
      }
    }

    /** The end of the loop: the socket is closed and the observers hear of it. */
    method Hangup(frames: seq<Frame>, buffer: array<char>, fd: int, ghost whole: SessionEnd, ghost sent: seq<Send>,
                  ghost base: seq<Send>)
      requires Valid() && buffer.Length == BufferSize
      requires frames == [] || frames[0].Closed? || !ValidLength(frames[0].msgLen)
      requires Continues(whole, sent, db[..], buffer[..], monitor[..], fd, frames)
      requires outbox == base + sent
      modifies this
      ensures db[..] == whole.table && outbox == base + whole.sent && whole.defined
    {
      ContinuesStop(whole, sent, db[..], buffer[..], monitor[..], fd, frames);
      Notify(DisconnectedNotice);
    }

    /**
     * What `main` does with a new connection: the connect broadcast, then the
     * handshake. An observer is registered; a client is handed to
     * `ServeConnection`; an empty handshake closes the socket.
     */
    method Accept(fd: int, received: seq<char>) returns (role: Role)
      requires Valid()
      modifies this, monitor
      ensures role == Classify(received)
      ensures outbox == old(outbox) + Broadcast(old(monitor[..]), ConnectedNotice)
      ensures role == Observer ==> monitor[..] == Registered(old(monitor[..]), fd)
      ensures role != Observer ==> monitor[..] == old(monitor[..])
    {
      Notify(ConnectedNotice);
      if |received| == 0 {
        return Dropped;
      }
      if |received| >= 50 {
        return HandshakeOverflow;
      }
      if CString(received) == "OBSERVER" {
        Register(fd);
        return Observer;
      }
      return Client;
    }
  }

  // ---------------------------------------------------------------------------
  // The registry

  lemma FirstFreeIs(slots: seq<int>, i: nat)
    requires i < |slots| && slots[i] == NoObserver
    requires forall j :: 0 <= j < i ==> slots[j] != NoObserver
    ensures FirstFree(slots) == Some(i)
  {
    assert slots[i] in slots;
  }

  lemma {:induction false} BroadcastSnoc(slots: seq<int>, slot: int, message: string)
    ensures Broadcast(slots + [slot], message) ==
      Broadcast(slots, message) + (if slot != NoObserver then [(slot, message)] else [])
  {
    if slots == [] {
      assert [] + [slot] == [slot];
    } else {
      assert (slots + [slot])[1..] == slots[1..] + [slot];
      BroadcastSnoc(slots[1..], slot, message);
    }
  }

  /** A broadcast reaches exactly the occupied slots, once per slot, with the message unchanged. */
  lemma {:induction false} BroadcastRecipients(slots: seq<int>, message: string)
    ensures |Broadcast(slots, message)| == Occupied(slots)
    ensures forall fd, m :: (fd, m) in Broadcast(slots, message) <==> m == message && fd in slots && fd != NoObserver
  {
    if slots != [] {
      BroadcastRecipients(slots[1..], message);
      assert forall fd :: fd in slots <==> fd == slots[0] || fd in slots[1..];
    }
  }

  /** Registration writes the socket into the first empty slot and changes no other slot. */
  lemma RegisterFirstFree(slots: seq<int>, fd: int)
    ensures |Registered(slots, fd)| == |slots|
    ensures NoObserver !in slots ==> Registered(slots, fd) == slots
    ensures NoObserver in slots ==>
      (exists k :: 0 <= k < |slots| && slots[k] == NoObserver &&
        (forall j :: 0 <= j < k ==> slots[j] != NoObserver) && Registered(slots, fd) == slots[k := fd])
  {
    var k := FirstFree(slots);
    if k.Some? {
      assert slots[k.value] == NoObserver && Registered(slots, fd) == slots[k.value := fd];
    }
  }

  /** Registering observers one after the other. */
  function RegisterAll(slots: seq<int>, fds: seq<int>): seq<int>
    decreases |fds|
  {
    if fds == [] then slots else RegisterAll(Registered(slots, fds[0]), fds[1..])
  }

  /**
   * With the registry as written, the first observer takes slot 0 and every
   * later one finds no slot holding -1: it is dropped.
   */
  lemma {:induction false} OnlyOneObserverEver(fds: seq<int>)
    requires fds != [] && fds[0] != NoObserver
    ensures RegisterAll(AsWrittenRegistry(), fds) == [fds[0], 0, 0, 0, 0]
  {
    var r := [fds[0], 0, 0, 0, 0];
    assert FirstFree(AsWrittenRegistry()) == Some(0);
    assert Registered(AsWrittenRegistry(), fds[0]) == r;
    FullRegistryStays(r, fds[1..]);
  }

  lemma {:induction false} FullRegistryStays(slots: seq<int>, fds: seq<int>)
    requires NoObserver !in slots
    ensures RegisterAll(slots, fds) == slots
    decreases |fds|
  {
    if fds != [] {
      FullRegistryStays(slots, fds[1..]);
    }
  }

  /** With the registry as written, every broadcast also goes four times to socket 0. */
  lemma AsWrittenBroadcast(fd: int, message: string)
    requires fd != NoObserver
    ensures Broadcast([fd, 0, 0, 0, 0], message) == [(fd, message)] + seq(4, _ => (0, message))
    ensures Broadcast(AsWrittenRegistry(), message) == seq(4, _ => (0, message))
  {
    var s := [fd, 0, 0, 0, 0];
    assert s[1..] == [0, 0, 0, 0] && s[1..][1..] == [0, 0, 0] && s[1..][1..][1..] == [0, 0];
    assert Broadcast([0], message) == [(0, message)];
    assert Broadcast([0, 0], message) == [(0, message), (0, message)];
    assert Broadcast([0, 0, 0], message) == [(0, message), (0, message), (0, message)];
    assert Broadcast([0, 0, 0, 0], message) == seq(4, _ => (0, message));
    assert AsWrittenRegistry()[1..] == [0, 0, 0, 0];
  }

  /**
   * With every slot empty at the start, up to five observers register in
   * arrival order and a broadcast reaches each of them exactly once, in that
   * order.
   */
  lemma IntendedRegistryServesFive(fds: seq<int>, message: string)
    requires |fds| <= RegistrySize && NoObserver !in fds
    ensures RegisterAll(IntendedRegistry(), fds) == fds + Vacant(RegistrySize - |fds|)
    ensures Broadcast(RegisterAll(IntendedRegistry(), fds), message) == seq(|fds|, k requires 0 <= k < |fds| => (fds[k], message))
  {
    var free := RegistrySize - |fds|;
    assert IntendedRegistry() == [] + Vacant(RegistrySize);
    RegisterInOrder([], fds, RegistrySize);
    assert [] + fds + Vacant(free) == fds + Vacant(free);
    BroadcastFilled(fds, free, message);
  }

  lemma {:induction false} RegisterInOrder(done: seq<int>, fds: seq<int>, free: nat)
    requires |fds| <= free && NoObserver !in done && NoObserver !in fds
    ensures RegisterAll(done + Vacant(free), fds) == done + fds + Vacant(free - |fds|)
    decreases |fds|
  {
    var slots := done + Vacant(free);
    if fds == [] {
      assert done + fds == done;
    } else {
      var next := done + [fds[0]];
      assert fds[0] in fds;
      assert NoObserver !in fds[1..] by { assert forall x | x in fds[1..] :: x in fds; }
      calc {
        RegisterAll(slots, fds);
        RegisterAll(Registered(slots, fds[0]), fds[1..]);
        { RegisterNext(done, fds[0], free); }
        RegisterAll(next + Vacant(free - 1), fds[1..]);
        { RegisterInOrder(next, fds[1..], free - 1); }
        next + fds[1..] + Vacant(free - |fds|);
        { assert next + fds[1..] == done + fds; }
        done + fds + Vacant(free - |fds|);
      }
    }
  }

  /** The next observer goes into the first of the empty slots that follow the filled ones. */
  lemma RegisterNext(done: seq<int>, fd: int, free: nat)
    requires 0 < free && NoObserver !in done && fd != NoObserver
    ensures Registered(done + Vacant(free), fd) == done + [fd] + Vacant(free - 1)
  {
    var slots := done + Vacant(free);
    FirstFreeIs(slots, |done|);
    assert slots[|done| := fd] == done + [fd] + Vacant(free - 1);
  }

  lemma {:induction false} BroadcastFilled(fds: seq<int>, free: nat, message: string)
    requires NoObserver !in fds
    ensures Broadcast(fds + Vacant(free), message) == seq(|fds|, k requires 0 <= k < |fds| => (fds[k], message))
  {
    var slots := fds + Vacant(free);
    if fds == [] {
      BroadcastNone(free, message);
      assert slots == Vacant(free);
    } else {
      assert fds[0] in fds;
      assert NoObserver !in fds[1..] by { assert forall x | x in fds[1..] :: x in fds; }
      assert slots[1..] == fds[1..] + Vacant(free);
      BroadcastFilled(fds[1..], free, message);
    }
  }

  lemma {:induction false} BroadcastNone(free: nat, message: string)
    ensures Broadcast(Vacant(free), message) == []
  {
    if free > 0 {
      var s := Vacant(free);
      assert s[1..] == Vacant(free - 1);
      BroadcastNone(free - 1, message);
    }
  }
}
