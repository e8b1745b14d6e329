/**
 * The earlier server, without observers: the same table of ten integers and
 * the same request loop, but no handshake, no broadcasts, and a bare
 * `UPDATED` as the reply to a WRITE.
 *
 * Each block the C code guards with a semaphore is one method here. What the
 * server sends is appended to `outbox`, a socket and a text per `send`.
 */
module BasicServer {
  import opened CLib
  import opened Protocol
  import opened Framing

  /**
   * What a request does to the table and what it replies. `Faulted` stands
   * for undefined behaviour in the C code: an index outside the table, or a
   * request `ParseCommand` calls `Undefined`.
   */
  datatype Outcome = Served(table: seq<int>, reply: Option<string>) | Faulted

  /** A parsed request against the table. */
  function Apply(table: seq<int>, cmd: Command): (o: Outcome)
    ensures o.Served? ==> |o.table| == |table|
  {
    match cmd
    case Read(i) => if 0 <= i < |table| then Served(table, Some(ValueReply(table[i]))) else Faulted
    case Write(i, v) => if 0 <= i < |table| then Served(table[i := v], Some(PlainUpdatedReply)) else Faulted
    case Unknown => Served(table, None)
    case Undefined => Faulted
  }

  /** The handler on the text of a request. */
  function Serve(table: seq<int>, request: string): Outcome
  {
    Apply(table, ParseCommand(request))
  }

  /**
   * A command is undefined behaviour exactly when it could not be parsed or
   * names a slot outside the table. Otherwise only the slot a WRITE names can
   * change, and a reply go out exactly for READ and WRITE.
   */
  lemma ApplyOutcome(table: seq<int>, cmd: Command)
    ensures var o := Apply(table, cmd);
      o.Faulted? <==> cmd.Undefined? || (!cmd.Unknown? && !(0 <= cmd.index < |table|))
    ensures var o := Apply(table, cmd);
      o.Served? ==>
        o.table == table || (cmd.Write? && 0 <= cmd.index < |table| && o.table == table[cmd.index := o.table[cmd.index]])
    ensures var o := Apply(table, cmd);
      o.Served? ==> (o.reply.Some? <==> !cmd.Unknown?)
  {
  }

  /**
   * Only a request starting `WRITE` changes the table, a request without a
   * reply changes nothing, and undefined behaviour needs one of the two verbs.
   */
  lemma ServeOutcome(table: seq<int>, request: string)
    ensures var o := Serve(table, request);
      o.Served? ==> |o.table| == |table| && (o.table == table || StartsWith(request, "WRITE"))
    ensures var o := Serve(table, request);
      o.Served? && o.reply.None? ==> o.table == table
    ensures var o := Serve(table, request);
      o.Faulted? ==> StartsWith(request, "READ") || StartsWith(request, "WRITE")
  {
    ApplyOutcome(table, ParseCommand(request));
  }

  /** The send of a served request: its reply, if any, to the client. */
  function Sends(fd: int, o: Outcome): seq<Send>
    requires o.Served?
  {
    if o.reply.Some? then [(fd, o.reply.value)] else []
  }

  // ---------------------------------------------------------------------------
  // Requests, against the text the drivers send

  /** READ replies with the slot's value and changes nothing. */
  lemma ServeRead(table: seq<int>, index: int)
    requires 0 <= index < |table|
    ensures Serve(table, ReadRequest(index)) == Served(table, Some(ValueReply(table[index])))
  {
    ParseReadRequest(index);
    assert Serve(table, ReadRequest(index)) == Apply(table, Read(index));
  }

  /** WRITE stores the value in its slot only and replies `UPDATED`, without the old value. */
  lemma ServeWrite(table: seq<int>, index: int, value: int)
    requires 0 <= index < |table|
    ensures var o := Serve(table, WriteRequest(index, value));
      o.Served? && o.reply == Some(PlainUpdatedReply) && |o.table| == |table| && o.table[index] == value &&
      forall j :: 0 <= j < |table| && j != index ==> o.table[j] == table[j]
  {
    ParseWriteRequest(index, value);
    assert Serve(table, WriteRequest(index, value)) == Apply(table, Write(index, value));
  }

  /** An index outside the table is undefined behaviour, for READ and WRITE alike. */
  lemma ServeOutOfRange(table: seq<int>, index: int, value: int)
    requires !(0 <= index < |table|)
    ensures Serve(table, ReadRequest(index)).Faulted? && Serve(table, WriteRequest(index, value)).Faulted?
  {
    ParseReadRequest(index);
    ParseWriteRequest(index, value);
  }

  /** A request with another verb gets no reply and leaves the table alone. */
  lemma ServeUnknown(table: seq<int>, request: string)
    ensures Serve(table, request) == Served(table, None) <==>
      !StartsWith(request, "READ") && !StartsWith(request, "WRITE")
  {
  }

  // ---------------------------------------------------------------------------
  // Connections

  /** What a session of requests leaves: the table, the sends, and whether it stayed defined. */
  datatype SessionEnd = SessionEnd(table: seq<int>, sent: seq<Send>, defined: bool)

  /**
   * The request loop of one connection, from the table and the handler's
   * buffer: a closed connection or a length outside the window ends it
   * without a word; undefined behaviour ends the model.
   */
  function Session(table: seq<int>, buf: seq<char>, fd: int, frames: seq<Frame>): (r: SessionEnd)
    requires |buf| == BufferSize
    ensures |r.table| == |table|
    decreases |frames|
  {
    if frames == [] || frames[0].Closed? || !ValidLength(frames[0].msgLen) then SessionEnd(table, [], true)
    else
      var f := frames[0];
      var buf' := BodyBuffer(buf, f.msgLen, f.parts);
      var o := Serve(table, CString(buf'));
      if o.Faulted? then SessionEnd(table, [], false)
      else
        var rest := Session(o.table, buf', fd, frames[1..]);
        SessionEnd(rest.table, Sends(fd, o) + rest.sent, rest.defined)
  }

  /** A length outside `0 < len < 1024` closes the connection: no reply, the table as it was. */
  lemma BadLengthCloses(table: seq<int>, buf: seq<char>, fd: int, msgLen: int, parts: seq<seq<char>>, rest: seq<Frame>)
    requires |buf| == BufferSize && !ValidLength(msgLen)
    ensures Session(table, buf, fd, [Frame(msgLen, parts)] + rest) == SessionEnd(table, [], true)
  {
  }

  /**
   * A request with another verb is skipped: nothing is sent, the table is
   * unchanged, and the loop goes on with the next frame from the buffer the
   * body left.
   */
  lemma SessionSkipsUnknown(table: seq<int>, buf: seq<char>, fd: int, frames: seq<Frame>)
    requires |buf| == BufferSize
    requires frames != [] && frames[0].Frame? && ValidLength(frames[0].msgLen)
    requires var request := CString(BodyBuffer(buf, frames[0].msgLen, frames[0].parts));
      !StartsWith(request, "READ") && !StartsWith(request, "WRITE")
    ensures Session(table, buf, fd, frames) ==
      Session(table, BodyBuffer(buf, frames[0].msgLen, frames[0].parts), fd, frames[1..])
  {
  }

  /** Every send of a session goes to the client's own socket, at most one per request. */
  lemma {:induction false} SessionRepliesToClient(table: seq<int>, buf: seq<char>, fd: int, frames: seq<Frame>)
    requires |buf| == BufferSize
    ensures forall k :: 0 <= k < |Session(table, buf, fd, frames).sent| ==> Session(table, buf, fd, frames).sent[k].0 == fd
    ensures |Session(table, buf, fd, frames).sent| <= |frames|
    decreases |frames|
  {
    if !(frames == [] || frames[0].Closed? || !ValidLength(frames[0].msgLen)) {
      var f := frames[0];
      var buf' := BodyBuffer(buf, f.msgLen, f.parts);
      var o := Serve(table, CString(buf'));
      if o.Served? {
        SessionRepliesToClient(o.table, buf', fd, frames[1..]);
      }
    }
  }

  /** `whole` is what a session leaves when `sent` went out before it reached `table`, `buf` and `frames`. */
  ghost predicate Continues(whole: SessionEnd, sent: seq<Send>, table: seq<int>, buf: seq<char>, fd: int, frames: seq<Frame>)
  {
    |buf| == BufferSize &&
    var s := Session(table, buf, fd, frames);
    whole == SessionEnd(s.table, sent + s.sent, s.defined)
  }

  lemma ContinuesServed(whole: SessionEnd, sent: seq<Send>, table: seq<int>, buf: seq<char>, fd: int,
                        frames: seq<Frame>, buf': seq<char>, o: Outcome)
    requires Continues(whole, sent, table, buf, fd, frames)
    requires frames != [] && frames[0].Frame? && ValidLength(frames[0].msgLen)
    requires buf' == BodyBuffer(buf, frames[0].msgLen, frames[0].parts)
    requires o == Serve(table, CString(buf')) && o.Served?
    ensures Continues(whole, sent + Sends(fd, o), o.table, buf', fd, frames[1..])
  {
    var rest := Session(o.table, buf', fd, frames[1..]);
    assert Session(table, buf, fd, frames) == SessionEnd(rest.table, Sends(fd, o) + rest.sent, rest.defined);
    AppendAssociative(sent, Sends(fd, o), rest.sent);
  }

  lemma ContinuesFaulted(whole: SessionEnd, sent: seq<Send>, table: seq<int>, buf: seq<char>, fd: int,
                         frames: seq<Frame>, buf': seq<char>, o: Outcome)
    requires Continues(whole, sent, table, buf, fd, frames)
    requires frames != [] && frames[0].Frame? && ValidLength(frames[0].msgLen)
    requires buf' == BodyBuffer(buf, frames[0].msgLen, frames[0].parts)
    requires o == Serve(table, CString(buf')) && o.Faulted?
    ensures whole == SessionEnd(table, sent, false)
  {
  }

  lemma ContinuesStop(whole: SessionEnd, sent: seq<Send>, table: seq<int>, buf: seq<char>, fd: int, frames: seq<Frame>)
    requires Continues(whole, sent, table, buf, fd, frames)
    requires frames == [] || frames[0].Closed? || !ValidLength(frames[0].msgLen)
    ensures whole == SessionEnd(table, sent, true)
  {
  }

  // ---------------------------------------------------------------------------
  // The server

  class Server {
    const database: array<int>
    var outbox: seq<Send>

    ghost predicate Valid()
      reads this
    {
      database.Length == TableSize
    }

    /** The globals as the program starts: a zero table. */
    constructor ()
      ensures Valid() && fresh(database)
      ensures database[..] == seq(TableSize, _ => 0) && outbox == []
    {
      database := new int[TableSize](_ => 0);
      outbox := [];
    }

    /** `init_db`. */
    method InitDb()
      requires Valid()
      modifies database
      ensures database[..] == InitialTable()
    {
      var i := 1;
      while i < TableSize + 1
        invariant 1 <= i <= TableSize + 1
        invariant forall j :: 0 <= j < i - 1 ==> database[j] == j + 1
      {
        database[i - 1] := i;
        i := i + 1;
      }
    }

    /** The READ and WRITE branches of the handler, on a parsed request. */
    method Execute(fd: int, cmd: Command) returns (defined: bool)
      requires Valid()
      modifies this, database
      ensures var o := Apply(old(database[..]), cmd);
        defined == o.Served? &&
        (defined ==> database[..] == o.table && outbox == old(outbox) + Sends(fd, o)) &&
        (!defined ==> database[..] == old(database[..]) && outbox == old(outbox))
    {
      match cmd
      case Read(index) =>
        if !(0 <= index < TableSize) {
          return false;
        }
        var value := database[index];
        outbox := outbox + [(fd, ValueReply(value))];
        return true;
      case Write(index, newValue) =>
        if !(0 <= index < TableSize) {
          return false;
        }
        database[index] := newValue;
        outbox := outbox + [(fd, PlainUpdatedReply)];
        return true;
      case Unknown =>
        return true;
      case Undefined =>
        return false;
    }

    /** One turn of the request loop: the body into the handler's buffer, then the request. */
    method ServeFrame(fd: int, buffer: array<char>, f: Frame) returns (defined: bool, ghost o: Outcome)
      requires Valid() && buffer.Length == BufferSize
      requires f.Frame? && ValidLength(f.msgLen)
      modifies this, database, buffer
      ensures buffer[..] == BodyBuffer(old(buffer[..]), f.msgLen, f.parts)
      ensures o == Serve(old(database[..]), CString(buffer[..])) && defined == o.Served?
      ensures defined ==> database[..] == o.table && outbox == old(outbox) + Sends(fd, o)
      ensures !defined ==> database[..] == old(database[..]) && outbox == old(outbox)
    {
      var _ := ReadBody(buffer, f.msgLen, f.parts);
      var request := CString(buffer[..]);
      o := Serve(database[..], request);
      defined := Execute(fd, ParseCommand(request));
    }

    /** `handle_client`: the request loop of one connection, from its very first bytes. */
    method ServeConnection(fd: int, frames: seq<Frame>) returns (defined: bool)
      requires Valid()
      modifies this, database
      ensures var s := Session(old(database[..]), EmptyBuffer(), fd, frames);
        database[..] == s.table && outbox == old(outbox) + s.sent && defined == s.defined
    {
      var buffer := new char[BufferSize](_ => '\0');
      assert buffer[..] == EmptyBuffer();
      ghost var whole := Session(database[..], buffer[..], fd, frames);
      assert [] + whole.sent == whole.sent;
      defined := RequestLoop(fd, buffer, frames, whole);
    }

    /** The request loop on the handler's buffer; `whole` is the session it carries out. */
    method RequestLoop(fd: int, buffer: array<char>, frames: seq<Frame>, ghost whole: SessionEnd) returns (defined: bool)
      requires Valid() && buffer.Length == BufferSize
      requires Continues(whole, [], database[..], buffer[..], fd, frames)
      modifies this, database, buffer
      ensures database[..] == whole.table && outbox == old(outbox) + whole.sent && defined == whole.defined
    {
      ghost var base := outbox;
      ghost var sent: seq<Send> := [];
      var k := 0;
      assert frames[0..] == frames;
      while k < |frames|
        invariant 0 <= k <= |frames| && buffer.Length == BufferSize
        invariant outbox == base + sent
        invariant Continues(whole, sent, database[..], buffer[..], fd, frames[k..])
      {
        var f := frames[k];
        if f.Closed? || !ValidLength(f.msgLen) {
          break;
        }
        var ok;
        ok, sent := Turn(fd, buffer, frames[k..], whole, sent, base);
        if !ok {
          return false;
        }
        assert frames[k..][1..] == frames[k + 1..];
        k := k + 1;
      }
      ContinuesStop(whole, sent, database[..], buffer[..], fd, frames[k..]);
      return true;
    }

    /** One request of the loop, kept in step with the session it belongs to. */
    method Turn(fd: int, buffer: array<char>, frames: seq<Frame>, ghost whole: SessionEnd, ghost sent: seq<Send>,
                ghost base: seq<Send>)
      returns (defined: bool, ghost sent': seq<Send>)
      requires Valid() && buffer.Length == BufferSize
      requires frames != [] && frames[0].Frame? && ValidLength(frames[0].msgLen)
      requires Continues(whole, sent, database[..], buffer[..], fd, frames)
      requires outbox == base + sent
      modifies this, database, buffer
      ensures outbox == base + sent'
      ensures !defined ==> database[..] == whole.table && outbox == base + whole.sent && !whole.defined
      ensures defined ==> Continues(whole, sent', database[..], buffer[..], fd, frames[1..])
    {
      ghost var table := database[..];
      ghost var buf := buffer[..];
      ghost var o;
      defined, o := ServeFrame(fd, buffer, frames[0]);
      if defined {
        ContinuesServed(whole, sent, table, buf, fd, frames, buffer[..], o);
        sent' := sent + Sends(fd, o);
      } else {
        ContinuesFaulted(whole, sent, table, buf, fd, frames, buffer[..], o);
        sent' := sent;
      }
    }
  }

  // ---------------------------------------------------------------------------
  // Properties of the table

  /** Right after `init_db`, slot `i` reads back as `i + 1`. */
  lemma ReadInitial(index: int)
    requires 0 <= index < TableSize
    ensures Serve(InitialTable(), ReadRequest(index)) == Served(InitialTable(), Some(ValueReply(index + 1)))
  {
    var t := InitialTable();
    assert t[index] == index + 1;
    ServeRead(t, index);
  }

  /** A READ after a WRITE of the same slot replies with the value written. */
  lemma ReadAfterWrite(table: seq<int>, index: int, value: int)
    requires 0 <= index < |table|
    ensures var w := Serve(table, WriteRequest(index, value));
      w.Served? && Serve(w.table, ReadRequest(index)) == Served(w.table, Some(ValueReply(value)))
  {
    ServeWrite(table, index, value);
    var t := Serve(table, WriteRequest(index, value)).table;
    ServeRead(t, index);
  }
}
