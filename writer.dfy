/**
 * The writer driver of the server with observers (the same round in the
 * versions with and without the observer program): after the handshake
 * `WRITER` it reads a random slot and, if the reply is a value, overwrites
 * the slot with a random value below 40 and reports what the server says it
 * replaced.
 */
module Writer {
  import opened CLib
  import opened Protocol
  import opened Framing
  import opened Client
  import ObservedServer

  const Greeting: string := "WRITER"

  /** The writer's greeting, received in one piece, gets a request handler rather than an observer slot. */
  lemma GreetingServed()
    ensures ObservedServer.Classify(Greeting) == ObservedServer.Client
  {
    ObservedServer.GreetingRole(Greeting);
  }

  /** What the writer prints: the slot it wrote and the numbers scanned from the server's `UPDATED FROM` reply. */
  datatype Event = Updated(index: int, values: seq<int>)

  /**
   * What one round is given: the `rand()` drawn for the index and for the
   * value, and the network's behaviour for the READ and for the WRITE.
   */
  datatype Round = Round(indexDraw: nat, valueDraw: nat, read: Exchange, write: Exchange)

  /**
   * One round: READ of slot `rand() % 10`; only a reply starting `VALUE` is
   * followed by a WRITE of `rand() % 40` to the same slot, and only a reply
   * to that starting `UPDATED FROM` is reported, with the numbers
   * `sscanf` reads from it.
   */
  function Step(r: Round): (l: Log<Event>)
  {
    var index := r.indexDraw % TableSize;
    var newValue := r.valueDraw % ValueRange;
    var readSent := RequestSends(ReadRequest(index), r.read);
    match Answer(r.read)
    case None => Log(readSent, [], Stopped)
    case Some(buffer) =>
      if !IsValueReply(CString(buffer)) then Log(readSent, [], Running)
      else
        var sent := readSent + RequestSends(WriteRequest(index, newValue), r.write);
        match Answer(r.write)
        case None => Log(sent, [], Stopped)
        case Some(buffer') =>
          var reply := CString(buffer');
          if IsUpdatedFromReply(reply) then Log(sent, [Updated(index, UpdatedValues(reply))], Running)
          else Log(sent, [], Running)
  }

  /** The driver: `Greeted` with this greeting and this round. */
  function Task(handshakeSent: bool, rounds: seq<Round>): (l: Log<Event>)
  {
    Greeted(Greeting, handshakeSent, Step, rounds)
  }

  /** One round, on the driver's reply buffer, which the WRITE's reply overwrites. */
  method Turn(buffer: array<char>, r: Round) returns (l: Log<Event>)
    requires buffer.Length == BufferSize
    modifies buffer
    ensures l == Step(r)
  {
    var index := r.indexDraw % TableSize;
    var newValue := r.valueDraw % ValueRange;
    var sent := RequestSends(ReadRequest(index), r.read);
    if !r.read.lengthSent || !r.read.bodySent {
      return Log(sent, [], Stopped);
    }
    var n := Receive(buffer, r.read.received);
    if n <= 0 {
      return Log(sent, [], Stopped);
    }
    assert Answer(r.read) == Some(buffer[..]);
    if !IsValueReply(CString(buffer[..])) {
      return Log(sent, [], Running);
    }
    sent := sent + RequestSends(WriteRequest(index, newValue), r.write);
    if !r.write.lengthSent || !r.write.bodySent {
      return Log(sent, [], Stopped);
    }
    n := Receive(buffer, r.write.received);
    if n <= 0 {
      return Log(sent, [], Stopped);
    }
    assert Answer(r.write) == Some(buffer[..]);
    var reply := CString(buffer[..]);
    if IsUpdatedFromReply(reply) {
      l := Log(sent, [Updated(index, UpdatedValues(reply))], Running);
    } else {
      l := Log(sent, [], Running);
    }
  }

  /** `writer_task` (`write_process` in the version with the observer program) from the handshake on. */
  method WriterTask(handshakeSent: bool, rounds: seq<Round>) returns (log: Log<Event>)
    ensures log == Task(handshakeSent, rounds)
  {
    var buffer := new char[BufferSize](_ => '\0');
    log := Log([Handshake(Greeting)], [], Running);
    if !handshakeSent {
      return log.(status := Stopped);
    }
    var k := 0;
    while k < |rounds|
      invariant 0 <= k <= |rounds| && log.status == Running
      invariant Then(log, Run(Step, rounds[k..])) == Task(true, rounds)
    {
      var l := Turn(buffer, rounds[k]);
      RunFrom(Step, rounds, k, log);
      log := Then(log, l);
      if l.status != Running {
        return;
      }
      k := k + 1;
    }
    ThenNothing(log);
  }

  // ---------------------------------------------------------------------------
  // What a round sends

  /** Whether the READ of the round got a reply starting `VALUE`. */
  predicate GotValue(r: Round)
  {
    Answer(r.read).Some? && IsValueReply(CString(Answer(r.read).value))
  }

  /**
   * A round reads a slot of the table and writes a value below 40 to the
   * same slot, and it sends the WRITE exactly when the READ got a value.
   * Every request is framed by its length.
   */
  lemma StepSends(r: Round)
    ensures var index := r.indexDraw % TableSize; var newValue := r.valueDraw % ValueRange;
      var readSent := RequestSends(ReadRequest(index), r.read);
      0 <= index < TableSize && 0 <= newValue < ValueRange &&
      Step(r).sent ==
        (if GotValue(r) then readSent + RequestSends(WriteRequest(index, newValue), r.write) else readSent) &&
      Framed(Step(r).sent) && NoHandshake(Step(r).sent)
  {
    var index := r.indexDraw % TableSize;
    var newValue := r.valueDraw % ValueRange;
    ReadRequestFits(index);
    WriteRequestFits(index, newValue);
    SendsOfRequest(ReadRequest(index), r.read);
    SendsOfRequest(WriteRequest(index, newValue), r.write);
    FramedAppend(RequestSends(ReadRequest(index), r.read), RequestSends(WriteRequest(index, newValue), r.write));
    var a := RequestSends(ReadRequest(index), r.read);
    var b := RequestSends(WriteRequest(index, newValue), r.write);
    assert forall i | 0 <= i < |a + b| :: (a + b)[i] == if i < |a| then a[i] else b[i - |a|];
  }

  /**
   * The WRITE follows the READ's request only: the round's sends go beyond
   * the READ exactly when its reply started `VALUE`, and the WRITE's text
   * names the READ's slot.
   */
  lemma WriteFollowsValue(r: Round)
    ensures |Step(r).sent| > 2 <==> GotValue(r)
    ensures |Step(r).sent| > 3 ==>
      Step(r).sent[1] == Body(ReadRequest(r.indexDraw % TableSize)) &&
      Step(r).sent[3] == Body(WriteRequest(r.indexDraw % TableSize, r.valueDraw % ValueRange))
  {
    var index := r.indexDraw % TableSize;
    var newValue := r.valueDraw % ValueRange;
    StepSends(r);
    ReadRequestFits(index);
    WriteRequestFits(index, newValue);
    SendsOfRequest(ReadRequest(index), r.read);
    SendsOfRequest(WriteRequest(index, newValue), r.write);
  }

  /** A round reports exactly when the WRITE's reply starts `UPDATED FROM`, with the numbers it holds. */
  lemma StepReports(r: Round)
    ensures Step(r).events != [] <==>
      GotValue(r) && Answer(r.write).Some? && IsUpdatedFromReply(CString(Answer(r.write).value))
    ensures Step(r).events != [] ==>
      Step(r).events == [Updated(r.indexDraw % TableSize, UpdatedValues(CString(Answer(r.write).value)))]
  {
  }

  /** The round ends the driver's loop exactly when a send or a read it makes fails. */
  lemma StepStops(r: Round)
    ensures Step(r).status != Faulted
    ensures Step(r).status == Stopped <==> Answer(r.read).None? || (GotValue(r) && Answer(r.write).None?)
  {
  }

  /**
   * The handshake goes out once, first, and every request after it is framed
   * by its length.
   */
  lemma TaskSends(handshakeSent: bool, rounds: seq<Round>)
    ensures var sent := Task(handshakeSent, rounds).sent;
      sent != [] && sent[0] == Handshake(Greeting) &&
      NoHandshake(sent[1..]) && Framed(sent[1..])
  {
    forall i | 0 <= i < |rounds| ensures Framed(Step(rounds[i]).sent) && NoHandshake(Step(rounds[i]).sent) {
      StepSends(rounds[i]);
    }
    GreetedSends(Greeting, handshakeSent, Step, rounds);
  }

  // ---------------------------------------------------------------------------
  // Against the server

  /** Helper for `RoundOnReplies`: a round whose READ got a value and whose WRITE got an `UPDATED FROM` reply. */
  lemma StepUpdated(r: Round, readBuffer: seq<char>, writeBuffer: seq<char>)
    requires Answer(r.read) == Some(readBuffer) && IsValueReply(CString(readBuffer))
    requires Answer(r.write) == Some(writeBuffer) && IsUpdatedFromReply(CString(writeBuffer))
    ensures var index := r.indexDraw % TableSize; var newValue := r.valueDraw % ValueRange;
      Step(r) == Log(
        RequestSends(ReadRequest(index), r.read) + RequestSends(WriteRequest(index, newValue), r.write),
        [Updated(index, UpdatedValues(CString(writeBuffer)))], Running)
  {
  }

  /**
   * A round whose sends go through, whose READ gets a value and whose WRITE
   * gets the `UPDATED FROM` reply for that value reports both numbers.
   */
  lemma RoundOnReplies(r: Round, oldValue: int)
    requires r.read.lengthSent && r.read.bodySent && r.write.lengthSent && r.write.bodySent
    requires r.read.received == ValueReply(oldValue)
    requires r.write.received == UpdatedReply(oldValue, r.valueDraw % ValueRange)
    ensures var index := r.indexDraw % TableSize; var newValue := r.valueDraw % ValueRange;
      Step(r) == Log(
        [LengthField(|ReadRequest(index)|), Body(ReadRequest(index)),
         LengthField(|WriteRequest(index, newValue)|), Body(WriteRequest(index, newValue))],
        [Updated(index, [oldValue, newValue])], Running)
  {
    var index := r.indexDraw % TableSize;
    var newValue := r.valueDraw % ValueRange;
    var readBuffer := ReplyBuffer(r.read.received);
    var writeBuffer := ReplyBuffer(r.write.received);
    assert IsValueReply(CString(readBuffer)) by {
      BufferOfValueReply(oldValue);
    }
    assert IsUpdatedFromReply(CString(writeBuffer)) &&
      UpdatedValues(CString(writeBuffer)) == [oldValue, newValue] by {
      UpdatedReplyNulFree(oldValue, newValue);
      ReplyBufferText(r.write.received);
      DecodeUpdatedReply(oldValue, newValue);
    }
    StepUpdated(r, readBuffer, writeBuffer);
    ReadRequestFits(index);
    WriteRequestFits(index, newValue);
    TwoRequests(ReadRequest(index), r.read, WriteRequest(index, newValue), r.write);
  }

  /**
   * A round whose sends go through and whose reads get the server's replies
   * reads the slot, writes it, and reports the value the slot held before
   * and the value written.
   */
  lemma RoundAgainstServer(table: seq<int>, r: Round)
    requires |table| == TableSize
    requires r.read.lengthSent && r.read.bodySent && r.write.lengthSent && r.write.bodySent
    requires var o := ObservedServer.Serve(table, ReadRequest(r.indexDraw % TableSize));
      o.Served? && o.reply.Some? && o.reply.value == r.read.received
    requires var o := ObservedServer.Serve(table, WriteRequest(r.indexDraw % TableSize, r.valueDraw % ValueRange));
      o.Served? && o.reply.Some? && o.reply.value == r.write.received
    ensures var index := r.indexDraw % TableSize; var newValue := r.valueDraw % ValueRange;
      Step(r) == Log(
        [LengthField(|ReadRequest(index)|), Body(ReadRequest(index)),
         LengthField(|WriteRequest(index, newValue)|), Body(WriteRequest(index, newValue))],
        [Updated(index, [table[index], newValue])], Running)
  {
    var index := r.indexDraw % TableSize;
    var newValue := r.valueDraw % ValueRange;
    assert r.read.received == ValueReply(table[index]) &&
      r.write.received == UpdatedReply(table[index], newValue) by {
      ObservedServer.ServeRead(table, index);
      ObservedServer.ServeWrite(table, index, newValue);
    }
    RoundOnReplies(r, table[index]);
  }

  /**
   * The tables the drivers can produce: every slot holds a value in `[0, 40)`.
   * The initial table is one, and the server keeps it one under every
   * writer's request; so a reader never passes `fib` a value above 46.
   */
  predicate InRange(table: seq<int>)
  {
    |table| == TableSize && forall j | 0 <= j < TableSize :: 0 <= table[j] < ValueRange
  }

  lemma TableStaysInRange(table: seq<int>, r: Round)
    requires InRange(table)
    ensures InRange(InitialTable())
    ensures var o := ObservedServer.Serve(table, WriteRequest(r.indexDraw % TableSize, r.valueDraw % ValueRange));
      o.Served? && InRange(o.table)
    ensures var o := ObservedServer.Serve(table, ReadRequest(r.indexDraw % TableSize));
      o.Served? && o.table == table && table[r.indexDraw % TableSize] <= 46
  {
    ObservedServer.ServeRead(table, r.indexDraw % TableSize);
    ObservedServer.ServeWrite(table, r.indexDraw % TableSize, r.valueDraw % ValueRange);
  }
}
