/**
 * The writer driver of the server without observers: no handshake; each
 * round reads a random slot, scans the old value from whatever reply comes
 * back, writes a random value below 40 to the same slot, and reports the
 * write when the server answers exactly `UPDATED`.
 */
module BasicWriter {
  import opened CLib
  import opened Protocol
  import opened Framing
  import opened Client
  import BasicServer

  /**
   * What the writer prints: the slot, the numbers `sscanf("VALUE %d")` read
   * from the READ's reply (none when the reply is not a value, and then the
   * C variable is left uninitialised) and the value written.
   */
  datatype Event = Reported(index: int, scanned: seq<int>, newValue: int)

  /**
   * What one round is given: the `rand()` drawn for the index and for the
   * value, and the network's behaviour for the READ and for the WRITE.
   */
  datatype Round = Round(indexDraw: nat, valueDraw: nat, read: Exchange, write: Exchange)

  /**
   * One round: READ of slot `rand() % 10`; any reply is followed by a WRITE
   * of `rand() % 40` to the same slot, and the write is reported when its
   * reply is exactly `UPDATED`.
   */
  function Step(r: Round): (l: Log<Event>)
  {
    var index := r.indexDraw % TableSize;
    var newValue := r.valueDraw % ValueRange;
    var readSent := RequestSends(ReadRequest(index), r.read);
    match Answer(r.read)
    case None => Log(readSent, [], Stopped)
    case Some(buffer) =>
      var scanned := ScannedValue(CString(buffer));
      var sent := readSent + RequestSends(WriteRequest(index, newValue), r.write);
      match Answer(r.write)
      case None => Log(sent, [], Stopped)
      case Some(buffer') =>
        if CString(buffer') == PlainUpdatedReply then Log(sent, [Reported(index, scanned, newValue)], Running)
        else Log(sent, [], Running)
  }

  /** The driver: the loop from the first round on, with no handshake. */
  function Task(rounds: seq<Round>): (l: Log<Event>)
  {
    Run(Step, rounds)
  }

  /**
   * One round, on the driver's reply buffer. The old value is scanned before
   * the WRITE's reply overwrites the buffer.
   */
  method Turn(buffer: array<char>, r: Round) returns (l: Log<Event>)
    requires buffer.Length == BufferSize
    modifies buffer
    ensures l == Step(r)
  {
    var index := r.indexDraw % TableSize;
    var newValue := r.valueDraw % ValueRange;
    var sent := RequestSends(ReadRequest(index), r.read);
    if !r.read.lengthSent || !r.read.bodySent {
      return Log(sent, [], Stopped);
    }
    var n := Receive(buffer, r.read.received);
    if n <= 0 {
      return Log(sent, [], Stopped);
    }
    assert Answer(r.read) == Some(buffer[..]);
    var scanned := ScannedValue(CString(buffer[..]));
    sent := sent + RequestSends(WriteRequest(index, newValue), r.write);
    if !r.write.lengthSent || !r.write.bodySent {
      return Log(sent, [], Stopped);
    }
    n := Receive(buffer, r.write.received);
    if n <= 0 {
      return Log(sent, [], Stopped);
    }
    assert Answer(r.write) == Some(buffer[..]);
    if CString(buffer[..]) == PlainUpdatedReply {
      l := Log(sent, [Reported(index, scanned, newValue)], Running);
    } else {
      l := Log(sent, [], Running);
    }
  }

  /** `write_process`, over the rounds given. */
  method WriterTask(rounds: seq<Round>) returns (log: Log<Event>)
    ensures log == Task(rounds)
  {
    var buffer := new char[BufferSize](_ => '\0');
    log := Log([], [], Running);
    var k := 0;
    while k < |rounds|
      invariant 0 <= k <= |rounds| && log.status == Running
      invariant Then(log, Run(Step, rounds[k..])) == Task(rounds)
    {
      var l := Turn(buffer, rounds[k]);
      RunFrom(Step, rounds, k, log);
      log := Then(log, l);
      if l.status != Running {
        return;
      }
      k := k + 1;
    }
    ThenNothing(log);
  }

  // ---------------------------------------------------------------------------
  // What a round sends

  /**
   * A round reads a slot of the table and writes a value below 40 to the
   * same slot; it sends the WRITE exactly when the READ got any reply at all.
   * Every request is framed by its length.
   */
  lemma StepSends(r: Round)
    ensures var index := r.indexDraw % TableSize; var newValue := r.valueDraw % ValueRange;
      var readSent := RequestSends(ReadRequest(index), r.read);
      0 <= index < TableSize && 0 <= newValue < ValueRange &&
      Step(r).sent ==
        (if Answer(r.read).Some? then readSent + RequestSends(WriteRequest(index, newValue), r.write)
         else readSent) &&
      Framed(Step(r).sent) && NoHandshake(Step(r).sent)
  {
    var index := r.indexDraw % TableSize;
    var newValue := r.valueDraw % ValueRange;
    ReadRequestFits(index);
    WriteRequestFits(index, newValue);
    SendsOfRequest(ReadRequest(index), r.read);
    SendsOfRequest(WriteRequest(index, newValue), r.write);
    FramedAppend(RequestSends(ReadRequest(index), r.read), RequestSends(WriteRequest(index, newValue), r.write));
    var a := RequestSends(ReadRequest(index), r.read);
    var b := RequestSends(WriteRequest(index, newValue), r.write);
    assert forall i | 0 <= i < |a + b| :: (a + b)[i] == if i < |a| then a[i] else b[i - |a|];
  }

  /** A round reports exactly when the WRITE's reply is `UPDATED`, with the old value scanned from the READ's reply. */
  lemma StepReports(r: Round)
    ensures Step(r).events != [] <==>
      Answer(r.read).Some? && Answer(r.write).Some? && CString(Answer(r.write).value) == PlainUpdatedReply
    ensures Step(r).events != [] ==>
      Step(r).events == [Reported(r.indexDraw % TableSize, ScannedValue(CString(Answer(r.read).value)),
        r.valueDraw % ValueRange)]
  {
  }

  /** The round ends the driver's loop exactly when a send or a read it makes fails. */
  lemma StepStops(r: Round)
    ensures Step(r).status != Faulted
    ensures Step(r).status == Stopped <==> Answer(r.read).None? || Answer(r.write).None?
  {
  }

  /**
   * Nothing precedes the requests: the first bytes the driver sends are the
   * length field of a READ, which the server takes as its first length; no
   * handshake is ever sent and every request is framed by its length.
   */
  lemma TaskSends(rounds: seq<Round>)
    ensures var sent := Task(rounds).sent;
      (rounds != [] ==> sent != [] && sent[0] == LengthField(|ReadRequest(rounds[0].indexDraw % TableSize)|)) &&
      NoHandshake(sent) && Framed(sent)
  {
    forall i | 0 <= i < |rounds| ensures Framed(Step(rounds[i]).sent) && NoHandshake(Step(rounds[i]).sent) {
      StepSends(rounds[i]);
    }
    RunFramed(Step, rounds);
    RunNoHandshake(Step, rounds);
    if rounds != [] {
      var index := rounds[0].indexDraw % TableSize;
      StepSends(rounds[0]);
      ReadRequestFits(index);
      SendsOfRequest(ReadRequest(index), rounds[0].read);
    }
  }

  // ---------------------------------------------------------------------------
  // Against the server

  /** Helper for `RoundOnReplies`: a round whose READ got an answer and whose WRITE got `UPDATED`. */
  lemma StepReported(r: Round, readBuffer: seq<char>, writeBuffer: seq<char>)
    requires Answer(r.read) == Some(readBuffer)
    requires Answer(r.write) == Some(writeBuffer) && CString(writeBuffer) == PlainUpdatedReply
    ensures var index := r.indexDraw % TableSize; var newValue := r.valueDraw % ValueRange;
      Step(r) == Log(
        RequestSends(ReadRequest(index), r.read) + RequestSends(WriteRequest(index, newValue), r.write),
        [Reported(index, ScannedValue(CString(readBuffer)), newValue)], Running)
  {
  }

  /**
   * A round whose sends go through, whose READ gets a value and whose WRITE
   * gets `UPDATED` reports the write with that value as the old one.
   */
  lemma RoundOnReplies(r: Round, oldValue: int)
    requires r.read.lengthSent && r.read.bodySent && r.write.lengthSent && r.write.bodySent
    requires r.read.received == ValueReply(oldValue) && r.write.received == PlainUpdatedReply
    ensures var index := r.indexDraw % TableSize; var newValue := r.valueDraw % ValueRange;
      Step(r) == Log(
        [LengthField(|ReadRequest(index)|), Body(ReadRequest(index)),
         LengthField(|WriteRequest(index, newValue)|), Body(WriteRequest(index, newValue))],
        [Reported(index, [oldValue], newValue)], Running)
  {
    var index := r.indexDraw % TableSize;
    var newValue := r.valueDraw % ValueRange;
    var readBuffer := ReplyBuffer(r.read.received);
    var writeBuffer := ReplyBuffer(r.write.received);
    assert ScannedValue(CString(readBuffer)) == [oldValue] by {
      BufferOfValueReply(oldValue);
      ScanValueReply(oldValue);
    }
    assert CString(writeBuffer) == PlainUpdatedReply by {
      ReplyBufferText(r.write.received);
    }
    StepReported(r, readBuffer, writeBuffer);
    ReadRequestFits(index);
    WriteRequestFits(index, newValue);
    TwoRequests(ReadRequest(index), r.read, WriteRequest(index, newValue), r.write);
  }

  /**
   * A round whose sends go through and whose reads get the server's replies
   * reports the write with the slot's old value, scanned from the READ's
   * reply, and the value written.
   */
  lemma RoundAgainstServer(table: seq<int>, r: Round)
    requires |table| == TableSize
    requires r.read.lengthSent && r.read.bodySent && r.write.lengthSent && r.write.bodySent
    requires var o := BasicServer.Serve(table, ReadRequest(r.indexDraw % TableSize));
      o.Served? && o.reply.Some? && o.reply.value == r.read.received
    requires var o := BasicServer.Serve(table, WriteRequest(r.indexDraw % TableSize, r.valueDraw % ValueRange));
      o.Served? && o.reply.Some? && o.reply.value == r.write.received
    ensures var index := r.indexDraw % TableSize; var newValue := r.valueDraw % ValueRange;
      Step(r) == Log(
        [LengthField(|ReadRequest(index)|), Body(ReadRequest(index)),
         LengthField(|WriteRequest(index, newValue)|), Body(WriteRequest(index, newValue))],
        [Reported(index, [table[index]], newValue)], Running)
  {
    var index := r.indexDraw % TableSize;
    var newValue := r.valueDraw % ValueRange;
    assert r.read.received == ValueReply(table[index]) && r.write.received == PlainUpdatedReply by {
      BasicServer.ServeRead(table, index);
      BasicServer.ServeWrite(table, index, newValue);
    }
    RoundOnReplies(r, table[index]);
  }
}
