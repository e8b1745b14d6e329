/**
 * What the three drivers (the reader and the writers) have in common: a
 * request goes out as a `send` of its length and a `send` of its text, the
 * reply comes back in one `read` into a 1024-byte buffer that is cleared
 * first, and the driver repeats rounds until a send or a read fails.
 *
 * The network is a parameter: for every request the model is told whether
 * each of its two sends went through in full and what the read returned.
 * What the driver does is recorded as the list of its `send` calls and the
 * list of the results it reports.
 */
module Client {
  import opened CLib
  import opened Protocol
  import opened Framing

  /** `rand() % 40`: the range of the values the writers store. */
  const ValueRange: nat := 40

  /** One call of `send` by a driver. */
  datatype Wire = Handshake(text: string) | LengthField(n: int) | Body(text: string)

  /** What one `read(sock, buffer, sizeof(buffer) - 1)` returns; empty when it returned 0 or less. */
  type Received = s: seq<char> | |s| < BufferSize

  /**
   * One request on the network: whether the send of the length and the send
   * of the text each went through in full, and what the read of the reply
   * returned.
   */
  datatype Exchange = Exchange(lengthSent: bool, bodySent: bool, received: Received)

  /**
   * What a driver has done: its sends, the results it reported, and whether it
   * is still running, has left its loop, or has reached undefined behaviour.
   * The same record describes one round and a whole run.
   */
  datatype Status = Running | Stopped | Faulted
  datatype Log<E> = Log(sent: seq<Wire>, events: seq<E>, status: Status)

  /** The reply buffer after `memset`, the `read` and the NUL stored after the bytes read. */
  function ReplyBuffer(received: Received): (b: seq<char>)
    ensures |b| == BufferSize && b[..|received|] == received
    ensures forall i | |received| <= i < BufferSize :: b[i] == '\0'
  {
    received + seq(BufferSize - |received|, _ => '\0')
  }

  /**
   * The sends of one request, stopping at the first that fails: the length
   * `strlen(request)` and then, if that went through, the bytes it counts.
   */
  function RequestSends(request: string, x: Exchange): (sent: seq<Wire>)
  {
    var text := CString(request);
    [LengthField(|text|)] + (if x.lengthSent then [Body(text)] else [])
  }

  /** The reply buffer, when both sends went through and the read returned bytes. */
  function Answer(x: Exchange): (r: Option<seq<char>>)
  {
    if x.lengthSent && x.bodySent && x.received != [] then Some(ReplyBuffer(x.received)) else None
  }

  /** One log followed by another. */
  function Then<E>(a: Log<E>, b: Log<E>): Log<E>
  {
    Log(a.sent + b.sent, a.events + b.events, b.status)
  }

  /** The `while (1)` loop of a driver over the rounds given, each described by `round`. */
  function Run<R, E>(round: R -> Log<E>, rounds: seq<R>): (l: Log<E>)
    decreases |rounds|
  {
    if rounds == [] then Log([], [], Running)
    else
      var first := round(rounds[0]);
      if first.status == Running then Then(first, Run(round, rounds[1..])) else first
  }

  /** A driver that sends `greeting` once, then runs its loop; a failed greeting ends it. */
  function Greeted<R, E>(greeting: string, handshakeSent: bool, round: R -> Log<E>, rounds: seq<R>): (l: Log<E>)
    ensures l.sent != [] && l.sent[0] == Handshake(greeting)
  {
    if handshakeSent then Then(Log([Handshake(greeting)], [], Running), Run(round, rounds))
    else Log([Handshake(greeting)], [], Stopped)
  }

  // ---------------------------------------------------------------------------
  // The reply buffer, in place

  /**
   * `memset` of the buffer, the `read` of the reply into it, and the NUL the
   * driver stores after the bytes read. Returns what the read returned.
   */
  method Receive(buffer: array<char>, received: Received) returns (n: int)
    requires buffer.Length == BufferSize
    modifies buffer
    ensures n == |received| && buffer[..] == ReplyBuffer(received)
  {
    forall i | 0 <= i < buffer.Length {
      buffer[i] := '\0';
    }
    forall i | 0 <= i < |received| {
      buffer[i] := received[i];
    }
    n := |received|;
    if n > 0 {
      buffer[n] := '\0';
    }
  }

  /** A reply without NUL reads back from the buffer as itself. */
  lemma ReplyBufferText(reply: Received)
    requires '\0' !in reply
    ensures CString(ReplyBuffer(reply)) == reply
  {
    var b := ReplyBuffer(reply);
    assert b == reply + ['\0'] + b[|reply| + 1..];
    CStringOfTerminated(reply, b[|reply| + 1..]);
  }

  /** The reply buffer of a VALUE reply that fits it reads back as the reply and its value. */
  lemma BufferOfValueReply(value: int)
    requires |ValueReply(value)| < BufferSize
    ensures var buffer := ReplyBuffer(ValueReply(value));
      CString(buffer) == ValueReply(value) && IsValueReply(CString(buffer)) &&
      ReplyValue(buffer) == value
  {
    var reply := ValueReply(value);
    ValueReplyNulFree(value);
    ReplyBufferText(reply);
    DecodeValueReply(value);
    var zeros := seq(BufferSize - |reply|, _ => '\0');
    AppendAssociative("VALUE ", Dec(value), zeros);
    assert Drop(ReplyBuffer(reply), 6) == Dec(value) + zeros;
    ScanIntOfDec(value, zeros);
  }

  // ---------------------------------------------------------------------------
  // Properties of the sends

  /**
   * Every text sent is preceded by a length field that counts it, a length
   * the server accepts.
   */
  predicate Framed(sent: seq<Wire>)
  {
    forall i | 0 <= i < |sent| && sent[i].Body? ::
      0 < i && sent[i - 1] == LengthField(|sent[i].text|) && ValidLength(|sent[i].text|)
  }

  predicate NoHandshake(sent: seq<Wire>)
  {
    forall i | 0 <= i < |sent| :: !sent[i].Handshake?
  }

  /** A request without NUL goes out as its length and then all of it. */
  lemma SendsOfRequest(request: string, x: Exchange)
    requires '\0' !in request && ValidLength(|request|)
    ensures RequestSends(request, x) ==
      if x.lengthSent then [LengthField(|request|), Body(request)] else [LengthField(|request|)]
    ensures Framed(RequestSends(request, x)) && NoHandshake(RequestSends(request, x))
  {
    CStringOfNulFree(request);
  }

  /** A READ and a WRITE that both go out in full. */
  lemma TwoRequests(first: string, x: Exchange, second: string, y: Exchange)
    requires '\0' !in first && ValidLength(|first|) && x.lengthSent
    requires '\0' !in second && ValidLength(|second|) && y.lengthSent
    ensures RequestSends(first, x) + RequestSends(second, y) ==
      [LengthField(|first|), Body(first), LengthField(|second|), Body(second)]
  {
    SendsOfRequest(first, x);
    SendsOfRequest(second, y);
  }

  lemma FramedAppend(a: seq<Wire>, b: seq<Wire>)
    requires Framed(a) && Framed(b)
    ensures Framed(a + b)
  {
    var s := a + b;
    forall i | 0 <= i < |s| && s[i].Body?
      ensures 0 < i && s[i - 1] == LengthField(|s[i].text|) && ValidLength(|s[i].text|)
    {
      if i < |a| {
        assert s[i] == a[i];
      } else {
        assert s[i] == b[i - |a|];
      }
    }
  }

  // ---------------------------------------------------------------------------
  // Properties of the loop

  lemma ThenAssociative<E>(a: Log<E>, b: Log<E>, c: Log<E>)
    ensures Then(Then(a, b), c) == Then(a, Then(b, c))
  {
    assert (a.sent + b.sent) + c.sent == a.sent + (b.sent + c.sent);
    assert (a.events + b.events) + c.events == a.events + (b.events + c.events);
  }

  lemma ThenNothing<E>(a: Log<E>)
    requires a.status == Running
    ensures Then(a, Log([], [], Running)) == a
  {
    assert a.sent + [] == a.sent && a.events + [] == a.events;
  }

  /** Helper for the drivers' loop invariants: one more round, after the log `done` of the rounds before it. */
  lemma RunFrom<R, E>(round: R -> Log<E>, rounds: seq<R>, k: nat, done: Log<E>)
    requires k < |rounds|
    ensures Then(done, Run(round, rounds[k..])) ==
      var first := round(rounds[k]);
      if first.status == Running then Then(Then(done, first), Run(round, rounds[k + 1..]))
      else Then(done, first)
  {
    assert rounds[k..][0] == rounds[k] && rounds[k..][1..] == rounds[k + 1..];
    var first := round(rounds[k]);
    if first.status == Running {
      ThenAssociative(done, first, Run(round, rounds[k + 1..]));
    }
  }

  /**
   * The loop runs on exactly as long as every round does: it ends early only
   * on a round that stops, and then with that round's status.
   */
  lemma {:induction false} RunStatus<R, E>(round: R -> Log<E>, rounds: seq<R>)
    ensures Run(round, rounds).status == Running <==>
      forall i | 0 <= i < |rounds| :: round(rounds[i]).status == Running
    ensures Run(round, rounds).status != Running ==>
      exists i | 0 <= i < |rounds| :: Run(round, rounds).status == round(rounds[i]).status
    decreases |rounds|
  {
    if rounds != [] {
      RunStatus(round, rounds[1..]);
      if round(rounds[0]).status == Running {
        forall i | 0 <= i < |rounds[1..]| ensures rounds[1..][i] == rounds[i + 1] { }
        if Run(round, rounds).status != Running {
          var j :| 0 <= j < |rounds[1..]| && Run(round, rounds[1..]).status == round(rounds[1..][j]).status;
          assert rounds[1..][j] == rounds[j + 1];
        }
      }
    }
  }

  /** Rounds after one that stops have no effect: the driver has left its loop. */
  lemma {:induction false} StopsAtFailure<R, E>(round: R -> Log<E>, rounds: seq<R>, k: nat)
    requires k < |rounds| && round(rounds[k]).status != Running
    ensures Run(round, rounds) == Run(round, rounds[..k + 1])
    decreases k
  {
    assert rounds[..k + 1][0] == rounds[0];
    if k > 0 {
      assert rounds[1..][k - 1] == rounds[k];
      StopsAtFailure(round, rounds[1..], k - 1);
      assert rounds[..k + 1][1..] == rounds[1..][..k];
    }
  }

  /** When every round frames its sends, so does the loop. */
  lemma {:induction false} RunFramed<R, E>(round: R -> Log<E>, rounds: seq<R>)
    requires forall i | 0 <= i < |rounds| :: Framed(round(rounds[i]).sent)
    ensures Framed(Run(round, rounds).sent)
    decreases |rounds|
  {
    if rounds != [] {
      assert forall i | 0 <= i < |rounds[1..]| :: rounds[1..][i] == rounds[i + 1];
      RunFramed(round, rounds[1..]);
      FramedAppend(round(rounds[0]).sent, Run(round, rounds[1..]).sent);
    }
  }

  /** When no round sends a handshake, neither does the loop. */
  lemma {:induction false} RunNoHandshake<R, E>(round: R -> Log<E>, rounds: seq<R>)
    requires forall i | 0 <= i < |rounds| :: NoHandshake(round(rounds[i]).sent)
    ensures NoHandshake(Run(round, rounds).sent)
    decreases |rounds|
  {
    if rounds != [] {
      assert forall i | 0 <= i < |rounds[1..]| :: rounds[1..][i] == rounds[i + 1];
      RunNoHandshake(round, rounds[1..]);
      var a := round(rounds[0]).sent;
      var b := Run(round, rounds[1..]).sent;
      assert forall i | 0 <= i < |a + b| :: (a + b)[i] == if i < |a| then a[i] else b[i - |a|];
    }
  }

  /**
   * When every round frames its sends and sends no handshake, a greeted driver
   * sends its greeting once, first, and frames every request after it.
   */
  lemma GreetedSends<R, E>(greeting: string, handshakeSent: bool, round: R -> Log<E>, rounds: seq<R>)
    requires forall i | 0 <= i < |rounds| :: Framed(round(rounds[i]).sent) && NoHandshake(round(rounds[i]).sent)
    ensures var sent := Greeted(greeting, handshakeSent, round, rounds).sent;
      sent != [] && sent[0] == Handshake(greeting) &&
      NoHandshake(sent[1..]) && Framed(sent[1..])
  {
    RunFramed(round, rounds);
    RunNoHandshake(round, rounds);
    var sent := Greeted(greeting, handshakeSent, round, rounds).sent;
    if handshakeSent {
      assert sent[1..] == Run(round, rounds).sent;
    }
  }
}
