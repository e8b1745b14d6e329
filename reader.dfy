/**
 * The reader driver of the server with observers: after the handshake
 * `READER` it asks, round after round, for the value of a random slot, and
 * prints the Fibonacci number of every value it gets back.
 */
module Reader {
  import opened CLib
  import opened Protocol
  import opened Framing
  import opened Client
  import ObservedServer

  /** The C `int`. */
  newtype i32 = x: int | -0x8000_0000 <= x < 0x8000_0000

  /** The Fibonacci numbers. */
  function F(n: nat): nat
  {
    if n < 2 then n else F(n - 2) + F(n - 1)
  }

  /** The largest argument whose Fibonacci number is an `int`. */
  const MaxFib: int := 46

  /**
   * What `fib(n)` returns: the Fibonacci number, and 1 for a negative `n`,
   * where the loop does not run and the function returns its start value.
   */
  function FibResult(n: int): (r: int)
    ensures n >= 0 ==> r == F(n)
    ensures n < 0 ==> r == 1
  {
    if n < 0 then 1 else F(n)
  }

  // ---------------------------------------------------------------------------
  // How far `fib` can go in an `int`

  /** `k` more steps of the pair iteration from `(a, b)`. */
  function FibFrom(k: nat, a: nat, b: nat): nat
  {
    if k == 0 then a else FibFrom(k - 1, b, a + b)
  }

  /** The pair iteration started at `(F(i), F(i + 1))` computes the Fibonacci numbers. */
  lemma {:induction false} FibFromIs(k: nat, i: nat)
    ensures FibFrom(k, F(i), F(i + 1)) == F(i + k)
    decreases k
  {
    if k > 0 {
      assert F(i + 2) == F(i) + F(i + 1);
      FibFromIs(k - 1, i + 1);
    }
  }

  /** The Fibonacci numbers grow with their argument. */
  lemma {:induction false} FibMonotone(i: nat, j: nat)
    requires i <= j
    ensures F(i) <= F(j)
    decreases j - i
  {
    if i < j {
      FibMonotone(i + 1, j);
      if i + 1 >= 2 {
        assert F(i + 1) == F(i - 1) + F(i);
      }
    }
  }

  /** F(46) is the last Fibonacci number below 2^31: `fib` overflows from 47 on. */
  lemma FibFitsExactly()
    ensures F(MaxFib) < 0x8000_0000 <= F(MaxFib + 1)
  {
    FibFromIs(46, 0);
    FibFromIs(47, 0);
    assert FibFrom(46, 0, 1) == FibFrom(36, 55, 89);
    assert FibFrom(36, 55, 89) == FibFrom(26, 6765, 10946);
    assert FibFrom(26, 6765, 10946) == FibFrom(16, 832040, 1346269);
    assert FibFrom(16, 832040, 1346269) == FibFrom(6, 102334155, 165580141);
    assert FibFrom(47, 0, 1) == FibFrom(37, 55, 89);
    assert FibFrom(37, 55, 89) == FibFrom(27, 6765, 10946);
    assert FibFrom(27, 6765, 10946) == FibFrom(17, 832040, 1346269);
    assert FibFrom(17, 832040, 1346269) == FibFrom(7, 102334155, 165580141);
  }

  /** Every Fibonacci number up to F(46) is an `int`. */
  lemma FibFits(i: nat)
    requires i <= MaxFib
    ensures F(i) < 0x8000_0000
  {
    FibMonotone(i, MaxFib);
    FibFitsExactly();
  }

  /**
   * `fib`: 0 and 1 for 0 and 1, otherwise the loop that slides the pair
   * `(prev, curr)` up to `n`. Beyond F(46) the `int` addition overflows, which
   * C leaves undefined, so callers stay at or below 46.
   */
  method Fib(n: int) returns (r: i32)
    requires n <= MaxFib
    ensures r as int == FibResult(n)
  {
    if n == 0 {
      return 0;
    }
    if n == 1 {
      return 1;
    }
    var prev: i32 := 0;
    var curr: i32 := 1;
    var i := 2;
    while i <= n
      invariant 2 <= i && (n >= 2 ==> i <= n + 1) && (n < 2 ==> i == 2)
      invariant prev as int == F(i - 2) && curr as int == F(i - 1)
    {
      FibFits(i);
      var next := prev + curr;
      prev := curr;
      curr := next;
      i := i + 1;
    }
    return curr;
  }

  // ---------------------------------------------------------------------------
  // The driver

  const Greeting: string := "READER"

  /** The reader's greeting, received in one piece, gets a request handler rather than an observer slot. */
  lemma GreetingServed()
    ensures ObservedServer.Classify(Greeting) == ObservedServer.Client
  {
    ObservedServer.GreetingRole(Greeting);
  }

  /** What the reader prints: the value of a slot and its Fibonacci number, or an unexpected reply. */
  datatype Event = Computed(index: int, value: int, fib: int) | Echoed(text: string)

  /** What one round is given: the `rand()` drawn for the index and the network's behaviour. */
  datatype Round = Round(indexDraw: nat, exchange: Exchange)

  /**
   * One round: READ of slot `rand() % 10`; a reply starting `VALUE` has its
   * number read by `atoi` from byte 6 and passed to `fib`, any other reply
   * is printed. A number above 46 makes `fib` overflow: undefined.
   */
  function Step(r: Round): (l: Log<Event>)
  {
    var index := r.indexDraw % TableSize;
    var sent := RequestSends(ReadRequest(index), r.exchange);
    match Answer(r.exchange)
    case None => Log(sent, [], Stopped)
    case Some(buffer) =>
      var reply := CString(buffer);
      if IsValueReply(reply) then
        var value := ReplyValue(buffer);
        if value > MaxFib then Log(sent, [], Faulted)
        else Log(sent, [Computed(index, value, FibResult(value))], Running)
      else Log(sent, [Echoed(reply)], Running)
  }

  /** The driver: `Greeted` with this greeting and this round. */
  function Task(handshakeSent: bool, rounds: seq<Round>): (l: Log<Event>)
  {
    Greeted(Greeting, handshakeSent, Step, rounds)
  }

  /** One round, on the driver's reply buffer. */
  method Turn(buffer: array<char>, r: Round) returns (l: Log<Event>)
    requires buffer.Length == BufferSize
    modifies buffer
    ensures l == Step(r)
  {
    var index := r.indexDraw % TableSize;
    var request := ReadRequest(index);
    var sent := RequestSends(request, r.exchange);
    if !r.exchange.lengthSent || !r.exchange.bodySent {
      return Log(sent, [], Stopped);
    }
    var n := Receive(buffer, r.exchange.received);
    if n <= 0 {
      return Log(sent, [], Stopped);
    }
    var reply := CString(buffer[..]);
    if IsValueReply(reply) {
      var value := ReplyValue(buffer[..]);
      if value > MaxFib {
        return Log(sent, [], Faulted);
      }
      var fib := Fib(value);
      l := Log(sent, [Computed(index, value, fib as int)], Running);
    } else {
      l := Log(sent, [Echoed(reply)], Running);
    }
  }

  /** `reader_task` from the handshake on, over the rounds given. */
  method ReaderTask(handshakeSent: bool, rounds: seq<Round>) returns (log: Log<Event>)
    ensures log == Task(handshakeSent, rounds)
  {
    var buffer := new char[BufferSize](_ => '\0');
    log := Log([Handshake(Greeting)], [], Running);
    if !handshakeSent {
      return log.(status := Stopped);
    }
    var k := 0;
    while k < |rounds|
      invariant 0 <= k <= |rounds| && log.status == Running
      invariant Then(log, Run(Step, rounds[k..])) == Task(true, rounds)
    {
      var l := Turn(buffer, rounds[k]);
      RunFrom(Step, rounds, k, log);
      log := Then(log, l);
      if l.status != Running {
        return;
      }
      k := k + 1;
    }
    ThenNothing(log);
  }

  // ---------------------------------------------------------------------------
  // What the driver sends

  /** Each round sends `READ` of a slot of the table, framed as the server reads it. */
  lemma StepSends(r: Round)
    ensures var index := r.indexDraw % TableSize;
      0 <= index < TableSize &&
      Step(r).sent == RequestSends(ReadRequest(index), r.exchange) &&
      Framed(Step(r).sent) && NoHandshake(Step(r).sent)
  {
    var index := r.indexDraw % TableSize;
    ReadRequestFits(index);
    SendsOfRequest(ReadRequest(index), r.exchange);
  }

  /**
   * The handshake goes out once, first, and every request after it is framed
   * by its length.
   */
  lemma TaskSends(handshakeSent: bool, rounds: seq<Round>)
    ensures var sent := Task(handshakeSent, rounds).sent;
      sent != [] && sent[0] == Handshake(Greeting) &&
      NoHandshake(sent[1..]) && Framed(sent[1..])
  {
    forall i | 0 <= i < |rounds| ensures Framed(Step(rounds[i]).sent) && NoHandshake(Step(rounds[i]).sent) {
      StepSends(rounds[i]);
    }
    GreetedSends(Greeting, handshakeSent, Step, rounds);
  }

  /**
   * A reply starting `VALUE` gives the value `atoi` reads from byte 6 and its
   * Fibonacci number; any other reply is printed as it is.
   */
  lemma StepReports(r: Round)
    requires Answer(r.exchange).Some?
    ensures var buffer := Answer(r.exchange).value; var reply := CString(buffer);
      var value := ReplyValue(buffer);
      (IsValueReply(reply) && value <= MaxFib ==>
        Step(r).events == [Computed(r.indexDraw % TableSize, value, FibResult(value))]) &&
      (!IsValueReply(reply) ==> Step(r).events == [Echoed(reply)]) &&
      (Step(r).status == Running <==> !IsValueReply(reply) || value <= MaxFib)
  {
  }

  /** The round ends the driver's loop exactly when a send or the read fails, or `fib` would overflow. */
  lemma StepStops(r: Round)
    ensures Step(r).status == Stopped <==> Answer(r.exchange).None?
    ensures Step(r).status == Faulted <==>
      Answer(r.exchange).Some? && IsValueReply(CString(Answer(r.exchange).value)) &&
      ReplyValue(Answer(r.exchange).value) > MaxFib
  {
  }

  // ---------------------------------------------------------------------------
  // Against the server

  /**
   * A round whose sends go through and whose read gets the server's reply to
   * its READ reports the slot's value and its Fibonacci number, as long as
   * that value is at most 46.
   */
  lemma ReadsTable(table: seq<int>, r: Round)
    requires |table| == TableSize
    requires r.exchange.lengthSent && r.exchange.bodySent
    requires var o := ObservedServer.Serve(table, ReadRequest(r.indexDraw % TableSize));
      o.Served? && o.reply.Some? && o.reply.value == r.exchange.received
    ensures var index := r.indexDraw % TableSize;
      Step(r) == Log([LengthField(6), Body(ReadRequest(index))],
        if table[index] <= MaxFib then [Computed(index, table[index], FibResult(table[index]))] else [],
        if table[index] <= MaxFib then Running else Faulted)
  {
    var index := r.indexDraw % TableSize;
    ObservedServer.ServeRead(table, index);
    BufferOfValueReply(table[index]);
    ReadRequestFits(index);
    SendsOfRequest(ReadRequest(index), r.exchange);
  }
}
