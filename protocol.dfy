/**
 * The text protocol between the server and its drivers: the request lines the
 * drivers build, how the server reads them, the replies and broadcast lines
 * the server prints, and how the drivers read the replies back.
 *
 * Requests travel as a 4-byte length followed by the text (see Framing);
 * replies and broadcasts are bare text.
 */
module Protocol {
  import opened CLib

  /** `ARRAY_SIZE`: the number of slots of the table, in the servers and the drivers alike. */
  const TableSize: nat := 10

  /** The table `init_db` fills in, in both servers. */
  function InitialTable(): seq<int>
  {
    seq(TableSize, i => i + 1)
  }

  /** One `send`: the socket it goes to and the text. */
  type Send = (int, string)

  // ---------------------------------------------------------------------------
  // Requests, as the drivers print them with `sprintf`; each `...Format` lemma
  // below shows that the C format string prints exactly this text

  function ReadRequest(index: int): string
  {
    "READ " + Dec(index)
  }

  function WriteRequest(index: int, value: int): string
  {
    "WRITE " + Dec(index) + " " + Dec(value)
  }

  // ---------------------------------------------------------------------------
  // Replies and broadcast lines, as the server prints them with `snprintf`

  function ValueReply(value: int): string
  {
    "VALUE " + Dec(value)
  }

  /** The reply to a WRITE in the server with observers. */
  function UpdatedReply(oldValue: int, newValue: int): string
  {
    "UPDATED FROM " + Dec(oldValue) + " TO " + Dec(newValue)
  }

  /** The reply to a WRITE in the server without observers. */
  const PlainUpdatedReply: string := "UPDATED"

  /** Broadcast after a READ; the format has two spaces before the index. */
  function ReadNotice(value: int, index: int): string
  {
    "read value " + Dec(value) + " from index  " + Dec(index)
  }

  /** Broadcast after a WRITE. */
  function WriteNotice(index: int, newValue: int, oldValue: int): string
  {
    "DB[" + (Dec(index) + ("] updated to " + (Dec(newValue) + (" (old value " + (Dec(oldValue) + ")")))))
  }

  const ConnectedNotice: string := "Client connected"
  const DisconnectedNotice: string := "Client disconnected"

  // ---------------------------------------------------------------------------
  // How the server reads a request

  /**
   * What a request asks for. `Undefined` stands for the requests on which the
   * C code has undefined behaviour: a body of exactly `READ` or `WRITE` makes
   * it read past the copy `strdup` made, and a WRITE whose two numbers cannot
   * both be scanned leaves the index or the value uninitialised.
   */
  datatype Command = Read(index: int) | Write(index: int, value: int) | Unknown | Undefined

  /**
   * The verb test and the argument parsing of the request handler, applied to
   * the C string `request`: `atoi` from offset 5 for READ, `sscanf` with
   * `"%d %d"` from offset 6 for WRITE, nothing for any other text.
   */
  function ParseCommand(request: string): (c: Command)
    ensures c.Read? ==> StartsWith(request, "READ")
    ensures c.Write? ==> StartsWith(request, "WRITE") && !StartsWith(request, "READ")
    ensures c.Unknown? <==> !StartsWith(request, "READ") && !StartsWith(request, "WRITE")
    ensures c.Undefined? ==> StartsWith(request, "READ") || StartsWith(request, "WRITE")
    ensures c.Undefined? && StartsWith(request, "READ") ==> request == "READ"
  {
    if StartsWith(request, "READ") then
      if |request| < 5 then Undefined else Read(Atoi(request[5..]))
    else if StartsWith(request, "WRITE") then
      if |request| < 6 then Undefined
      else
        var vs := Scanf(request[6..], "%d %d");
        if |vs| == 2 then Write(vs[0], vs[1]) else Undefined
    else Unknown
  }

  // ---------------------------------------------------------------------------
  // How the drivers read a reply (`reply` is the received text as a C string,
  // `raw` the bytes received, the rest of the 1024-byte buffer being zero)

  /** `strstr(buffer, "VALUE") == buffer`. */
  predicate IsValueReply(reply: string)
  {
    StartsWith(reply, "VALUE")
  }

  /** `atoi(buffer + 6)`; the NUL after the reply stops `atoi` like any other non-digit. */
  function ReplyValue(raw: seq<char>): int
  {
    Atoi(Drop(raw, 6))
  }

  /** `strncmp(buffer, "UPDATED FROM", 12) == 0`. */
  predicate IsUpdatedFromReply(reply: string)
  {
    StartsWith(reply, "UPDATED FROM")
  }

  /** The values `sscanf(buffer, "UPDATED FROM %d TO %d", ...)` assigns. */
  function UpdatedValues(reply: string): seq<int>
  {
    Scanf(reply, "UPDATED FROM %d TO %d")
  }

  /** The values `sscanf(buffer, "VALUE %d", ...)` assigns. */
  function ScannedValue(reply: string): seq<int>
  {
    Scanf(reply, "VALUE %d")
  }

  // ---------------------------------------------------------------------------
  // The texts spelled out

  lemma ReadRequestFormat(index: int)
    ensures Printf("READ %d", [index]) == ReadRequest(index)
  {
    PrintfOne("READ ", "", index);
    assert "READ %d" == "READ " + ("%d" + "");
    assert Dec(index) + "" == Dec(index);
  }

  lemma TwoNumbersText(index: int, value: int)
    ensures Printf("%d %d", [index, value]) == Dec(index) + " " + Dec(value)
  {
    PrintfTwo("", " ", "", index, value);
    assert "%d %d" == "" + ("%d" + (" " + ("%d" + "")));
    assert "" + (Dec(index) + (" " + (Dec(value) + ""))) == Dec(index) + " " + Dec(value);
  }

  lemma WriteRequestFormat(index: int, value: int)
    ensures Printf("WRITE %d %d", [index, value]) == WriteRequest(index, value)
  {
    PrintfTwo("WRITE ", " ", "", index, value);
    assert "WRITE %d %d" == "WRITE " + ("%d" + (" " + ("%d" + "")));
    assert "WRITE " + (Dec(index) + (" " + (Dec(value) + ""))) == WriteRequest(index, value);
  }

  lemma ValueReplyFormat(value: int)
    ensures Printf("VALUE %d", [value]) == ValueReply(value)
  {
    PrintfOne("VALUE ", "", value);
    assert "VALUE %d" == "VALUE " + ("%d" + "");
    assert Dec(value) + "" == Dec(value);
  }

  lemma UpdatedReplyFormat(oldValue: int, newValue: int)
    ensures Printf("UPDATED FROM %d TO %d", [oldValue, newValue]) == UpdatedReply(oldValue, newValue)
  {
    PrintfTwo("UPDATED FROM ", " TO ", "", oldValue, newValue);
    UpdatedLayout();
    UpdatedReplyText(oldValue, newValue);
  }

  /** Helper for `UpdatedReplyFormat`: the format cut at its conversions. */
  lemma UpdatedLayout()
    ensures "UPDATED FROM %d TO %d" == "UPDATED FROM " + ("%d" + (" TO " + ("%d" + "")))
  {
  }

  /** Helper for `UpdatedReplyFormat`: the printed pieces regrouped as the reply. */
  lemma UpdatedReplyText(oldValue: int, newValue: int)
    ensures "UPDATED FROM " + (Dec(oldValue) + (" TO " + (Dec(newValue) + ""))) == UpdatedReply(oldValue, newValue)
  {
  }

  lemma ReadNoticeFormat(value: int, index: int)
    ensures Printf("read value %d from index  %d", [value, index]) == ReadNotice(value, index)
  {
    PrintfTwo("read value ", " from index  ", "", value, index);
    ReadNoticeLayout();
    ReadNoticeText(value, index);
  }

  /** Helper for `ReadNoticeFormat`: the format cut at its conversions. */
  lemma ReadNoticeLayout()
    ensures "read value %d from index  %d" == "read value " + ("%d" + (" from index  " + ("%d" + "")))
  {
  }

  /** Helper for `ReadNoticeFormat`: the printed pieces regrouped as the notice. */
  lemma ReadNoticeText(value: int, index: int)
    ensures "read value " + (Dec(value) + (" from index  " + (Dec(index) + ""))) == ReadNotice(value, index)
  {
  }

  lemma WriteNoticeFormat(index: int, newValue: int, oldValue: int)
    ensures Printf("DB[%d] updated to %d (old value %d)", [index, newValue, oldValue]) ==
      WriteNotice(index, newValue, oldValue)
  {
    PrintfThree("DB[", "] updated to ", " (old value ", ")", index, newValue, oldValue);
    WriteNoticeLayout();
  }

  /** Helper for `WriteNoticeFormat`: the format cut at its conversions. */
  lemma WriteNoticeLayout()
    ensures "DB[%d] updated to %d (old value %d)" ==
      "DB[" + ("%d" + ("] updated to " + ("%d" + (" (old value " + ("%d" + ")")))))
  {
  }

  /** The `"%d %d"` format reads back both numbers. */
  lemma TwoNumbersFormat()
    ensures Convs(Pieces("%d %d")) == 2 && Separated(Pieces("%d %d"))
  {
    SeparatedTwo("", " ", "");
    assert "%d %d" == "" + ("%d" + (" " + ("%d" + "")));
  }

  lemma ValueFormat()
    ensures Convs(Pieces("VALUE %d")) == 1 && Separated(Pieces("VALUE %d"))
  {
    SeparatedOne("VALUE ", "");
    assert "VALUE %d" == "VALUE " + ("%d" + "");
  }

  lemma UpdatedFormat()
    ensures Convs(Pieces("UPDATED FROM %d TO %d")) == 2
    ensures Separated(Pieces("UPDATED FROM %d TO %d"))
  {
    SeparatedTwo("UPDATED FROM ", " TO ", "");
    UpdatedLayout();
  }

  // ---------------------------------------------------------------------------
  // Sizes of the requests the drivers send

  /** A one-digit number prints as that digit. */
  lemma SmallDec(n: int)
    requires 0 <= n < 10
    ensures Dec(n) == [DigitChar(n)]
  {
  }

  lemma DecBelowHundred(n: int)
    requires 0 <= n < 100
    ensures 1 <= |Dec(n)| <= 2
  {
    if n >= 10 {
      assert NatDigits(n) == NatDigits(n / 10) + [DigitChar(n % 10)];
    }
  }

  /** The text of a C string without NUL is all of it; `strlen` is its length. */
  lemma CStringOfNulFree(s: seq<char>)
    requires '\0' !in s
    ensures CString(s) == s
  {
  }

  /** A READ for a table index fits a frame and holds no NUL. */
  lemma ReadRequestFits(index: int)
    requires 0 <= index < 10
    ensures |ReadRequest(index)| == 6 && '\0' !in ReadRequest(index)
  {
    SmallDec(index);
  }

  /** A WRITE for a table index and a value below 40 fits a frame and holds no NUL. */
  lemma WriteRequestFits(index: int, value: int)
    requires 0 <= index < 10 && 0 <= value < 40
    ensures 9 <= |WriteRequest(index, value)| <= 10 && '\0' !in WriteRequest(index, value)
  {
    SmallDec(index);
    DecBelowHundred(value);
    var r := WriteRequest(index, value);
    assert r == "WRITE " + [DigitChar(index)] + " " + Dec(value);
    assert forall c | c in r :: c in "WRITE " || c == DigitChar(index) || c == ' ' || c in Dec(value);
  }

  // ---------------------------------------------------------------------------
  // Round trips between the drivers and the server

  /** The server reads back the index of every READ request a driver prints. */
  lemma ParseReadRequest(index: int)
    ensures ParseCommand(ReadRequest(index)) == Read(index)
  {
    var r := ReadRequest(index);
    assert r[..4] == "READ" && r[5..] == Dec(index);
    AtoiOfDec(index);
  }

  /** The server reads back the index and value of every WRITE request a driver prints. */
  lemma ParseWriteRequest(index: int, value: int)
    ensures ParseCommand(WriteRequest(index, value)) == Write(index, value)
  {
    var body := Printf("%d %d", [index, value]);
    TwoNumbersText(index, value);
    assert WriteRequest(index, value) == "WRITE " + body;
    ScanTwoNumbers(index, value);
    ParseWriteVerb(body);
  }

  /** Any text after `WRITE ` is handed to the `"%d %d"` scan. */
  lemma ParseWriteVerb(body: string)
    ensures ParseCommand("WRITE " + body) ==
      (var vs := Scanf(body, "%d %d"); if |vs| == 2 then Write(vs[0], vs[1]) else Undefined)
  {
    var r := "WRITE " + body;
    assert r[0] == 'W' && r[..5] == "WRITE" && !StartsWith(r, "READ");
    assert r[6..] == body;
  }

  lemma ScanTwoNumbers(index: int, value: int)
    ensures Scanf(Printf("%d %d", [index, value]), "%d %d") == [index, value]
  {
    TwoNumbersFormat();
    ScanfPrintf("%d %d", [index, value]);
  }

  lemma ValueReplyNulFree(value: int)
    ensures '\0' !in ValueReply(value)
  {
    assert forall c | c in ValueReply(value) :: c in "VALUE " || c in Dec(value);
  }

  lemma UpdatedReplyNulFree(oldValue: int, newValue: int)
    ensures '\0' !in UpdatedReply(oldValue, newValue)
  {
    assert forall c | c in UpdatedReply(oldValue, newValue) ::
      c in "UPDATED FROM " || c in Dec(oldValue) || c in " TO " || c in Dec(newValue);
  }

  /** A driver recognises a VALUE reply and reads back the value with `atoi`. */
  lemma DecodeValueReply(value: int)
    ensures IsValueReply(ValueReply(value))
    ensures ReplyValue(ValueReply(value)) == value
  {
    var r := ValueReply(value);
    assert r[..5] == "VALUE" && r[6..] == Dec(value);
    AtoiOfDec(value);
  }

  /** The driver without a handshake reads the value back with `sscanf`. */
  lemma ScanValueReply(value: int)
    ensures ScannedValue(ValueReply(value)) == [value]
  {
    ValueFormat();
    ScanfPrintf("VALUE %d", [value]);
    ValueReplyFormat(value);
  }

  /** A writer recognises an UPDATED FROM reply and reads back both values. */
  lemma DecodeUpdatedReply(oldValue: int, newValue: int)
    ensures IsUpdatedFromReply(UpdatedReply(oldValue, newValue))
    ensures UpdatedValues(UpdatedReply(oldValue, newValue)) == [oldValue, newValue]
  {
    var r := UpdatedReply(oldValue, newValue);
    assert r[..12] == "UPDATED FROM";
    UpdatedFormat();
    ScanfPrintf("UPDATED FROM %d TO %d", [oldValue, newValue]);
    UpdatedReplyFormat(oldValue, newValue);
  }
}
