/**
 * How both servers take one request off a connection: a length field, then
 * the body, reassembled from as many reads as it takes into a 1024-byte
 * buffer that lives for the whole connection and is never cleared.
 */
module Framing {
  import opened CLib

  const BufferSize: nat := 1024

  /** The handler's buffer as it starts, `{0}`: all zero. */
  function EmptyBuffer(): (b: seq<char>)
    ensures |b| == BufferSize
  {
    seq(BufferSize, _ => '\0')
  }

  /** The length check: the body and its terminating NUL must fit the buffer. */
  predicate ValidLength(msgLen: int)
  {
    0 < msgLen < BufferSize
  }

  /**
   * What one turn of the request loop reads. `Closed` is a read of the length
   * field that returned 0 or less. Otherwise `parts` lists what the successive
   * reads of the body returned; an empty part is a read that returned 0 or
   * less.
   */
  datatype Frame = Closed | Frame(msgLen: int, parts: seq<seq<char>>)

  function Min(a: int, b: int): int
  {
    if a < b then a else b
  }

  /** The bytes the reads of a body deliver before the first one that fails. */
  function Delivered(parts: seq<seq<char>>): seq<char>
  {
    if parts == [] || parts[0] == [] then [] else parts[0] + Delivered(parts[1..])
  }

  /** `buf` with `chunk` copied in at offset `at`. */
  function Overwrite(buf: seq<char>, at: nat, chunk: seq<char>): (r: seq<char>)
    requires at + |chunk| <= |buf|
    ensures |r| == |buf|
  {
    buf[..at] + chunk + buf[at + |chunk|..]
  }

  /**
   * The body loop from `result` bytes on: each read asks for the bytes still
   * missing and stores them after those already there; the loop stops once
   * the body is complete or a read fails. Returns the buffer and the count.
   */
  function Fill(buf: seq<char>, result: nat, msgLen: nat, parts: seq<seq<char>>): (r: (seq<char>, nat))
    requires result <= msgLen <= |buf|
    ensures |r.0| == |buf| && result <= r.1 <= msgLen
    decreases |parts|
  {
    if result >= msgLen || parts == [] || parts[0] == [] then (buf, result)
    else
      var chunk := parts[0][..Min(|parts[0]|, msgLen - result)];
      Fill(Overwrite(buf, result, chunk), result + |chunk|, msgLen, parts[1..])
  }

  /** The buffer after the body loop and the NUL the server stores at `msgLen`. */
  function BodyBuffer(buf: seq<char>, msgLen: nat, parts: seq<seq<char>>): (r: seq<char>)
    requires msgLen < |buf|
    ensures |r| == |buf| && r[msgLen] == '\0'
  {
    Fill(buf, 0, msgLen, parts).0[msgLen := '\0']
  }

  /** The request the server works on: `strdup` of the buffer. */
  function Request(buf: seq<char>, msgLen: nat, parts: seq<seq<char>>): (r: seq<char>)
    requires msgLen < |buf|
    ensures '\0' !in r && |r| <= msgLen
  {
    var b := BodyBuffer(buf, msgLen, parts);
    assert b[msgLen] == '\0';
    CString(b)
  }

  /**
   * The reassembly loop of the request handler, on the handler's buffer.
   * Returns the number of bytes read; the buffer ends up as `BodyBuffer` says.
   */
  method ReadBody(buffer: array<char>, msgLen: int, parts: seq<seq<char>>) returns (result: int)
    requires buffer.Length == BufferSize && ValidLength(msgLen)
    modifies buffer
    ensures 0 <= result <= msgLen
    ensures result == Fill(old(buffer[..]), 0, msgLen, parts).1
    ensures buffer[..] == BodyBuffer(old(buffer[..]), msgLen, parts)
  {
    result := 0;
    var k := 0;
    while result < msgLen
      invariant 0 <= result <= msgLen && 0 <= k <= |parts|
      invariant Fill(buffer[..], result, msgLen, parts[k..]) == Fill(old(buffer[..]), 0, msgLen, parts)
      decreases |parts| - k
    {
      if k == |parts| || parts[k] == [] {
        break;
      }
      var chunk := parts[k][..Min(|parts[k]|, msgLen - result)];
      ghost var before := buffer[..];
      assert parts[k..][0] == parts[k] && parts[k..][1..] == parts[k + 1..];
      forall j | 0 <= j < |chunk| {
        buffer[result + j] := chunk[j];
      }
      assert buffer[..] == Overwrite(before, result, chunk);
      result := result + |chunk|;
      k := k + 1;
    }
    buffer[msgLen] := '\0';
  }

  // ---------------------------------------------------------------------------
  // What the reassembled buffer holds

  lemma {:induction false} FillContents(buf: seq<char>, result: nat, msgLen: nat, parts: seq<seq<char>>)
    requires result <= msgLen <= |buf|
    ensures var r := Fill(buf, result, msgLen, parts);
      r.1 == result + Min(|Delivered(parts)|, msgLen - result) &&
      r.0 == buf[..result] + Delivered(parts)[..r.1 - result] + buf[r.1..]
    decreases |parts|
  {
    if result >= msgLen || parts == [] || parts[0] == [] {
      FillStops(buf, result, msgLen, parts);
    } else {
      var chunk := parts[0][..Min(|parts[0]|, msgLen - result)];
      var buf' := Overwrite(buf, result, chunk);
      FillContents(buf', result + |chunk|, msgLen, parts[1..]);
      FillStep(buf, result, msgLen, parts);
    }
  }

  /** A body loop that does not start a read leaves the buffer alone. */
  lemma FillStops(buf: seq<char>, result: nat, msgLen: nat, parts: seq<seq<char>>)
    requires result <= msgLen <= |buf|
    requires result >= msgLen || parts == [] || parts[0] == []
    ensures var r := Fill(buf, result, msgLen, parts);
      r.1 == result + Min(|Delivered(parts)|, msgLen - result) &&
      r.0 == buf[..result] + Delivered(parts)[..r.1 - result] + buf[r.1..]
  {
    assert Fill(buf, result, msgLen, parts) == (buf, result);
    assert Min(|Delivered(parts)|, msgLen - result) == 0;
    assert buf == buf[..result] + buf[result..];
  }

  /** One read of the body loop, given what the reads after it do. */
  lemma FillStep(buf: seq<char>, result: nat, msgLen: nat, parts: seq<seq<char>>)
    requires result < msgLen <= |buf| && parts != [] && parts[0] != []
    requires var chunk := parts[0][..Min(|parts[0]|, msgLen - result)];
      var buf' := Overwrite(buf, result, chunk);
      var result' := result + |chunk|;
      var r := Fill(buf', result', msgLen, parts[1..]);
      r.1 == result' + Min(|Delivered(parts[1..])|, msgLen - result') &&
      r.0 == buf'[..result'] + Delivered(parts[1..])[..r.1 - result'] + buf'[r.1..]
    ensures var r := Fill(buf, result, msgLen, parts);
      r.1 == result + Min(|Delivered(parts)|, msgLen - result) &&
      r.0 == buf[..result] + Delivered(parts)[..r.1 - result] + buf[r.1..]
  {
    var chunk := parts[0][..Min(|parts[0]|, msgLen - result)];
    var d' := Delivered(parts[1..]);
    assert Delivered(parts) == parts[0] + d';
    var r := Fill(Overwrite(buf, result, chunk), result + |chunk|, msgLen, parts[1..]);
    assert Fill(buf, result, msgLen, parts) == r;
    if |parts[0]| >= msgLen - result {
      FullChunk(buf, result, msgLen, parts[0], d');
    } else {
      assert chunk == parts[0];
      SpliceAfter(buf, result, chunk, d', r.1);
    }
  }

  /** A read that completes the body leaves the buffer as one copy of its first bytes. */
  lemma FullChunk(buf: seq<char>, result: nat, msgLen: nat, part: seq<char>, rest: seq<char>)
    requires result < msgLen <= |buf| && msgLen - result <= |part|
    ensures var b := Overwrite(buf, result, part[..msgLen - result]);
      b == buf[..result] + (part + rest)[..msgLen - result] + buf[msgLen..]
  {
    var chunk := part[..msgLen - result];
    assert (part + rest)[..msgLen - result] == chunk;
  }

  /** A chunk copied in at `at`, followed by the first bytes of `rest`, as one copy of both. */
  lemma SpliceAfter(buf: seq<char>, at: nat, chunk: seq<char>, rest: seq<char>, n: nat)
    requires at + |chunk| <= n <= |buf| && n - at - |chunk| <= |rest|
    ensures var b := Overwrite(buf, at, chunk);
      b[..at + |chunk|] + rest[..n - at - |chunk|] + b[n..] == buf[..at] + (chunk + rest)[..n - at] + buf[n..]
  {
    var b := Overwrite(buf, at, chunk);
    assert b[..at + |chunk|] == buf[..at] + chunk;
    assert b[n..] == buf[n..];
    assert (chunk + rest)[..n - at] == chunk + rest[..n - at - |chunk|];
    AppendAssociative(buf[..at], chunk, rest[..n - at - |chunk|]);
  }

  /**
   * The buffer after a body: the bytes delivered, the bytes the previous
   * requests left behind up to `msgLen`, and a NUL at `msgLen`.
   */
  lemma BodyBufferContents(buf: seq<char>, msgLen: nat, parts: seq<seq<char>>)
    requires msgLen < |buf|
    ensures var got := Min(|Delivered(parts)|, msgLen);
      BodyBuffer(buf, msgLen, parts) ==
        Delivered(parts)[..got] + buf[got..msgLen] + ['\0'] + buf[msgLen + 1..]
  {
    FillContents(buf, 0, msgLen, parts);
    var got := Min(|Delivered(parts)|, msgLen);
    var b := Fill(buf, 0, msgLen, parts).0;
    assert b == Delivered(parts)[..got] + buf[got..];
    var r := BodyBuffer(buf, msgLen, parts);
    assert r == b[msgLen := '\0'];
    var e := Delivered(parts)[..got] + buf[got..msgLen] + ['\0'] + buf[msgLen + 1..];
    assert |r| == |e|;
    forall i | 0 <= i < |r|
      ensures r[i] == e[i]
    {
      if i < got {
      } else if i < msgLen {
      } else if i == msgLen {
      } else {
      }
    }
  }

  /** The loop reaches `msgLen` exactly when the reads deliver that many bytes before one fails. */
  lemma CompleteBody(buf: seq<char>, msgLen: nat, parts: seq<seq<char>>)
    requires msgLen <= |buf|
    ensures Fill(buf, 0, msgLen, parts).1 == msgLen <==> |Delivered(parts)| >= msgLen
  {
    FillContents(buf, 0, msgLen, parts);
  }

  /** A C string followed by its NUL reads back as itself, whatever follows. */
  lemma {:induction false} CStringOfTerminated(text: seq<char>, rest: seq<char>)
    requires '\0' !in text
    ensures CString(text + ['\0'] + rest) == text
  {
    if text != [] {
      assert (text + ['\0'] + rest)[1..] == text[1..] + ['\0'] + rest;
      assert text[0] in text;
      assert '\0' !in text[1..] by {
        forall c | c in text[1..] ensures c != '\0' { }
      }
      CStringOfTerminated(text[1..], rest);
      assert text == [text[0]] + text[1..];
    }
  }

  /** A body delivered in full and free of NUL is the request the server works on. */
  lemma RequestOfFullBody(buf: seq<char>, msgLen: nat, parts: seq<seq<char>>)
    requires msgLen < |buf|
    requires |Delivered(parts)| >= msgLen && '\0' !in Delivered(parts)[..msgLen]
    ensures Request(buf, msgLen, parts) == Delivered(parts)[..msgLen]
  {
    BodyBufferContents(buf, msgLen, parts);
    var text := Delivered(parts)[..msgLen];
    assert buf[msgLen..msgLen] == [];
    assert BodyBuffer(buf, msgLen, parts) == text + ['\0'] + buf[msgLen + 1..];
    CStringOfTerminated(text, buf[msgLen + 1..]);
  }

  /**
   * A body cut short: the bytes missing are taken from what the buffer held
   * before, so an earlier, longer request shows through.
   */
  lemma TruncatedBodyKeepsStaleBytes(buf: seq<char>, msgLen: nat, parts: seq<seq<char>>)
    requires msgLen < |buf| && |Delivered(parts)| < msgLen
    ensures Fill(buf, 0, msgLen, parts).1 < msgLen
    ensures var got := |Delivered(parts)|;
      BodyBuffer(buf, msgLen, parts)[got..msgLen] == buf[got..msgLen]
  {
    BodyBufferContents(buf, msgLen, parts);
    FillContents(buf, 0, msgLen, parts);
  }
}
