/** The newline framing of the gateway's acknowledgement: bytes arrive in reads of 1 to 512
    bytes, the line ends at the first newline, and what follows it is early tunnel data. */
module AckFraming {
  import opened Common

  type Bytes = seq<byte>

  const NEWLINE: byte := 10
  const CHUNK: nat := 512
  const MAX_LINE: nat := 65536

  datatype Read = Data(bytes: Bytes) | Eof | ReadFailure

  datatype FrameError = Closed | ReadFailed | TooLong

  /** `Waiting` means that no further read has arrived: the caller's timeout decides. */
  datatype Frame = Line(line: Bytes, early: Bytes) | Failed(error: FrameError) | Waiting

  predicate ValidReads(input: seq<Read>) {
    forall i :: 0 <= i < |input| && input[i].Data? ==> 1 <= |input[i].bytes| <= CHUNK
  }

  predicate AllData(input: seq<Read>) {
    forall i :: 0 <= i < |input| ==> input[i].Data?
  }

  /** The position of the first newline, or the length when there is none. */
  function NewlineAt(bytes: Bytes): (k: nat)
    ensures k <= |bytes|
    ensures k < |bytes| ==> bytes[k] == NEWLINE
    ensures forall i :: 0 <= i < k ==> bytes[i] != NEWLINE
  {
    if |bytes| == 0 || bytes[0] == NEWLINE then 0 else 1 + NewlineAt(bytes[1..])
  }

  function Unframe(input: seq<Read>, line: Bytes): Frame
    decreases |input|
  {
    if |input| == 0 then Waiting
    else match input[0]
      case ReadFailure => Failed(ReadFailed)
      case Eof => Failed(Closed)
      case Data(chunk) =>
        var k := NewlineAt(chunk);
        if k < |chunk| then Line(line + chunk[..k], chunk[k + 1..])
        else if |line + chunk| > MAX_LINE then Failed(TooLong)
        else Unframe(input[1..], line + chunk)
  }

  /** The read loop of `exchange_ack`. */
  method ReadAckLine(input: seq<Read>) returns (f: Frame)
    ensures f == Unframe(input, [])
  {
    var line: Bytes := [];
    var i := 0;
    while i < |input|
      invariant 0 <= i <= |input|
      invariant Unframe(input, []) == Unframe(input[i..], line)
    {
      assert input[i..][0] == input[i] && input[i..][1..] == input[i + 1..];
      match input[i] {
        case ReadFailure => return Failed(ReadFailed);
        case Eof => return Failed(Closed);
        case Data(chunk) =>
          var k := NewlineAt(chunk);
          if k < |chunk| {
            return Line(line + chunk[..k], chunk[k + 1..]);
          }
          line := line + chunk;
          if |line| > MAX_LINE {
            return Failed(TooLong);
          }
      }
      i := i + 1;
    }
    return Waiting;
  }

  /** All bytes of the data reads, in order. */
  function Payload(input: seq<Read>): Bytes {
    if |input| == 0 then []
    else (if input[0].Data? then input[0].bytes else []) + Payload(input[1..])
  }

  /** `line`, a newline and `early` are exactly the bytes of `reads[..n]`. */
  ghost predicate Splits(input: seq<Read>, n: nat, line: Bytes, early: Bytes) {
    && n <= |input| && AllData(input[..n])
    && Payload(input[..n]) == line + [NEWLINE] + early
    && NEWLINE !in line
  }

  lemma {:induction false} UnframeSplits(input: seq<Read>, line: Bytes) returns (n: nat)
    requires ValidReads(input) && NEWLINE !in line && |line| <= MAX_LINE
    requires Unframe(input, line).Line?
    ensures n <= |input| && AllData(input[..n])
    ensures var f := Unframe(input, line);
            && line + Payload(input[..n]) == f.line + [NEWLINE] + f.early
            && NEWLINE !in f.line
            && |f.line| <= MAX_LINE + CHUNK - 1 && |f.early| < CHUNK
    decreases |input|
  {
    var chunk := input[0].bytes;
    var k := NewlineAt(chunk);
    if k < |chunk| {
      n := 1;
      PayloadHead(input, 0);
      assert Payload(input[1..][..0]) == [];
      assert Unframe(input, line) == Line(line + chunk[..k], chunk[k + 1..]);
      hide Unframe, Payload;
      SplitAt(line, chunk, k);
    } else {
      assert Unframe(input, line) == Unframe(input[1..], line + chunk);
      var m := UnframeSplits(input[1..], line + chunk);
      n := m + 1;
      PayloadHead(input, m);
      hide Payload, Unframe;
      assert input[..n] == [input[0]] + input[1..][..m];
      assert line + (chunk + Payload(input[1..][..m])) == (line + chunk) + Payload(input[1..][..m]);
    }
  }

  lemma SplitAt(line: Bytes, chunk: Bytes, k: nat)
    requires NEWLINE !in line && k < |chunk| && chunk[k] == NEWLINE && forall i :: 0 <= i < k ==> chunk[i] != NEWLINE
    ensures line + chunk == (line + chunk[..k]) + [NEWLINE] + chunk[k + 1..] && NEWLINE !in line + chunk[..k]
  {
    assert chunk == chunk[..k] + [NEWLINE] + chunk[k + 1..];
  }

  lemma PayloadHead(input: seq<Read>, m: nat)
    requires m < |input| && input[0].Data?
    ensures Payload(input[..m + 1]) == input[0].bytes + Payload(input[1..][..m])
  {
    assert input[..m + 1][1..] == input[1..][..m];
  }

  /** On success the line has no newline, is at most 65536 + 511 bytes long, and line,
      newline and early data are exactly the bytes read. */
  lemma FrameIsExact(input: seq<Read>)
    requires ValidReads(input) && Unframe(input, []).Line?
    ensures var f := Unframe(input, []);
            && (exists n: nat :: Splits(input, n, f.line, f.early))
            && |f.line| <= 65536 + 511 && |f.early| < 512
  {
    var n := UnframeSplits(input, []);
    var f := Unframe(input, []);
    assert [] + Payload(input[..n]) == Payload(input[..n]);
    assert Splits(input, n, f.line, f.early);
  }

  lemma {:induction false} PayloadConcat(a: seq<Read>, b: seq<Read>)
    ensures Payload(a + b) == Payload(a) + Payload(b)
    decreases |a|
  {
    if |a| == 0 {
      assert a + b == b;
    } else {
      PayloadConcat(a[1..], b);
      assert (a + b)[1..] == a[1..] + b && (a + b)[0] == a[0];
    }
  }

  /** However one byte stream is cut into reads, every success yields the same line. */
  lemma ChunkingDoesNotChangeLine(stream: Bytes, a: seq<Read>, b: seq<Read>)
    requires ValidReads(a) && ValidReads(b) && Payload(a) <= stream && Payload(b) <= stream
    requires Unframe(a, []).Line? && Unframe(b, []).Line?
    ensures Unframe(a, []).line == Unframe(b, []).line
  {
    LineIsStreamPrefix(stream, a);
    LineIsStreamPrefix(stream, b);
  }

  lemma LineIsStreamPrefix(stream: Bytes, input: seq<Read>)
    requires ValidReads(input) && Payload(input) <= stream && Unframe(input, []).Line?
    ensures NewlineAt(stream) < |stream|
    ensures Unframe(input, []).line == stream[..NewlineAt(stream)]
  {
    FrameIsExact(input);
    var f := Unframe(input, []);
    var n: nat :| Splits(input, n, f.line, f.early);
    PayloadPrefix(input, n);
    LineOf(stream, Payload(input[..n]), f.line, f.early);
  }

  lemma PayloadPrefix(input: seq<Read>, n: nat)
    requires n <= |input|
    ensures Payload(input[..n]) <= Payload(input)
  {
    PayloadConcat(input[..n], input[n..]);
    assert input[..n] + input[n..] == input;
  }

  lemma LineOf(stream: Bytes, text: Bytes, line: Bytes, early: Bytes)
    requires text <= stream && text == line + [NEWLINE] + early && NEWLINE !in line
    ensures NewlineAt(stream) == |line| < |stream| && line == stream[..NewlineAt(stream)]
  {
    assert text[..|line|] == line == stream[..|line|];
    assert text[|line|] == NEWLINE == stream[|line|];
    FirstNewline(stream, |line|);
  }

  /** The read at which the wait ends: everything before it is data without a newline and
      within the limit, and it is what the outcome says. */
  ghost predicate EndsAt(input: seq<Read>, line: Bytes, n: nat, f: Frame) {
    && n <= |input| && AllData(input[..n]) && NEWLINE !in Payload(input[..n])
    && |line| + |Payload(input[..n])| <= MAX_LINE
    && match f
       case Waiting => n == |input|
       case Failed(Closed) => n < |input| && input[n] == Eof
       case Failed(ReadFailed) => n < |input| && input[n] == ReadFailure
       case Failed(TooLong) =>
         n < |input| && input[n].Data? && NEWLINE !in input[n].bytes
         && |line| + |Payload(input[..n])| + |input[n].bytes| > MAX_LINE
       case Line(_, _) => n < |input| && input[n].Data? && NEWLINE in input[n].bytes
  }

  /** Every outcome names the read that ended the wait: the end of the stream, a failed read,
      a line too long, a newline, or none yet. */
  lemma {:induction false} OutcomeNamesTheRead(input: seq<Read>, line: Bytes) returns (n: nat)
    requires |line| <= MAX_LINE
    ensures EndsAt(input, line, n, Unframe(input, line))
    decreases |input|
  {
    n := 0;
    assert input[..0] == [];
    if |input| > 0 && input[0].Data? {
      var chunk := input[0].bytes;
      if NewlineAt(chunk) == |chunk| {
        assert NEWLINE !in chunk;
        if |line + chunk| <= MAX_LINE {
          var m := OutcomeNamesTheRead(input[1..], line + chunk);
          n := m + 1;
          PayloadHead(input, m);
          hide Payload, Unframe;
          assert input[..n] == [input[0]] + input[1..][..m];
          assert m < |input| - 1 ==> input[1..][m] == input[n];
        }
      }
    }
  }

  // ------------------------------------------------------------------------
  // When does framing succeed?
  // ------------------------------------------------------------------------

  /** Bytes received before the read that holds the first newline. */
  function BeforeNewlineRead(input: seq<Read>): nat
    requires AllData(input)
  {
    if |input| == 0 || NewlineAt(input[0].bytes) < |input[0].bytes| then 0
    else |input[0].bytes| + BeforeNewlineRead(input[1..])
  }

  lemma {:induction false} UnframeSucceedsIff(input: seq<Read>, line: Bytes)
    requires ValidReads(input) && AllData(input) && NEWLINE in Payload(input) && |line| <= MAX_LINE
    ensures Unframe(input, line).Line? <==> |line| + BeforeNewlineRead(input) <= MAX_LINE
    ensures !Unframe(input, line).Line? ==> Unframe(input, line) == Failed(TooLong)
    decreases |input|
  {
    var chunk := input[0].bytes;
    if NewlineAt(chunk) == |chunk| && |line + chunk| <= MAX_LINE {
      assert forall i :: 0 <= i < |chunk| ==> chunk[i] != NEWLINE;
      UnframeSucceedsIff(input[1..], line + chunk);
    }
  }

  /** Success is not a function of the byte stream alone: the limit is tested only between
      reads. A stream with its first newline at `at` always succeeds up to 65536, never
      succeeds beyond 65536 + 511, and in between succeeds exactly when the reads before
      the one holding the newline carry at most 65536 bytes. */
  lemma FramingSucceedsIff(input: seq<Read>)
    requires ValidReads(input) && AllData(input) && NEWLINE in Payload(input)
    ensures Unframe(input, []).Line? <==> BeforeNewlineRead(input) <= 65536
    ensures NewlineAt(Payload(input)) <= 65536 ==> Unframe(input, []).Line?
    ensures NewlineAt(Payload(input)) > 65536 + 511 ==> Unframe(input, []) == Failed(TooLong)
  {
    UnframeSucceedsIff(input, []);
    NewlineReadStart(input);
  }

  lemma {:induction false} NewlineReadStart(input: seq<Read>)
    requires ValidReads(input) && AllData(input) && NEWLINE in Payload(input)
    ensures BeforeNewlineRead(input) <= NewlineAt(Payload(input)) <= BeforeNewlineRead(input) + CHUNK - 1
    decreases |input|
  {
    var chunk := input[0].bytes;
    var rest := Payload(input[1..]);
    var k := NewlineAt(chunk);
    assert Payload(input) == chunk + rest;
    if k < |chunk| {
      FirstNewline(chunk + rest, k);
    } else {
      assert forall i :: 0 <= i < |chunk| ==> chunk[i] != NEWLINE;
      NewlineReadStart(input[1..]);
      FirstNewline(chunk + rest, |chunk| + NewlineAt(rest));
    }
  }

  lemma FirstNewline(bytes: Bytes, k: nat)
    requires k < |bytes| && bytes[k] == NEWLINE && forall i :: 0 <= i < k ==> bytes[i] != NEWLINE
    ensures NewlineAt(bytes) == k
  {}

  function Cut(bytes: Bytes): seq<Read>
    decreases |bytes|
  {
    if |bytes| <= CHUNK then (if |bytes| == 0 then [] else [Data(bytes)])
    else [Data(bytes[..CHUNK])] + Cut(bytes[CHUNK..])
  }

  lemma {:induction false} CutIsChunking(bytes: Bytes)
    ensures ValidReads(Cut(bytes)) && AllData(Cut(bytes)) && Payload(Cut(bytes)) == bytes
    decreases |bytes|
  {
    if |bytes| == 0 {
    } else if |bytes| <= CHUNK {
      assert Cut(bytes)[1..] == [];
    } else {
      CutIsChunking(bytes[CHUNK..]);
      assert Cut(bytes)[1..] == Cut(bytes[CHUNK..]);
      assert bytes == bytes[..CHUNK] + bytes[CHUNK..];
    }
  }

  lemma {:induction false} PlainPrefix(input: seq<Read>, last: Bytes)
    requires AllData(input) && NEWLINE !in Payload(input) && NEWLINE in last
    ensures AllData(input + [Data(last)])
    ensures BeforeNewlineRead(input + [Data(last)]) == |Payload(input)|
    decreases |input|
  {
    var all := input + [Data(last)];
    if |input| == 0 {
      assert all[0] == Data(last);
    } else {
      assert input[0].bytes + Payload(input[1..]) == Payload(input);
      assert forall i :: 0 <= i < |input[0].bytes| ==> Payload(input)[i] == input[0].bytes[i];
      assert forall i :: 0 <= i < |Payload(input[1..])| ==> Payload(input)[|input[0].bytes| + i] == Payload(input[1..])[i];
      PlainPrefix(input[1..], last);
      assert all[1..] == input[1..] + [Data(last)] && all[0] == input[0];
    }
  }

  /** In the 511-byte window past the limit, the same bytes succeed under one chunking and
      fail under another. */
  lemma ChunkingDecidesAtTheLimit(line: Bytes) returns (a: seq<Read>, b: seq<Read>)
    requires NEWLINE !in line && MAX_LINE < |line| <= MAX_LINE + CHUNK - 1
    ensures ValidReads(a) && ValidReads(b)
    ensures Payload(a) == line + [NEWLINE] == Payload(b)
    ensures Unframe(a, []) == Line(line, []) && Unframe(b, []) == Failed(TooLong)
  {
    var head, tail := line[..MAX_LINE], line[MAX_LINE..] + [NEWLINE];
    CutIsChunking(head);
    CutIsChunking(line);
    a := Cut(head) + [Data(tail)];
    b := Cut(line) + [Data([NEWLINE])];
    PayloadConcat(Cut(head), [Data(tail)]);
    PayloadConcat(Cut(line), [Data([NEWLINE])]);
    assert Payload([Data(tail)]) == tail && Payload([Data([NEWLINE])]) == [NEWLINE];
    assert head + tail == line + [NEWLINE];
    assert tail[|tail| - 1] == NEWLINE && [NEWLINE][0] == NEWLINE;
    PlainPrefix(Cut(head), tail);
    PlainPrefix(Cut(line), [NEWLINE]);
    assert (line + [NEWLINE])[|line|] == NEWLINE;
    UnframeSucceedsIff(a, []);
    UnframeSucceedsIff(b, []);
    LineIsStreamPrefix(line + [NEWLINE], a);
    FrameIsExact(a);
    var f := Unframe(a, []);
    FirstNewline(line + [NEWLINE], |line|);
    assert f.line == (line + [NEWLINE])[..|line|] == line;
    EarlyEmpty(Cut(head), tail, []);
  }

  /** A final read that ends in its only newline leaves no early data. */
  lemma {:induction false} EarlyEmpty(input: seq<Read>, last: Bytes, line: Bytes)
    requires AllData(input) && |last| > 0
    requires NEWLINE !in Payload(input) && last[|last| - 1] == NEWLINE && NEWLINE !in last[..|last| - 1]
    requires Unframe(input + [Data(last)], line).Line?
    ensures Unframe(input + [Data(last)], line).early == []
    decreases |input|
  {
    var all := input + [Data(last)];
    if |input| == 0 {
      FirstNewline(last, |last| - 1);
    } else {
      var chunk := input[0].bytes;
      assert forall i :: 0 <= i < |chunk| ==> Payload(input)[i] == chunk[i];
      assert forall i :: 0 <= i < |Payload(input[1..])| ==> Payload(input)[|chunk| + i] == Payload(input[1..])[i];
      assert all[1..] == input[1..] + [Data(last)] && all[0] == input[0];
      EarlyEmpty(input[1..], last, line + chunk);
    }
  }
}
