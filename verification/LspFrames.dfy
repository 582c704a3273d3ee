/**
  Language Server Protocol frames (Base Protocol, Header Part, version 3.17): the writer thread and
  the reader of a server's pipe.
 */
module LspFrames {
  import opened Wrappers
  import opened Strings
  import opened TextLines
  import opened Decimal
  import opened Utf8

  const MAX_FRAME: nat := 16777216
  const MAX_HEADER: nat := 8192
  const LENGTH: string := "Content-Length:"

  datatype FrameError = NotUtf8 | BadHeader | BadSize | Truncated

  // ----- Writing -----

  function HeaderLine(size: nat): string {
    LENGTH + " " + Digits(size) + "\r\n"
  }

  function FrameOf(payload: seq<byte>): seq<byte> {
    Encode(HeaderLine(|payload|)) + ([CR, LF] + payload)
  }

  function Frames(payloads: seq<seq<byte>>): seq<byte> {
    if payloads == [] then [] else FrameOf(payloads[0]) + Frames(payloads[1..])
  }

  lemma LineEndIs(end: string)
    requires end == "\r\n"
    ensures Encode(end) == [CR, LF] && end + end == "\r\n\r\n"
  {
    AsciiBytes(end);
  }

  lemma SizeLabel()
    ensures LENGTH + " " == "Content-Length: "
  {
  }

  lemma Rejoined(a: string, digits: string, end: string)
    ensures a + digits + (end + end) == (a + digits + end) + end
  {
  }

  lemma LineAndEnd(line: string, end: string, payload: seq<byte>)
    ensures Encode(line + end) + payload == Encode(line) + (Encode(end) + payload)
  {
    EncodeAppends(line, end);
  }

  /** The frame as the protocol writes it. */
  lemma FrameIs(payload: seq<byte>, head: string, end: string)
    requires head == "Content-Length: " && end == "\r\n\r\n"
    ensures FrameOf(payload) == Encode(head + Digits(|payload|) + end) + payload
  {
    var digits, line := Digits(|payload|), ['\r', '\n'];
    SizeLabel();
    LineEndIs(line);
    Rejoined(head, digits, line);
    LineAndEnd(head + digits + line, line, payload);
  }

  // ----- Reading -----

  datatype Read<T> = Read(value: T, rest: seq<byte>)

  /** One header line, of which at most 8193 bytes are taken. */
  function LineLength(bytes: seq<byte>): nat {
    var n := FirstEnd(bytes, LF);
    if n <= MAX_HEADER + 1 then n else MAX_HEADER + 1
  }

  predicate Blank(line: string) {
    line == "\r\n" || line == "\n"
  }

  function SizeAfter(line: string, size: Option<nat>): Option<nat> {
    if StartsWith(line, LENGTH) then ParseUsize(Trim(line[|LENGTH|..])) else size
  }

  /** The size announced by the header lines up to a blank one. */
  function Headers(bytes: seq<byte>, size: Option<nat>, used: nat): Result<Read<Option<nat>>, FrameError>
    decreases |bytes|
  {
    var count := LineLength(bytes);
    match Decode(bytes[..count])
    case None => Err(NotUtf8)
    case Some(line) =>
      if count == 0 || used + count > MAX_HEADER then Err(BadHeader)
      else if Blank(line) then Ok(Read(size, bytes[count..]))
      else Headers(bytes[count..], SizeAfter(line, size), used + count)
  }

  function Frame(bytes: seq<byte>): Result<Read<seq<byte>>, FrameError> {
    match Headers(bytes, None, 0)
    case Err(e) => Err(e)
    case Ok(Read(size, rest)) =>
      if size.None? || size.value > MAX_FRAME then Err(BadSize)
      else if size.value > |rest| then Err(Truncated)
      else Ok(Read(rest[..size.value], rest[size.value..]))
  }

  /** At most 8192 bytes of header are taken. */
  lemma {:induction false} HeadersAreBounded(bytes: seq<byte>, size: Option<nat>, used: nat)
    requires Headers(bytes, size, used).Ok?
    ensures var rest := Headers(bytes, size, used).value.rest;
            |rest| <= |bytes| && used + |bytes| - |rest| <= MAX_HEADER
    decreases |bytes|
  {
    var count := LineLength(bytes);
    var line := Decode(bytes[..count]).value;
    if !Blank(line) {
      HeadersAreBounded(bytes[count..], SizeAfter(line, size), used + count);
    }
  }

  lemma HeadersStep(bytes: seq<byte>, size: Option<nat>, used: nat, line: string)
    requires Decode(bytes[..LineLength(bytes)]) == Some(line)
    ensures var count := LineLength(bytes);
            Headers(bytes, size, used) ==
            if count == 0 || used + count > MAX_HEADER then Err(BadHeader)
            else if Blank(line) then Ok(Read(size, bytes[count..]))
            else Headers(bytes[count..], SizeAfter(line, size), used + count)
  {
  }

  /** Reads header lines up to the blank one. */
  method ReadHeaders(bytes: seq<byte>) returns (r: Result<Read<Option<nat>>, FrameError>)
    ensures r == Headers(bytes, None, 0)
    ensures r.Ok? ==> |r.value.rest| <= |bytes| <= |r.value.rest| + MAX_HEADER
  {
    if Headers(bytes, None, 0).Ok? {
      HeadersAreBounded(bytes, None, 0);
    }
    var rest, size: Option<nat>, headerBytes: nat := bytes, None, 0;
    ghost var whole := Headers(bytes, None, 0);
    while true
      invariant whole == Headers(rest, size, headerBytes)
      decreases |rest|
    {
      var count := LineLength(rest);
      var line := Decode(rest[..count]);
      if line.None? {
        return Err(NotUtf8);
      }
      HeadersStep(rest, size, headerBytes, line.value);
      headerBytes := headerBytes + count;
      if count == 0 || headerBytes > MAX_HEADER {
        return Err(BadHeader);
      }
      rest := rest[count..];
      if Blank(line.value) {
        return Ok(Read(size, rest));
      }
      if StartsWith(line.value, LENGTH) {
        size := ParseUsize(Trim(line.value[|LENGTH|..]));
      }
    }
  }

  /** The bytes written to a pipe and not read yet. */
  class Pipe {
    var unread: seq<byte>

    constructor ()
      ensures unread == []
    {
      unread := [];
    }

    method WriteFrame(payload: seq<byte>)
      modifies this
      ensures unread == old(unread) + FrameOf(payload)
    {
      unread := unread + (Encode(LENGTH + " " + Digits(|payload|) + "\r\n") + ([CR, LF] + payload));
    }

    method ReadFrame() returns (r: Result<seq<byte>, FrameError>)
      modifies this
      ensures match Frame(old(unread))
              case Ok(read) => r == Ok(read.value) && unread == read.rest
              case Err(e) => r == Err(e)
    {
      var header := ReadHeaders(unread);
      if header.Err? {
        return Err(header.error);
      }
      var Read(size, body) := header.value;
      unread := body;
      if size.None? || size.value > MAX_FRAME {
        return Err(BadSize);
      }
      if size.value > |unread| {
        return Err(Truncated);
      }
      r := Ok(unread[..size.value]);
      unread := unread[size.value..];
    }
  }

  // ----- Frames read back -----

  lemma HeaderIsAscii(size: nat)
    requires size <= MAX_FRAME
    ensures var line, bytes := HeaderLine(size), Encode(HeaderLine(size));
            && |bytes| == |line| <= 64
            && Decode(bytes) == Some(line)
            && bytes == bytes[..|bytes| - 1] + [LF] && LF !in bytes[..|bytes| - 1]
  {
    var digits, line := Digits(size), HeaderLine(size);
    assert Pow10(8) == 100000000 by {
      assert Pow10(4) == 10000;
    }
    DigitsLength(size, 8);
    forall k | 0 <= k < |line|
      ensures line[k] as int < 0x80 && (line[k] == '\n' ==> k == |line| - 1)
    {
      if 16 <= k < 16 + |digits| {
        assert line[k] == digits[k - 16] && digits[k - 16] in digits;
      } else if k < 16 {
        assert line[k] == (LENGTH + " ")[k];
      }
    }
    AsciiBytes(line);
    DecodeEncode(line);
  }

  lemma {:induction false} TrimmedDigits(digits: string)
    requires digits != "" && AllDigits(digits)
    ensures Trim(" " + digits + "\r\n") == digits
  {
    var s := " " + digits + "\r\n";
    assert digits[0] in digits && digits[|digits| - 1] in digits;
    var a := s[1..];
    assert a == digits + "\r\n";
    var b := a[..|a| - 1];
    assert b == digits + "\r";
    assert b[..|b| - 1] == digits;
    assert Trim(digits) == digits;
    assert Trim(b) == digits && Trim(a) == Trim(b);
  }

  /** The header of a frame is read as the size of its payload. */
  lemma HeaderLineRead(size: nat, rest: seq<byte>)
    requires size <= MAX_FRAME
    ensures Headers(Encode(HeaderLine(size)) + rest, None, 0) == Headers(rest, Some(size), |HeaderLine(size)|)
    ensures |HeaderLine(size)| <= 64 && |Encode(HeaderLine(size))| == |HeaderLine(size)|
  {
    HeaderIsAscii(size);
    var line, bytes := HeaderLine(size), Encode(HeaderLine(size));
    var all := bytes + rest;
    FirstEndOfLine(bytes[..|bytes| - 1], LF, rest);
    assert all == bytes[..|bytes| - 1] + [LF] + rest;
    assert LineLength(all) == |bytes| && all[..|bytes|] == bytes && all[|bytes|..] == rest;
    assert line[..15] == LENGTH && line[15..] == " " + Digits(size) + "\r\n";
    assert line[0] == 'C';
    TrimmedDigits(Digits(size));
    ParseDigits(size);
  }

  lemma BlankLineRead(size: Option<nat>, used: nat, rest: seq<byte>)
    requires used + 2 <= MAX_HEADER
    ensures Headers([CR, LF] + rest, size, used) == Ok(Read(size, rest))
  {
    var all := [CR, LF] + rest;
    FirstEndOfLine([CR], LF, rest);
    assert [CR] + [LF] + rest == all;
    assert all[..2] == [CR, LF] == Encode("\r\n") by {
      AsciiBytes("\r\n");
    }
    DecodeEncode("\r\n");
  }

  /** Reading takes exactly one frame and gives its payload. */
  lemma FrameReadsBack(payload: seq<byte>, rest: seq<byte>)
    requires |payload| <= MAX_FRAME
    ensures Frame(FrameOf(payload) + rest) == Ok(Read(payload, rest))
  {
    var line := Encode(HeaderLine(|payload|));
    var tail := payload + rest;
    assert FrameOf(payload) + rest == line + ([CR, LF] + tail);
    HeaderLineRead(|payload|, [CR, LF] + tail);
    BlankLineRead(Some(|payload|), |HeaderLine(|payload|)|, tail);
    assert tail[..|payload|] == payload && tail[|payload|..] == rest;
  }

  /** All the payloads, read one frame after the other until nothing is left; None after an error. */
  function ReadAll(bytes: seq<byte>, count: nat): Option<seq<seq<byte>>>
    decreases count
  {
    if count == 0 then if bytes == [] then Some([]) else None
    else
      match Frame(bytes)
      case Err(_) => None
      case Ok(Read(payload, rest)) =>
        match ReadAll(rest, count - 1)
        case None => None
        case Some(more) => Some([payload] + more)
  }

  /** Frames written back to back are read as the same payloads in the same order, leaving nothing. */
  lemma {:induction false} FramesReadBack(payloads: seq<seq<byte>>)
    requires forall k | 0 <= k < |payloads| :: |payloads[k]| <= MAX_FRAME
    ensures ReadAll(Frames(payloads), |payloads|) == Some(payloads)
  {
    if payloads != [] {
      FrameReadsBack(payloads[0], Frames(payloads[1..]));
      assert forall k | 0 <= k < |payloads[1..]| :: payloads[1..][k] == payloads[k + 1];
      FramesReadBack(payloads[1..]);
      assert [payloads[0]] + payloads[1..] == payloads;
    }
  }

  lemma BlankHasNewline(line: string)
    requires Blank(line)
    ensures LF in Encode(line)
  {
    AsciiBytes(line);
    assert Encode(line)[|line| - 1] == LF;
  }

  lemma {:induction false} NoNewlineNoFrame(bytes: seq<byte>, size: Option<nat>, used: nat)
    requires LF !in bytes
    ensures Headers(bytes, size, used).Err?
    decreases |bytes|
  {
    var count := LineLength(bytes);
    var line := Decode(bytes[..count]);
    if line.Some? && count > 0 {
      EncodeDecode(bytes[..count]);
      if Blank(line.value) {
        BlankHasNewline(line.value);
      } else {
        NoNewlineNoFrame(bytes[count..], SizeAfter(line.value, size), used + count);
      }
    }
  }

  lemma CutInHeader(line: seq<byte>, n: nat)
    requires line != [] && LF !in line[..|line| - 1] && n < |line|
    ensures Frame(line[..n]).Err?
  {
    assert line[..n] == line[..|line| - 1][..n];
    NoNewlineNoFrame(line[..n], None, 0);
  }

  /** What is left of the frame after its first line has lost its end. */
  lemma CutAfterHeader(payload: seq<byte>, n: nat)
    requires |payload| <= MAX_FRAME && n < |payload| + 2
    ensures Frame(Encode(HeaderLine(|payload|)) + ([CR, LF] + payload)[..n]).Err?
  {
    var rest := ([CR, LF] + payload)[..n];
    HeaderLineRead(|payload|, rest);
    if n < 2 {
      assert rest == [] || rest == [CR];
      NoNewlineNoFrame(rest, Some(|payload|), |HeaderLine(|payload|)|);
    } else {
      assert rest == [CR, LF] + payload[..n - 2];
      BlankLineRead(Some(|payload|), |HeaderLine(|payload|)|, payload[..n - 2]);
    }
  }

  /** A frame that is cut short anywhere is rejected. */
  lemma StrictPrefixIsRejected(payload: seq<byte>, n: nat)
    requires |payload| <= MAX_FRAME && n < |FrameOf(payload)|
    ensures Frame(FrameOf(payload)[..n]).Err?
  {
    HeaderIsAscii(|payload|);
    var line, tail := Encode(HeaderLine(|payload|)), [CR, LF] + payload;
    PrefixOfBoth(line, tail, n);
    if n < |line| {
      CutInHeader(line, n);
    } else {
      CutAfterHeader(payload, n - |line|);
    }
  }

  lemma PrefixOfBoth<T>(a: seq<T>, b: seq<T>, n: nat)
    requires n <= |a + b|
    ensures (a + b)[..n] == if n < |a| then a[..n] else a + b[..n - |a|]
  {
  }

  // ----- Frames of any writer -----

  /** Header lines without their newlines: none is blank. */
  predicate HeaderLines(lines: seq<string>) {
    forall k | 0 <= k < |lines| :: '\n' !in lines[k] && lines[k] != "" && lines[k] != "\r"
  }

  function LineBytes(line: string): seq<byte> {
    Encode(line + "\n")
  }

  function HeaderBytes(lines: seq<string>): seq<byte> {
    if lines == [] then [] else LineBytes(lines[0]) + HeaderBytes(lines[1..])
  }

  function Announced(lines: seq<string>, size: Option<nat>): Option<nat> {
    if lines == [] then size else Announced(lines[1..], SizeAfter(lines[0] + "\n", size))
  }

  predicate AnnouncesLength(line: string) {
    StartsWith(line + "\n", LENGTH)
  }

  /** The size announced is the one of the last header line that announces any. */
  lemma {:induction false} AnnouncedIsLast(lines: seq<string>, size: Option<nat>, k: nat)
    requires k < |lines| && AnnouncesLength(lines[k])
    requires forall j | k < j < |lines| :: !AnnouncesLength(lines[j])
    ensures Announced(lines, size) == ParseUsize(Trim((lines[k] + "\n")[|LENGTH|..]))
  {
    var next := SizeAfter(lines[0] + "\n", size);
    assert forall j | 0 <= j < |lines[1..]| :: lines[1..][j] == lines[j + 1];
    if k > 0 {
      AnnouncedIsLast(lines[1..], next, k - 1);
    } else {
      NoneAnnounced(lines[1..], next);
    }
  }

  lemma {:induction false} NoneAnnounced(lines: seq<string>, size: Option<nat>)
    requires forall j | 0 <= j < |lines| :: !AnnouncesLength(lines[j])
    ensures Announced(lines, size) == size
  {
    if lines != [] {
      assert forall j | 0 <= j < |lines[1..]| :: lines[1..][j] == lines[j + 1];
      NoneAnnounced(lines[1..], size);
    }
  }

  lemma NewlineByteIsNewline(s: string)
    requires '\n' !in s
    ensures LF !in Encode(s)
  {
    if LF in Encode(s) {
      var p: nat :| p < |Encode(s)| && Encode(s)[p] == LF;
      var k := AsciiIsWholeChar(s, p);
    }
  }

  lemma LineBytesEnd(line: string)
    requires '\n' !in line
    ensures LineBytes(line) == Encode(line) + [LF] && LF !in Encode(line) && Decode(LineBytes(line)) == Some(line + "\n")
  {
    EncodeAppends(line, "\n");
    AsciiBytes("\n");
    assert Encode("\n") == [LF];
    NewlineByteIsNewline(line);
    DecodeEncode(line + "\n");
  }

  lemma NotBlank(line: string)
    requires line != "" && line != "\r"
    ensures !Blank(line + "\n")
  {
    assert (line + "\n")[0] == line[0];
    if |line| == 1 {
      assert line == [line[0]];
    }
  }

  /** A header line is taken, or is too long. */
  lemma HeaderLineStep(line: string, rest: seq<byte>, size: Option<nat>, used: nat)
    requires '\n' !in line && line != "" && line != "\r"
    ensures var n := |LineBytes(line)|;
            if used + n <= MAX_HEADER
            then Headers(LineBytes(line) + rest, size, used) == Headers(rest, SizeAfter(line + "\n", size), used + n)
            else Headers(LineBytes(line) + rest, size, used).Err?
  {
    var bytes, all := LineBytes(line), LineBytes(line) + rest;
    LineBytesEnd(line);
    LineLengthOf(line, rest);
    if |bytes| <= MAX_HEADER + 1 {
      assert all[..|bytes|] == bytes && all[|bytes|..] == rest;
      NotBlank(line);
      HeadersStep(all, size, used, line + "\n");
    } else {
      LongHeaderFails(all, size, used);
    }
  }

  lemma LineLengthOf(line: string, rest: seq<byte>)
    requires '\n' !in line
    ensures var n := |LineBytes(line)|;
            LineLength(LineBytes(line) + rest) == if n <= MAX_HEADER + 1 then n else MAX_HEADER + 1
  {
    LineBytesEnd(line);
    FirstEndOfLine(Encode(line), LF, rest);
  }

  lemma LongHeaderFails(bytes: seq<byte>, size: Option<nat>, used: nat)
    requires LineLength(bytes) > MAX_HEADER
    ensures Headers(bytes, size, used).Err?
  {
  }

  lemma HeaderBytesOf(lines: seq<string>, end: seq<byte>)
    requires lines != [] && HeaderLines(lines)
    ensures HeaderBytes(lines) + end == LineBytes(lines[0]) + (HeaderBytes(lines[1..]) + end)
    ensures |HeaderBytes(lines)| == |LineBytes(lines[0])| + |HeaderBytes(lines[1..])|
    ensures '\n' !in lines[0] && HeaderLines(lines[1..])
  {
    assert forall k | 0 <= k < |lines[1..]| :: lines[1..][k] == lines[k + 1];
  }

  /** The size announced is read, and the rest left, exactly if so many bytes and a blank line fit. */
  ghost predicate ReadsWithin(bytes: seq<byte>, size: Option<nat>, used: nat, length: nat, announced: Option<nat>, rest: seq<byte>) {
    if used + length + 2 <= MAX_HEADER then Headers(bytes, size, used) == Ok(Read(announced, rest))
    else Headers(bytes, size, used).Err?
  }

  lemma ReadsOneMore(line: string, tail: seq<byte>, size: Option<nat>, used: nat, length: nat, announced: Option<nat>, rest: seq<byte>)
    requires '\n' !in line && line != "" && line != "\r"
    requires ReadsWithin(tail, SizeAfter(line + "\n", size), used + |LineBytes(line)|, length, announced, rest)
    ensures ReadsWithin(LineBytes(line) + tail, size, used, |LineBytes(line)| + length, announced, rest)
  {
    HeaderLineStep(line, tail, size, used);
  }

  lemma NoLinesReadWithin(lines: seq<string>, rest: seq<byte>, size: Option<nat>, used: nat)
    requires lines == []
    ensures ReadsWithin(HeaderBytes(lines) + ([CR, LF] + rest), size, used, |HeaderBytes(lines)|, Announced(lines, size), rest)
  {
    assert HeaderBytes(lines) + ([CR, LF] + rest) == [CR, LF] + rest;
    BlankLineIff(size, used, rest);
  }

  lemma {:induction false} LinesReadWithin(lines: seq<string>, rest: seq<byte>, size: Option<nat>, used: nat)
    requires HeaderLines(lines)
    ensures ReadsWithin(HeaderBytes(lines) + ([CR, LF] + rest), size, used, |HeaderBytes(lines)|, Announced(lines, size), rest)
    decreases lines
  {
    if lines == [] {
      NoLinesReadWithin(lines, rest, size, used);
    } else {
      HeaderBytesOf(lines, [CR, LF] + rest);
      AnnouncedOf(lines, size);
      var tail, more := HeaderBytes(lines[1..]) + ([CR, LF] + rest), SizeAfter(lines[0] + "\n", size);
      LinesReadWithin(lines[1..], rest, more, used + |LineBytes(lines[0])|);
      ReadsOneMore(lines[0], tail, size, used, |HeaderBytes(lines[1..])|, Announced(lines[1..], more), rest);
    }
  }

  lemma AnnouncedOf(lines: seq<string>, size: Option<nat>)
    requires lines != []
    ensures Announced(lines, size) == Announced(lines[1..], SizeAfter(lines[0] + "\n", size))
  {
  }

  /** The header lines and the blank line that ends them are read exactly if they take at most 8192 bytes. */
  lemma HeadersReadIff(lines: seq<string>, rest: seq<byte>, size: Option<nat>, used: nat)
    requires HeaderLines(lines)
    ensures var all := HeaderBytes(lines) + ([CR, LF] + rest);
            if used + |HeaderBytes(lines)| + 2 <= MAX_HEADER
            then Headers(all, size, used) == Ok(Read(Announced(lines, size), rest))
            else Headers(all, size, used).Err?
  {
    LinesReadWithin(lines, rest, size, used);
  }

  lemma BlankLineIff(size: Option<nat>, used: nat, rest: seq<byte>)
    ensures if used + 2 <= MAX_HEADER then Headers([CR, LF] + rest, size, used) == Ok(Read(size, rest))
            else Headers([CR, LF] + rest, size, used).Err?
  {
    if used + 2 <= MAX_HEADER {
      BlankLineRead(size, used, rest);
    } else {
      FirstEndOfLine([CR], LF, rest);
      assert [CR] + [LF] + rest == [CR, LF] + rest;
    }
  }

  /**
    What any header lines lead to: without an announced size of at most 16 MiB a bad size, with fewer
    bytes behind them a truncated frame, and the frame otherwise; a header too long is never a frame.
   */
  lemma FrameOfLines(lines: seq<string>, rest: seq<byte>)
    requires HeaderLines(lines)
    ensures var r, size := Frame(HeaderBytes(lines) + ([CR, LF] + rest)), Announced(lines, None);
            if |HeaderBytes(lines)| + 2 > 8192 then r.Err?
            else if size.None? || size.value > 16 * 1024 * 1024 then r == Err(BadSize)
            else if size.value > |rest| then r == Err(Truncated)
            else r == Ok(Read(rest[..size.value], rest[size.value..]))
  {
    HeadersReadIff(lines, rest, None, 0);
  }

  /**
    A frame with any header lines, in any order, gives its payload and leaves what follows exactly if
    the header takes at most 8192 bytes and its last Content-Length is the payload's, within 16 MiB.
   */
  lemma AnyFrameReadsBackIff(lines: seq<string>, payload: seq<byte>, rest: seq<byte>)
    requires HeaderLines(lines)
    ensures Frame(HeaderBytes(lines) + ([CR, LF] + (payload + rest))) == Ok(Read(payload, rest)) <==>
            && |HeaderBytes(lines)| + 2 <= MAX_HEADER
            && Announced(lines, None) == Some(|payload|) && |payload| <= MAX_FRAME
  {
    FrameOfLines(lines, payload + rest);
    assert (payload + rest)[..|payload|] == payload && (payload + rest)[|payload|..] == rest;
  }
}
