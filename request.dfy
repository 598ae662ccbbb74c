// The request parser of internal/request/request.go: a tokenizer for the
// request line ("GET /coffee HTTP/1.1"), a two-state `Request` that parses it
// once, and the loop that feeds it from a reader through a growing buffer.
// This parser stops after the request line: it reads no headers and no body.

module HttpRequest {
  import opened Wrappers
  import opened Bytes
  import opened Io

  /** The three fields of a request line, in the order the source declares them. */
  datatype RequestLine = RequestLine(httpVersion: string, requestTarget: string, methodName: string)

  /** The three ways a complete request line can be malformed. */
  datatype LineError = InvalidNumParts | InvalidMethodName | NoSlash

  /** What `parseRequestLine` finds in the bytes read so far. */
  datatype LineResult =
    | Incomplete                                   // no CRLF yet: `(nil, 0, nil)`
    | Complete(line: RequestLine, consumed: nat)
    | Rejected(err: LineError)

  /** Every byte is an upper-case ASCII letter. */
  predicate AllUpper(s: string)
  {
    forall i :: 0 <= i < |s| ==> 'A' <= s[i] <= 'Z'
  }

  /** `onlyUpper`: a non-empty run of 'A'..'Z', checked byte by byte from the front. */
  function OnlyUpper(s: string): (ok: bool)
    ensures ok <==> |s| > 0 && AllUpper(s)
  {
    |s| > 0 && UpperFrom(s, 0)
  }

  /** The scan of `onlyUpper` from index `i` on. */
  function UpperFrom(s: string, i: nat): (ok: bool)
    requires i <= |s|
    ensures ok <==> forall j :: i <= j < |s| ==> 'A' <= s[j] <= 'Z'
    decreases |s| - i
  {
    if i == |s| then true
    else if s[i] < 'A' || s[i] > 'Z' then false
    else UpperFrom(s, i + 1)
  }

  /** `parseRequestLine`: wait for a CRLF, then tokenize the line before it. */
  function ParseRequestLine(data: string): (r: LineResult)
    ensures r.Incomplete? <==> !Contains(data, CRLF)
    ensures r.Complete? ==> r.consumed == IndexOf(data, CRLF) + 2 <= |data|
  {
    if !Contains(data, CRLF) then Incomplete
    else ParseFirstLine(data[..IndexOf(data, CRLF)])
  }

  /** The tokenizing half of `parseRequestLine`: split on single spaces into method, target and
      protocol/version, and count the line and its CRLF as consumed. */
  function ParseFirstLine(firstLine: string): (r: LineResult)
    ensures !r.Incomplete?
    ensures r.Complete? ==> r.consumed == |firstLine| + 2
    ensures r.Complete? ==> OnlyUpper(r.line.methodName)
  {
    ParseParts(Split(firstLine, ' '), |firstLine| + 2)
  }

  /** The checks on the space-separated pieces of a request line, in the parser's order. */
  function ParseParts(parts: seq<string>, consumed: nat): (r: LineResult)
    ensures !r.Incomplete?
    ensures r.Complete? ==> r.consumed == consumed && OnlyUpper(r.line.methodName)
  {
    if |parts| != 3 then Rejected(InvalidNumParts)
    else if !OnlyUpper(parts[0]) then Rejected(InvalidMethodName)
    else
      var idx := IndexOfByte(parts[2], '/');
      if idx == -1 then Rejected(NoSlash)
      else Complete(RequestLine(parts[2][idx + 1..], parts[1], parts[0]), consumed)
  }

  /** The checks in the order the parser makes them: each error names the first one that fails. */
  lemma ParseRequestLineErrors(data: string)
    requires Contains(data, CRLF)
    ensures var parts := Split(data[..IndexOf(data, CRLF)], ' ');
      && (ParseRequestLine(data) == Rejected(InvalidNumParts) <==> |parts| != 3)
      && (ParseRequestLine(data) == Rejected(InvalidMethodName) <==> |parts| == 3 && !OnlyUpper(parts[0]))
      && (ParseRequestLine(data) == Rejected(NoSlash) <==>
            |parts| == 3 && OnlyUpper(parts[0]) && '/' !in parts[2])
  {
  }

  /** The answer depends only on the first line: more bytes after a complete line change nothing. */
  lemma ParseRequestLineExtend(data: string, more: string)
    requires Contains(data, CRLF)
    ensures ParseRequestLine(data + more) == ParseRequestLine(data)
  {
    IndexOfExtend(data, more, CRLF);
    var end := IndexOf(data, CRLF);
    assert (data + more)[..end] == data[..end];
  }

  /** A request line without its CRLF: "METHOD TARGET PROTOCOL/VERSION". */
  function LineText(methodName: string, target: string, protocol: string, version: string): string
  {
    methodName + " " + target + " " + protocol + "/" + version
  }

  /** The pieces of a well-formed request line: no spaces, no CR, no '/' in the protocol name. */
  predicate WellFormedPieces(methodName: string, target: string, protocol: string, version: string)
  {
    && OnlyUpper(methodName)
    && ' ' !in target && ' ' !in protocol && ' ' !in version
    && '/' !in protocol
    && CR !in target && CR !in protocol && CR !in version
  }

  /** A method name has no spaces: it is all upper-case letters. */
  lemma UpperHasNoSpace(methodName: string)
    requires OnlyUpper(methodName)
    ensures ' ' !in methodName
  {
    forall i | 0 <= i < |methodName| ensures methodName[i] != ' ' {
      assert 'A' <= methodName[i] <= 'Z';
    }
  }

  /** Joining two space-free pieces with a '/' gives a space-free piece. */
  lemma SlashJoinNoSpace(protocol: string, version: string)
    requires ' ' !in protocol && ' ' !in version
    ensures ' ' !in protocol + "/" + version
  {
    var third := protocol + "/" + version;
    forall i | 0 <= i < |third| ensures third[i] != ' ' {
      if i < |protocol| { assert third[i] == protocol[i]; }
      else if i > |protocol| { assert third[i] == version[i - |protocol| - 1]; }
    }
  }

  /** A formatted line splits on spaces into its method, its target and "PROTOCOL/VERSION". */
  lemma SplitLineText(methodName: string, target: string, protocol: string, version: string)
    requires OnlyUpper(methodName) && ' ' !in target && ' ' !in protocol && ' ' !in version
    ensures Split(LineText(methodName, target, protocol, version), ' ') == [methodName, target, protocol + "/" + version]
  {
    var third := protocol + "/" + version;
    UpperHasNoSpace(methodName);
    SlashJoinNoSpace(protocol, version);
    var tail := target + [' '] + third;
    assert LineText(methodName, target, protocol, version) == methodName + [' '] + tail;
    SplitAt(methodName, tail, ' ');
    SplitAt(target, third, ' ');
    IndexOfByteNone(third, ' ');
    var last := Split(third, ' ');
    assert last == [third];
    assert Split(tail, ' ') == [target] + last;
  }

  /** Tokenizing a formatted line gives back its method, target and version. */
  lemma FirstLineFormat(methodName: string, target: string, protocol: string, version: string)
    requires OnlyUpper(methodName) && ' ' !in target && ' ' !in protocol && ' ' !in version && '/' !in protocol
    ensures ParseFirstLine(LineText(methodName, target, protocol, version))
         == Complete(RequestLine(version, target, methodName), |LineText(methodName, target, protocol, version)| + 2)
  {
    var third := protocol + "/" + version;
    SplitLineText(methodName, target, protocol, version);
    FirstByteAt(third, '/', |protocol|) by {
      forall i | 0 <= i < |protocol| ensures third[i] != '/' {
        assert third[i] == protocol[i];
      }
    }
    assert third[|protocol| + 1..] == version;
    ParsePartsAccepts([methodName, target, third], |LineText(methodName, target, protocol, version)| + 2,
      |protocol|, RequestLine(version, target, methodName));
  }

  /** A proof step, not a property of the program: the success case of the checks on pieces that
      pass them all. */
  lemma ParsePartsAccepts(parts: seq<string>, consumed: nat, idx: int, line: RequestLine)
    requires |parts| == 3 && OnlyUpper(parts[0])
    requires idx == IndexOfByte(parts[2], '/') && idx >= 0
    requires line == RequestLine(parts[2][idx + 1..], parts[1], parts[0])
    ensures ParseParts(parts, consumed) == Complete(line, consumed)
  {
  }

  /** Parsing a formatted request line gives back its method, target and version and consumes the line. */
  lemma ParseRequestLineFormat(methodName: string, target: string, protocol: string, version: string, rest: string)
    requires WellFormedPieces(methodName, target, protocol, version)
    ensures var text := LineText(methodName, target, protocol, version);
      ParseRequestLine(text + CRLF + rest) == Complete(RequestLine(version, target, methodName), |text| + 2)
  {
    var text := LineText(methodName, target, protocol, version);
    assert CR !in text by {
      forall i | 0 <= i < |text| ensures text[i] != CR {
        var m, t := |methodName|, |target|;
        if i < m { assert text[i] == methodName[i]; assert 'A' <= methodName[i] <= 'Z'; }
        else if m < i < m + 1 + t { assert text[i] == target[i - m - 1]; }
        else if m + t + 1 < i < m + t + 2 + |protocol| { assert text[i] == protocol[i - m - t - 2]; }
        else if i > m + t + 2 + |protocol| { assert text[i] == version[i - m - t - 3 - |protocol|]; }
      }
    }
    LineEnd(text, rest);
    var data := text + CRLF + rest;
    assert data[..IndexOf(data, CRLF)] == text;
    FirstLineFormat(methodName, target, protocol, version);
  }

  /** Conversely, every line the tokenizer accepts has that form, with no space in the target or the version. */
  lemma FirstLineShape(firstLine: string)
    requires ParseFirstLine(firstLine).Complete?
    ensures var l := ParseFirstLine(firstLine).line;
      && ' ' !in l.requestTarget && ' ' !in l.httpVersion
      && exists protocol :: ' ' !in protocol && '/' !in protocol &&
           firstLine == LineText(l.methodName, l.requestTarget, protocol, l.httpVersion)
  {
    var parts := Split(firstLine, ' ');
    var idx := IndexOfByte(parts[2], '/');
    PartsShape(firstLine, parts, idx);
    assert ParseFirstLine(firstLine).line == RequestLine(parts[2][idx + 1..], parts[1], parts[0]);
    var protocol := parts[2][..idx];
    assert firstLine == LineText(parts[0], parts[1], protocol, parts[2][idx + 1..]);
  }

  /** A line that splits into three pieces is those pieces joined by single spaces, and none of them
      holds a space. */
  lemma ThreeParts(firstLine: string)
    requires |Split(firstLine, ' ')| == 3
    ensures var parts := Split(firstLine, ' ');
      && firstLine == parts[0] + " " + parts[1] + " " + parts[2]
      && ' ' !in parts[1] && ' ' !in parts[2]
  {
    var parts := Split(firstLine, ' ');
    SplitJoin(firstLine, ' ');
    JoinThree(parts, [' ']);
    SplitPieces(firstLine, ' ');
    assert ' ' !in parts[1] && ' ' !in parts[2];
  }

  /** Cutting a space-free piece at its first '/' gives a space-free, slash-free protocol and a
      space-free version. */
  lemma SlashCut(third: string, idx: int)
    requires ' ' !in third
    requires 0 <= idx < |third| && third[idx] == '/' && forall i :: 0 <= i < idx ==> third[i] != '/'
    ensures third == third[..idx] + "/" + third[idx + 1..]
    ensures ' ' !in third[..idx] && '/' !in third[..idx] && ' ' !in third[idx + 1..]
  {
    var protocol, version := third[..idx], third[idx + 1..];
    assert third == protocol + "/" + version;
    forall i | 0 <= i < |protocol| ensures protocol[i] != ' ' && protocol[i] != '/' {
      assert protocol[i] == third[i];
    }
    forall i | 0 <= i < |version| ensures version[i] != ' ' {
      assert version[i] == third[idx + 1 + i];
    }
  }

  lemma PartsShape(firstLine: string, parts: seq<string>, idx: int)
    requires parts == Split(firstLine, ' ') && |parts| == 3
    requires 0 <= idx < |parts[2]| && parts[2][idx] == '/' && forall i :: 0 <= i < idx ==> parts[2][i] != '/'
    ensures ' ' !in parts[1] && ' ' !in parts[2][idx + 1..]
    ensures ' ' !in parts[2][..idx] && '/' !in parts[2][..idx]
    ensures firstLine == LineText(parts[0], parts[1], parts[2][..idx], parts[2][idx + 1..])
  {
    ThreeParts(firstLine);
    SlashCut(parts[2], idx);
  }

  /** Every request line the parser accepts is a formatted line followed by CRLF. */
  lemma ParseRequestLineShape(data: string)
    requires ParseRequestLine(data).Complete?
    ensures var r := ParseRequestLine(data);
      && ' ' !in r.line.requestTarget && ' ' !in r.line.httpVersion
      && exists protocol :: ' ' !in protocol && '/' !in protocol &&
           data[..r.consumed] == LineText(r.line.methodName, r.line.requestTarget, protocol, r.line.httpVersion) + CRLF
  {
    var end := IndexOf(data, CRLF);
    FirstLineShape(data[..end]);
    assert data[..end + 2] == data[..end] + CRLF by {
      assert data[end..end + 2] == CRLF;
    }
  }

  /** `state`: `INITIALIZED` or `DONE`. */
  datatype ParseState = Initialized | Done

  /** The errors `RequestFromReader` can return. */
  datatype RequestError =
    | ReadFailed(readError: ReadError)      // passed on from the reader, end of file included
    | BadRequestLine(lineError: LineError)   // `ErrorParseRequestLine` joined with the cause
    | ParseDoneState                     // `parse` called again after `DONE`

  /** What reading a request line from a reader should give: the parse of its first line, or the
      reader's final error when the stream ends before a CRLF. */
  function ReadOutcome(s: string, end: ReadError): (r: Result<RequestLine, RequestError>)
    ensures r.Failure? && r.error.ReadFailed? <==> !Contains(s, CRLF)
    ensures r.Success? <==> ParseRequestLine(s).Complete?
  {
    match ParseRequestLine(s)
    case Incomplete => Failure(ReadFailed(end))
    case Complete(line, _) => Success(line)
    case Rejected(e) => Failure(BadRequestLine(e))
  }

  /** The size `RequestFromReader` starts its buffer with. */
  const BuffSize: nat := 8

  class Request {
    var requestLine: RequestLine
    var state: ParseState

    /** `Request{state: 0}`. */
    constructor ()
      ensures state == Initialized && requestLine == RequestLine("", "", "")
    {
      requestLine := RequestLine("", "", "");
      state := Initialized;
    }

    /** `parse`: in `INITIALIZED`, take a complete request line and move to `DONE`; in `DONE`, refuse. */
    method Parse(data: string) returns (n: nat, err: Option<RequestError>)
      modifies this
      ensures old(state) == Done ==> n == 0 && err == Some(ParseDoneState) && unchanged(this)
      ensures old(state) == Initialized ==>
        match ParseRequestLine(data)
        case Incomplete => n == 0 && err.None? && unchanged(this)
        case Rejected(e) => n == 0 && err == Some(BadRequestLine(e)) && unchanged(this)
        case Complete(line, consumed) =>
          n == consumed && n > 0 && err.None? && state == Done && requestLine == line
    {
      match state
      case Initialized =>
        var r := ParseRequestLine(data);
        match r {
          case Rejected(e) =>
            return 0, Some(BadRequestLine(e));
          case Incomplete =>
            return 0, None;
          case Complete(line, consumed) =>
            requestLine := line;
            state := Done;
            return consumed, None;
        }
      case Done =>
        return 0, Some(ParseDoneState);
    }
  }

  /** Growing a full buffer: `copy(temp, buff[:readToIndex])` into a fresh buffer twice the size. */
  method Grow(buff: array<char>, readToIndex: nat) returns (temp: array<char>)
    requires readToIndex <= buff.Length
    ensures fresh(temp) && temp.Length == 2 * buff.Length
    ensures temp[..readToIndex] == buff[..readToIndex]
  {
    temp := new char[2 * buff.Length];
    forall i | 0 <= i < readToIndex {
      temp[i] := buff[i];
    }
  }

  /** Dropping the parsed prefix: `copy(buff, buff[num:readToIndex])`. */
  method ShiftDown(buff: array<char>, num: nat, readToIndex: nat)
    requires num <= readToIndex <= buff.Length
    modifies buff
    ensures buff[..readToIndex - num] == old(buff[num..readToIndex])
    ensures buff[readToIndex - num..] == old(buff[readToIndex - num..])
  {
    forall i | 0 <= i < readToIndex - num {
      buff[i] := buff[num + i];
    }
  }

  /** One turn of the read half of the loop: grow a full buffer, then `reader.Read(buff[readToIndex:])`.
      The read is always offered a non-empty tail, and what it returns lands right after the kept bytes. */
  method Fill(reader: Reader, buff: array<char>, readToIndex: nat)
    returns (next: array<char>, filled: nat, err: Option<ReadError>, ghost a: Answer)
    requires readToIndex <= buff.Length && buff.Length > 0
    modifies reader, buff
    ensures next == buff || fresh(next)
    ensures next.Length == if readToIndex == buff.Length then 2 * buff.Length else buff.Length
    ensures readToIndex < next.Length
    ensures a == ReadStep(old(reader.replies), next.Length - readToIndex)
    ensures reader.replies == a.rest && err == a.err
    ensures filled == readToIndex + |a.chunk| <= next.Length
    ensures next[..filled] == old(buff[..readToIndex]) + a.chunk
  {
    ghost var kept := buff[..readToIndex];
    next := buff;
    if readToIndex == buff.Length {
      next := Grow(buff, readToIndex);
    }
    assert next[..readToIndex] == kept;
    var n;
    a := ReadStep(reader.replies, next.Length - readToIndex);
    n, err := reader.Read(next, readToIndex);
    filled := readToIndex + n;
    assert next[..filled] == next[..readToIndex] + next[readToIndex..filled];
  }

  /** A stream that ends before any CRLF gives the reader's error. */
  lemma OutcomeAtEnd(s: string, end: ReadError)
    requires !Contains(s, CRLF)
    ensures ReadOutcome(s, end) == Failure(ReadFailed(end))
  {
  }

  /** Once the bytes read hold a CRLF, the rest of the stream no longer matters. */
  lemma OutcomeOfPrefix(delivered: string, more: string, end: ReadError)
    requires Contains(delivered, CRLF)
    ensures ReadOutcome(delivered + more, end) == ReadOutcome(delivered, end)
  {
    ParseRequestLineExtend(delivered, more);
  }

  /** The parse half of the loop: `req.parse(buff[:readToIndex])`, then, when it took `num` bytes,
      `copy(buff, buff[num:readToIndex])` so that the unparsed bytes move to the front. */
  method Advance(r: Request, buff: array<char>, readToIndex: nat) returns (newIndex: nat, err: Option<RequestError>)
    requires r.state == Initialized && readToIndex <= buff.Length
    modifies r, buff
    ensures newIndex <= readToIndex
    ensures match ParseRequestLine(old(buff[..readToIndex]))
      case Incomplete => err.None? && newIndex == readToIndex && unchanged(r) && buff[..] == old(buff[..])
      case Rejected(e) =>
        err == Some(BadRequestLine(e)) && newIndex == readToIndex && unchanged(r) && buff[..] == old(buff[..])
      case Complete(line, consumed) =>
        && err.None? && r.state == Done && r.requestLine == line
        && newIndex == readToIndex - consumed && buff[..newIndex] == old(buff[consumed..readToIndex])
  {
    var num;
    num, err := r.Parse(buff[..readToIndex]);
    if err.Some? || num == 0 {
      return readToIndex, err;
    }
    ShiftDown(buff, num, readToIndex);
    newIndex := readToIndex - num;
  }

  /** A complete or rejected first line decides the outcome, whatever bytes follow it. */
  lemma DecidedOutcome(delivered: string, more: string, end: ReadError)
    requires !ParseRequestLine(delivered).Incomplete?
    ensures ParseRequestLine(delivered).Rejected? ==>
      ReadOutcome(delivered + more, end) == Failure(BadRequestLine(ParseRequestLine(delivered).err))
    ensures ParseRequestLine(delivered).Complete? ==>
      ReadOutcome(delivered + more, end) == Success(ParseRequestLine(delivered).line)
  {
    OutcomeOfPrefix(delivered, more, end);
  }

  /** `RequestFromReader`: read into the tail of a buffer, doubling it when full, until the request
      line parses; compact the buffer after the parse. The result is that of the whole stream,
      however the reader cuts it into pieces. */
  method RequestFromReader(reader: Reader) returns (req: Request?, err: Option<RequestError>)
    modifies reader
    ensures var out := ReadOutcome(Stream(old(reader.replies)), EndError(old(reader.replies)));
      && (out.Success? ==> err.None? && req != null && fresh(req) && req.state == Done && req.requestLine == out.value)
      && (out.Failure? ==> req == null && err == Some(out.error))
  {
    ghost var all := Stream(reader.replies);
    ghost var end := EndError(reader.replies);
    var buff := new char[BuffSize];
    var readToIndex := 0;
    var r := new Request();
    ghost var delivered: string := [];  // every byte read so far
    ghost var consumed: nat := 0;       // the bytes the parser took

    while r.state != Done
      invariant fresh(r) && fresh(buff)
      invariant 0 <= readToIndex <= buff.Length
      invariant buff.Length >= BuffSize
      invariant all == delivered + Stream(reader.replies)
      invariant EndError(reader.replies) == end
      invariant r.state == Initialized ==> buff[..readToIndex] == delivered && !Contains(delivered, CRLF)
      invariant r.state == Done ==>
        && ParseRequestLine(delivered) == Complete(r.requestLine, consumed)
        && buff[..readToIndex] == delivered[consumed..]
      decreases if r.state == Done then 0 else 1, Measure(reader.replies)
    {
      ghost var left := reader.replies;
      ghost var before := readToIndex;
      var filled, readErr;
      ghost var step;
      buff, filled, readErr, step := Fill(reader, buff, readToIndex);
      ReadStepStream(left, buff.Length - before, step);
      if readErr.Some? {
        assert all == delivered;
        OutcomeAtEnd(all, end);
        return null, Some(ReadFailed(readErr.value));
      }
      assert Stream(left) == step.chunk + Stream(reader.replies);
      Assoc(delivered, step.chunk, Stream(reader.replies));
      delivered := delivered + step.chunk;
      readToIndex := filled;

      assert buff[..readToIndex] == delivered;
      ghost var res := ParseRequestLine(delivered);
      var parseErr;
      readToIndex, parseErr := Advance(r, buff, readToIndex);
      if parseErr.Some? {
        DecidedOutcome(delivered, Stream(reader.replies), end);
        return null, parseErr;
      }
      if res.Complete? {
        consumed := res.consumed;
      }
    }
    DecidedOutcome(delivered, Stream(reader.replies), end);
    return r, None;
  }

  /** The result does not depend on the read size of the tests' chunk reader. */
  lemma ChunkSizeIrrelevant(data: string, j: nat, k: nat)
    requires j > 0 && k > 0
    ensures ReadOutcome(Stream(ChunkScript(data, j)), EndError(ChunkScript(data, j)))
         == ReadOutcome(Stream(ChunkScript(data, k)), EndError(ChunkScript(data, k)))
         == ReadOutcome(data, EOF)
  {
    ChunkScriptStream(data, j);
    ChunkScriptStream(data, k);
  }

  /** The request line of the tests is well formed and formats as written. */
  lemma CoffeeLine()
    ensures WellFormedPieces("GET", "/coffee", "HTTP", "1.1")
    ensures LineText("GET", "/coffee", "HTTP", "1.1") + CRLF == "GET /coffee HTTP/1.1\r\n"
  {
    assert AllUpper("GET");
  }

  /** The test request: "GET /coffee HTTP/1.1", whatever headers follow, yields GET, /coffee and 1.1. */
  lemma CoffeeRequest(headers: string)
    ensures ReadOutcome("GET /coffee HTTP/1.1\r\n" + headers, EOF) == Success(RequestLine("1.1", "/coffee", "GET"))
  {
    CoffeeLine();
    var text := LineText("GET", "/coffee", "HTTP", "1.1");
    var data := "GET /coffee HTTP/1.1\r\n" + headers;
    assert data == text + CRLF + headers;
    ParseRequestLineFormat("GET", "/coffee", "HTTP", "1.1", headers);
  }
}
