// The response writer of internal/response/main.go: a state machine that
// lets a handler write the status line, then the headers, then either a plain
// body or a chunked one (section 7.1 of RFC 9112), in that order only. The
// connection is an append-only byte string on which every write succeeds.

module HttpResponse {
  import opened Wrappers
  import opened Bytes
  import HttpHeaders

  /** Go's `StatusCode`, a `uint16`. */
  type StatusCode = c: int | 0 <= c < 0x1_0000

  const StatusOK: StatusCode := 200
  const StatusBad: StatusCode := 400
  const StatusInServErr: StatusCode := 500

  const StatusOKBody: string :=
    "<html>\n  <head>\n    <title>200 OK</title>\n  </head>\n  <body>\n    <h1>Success!</h1>\n"
    + "    <p>Your request was an absolute banger.</p>\n  </body>\n</html>"

  const StatusBadBody: string :=
    "<html>\n  <head>\n    <title>400 Bad Request</title>\n  </head>\n  <body>\n    <h1>Bad Request</h1>\n"
    + "    <p>Your request honestly kinda sucked.</p>\n  </body>\n</html>"

  const StatusInServErrBody: string :=
    "<html>\n  <head>\n    <title>500 Internal Server Error</title>\n  </head>\n  <body>\n"
    + "    <h1>Internal Server Error</h1>\n    <p>Okay, you know what? This one is on me.</p>\n  </body>\n</html>"

  /** The three pages have different lengths, so they are different, and none is empty. */
  lemma BodyLengths()
    ensures |StatusOKBody| == 148 && |StatusBadBody| == 159 && |StatusInServErrBody| == 183
    ensures StatusOKBody != StatusBadBody && StatusOKBody != StatusInServErrBody
    ensures StatusBadBody != StatusInServErrBody
  {
  }

  const Version: string := "HTTP/1.1"

  /** Where the writer is in the order status line, headers, body or chunks, done. */
  datatype WriterState = EmptyState | StatusLineState | HeadersState | BodyState | ChunkedBodyState | DoneState

  datatype ResponseError = InvalidStatus | NoHeaders | InvalidWriteSequence

  /** The reason phrase of each status the writer supports; no other status has one. */
  function Reason(code: StatusCode): Option<string>
  {
    if code == StatusOK then Some("OK")
    else if code == StatusBad then Some("Bad Request")
    else if code == StatusInServErr then Some("Internal Server Error")
    else None
  }

  /** "HTTP/1.1 <code> <reason>\r\n" with the code in decimal. */
  function StatusLineText(code: StatusCode, reason: string): string
  {
    Version + " " + Itoa(code) + " " + reason + CRLF
  }

  /** The three supported codes print as three decimal digits. */
  lemma KnownCodeDigits()
    ensures Itoa(200) == "200" && Itoa(400) == "400" && Itoa(500) == "500"
  {
    assert Format(200, 10) == Format(20, 10) + [DigitChar(0)];
    assert Format(20, 10) == Format(2, 10) + [DigitChar(0)];
    assert Format(400, 10) == Format(40, 10) + [DigitChar(0)];
    assert Format(40, 10) == Format(4, 10) + [DigitChar(0)];
    assert Format(500, 10) == Format(50, 10) + [DigitChar(0)];
    assert Format(50, 10) == Format(5, 10) + [DigitChar(0)];
  }

  /** The status lines of the supported codes, spelled out. */
  lemma KnownStatusLines()
    ensures StatusLineText(StatusOK, "OK") == Version + " 200 OK\r\n"
    ensures StatusLineText(StatusBad, "Bad Request") == Version + " 400 Bad Request\r\n"
    ensures StatusLineText(StatusInServErr, "Internal Server Error") == Version + " 500 Internal Server Error\r\n"
  {
    KnownCodeDigits();
    StatusLine200();
    StatusLine400();
    StatusLine500();
  }

  lemma StatusLine200()
    requires Itoa(200) == "200"
    ensures " " + Itoa(200) + " " + "OK" + CRLF == " 200 OK\r\n"
  {
  }

  lemma StatusLine400()
    requires Itoa(400) == "400"
    ensures " " + Itoa(400) + " " + "Bad Request" + CRLF == " 400 Bad Request\r\n"
  {
  }

  lemma StatusLine500()
    requires Itoa(500) == "500"
    ensures " " + Itoa(500) + " " + "Internal Server Error" + CRLF == " 500 Internal Server Error\r\n"
  {
  }

  /** A status line is a single line, ended by its only CRLF, whose code field is three decimal
      digits that read back as the code. */
  lemma StatusLineReadsBack(code: StatusCode)
    requires Reason(code).Some?
    ensures |Itoa(code)| == 3 && Value(Itoa(code), 10) == code
    ensures var line := StatusLineText(code, Reason(code).value);
      IndexOf(line, CRLF) == |line| - 2
  {
    KnownCodeDigits();
    var reason := Reason(code).value;
    assert CR !in reason;
    StatusLineEnds(code, reason);
  }

  /** A status line whose reason holds no CR ends at its first CRLF. */
  lemma StatusLineEnds(code: StatusCode, reason: string)
    requires CR !in reason
    ensures IndexOf(StatusLineText(code, reason), CRLF) == |StatusLineText(code, reason)| - 2
  {
    var digits := Itoa(code);
    assert Decimal(digits);
    assert CR !in digits;
    var text := Version + " " + digits + " " + reason;
    assert CR !in Version;
    assert CR !in text;
    LineEnd(text, []);
    assert StatusLineText(code, reason) == text + CRLF + [];
  }

  // Header block: one "name: value\r\n" line per entry, in an order the writer may choose.

  predicate Distinct(order: seq<string>)
  {
    forall i, j :: 0 <= i < j < |order| ==> order[i] != order[j]
  }

  /** `order` lists every key of `h` exactly once. */
  ghost predicate Enumerates(order: seq<string>, h: HttpHeaders.HeaderMap)
  {
    (forall k :: k in h <==> k in order) && Distinct(order)
  }

  /** Part way through writing the headers: `order` lists the keys written, `keys` those still to go. */
  ghost predicate Splits(h: HttpHeaders.HeaderMap, keys: set<string>, order: seq<string>)
  {
    && keys <= h.Keys
    && (forall k :: k in h ==> (k in keys <==> k !in order))
    && (forall k :: k in order ==> k in h)
    && Distinct(order)
  }

  /** Moving one key from the pending set to the end of the order keeps the split, and adds that
      key's line at the end of the header lines. */
  lemma SplitsStep(h: HttpHeaders.HeaderMap, keys: set<string>, order: seq<string>, key: string)
    requires Splits(h, keys, order) && key in keys
    ensures Splits(h, keys - {key}, order + [key])
    ensures HeaderLines(order + [key], h) == HeaderLines(order, h) + HttpHeaders.FieldLine(key, h[key])
  {
    var next := order + [key];
    assert next[..|next| - 1] == order;
  }

  /** When nothing is pending, the order lists every key once. */
  lemma SplitsDone(h: HttpHeaders.HeaderMap, order: seq<string>)
    requires Splits(h, {}, order)
    ensures Enumerates(order, h)
  {
  }

  /** The header lines of `h` in the given order. */
  function HeaderLines(order: seq<string>, h: HttpHeaders.HeaderMap): string
    requires forall k :: k in order ==> k in h
  {
    if |order| == 0 then []
    else
      var last := order[|order| - 1];
      HeaderLines(order[..|order| - 1], h) + HttpHeaders.FieldLine(last, h[last])
  }

  // Chunked encoding.

  /** The framing of one `WriteChunkedBody(p)`: nothing for an empty slice, otherwise the size in
      upper-case hexadecimal, CRLF, the bytes, CRLF. */
  function ChunkFrame(p: string): string
  {
    if |p| == 0 then [] else Hex(|p|) + CRLF + p + CRLF
  }

  /** The last chunk and the end of the (empty) trailer section. */
  const LastChunk: string := "0\r\n\r\n"

  /** The frames of successive chunk writes. */
  function Frames(ps: seq<string>): string
  {
    if |ps| == 0 then [] else ChunkFrame(ps[0]) + Frames(ps[1..])
  }

  predicate AllHexDigits(s: string)
  {
    forall i :: 0 <= i < |s| ==> IsDigit(s[i], 16)
  }

  lemma {:induction false} ValueNat(s: string, base: nat)
    requires forall i :: 0 <= i < |s| ==> IsDigit(s[i], base)
    ensures Value(s, base) >= 0
  {
    if |s| > 0 {
      var init := s[..|s| - 1];
      forall i | 0 <= i < |init| ensures IsDigit(init[i], base) {
        assert init[i] == s[i];
      }
      ValueNat(init, base);
      assert IsDigit(s[|s| - 1], base);
      assert Value(s, base) == Value(init, base) * base + DigitValue(s[|s| - 1]);
    }
  }

  /** What the decoder finds at the front of a chunked stream. */
  datatype ChunkStep =
    | Malformed                          // no size line, a bad digit, or a chunk not closed by CRLF
    | Last(tail: string)                 // the zero-size chunk; `tail` is what follows its size line
    | Chunk(data: string, rest: string)  // a chunk with data, and the stream after it

  /** One chunk of a chunked body without extensions: "<hex size>\r\n<size bytes>\r\n". */
  function NextChunk(s: string): (r: ChunkStep)
    ensures r.Chunk? ==> |r.data| > 0 && |r.rest| < |s|
  {
    var e := IndexOf(s, CRLF);
    if e <= 0 || !AllHexDigits(s[..e]) then Malformed
    else
      ValueNat(s[..e], 16);
      ChunkAt(s, e + 2, Value(s[..e], 16))
  }

  /** The chunk of size `n` whose data starts at `start`, once its size line has been read. */
  function ChunkAt(s: string, start: nat, n: nat): (r: ChunkStep)
    requires start <= |s|
    ensures r.Chunk? ==> |r.data| == n > 0 && |r.rest| < |s| - start
  {
    if n == 0 then Last(s[start..])
    else if |s| < start + n + 2 || s[start + n..start + n + 2] != CRLF then Malformed
    else Chunk(s[start..start + n], s[start + n + 2..])
  }

  /** A decoder for a chunked body in the sense of section 7.1 of RFC 9112, without chunk extensions
      or trailers: chunks up to the zero-size one, then the final CRLF. `None` for anything else. */
  function DecodeChunked(s: string): Option<string>
    decreases |s|
  {
    match NextChunk(s)
    case Malformed => None
    case Last(tail) => if tail == CRLF then Some([]) else None
    case Chunk(data, rest) =>
      match DecodeChunked(rest)
      case None => None
      case Some(more) => Some(data + more)
  }

  lemma HexHasNoCR(n: nat)
    ensures CR !in Hex(n) && |Hex(n)| > 0 && AllHexDigits(Hex(n))
  {
    var h := Hex(n);
    forall i | 0 <= i < |h| ensures h[i] != CR {
      assert IsDigit(h[i], 16);
    }
  }

  /** The last chunk is recognised as such, with only the final CRLF after it. */
  lemma NextLastChunk()
    ensures NextChunk(LastChunk) == Last(CRLF)
  {
    assert LastChunk == "0" + CRLF + CRLF;
    LineEnd("0", CRLF);
    assert LastChunk[..1] == "0";
    assert Value("0", 16) == Value("0"[..0], 16) * 16 + DigitValue('0');
  }

  /** A frame written for a non-empty slice is read back as one chunk holding that slice. */
  lemma NextFrame(p: string, rest: string)
    requires |p| > 0
    ensures NextChunk(ChunkFrame(p) + rest) == Chunk(p, rest)
  {
    var h := Hex(|p|);
    HexHasNoCR(|p|);
    assert ChunkFrame(p) + rest == h + CRLF + (p + CRLF + rest);
    FrameRead(h, p, rest);
  }

  /** A size line of hexadecimal digits, then that many bytes and a CRLF, is read as one chunk. */
  lemma FrameRead(h: string, p: string, rest: string)
    requires |h| > 0 && CR !in h && AllHexDigits(h) && Value(h, 16) == |p| > 0
    ensures NextChunk(h + CRLF + (p + CRLF + rest)) == Chunk(p, rest)
  {
    var tail := p + CRLF + rest;
    var s := h + CRLF + tail;
    LineEnd(h, tail);
    assert s[..|h|] == h && s[|h| + 2..] == tail;
    ChunkAfter(s, |h| + 2, p, rest);
    assert NextChunk(s) == ChunkAt(s, |h| + 2, |p|);
  }

  /** Data of the announced size followed by a CRLF is cut off as the chunk. */
  lemma ChunkAfter(s: string, start: nat, p: string, rest: string)
    requires start <= |s| && s[start..] == p + CRLF + rest && |p| > 0
    ensures ChunkAt(s, start, |p|) == Chunk(p, rest)
  {
    var tail, n := s[start..], |p|;
    assert s[start + n..start + n + 2] == tail[n..n + 2] == CRLF;
    assert s[start..start + n] == tail[..n] == p;
    assert s[start + n + 2..] == tail[n + 2..] == rest;
  }

  /** Round trip: whatever slices the chunk writes were given, decoding what they and the final
      `WriteChunkedBodyDone` wrote gives back the slices' concatenation. */
  lemma {:induction false} ChunkedRoundTrip(ps: seq<string>)
    ensures DecodeChunked(Frames(ps) + LastChunk) == Some(Concat(ps))
  {
    if |ps| == 0 {
      DecodeLastChunk();
      assert Frames(ps) == [];
      assert Frames(ps) + LastChunk == LastChunk;
      assert Concat(ps) == [];
    } else {
      var p, tail := ps[0], Frames(ps[1..]);
      ChunkedRoundTrip(ps[1..]);
      DecodeFrame(p, tail + LastChunk);
      assert Frames(ps) == ChunkFrame(p) + tail;
      Assoc(ChunkFrame(p), tail, LastChunk);
      assert Concat(ps) == p + Concat(ps[1..]);
    }
  }

  lemma DecodeLastChunk()
    ensures DecodeChunked(LastChunk) == Some([])
  {
    NextLastChunk();
  }

  /** Decoding a frame followed by a stream prepends the frame's slice to what the stream decodes to. */
  lemma DecodeFrame(p: string, rest: string)
    ensures DecodeChunked(rest).Some? ==> DecodeChunked(ChunkFrame(p) + rest) == Some(p + DecodeChunked(rest).value)
  {
    if |p| > 0 {
      NextFrame(p, rest);
    } else {
      assert p == [] && ChunkFrame(p) == [];
      assert ChunkFrame(p) + rest == rest;
      assert DecodeChunked(rest).Some? ==> p + DecodeChunked(rest).value == DecodeChunked(rest).value;
    }
  }

  /** Each frame is one more chunk's worth of frames: writing `p` after `ps` frames `ps + [p]`. */
  lemma {:induction false} FramesAppend(ps: seq<string>, p: string)
    ensures Frames(ps + [p]) == Frames(ps) + ChunkFrame(p)
  {
    if |ps| == 0 {
      assert ps + [p] == [p];
      assert Frames([p]) == ChunkFrame(p) + Frames([p][1..]);
      assert [p][1..] == [];
      assert Frames(ps) + ChunkFrame(p) == ChunkFrame(p);
      assert ChunkFrame(p) + [] == ChunkFrame(p);
    } else {
      var q := ps + [p];
      assert q[0] == ps[0] && q[1..] == ps[1..] + [p];
      assert Frames(q) == ChunkFrame(ps[0]) + Frames(ps[1..] + [p]);
      FramesAppend(ps[1..], p);
      Assoc(ChunkFrame(ps[0]), Frames(ps[1..]), ChunkFrame(p));
    }
  }

  /** `GetDefaultHeaders(n)`: the three headers every response starts from. */
  function DefaultFields(contentLen: int): HttpHeaders.HeaderMap
  {
    map["content-length" := Itoa(contentLen), "connection" := "close", "content-type" := "text/plain"]
  }

  /** The default headers hold exactly three keys. */
  lemma DefaultFieldsKeys(contentLen: int)
    ensures DefaultFields(contentLen).Keys == {"content-length", "connection", "content-type"}
    ensures |DefaultFields(contentLen)| == 3
  {
    var m := DefaultFields(contentLen);
    assert m.Keys == {"content-length", "connection", "content-type"};
    assert "content-length" != "connection" && "content-length" != "content-type";
    assert "connection" != "content-type";
  }

  /** The default headers are found case-insensitively under their usual names; the content type
      has a value, so a handler can `Replace` it. */
  lemma DefaultFieldsLookup(contentLen: int)
    ensures HttpHeaders.Lookup(DefaultFields(contentLen), "Content-Length") == Success(Itoa(contentLen))
    ensures HttpHeaders.Lookup(DefaultFields(contentLen), "Connection") == Success("close")
    ensures HttpHeaders.Lookup(DefaultFields(contentLen), "Content-Type") == Success("text/plain")
  {
    var m := DefaultFields(contentLen);
    DefaultFieldsValues(contentLen);
    ContentLengthLookup(m);
    ConnectionLookup(m);
    ContentTypeLookup(m);
  }

  /** What each of the three default keys maps to. */
  lemma DefaultFieldsValues(contentLen: int)
    ensures var m := DefaultFields(contentLen);
      && "content-length" in m && m["content-length"] == Itoa(contentLen)
      && "connection" in m && m["connection"] == "close"
      && "content-type" in m && m["content-type"] == "text/plain"
  {
    assert |"content-length"| == 14 && |"connection"| == 10 && |"content-type"| == 12;
  }

  lemma ContentLengthLookup(h: HttpHeaders.HeaderMap)
    requires "content-length" in h
    ensures HttpHeaders.Lookup(h, "Content-Length") == Success(h["content-length"])
  {
    LowerContentLength();
    ContentLengthValid();
    LookupKey(h, "Content-Length", "content-length");
  }

  lemma ConnectionLookup(h: HttpHeaders.HeaderMap)
    requires "connection" in h
    ensures HttpHeaders.Lookup(h, "Connection") == Success(h["connection"])
  {
    LowerConnection();
    ConnectionValid();
    LookupKey(h, "Connection", "connection");
  }

  lemma ContentTypeLookup(h: HttpHeaders.HeaderMap)
    requires "content-type" in h
    ensures HttpHeaders.Lookup(h, "Content-Type") == Success(h["content-type"])
  {
    LowerContentType();
    ContentTypeValid();
    LookupKey(h, "Content-Type", "content-type");
  }

  /** A proof step, not a property of the program: `Get` of a valid name finds its lower-cased key. */
  lemma LookupKey(h: HttpHeaders.HeaderMap, name: string, key: string)
    requires HttpHeaders.ValidFieldName(name) && Lower(name) == key && key in h
    ensures HttpHeaders.Lookup(h, name) == Success(h[key])
  {
  }

  lemma LowerContentLength()
    ensures Lower("Content-Length") == "content-length"
  {
  }

  lemma LowerConnection()
    ensures Lower("Connection") == "connection"
  {
  }

  lemma LowerContentType()
    ensures Lower("Content-Type") == "content-type"
  {
  }

  /** A name of letters and dashes is a valid field name. */
  lemma LettersAndDashes(s: string)
    requires forall i :: 0 <= i < |s| ==> HttpHeaders.IsLetter(s[i]) || s[i] == '-'
    ensures HttpHeaders.ValidFieldName(s)
  {
    forall i | 0 <= i < |s| ensures HttpHeaders.IsTokenByte(s[i]) {
      assert HttpHeaders.IsLetter(s[i]) || HttpHeaders.IsSymbol(s[i]);
    }
  }

  lemma ContentLengthValid()
    ensures HttpHeaders.ValidFieldName("Content-Length")
  {
    var a := "Content-Length";
    assert a == ['C','o','n','t','e','n','t','-','L','e','n','g','t','h'];
    forall i | 0 <= i < |a| ensures HttpHeaders.IsLetter(a[i]) || a[i] == '-' {
      if i < 7 {} else {}
    }
    LettersAndDashes(a);
  }

  lemma ConnectionValid()
    ensures HttpHeaders.ValidFieldName("Connection")
  {
    var a := "Connection";
    assert a == ['C','o','n','n','e','c','t','i','o','n'];
    forall i | 0 <= i < |a| ensures HttpHeaders.IsLetter(a[i]) {
      if i < 5 {} else {}
    }
    LettersAndDashes(a);
  }

  lemma ContentTypeValid()
    ensures HttpHeaders.ValidFieldName("Content-Type")
  {
    var a := "Content-Type";
    assert a == ['C','o','n','t','e','n','t','-','T','y','p','e'];
    forall i | 0 <= i < |a| ensures HttpHeaders.IsLetter(a[i]) || a[i] == '-' {
      if i < 6 {} else {}
    }
    LettersAndDashes(a);
  }

  class Writer {
    var state: WriterState
    /** Everything written to the connection so far. */
    var conn: string

    /** `NewWriter`: nothing written yet. */
    constructor ()
      ensures state == EmptyState && conn == []
    {
      state := EmptyState;
      conn := [];
    }

    /** `WriteStatusLine`: only from the empty state. An unsupported code writes nothing, but the
        state has already moved on. */
    method WriteStatusLine(code: StatusCode) returns (err: Option<ResponseError>)
      modifies this
      ensures old(state) != EmptyState ==> err == Some(InvalidWriteSequence) && unchanged(this)
      ensures old(state) == EmptyState ==> state == StatusLineState
      ensures old(state) == EmptyState && Reason(code).None? ==> err == Some(InvalidStatus) && conn == old(conn)
      ensures old(state) == EmptyState && Reason(code).Some? ==>
        err.None? && conn == old(conn) + StatusLineText(code, Reason(code).value)
    {
      if state != EmptyState {
        return Some(InvalidWriteSequence);
      }
      state := StatusLineState;
      KnownStatusLines();
      var statusLine := "";
      if code == StatusOK {
        statusLine := Version + " 200 OK\r\n";
      } else if code == StatusBad {
        statusLine := Version + " 400 Bad Request\r\n";
      } else if code == StatusInServErr {
        statusLine := Version + " 500 Internal Server Error\r\n";
      } else {
        return Some(InvalidStatus);
      }
      conn := conn + statusLine;
      return None;
    }

    /** `WriteHeaders`: only after the status line, and only with at least one header. Writes each
        entry as "name: value\r\n" in some order, then the blank line. */
    method WriteHeaders(headers: HttpHeaders.HeaderMap) returns (err: Option<ResponseError>, ghost order: seq<string>)
      modifies this
      ensures old(state) != StatusLineState ==> err == Some(InvalidWriteSequence) && unchanged(this)
      ensures old(state) == StatusLineState && |headers| == 0 ==> err == Some(NoHeaders) && unchanged(this)
      ensures old(state) == StatusLineState && |headers| > 0 ==>
        && err.None? && state == HeadersState && Enumerates(order, headers)
        && conn == old(conn) + HeaderLines(order, headers) + CRLF
    {
      order := [];
      if state != StatusLineState {
        return Some(InvalidWriteSequence), order;
      }
      if |headers| == 0 {
        return Some(NoHeaders), order;
      }
      state := HeadersState;
      var keys := headers.Keys;
      ghost var start := conn;
      while keys != {}
        invariant state == HeadersState
        invariant Splits(headers, keys, order)
        invariant conn == start + HeaderLines(order, headers)
        decreases |keys|
      {
        var key :| key in keys;
        var line := HttpHeaders.FieldLine(key, headers[key]);
        conn := conn + line;
        SplitsStep(headers, keys, order, key);
        ghost var before := order;
        order := order + [key];
        Assoc(start, HeaderLines(before, headers), line);
        keys := keys - {key};
      }
      SplitsDone(headers, order);
      conn := conn + CRLF;
      err := None;
    }

    /** `WriteBody`: only after the headers; the whole slice goes out as is. */
    method WriteBody(p: string) returns (n: nat, err: Option<ResponseError>)
      modifies this
      ensures old(state) != HeadersState ==> n == 0 && err == Some(InvalidWriteSequence) && unchanged(this)
      ensures old(state) == HeadersState ==>
        state == BodyState && err.None? && n == |p| && conn == old(conn) + p
    {
      if state != HeadersState {
        return 0, Some(InvalidWriteSequence);
      }
      state := BodyState;
      if |p| == 0 {
        return 0, None;
      }
      conn := conn + p;
      return |p|, None;
    }

    /** Writes the pieces one after the other and adds up their lengths, as the chunk methods do. */
    method WritePieces(pieces: seq<string>) returns (total: nat)
      modifies this
      ensures state == old(state) && conn == old(conn) + Concat(pieces) && total == |Concat(pieces)|
    {
      total := 0;
      for i := 0 to |pieces|
        invariant state == old(state)
        invariant conn == old(conn) + Concat(pieces[..i]) && total == |Concat(pieces[..i])|
      {
        ConcatAppend(pieces[..i], [pieces[i]]);
        ConcatOne(pieces[i]);
        assert pieces[..i + 1] == pieces[..i] + [pieces[i]];
        conn := conn + pieces[i];
        total := total + |pieces[i]|;
      }
      assert pieces[..|pieces|] == pieces;
    }

    /** `WriteChunkedBody`: from the headers (which starts the chunked body, even for an empty slice)
        or from the chunked body; a non-empty slice goes out as one framed chunk. */
    method WriteChunkedBody(p: string) returns (n: nat, err: Option<ResponseError>)
      modifies this
      ensures old(state) !in {HeadersState, ChunkedBodyState} ==>
        n == 0 && err == Some(InvalidWriteSequence) && unchanged(this)
      ensures old(state) in {HeadersState, ChunkedBodyState} ==>
        && state == ChunkedBodyState && err.None?
        && conn == old(conn) + ChunkFrame(p) && n == |ChunkFrame(p)|
    {
      if state == HeadersState {
        state := ChunkedBodyState;
      }
      if state != ChunkedBodyState {
        return 0, Some(InvalidWriteSequence);
      }
      var num := |p|;
      if num == 0 {
        return 0, None;
      }
      var chunk := [Hex(num) + CRLF, p + CRLF];
      n := WritePieces(chunk);
      assert Concat(chunk) == ChunkFrame(p) by {
        ConcatOne(p + CRLF);
        assert chunk[1..] == [p + CRLF];
      }
      return n, None;
    }

    /** `WriteChunkedBodyDone`: only from the chunked body; writes the last chunk and finishes. */
    method WriteChunkedBodyDone() returns (n: nat, err: Option<ResponseError>)
      modifies this
      ensures old(state) != ChunkedBodyState ==> n == 0 && err == Some(InvalidWriteSequence) && unchanged(this)
      ensures old(state) == ChunkedBodyState ==>
        state == DoneState && err.None? && conn == old(conn) + LastChunk && n == 5
    {
      if state != ChunkedBodyState {
        return 0, Some(InvalidWriteSequence);
      }
      state := DoneState;
      var endingChunk := ["0" + CRLF, CRLF];
      n := WritePieces(endingChunk);
      assert Concat(endingChunk) == LastChunk by {
        ConcatOne(CRLF);
        assert endingChunk[1..] == [CRLF];
      }
      return n, None;
    }
  }

  /** `GetDefaultHeaders`: a fresh collection filled through `Set`. */
  method GetDefaultHeaders(contentLen: int) returns (heads: HttpHeaders.Headers)
    ensures fresh(heads) && heads.fields == DefaultFields(contentLen)
  {
    heads := new HttpHeaders.Headers();
    LowerContentLength();
    LowerConnection();
    LowerContentType();
    heads.Set("Content-Length", Itoa(contentLen));
    heads.Set("Connection", "close");
    heads.Set("Content-Type", "text/plain");
  }
}
