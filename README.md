# goHTTP core in Dafny

A model of the sequential, byte-level core of goHTTP, a small HTTP/1.1 server written from scratch in Go, with proofs about it. The model covers:

- the header collection (`internal/headers/headers.go`): a map keyed by lower-cased names with `Get`, `Set`, `Replace`, the one-line-per-call `Parse` and `validateFieldName`;
- the request-line parser (`internal/request/request.go`): `parseRequestLine`, `onlyUpper`, the two-state `parse` and the buffer loop of `RequestFromReader`;
- the response writer (`internal/response/main.go`): a state machine over status line, headers, body or chunked body, done, writing to an append-only connection, and `GetDefaultHeaders`;
- the sequential parts of the server (`internal/server/main.go`): `WriteResponse`, the "400 Bad Request" fallback of `handle`, `Close` and the exit-or-continue rule of `listen`;
- the demonstration handler `tempHandle` (`cmd/httpserver/main.go`);
- the line splitter `getLinesChannel`, identical in `main.go` and `cmd/tcplistener/main.go`.

One `char` stands for one byte, and `string` (`seq<char>`) for a Go `[]byte` or `string`. The model has these parts:

- **Reader.** An `io.Reader` is the class `Io.Reader` over a script of replies: some bytes, or an error. A `Read` that is offered fewer bytes than the next reply holds returns a prefix and keeps the rest. This generalises the `chunkReader` of the request tests.
- **Writer and headers.** The writer's connection is a string field that only grows. The header map is a `map<string, string>` held in a class.
- **Pure parts.** Tokenizing, validating and routing are functions.
- **Mutating parts.** Every operation that mutates a buffer, a map, a flag or the writer is a method with `modifies` and a contract.
- **Modules.** `Bytes` models the Go library calls the core relies on: `bytes.Index`, `bytes.Split`, `strings.ToLower`, `strings.TrimSpace`, `strconv.Itoa` and `%X`.

The main results are these:

- **Chunked round trip.** Decoding whatever `WriteChunkedBody` and `WriteChunkedBodyDone` wrote gives back the concatenation of the slices. The decoder follows section 7.1 of RFC 9112 without chunk extensions or trailers.
- **Request-line round trips.** Parsing a formatted request line gives back its pieces. Conversely, every line the parser accepts is such a formatted line.
- **Reads do not matter.** `RequestFromReader` gives the outcome of parsing the whole stream, however the reader cuts it, including the reader's own error when the stream ends before a CRLF.
- **Full answers.** The bytes a fresh writer holds after `WriteResponse`, the `handle` fallback or `tempHandle` are given exactly. The header order is the order Go's map iteration happens to give, so it is existential.
- **Line splitter.** The splitter loses no byte but the newlines. The loop as written merges several lines that arrive in one read; see Findings.

`parseRequestLine` takes the version after the first '/' of the third piece (`bytes.Index`), so `HTTP/1.1/x` gives the version `1.1/x`; the model does the same.

## Model

| member | source | states |
|---|---|---|
| HttpHeaders.ValidFieldName | internal/headers/headers.go:131-146 | true exactly when every byte is an ASCII letter, digit or one of ``!#$%&'*+-.^_`\|~``; the empty name is valid |
| HttpHeaders.ValidLower | internal/headers/headers.go:118-121 | validating the lower-cased name gives the same verdict as validating the name itself |
| HttpHeaders.Lookup | internal/headers/headers.go:33-46 | `Get`: fails with the invalid-name error exactly when the name is invalid; otherwise gives the value under the lower-cased name, or "" when it is absent |
| HttpHeaders.LookupCaseInsensitive | internal/headers/headers.go:39-40 | two names equal after lower-casing find the same value |
| HttpHeaders.Merge | internal/headers/headers.go:48-63 | `Set`: the keys gain the lower-cased name; a new name gets the value, an existing one gets old + ", " + new; every other key keeps its value |
| HttpHeaders.MergeTwice | internal/headers/headers.go:54-58 | setting a fresh name to a and then to b leaves "a, b" |
| HttpHeaders.MergeWellKeyed | internal/headers/headers.go:48-63 | `Set` with a valid name keeps every key of the map lower-case and a valid field name |
| HttpHeaders.WellKeyedLookup | internal/headers/headers.go:33-46 | in a map whose keys are lower-case and valid, `Get` under any spelling that lower-cases to a key finds that key's value |
| HttpHeaders.ParseLineWellKeyed | internal/headers/headers.go:114-124 | the pair a parsed header line merges in keeps the map's keys lower-case and valid |
| HttpHeaders.ParseLine | internal/headers/headers.go:86-92 | more data is needed exactly when there is no CRLF; a header line is consumed up to and including its first CRLF |
| HttpHeaders.ClassifyLine | internal/headers/headers.go:94-128 | the empty line, and only it, ends the headers; an accepted line gives a non-empty, valid, lower-cased name and consumes the line plus 2 |
| HttpHeaders.ParseLineEnd | internal/headers/headers.go:94-97 | the end of the headers is reported exactly when the buffer starts with CRLF |
| HttpHeaders.ParseLineErrors | internal/headers/headers.go:99-121 | each of the four errors is reported exactly when its check is the first to fail: no colon, colon first, space before the colon, invalid name |
| HttpHeaders.ClassifyLineErrors | internal/headers/headers.go:99-121 | the same error order, stated for the line before the CRLF |
| HttpHeaders.ParseLineExtend | internal/headers/headers.go:86-92 | once the buffer holds a CRLF, bytes appended after it do not change the result |
| HttpHeaders.ParseFieldLine | internal/headers/headers.go:114-128 | round trip: the "name: value\r\n" line the writer formats parses back to the lower-cased name and the value, consuming exactly that line |
| HttpHeaders.Headers.constructor | internal/headers/headers.go:27-31 | `NewHeaders` gives an empty map, whose keys are trivially lower-case and valid |
| HttpHeaders.Headers.Get | internal/headers/headers.go:33-46 | fails exactly when the name is invalid; otherwise gives the value under the lower-cased name in the current map, or "" when it is absent |
| HttpHeaders.Headers.Set | internal/headers/headers.go:48-63 | the map becomes `Merge` of the old map with the name and value |
| HttpHeaders.Headers.Replace | internal/headers/headers.go:65-80 | succeeds exactly when the name is valid and holds a non-empty value, and then overwrites that value; otherwise it reports the invalid name or the missing header and leaves the map unchanged |
| HttpHeaders.Headers.Parse | internal/headers/headers.go:82-129 | returns (0, false, nil) without a CRLF and (2, true, nil) on the empty line, with the map unchanged; on an error, (0, false, err) with the map unchanged; on a header line, (consumed, false, nil) with the pair merged in; a map whose keys are all lower-case and valid stays so |
| HttpRequest.OnlyUpper | internal/request/request.go:162-176 | true exactly for a non-empty run of 'A'..'Z' |
| HttpRequest.ParseRequestLine | internal/request/request.go:126-160 | incomplete exactly when there is no CRLF; a complete line consumes the first line plus 2 bytes |
| HttpRequest.ParseFirstLine | internal/request/request.go:131-159 | the tokenizer never asks for more data; an accepted line consumes the line plus 2 and has an upper-case method |
| HttpRequest.ParseParts | internal/request/request.go:135-159 | the checks on the pieces never ask for more data; an accepted method is upper case |
| HttpRequest.ParseRequestLineErrors | internal/request/request.go:131-146 | each error is reported exactly when its check is the first to fail: not 3 pieces, bad method, no '/' |
| HttpRequest.ParseRequestLineExtend | internal/request/request.go:127-132 | once the buffer holds a CRLF, bytes appended after it do not change the result |
| HttpRequest.ParseRequestLineFormat | internal/request/request.go:126-160 | round trip: "METHOD TARGET PROTO/VERSION\r\n" followed by anything parses to that method, target and version and consumes the line |
| HttpRequest.FirstLineShape | internal/request/request.go:131-155 | every line the tokenizer accepts is its method, target and protocol/version joined by single spaces |
| HttpRequest.ParseRequestLineShape | internal/request/request.go:126-160 | conversely, every accepted buffer starts with a formatted request line and its CRLF |
| HttpRequest.ReadOutcome | internal/request/request.go:67-124 | the expected result of reading a request: the reader's error exactly when the stream holds no CRLF, success exactly when the first line parses |
| HttpRequest.Request.constructor | internal/request/request.go:81 | a new request is in the initialized state |
| HttpRequest.Request.Parse | internal/request/request.go:43-65 | in the done state, refuses and changes nothing; when initialized, asks for more data or reports the line error with nothing changed, or stores the line, moves to done and returns the bytes consumed |
| HttpRequest.Grow | internal/request/request.go:86-93 | the new buffer is fresh, twice the size, and keeps the bytes read |
| HttpRequest.ShiftDown | internal/request/request.go:117 | `copy(buff, buff[num:readToIndex])` moves the unparsed bytes to the front and leaves the rest of the buffer alone |
| HttpRequest.Fill | internal/request/request.go:85-101 | grows a full buffer, then reads into a non-empty tail; the filled prefix is the old prefix plus the bytes read |
| HttpRequest.Advance | internal/request/request.go:103-121 | parses the filled prefix; without a CRLF, or on a rejected line (which returns the parse error), the request, the buffer and the index are unchanged; on a complete line the request is done and the buffer holds only the unparsed bytes |
| HttpRequest.OutcomeOfPrefix | internal/request/request.go:96-107 | once the bytes read hold a CRLF, the rest of the stream does not change the outcome |
| HttpRequest.DecidedOutcome | internal/request/request.go:104-107 | a first line that is rejected or complete decides the outcome whatever follows |
| HttpRequest.RequestFromReader | internal/request/request.go:67-124 | returns a fresh, done request holding the first line of the whole stream, or exactly the error of that stream: the line error, or the reader's error when no CRLF came first |
| HttpRequest.ChunkSizeIrrelevant | internal/request/request_test.go:53-76 | the tests' chunk reader gives the same outcome for every read size; a corollary of `Io.ChunkScriptStream` and the whole-stream contract of `RequestFromReader` |
| HttpRequest.CoffeeLine | internal/request/request_test.go:41-46 | "GET /coffee HTTP/1.1" is a well-formed request line |
| HttpRequest.CoffeeRequest | internal/request/request_test.go:41-46 | that request, whatever headers follow, gives method GET, target /coffee and version 1.1 |
| Io.Chunks | main.go:24-32 | every piece a `cap`-byte read returns holds at most `cap` bytes |
| Io.ConcatChunks | main.go:23-32 | the pieces of successive reads concatenate to exactly the stream before the first error |
| Io.ChunkScript | internal/request/request_test.go:12-29 | the chunk reader's data cut into non-empty pieces of at most k bytes; when a read offers less room than the next piece, the model keeps the rest of that piece for the next read, where the test's reader would start a fresh piece of up to k bytes, and `HttpRequest.ChunkSizeIrrelevant` shows the outcome is the same |
| Io.ChunkScriptStream | internal/request/request_test.go:12-29 | the chunk reader delivers exactly its data and then end of file |
| Io.ReadStep | internal/request/request.go:96 | a read never returns more bytes than it is offered |
| Io.ReadStepStream | internal/request/request.go:96-101 | a successful read takes its bytes off the front of the stream and makes progress; a failed one returns no bytes and reports the stream's final error |
| Io.ReadStepChunks | main.go:24-32 | successive reads of one size return exactly the pieces `Chunks` cuts |
| Io.Reader.Read | internal/request/request.go:96 | fills only the offered tail of the slice, writing the bytes of one read step into it |
| HttpResponse.BodyLengths | internal/response/main.go:25-55 | the three pages are non-empty and pairwise different |
| HttpResponse.KnownCodeDigits | internal/response/main.go:92-98 | 200, 400 and 500 print as three decimal digits |
| HttpResponse.KnownStatusLines | internal/response/main.go:92-98 | the status lines of 200, 400 and 500 are exactly "HTTP/1.1 200 OK\r\n", "HTTP/1.1 400 Bad Request\r\n" and "HTTP/1.1 500 Internal Server Error\r\n" |
| HttpResponse.StatusLineReadsBack | internal/response/main.go:84-105 | a status line is a single line ended by its only CRLF, and its code reads back as the status |
| HttpResponse.StatusLineEnds | internal/response/main.go:91-103 | a status line whose reason holds no CR ends at its first CRLF, since the decimal code holds none |
| HttpResponse.SplitsStep | internal/response/main.go:118-124 | writing one more entry appends its "k: v\r\n" line and keeps the written and pending keys apart |
| HttpResponse.SplitsDone | internal/response/main.go:118-124 | when no key is pending, every key was written exactly once |
| HttpResponse.NextChunk | internal/response/main.go:159-168 | a chunk read from the stream is non-empty and the rest is shorter |
| HttpResponse.ChunkAt | internal/response/main.go:159-168 | a chunk holds exactly the announced number of bytes |
| HttpResponse.NextFrame | internal/response/main.go:159-168 | the frame `WriteChunkedBody` writes for a non-empty slice reads back as one chunk holding that slice |
| HttpResponse.NextLastChunk | internal/response/main.go:178-187 | the ending `WriteChunkedBodyDone` writes reads back as the last chunk |
| HttpResponse.DecodeFrame | internal/response/main.go:146-170 | decoding a frame and then a decodable stream prepends the frame's slice |
| HttpResponse.FramesAppend | internal/response/main.go:146-170 | one more chunk write adds its frame at the end |
| HttpResponse.ChunkedRoundTrip | internal/response/main.go:146-190 | decoding the frames of any slices followed by the ending gives the concatenation of the slices |
| HttpResponse.DefaultFieldsKeys | internal/response/main.go:76-82 | the default headers hold exactly the three keys content-length, connection and content-type |
| HttpResponse.DefaultFieldsValues | internal/response/main.go:76-82 | their values are the decimal content length, "close" and "text/plain" |
| HttpResponse.DefaultFieldsLookup | internal/response/main.go:76-82 | `Get` with the names the source uses finds those three values |
| HttpResponse.ContentLengthValid | internal/response/main.go:78 | "Content-Length" is a valid field name |
| HttpResponse.ConnectionValid | internal/response/main.go:79 | "Connection" is a valid field name |
| HttpResponse.ContentTypeValid | internal/response/main.go:80 | "Content-Type" is a valid field name |
| HttpResponse.Writer.constructor | internal/response/main.go:72-74 | a new writer is empty and has written nothing |
| HttpResponse.Writer.WriteStatusLine | internal/response/main.go:84-105 | outside the empty state, refuses and changes nothing; otherwise moves to the status-line state, and writes the line of a supported status or reports an invalid one with nothing written |
| HttpResponse.Writer.WriteHeaders | internal/response/main.go:107-129 | only after the status line and only for a non-empty map; writes one "k: v\r\n" line per key in some order listing every key once, then CRLF, and moves to the headers state |
| HttpResponse.Writer.WriteBody | internal/response/main.go:131-144 | only after the headers; moves to the body state and writes the slice as is, so an empty slice writes nothing and returns 0 |
| HttpResponse.Writer.WritePieces | internal/response/main.go:162-168 | the write loop of the chunk methods appends the pieces and counts their bytes |
| HttpResponse.Writer.WriteChunkedBody | internal/response/main.go:146-170 | from the headers state, moves to the chunked state even for an empty slice; in the chunked state, writes the framed chunk of a non-empty slice and returns its length; elsewhere refuses and changes nothing |
| HttpResponse.Writer.WriteChunkedBodyDone | internal/response/main.go:172-190 | only in the chunked state; writes "0\r\n\r\n", returns 5 and moves to done |
| HttpResponse.GetDefaultHeaders | internal/response/main.go:76-82 | a fresh collection holding the default headers |
| HttpServer.HtmlFields | internal/server/main.go:91-93 | the headers of an HTML answer have the default keys, content-type "text/html" and the other defaults unchanged |
| HttpServer.ContentTypeReplaceable | internal/server/main.go:92-97 | `Replace` of the content type of the defaults cannot fail, and it yields the HTML headers |
| HttpServer.HtmlFieldsAnnounceLength | internal/server/main.go:91-92 | an HTML answer has three headers; its content length reads back as the body's length, and its connection is "close" |
| HttpServer.WriteResponse | internal/server/main.go:106-125 | on a fresh writer: an invalid status writes nothing more; empty headers stop after the status line; otherwise status line, header lines, blank line and body, ending in the body state, or in the headers state when the body is empty |
| HttpServer.WriteFieldsAndBody | internal/server/main.go:113-124 | after the status line: no headers leaves the writer as it is; otherwise every header line once, the blank line, then the body, ending in the body state, or in the headers state when the body is empty |
| HttpServer.Handle | internal/server/main.go:81-104 | a request that parses is handed on with an untouched writer; otherwise the handler is skipped and the writer holds the full "400 Bad Request" HTML answer |
| HttpServer.WriteBadRequest | internal/server/main.go:89-101 | the fallback writes the "400 Bad Request" page with the HTML headers |
| HttpServer.WriteHtml | internal/server/main.go:91-99 | default headers for the body, content type switched to HTML, then the whole answer |
| HttpServer.Server.constructor | internal/server/main.go:40-43 | a served port is running with its listener open |
| HttpServer.Server.Close | internal/server/main.go:49-55 | the first call stops the server and closes the listener; a later call reports that the server is already closed and leaves the listener as it was |
| HttpServer.Server.Listen | internal/server/main.go:57-79 | a running server dispatches every accepted connection and passes over failed accepts; a stopped one dispatches those before the first failed accept and returns there |
| HttpServer.Serve | internal/server/main.go:32-47 | a listener failure is returned with no server; otherwise the server is fresh, running and listening |
| HttpServer.FirstFailure | internal/server/main.go:62-68 | the index of the first failed accept, or the script's length when none fails |
| HttpServer.ConnectionsAppend | internal/server/main.go:61-78 | one more accept adds its connection when it succeeded, and nothing otherwise |
| HttpServer.ConnectionsExactly | internal/server/main.go:61-78 | the dispatched connections are exactly those of the successful accepts |
| HttpServerMain.Route | cmd/httpserver/main.go:21-31 | "/yourproblem" gives 400 with the bad-request page, "/myproblem" 500 with the server-error page, and any other target 200 with the OK page |
| HttpServerMain.TempHandle | cmd/httpserver/main.go:17-55 | on a fresh writer, writes the routed status line, the HTML headers for that body, the blank line and the body, and ends in the body state |
| HttpServerMain.WritePage | cmd/httpserver/main.go:33-54 | the panic branch is unreachable; the three writes follow each other and stop at the first error |
| HttpServerMain.ServeConnection | internal/server/main.go:81-104 | with `tempHandle` as the handler, each connection gets the routed page for a request that parses and the bad-request page otherwise |
| HttpServerMain.YourProblemIsBadRequest | cmd/httpserver/main.go:22-24 | asking for "/yourproblem" gets, byte for byte, the fallback answer to a request that does not parse |
| HttpServerMain.ServedTarget | cmd/httpserver/main.go:21 | the route is chosen on the target of a well-formed request line |
| Lines.GetLinesChannel | main.go:12-59 | the strings sent are those of the loop as written over the reads, and the reader is drained to its first error; cmd/tcplistener/main.go:12-59 runs the same loop on each connection |
| Lines.ConsumeNoNewline | main.go:34-36 | a read without a newline sends nothing and extends the current line |
| Lines.ConsumeNewline | main.go:37-50 | a read with newlines sends exactly one string: the current line followed by everything before the read's last newline, with the newlines dropped; the bytes after that last newline become the current line |
| Lines.ConsumeKeeps | main.go:30-50 | one read adds its bytes, without newlines, to the sent lines and the current line |
| Lines.ConsumeAllKeeps | main.go:23-51 | the same for all reads one after the other |
| Lines.LinesConserveBytes | main.go:23-56 | the strings sent, concatenated, are the stream with every newline removed, and none holds a newline (for both copies of the loop) |
| Lines.LineRead | main.go:37-50 | a read holding exactly one line and its newline sends the current line completed by it |
| Lines.TwoLineReads | main.go:23-56 | two reads of one line each send the two lines |
| Lines.SplitReadsSeparate | main.go:19-32 | "a\n" and "b\n" in two reads are sent as "a" and "b" |
| Lines.MergedLines | main.go:37-50 | "a\nb\n" in one read is sent as the single string "ab", while the stream's lines are "a" and "b" |
| Lines.StreamLines | main.go:37-50 | the lines of a text hold no newline |
| Lines.GetLinesChannelFixed | main.go:23-56 | the corrected loop sends exactly the lines of the stream, however the reads cut it |
| Lines.LinesFixedAreStreamLines | main.go:23-56 | what the corrected loop sends is the lines of the stream |
| Bytes.IndexOf | internal/headers/headers.go:86 | `bytes.Index`: -1 or the first position where the pattern occurs |
| Bytes.IndexOfByte | internal/request/request.go:143 | the first position of a byte, or -1 when it does not occur |
| Bytes.Split | internal/request/request.go:131-133 | `bytes.Split` always gives at least one piece |
| Bytes.SplitPieces | main.go:32-34 | there is more than one piece exactly when the separator occurs, and no piece contains it |
| Bytes.SplitJoin | main.go:32-43 | joining the pieces with the separator gives back the input |
| Bytes.SplitLast | main.go:39-45 | when the separator occurs, the last piece of `bytes.Split` is exactly what follows its last occurrence, and the other pieces joined with nil are what precedes it with every separator removed |
| Bytes.ConcatSplit | main.go:42 | joining the pieces with nothing between them gives the input with the separator removed |
| Bytes.Lower | internal/headers/headers.go:39 | `strings.ToLower` on ASCII keeps the length and lowers each byte |
| Bytes.TrimSpace | internal/headers/headers.go:114 | `strings.TrimSpace` gives the slice of the input left after an all-space prefix and an all-space suffix are dropped, with no white space at either end of the result; it gives "" only for all-space input and leaves a trimmed string unchanged |
| Bytes.Itoa | internal/response/main.go:78 | `strconv.Itoa` gives "0" for zero and otherwise decimal digits only, with no leading zero, that read back as the number; a negative number is "-" followed by such digits for its magnitude |
| Bytes.Hex | internal/response/main.go:160 | `%X` gives "0" for zero and otherwise a non-empty run of the digits '0'..'9' and upper-case 'A'..'F', with no leading zero, that reads back as the number |

## Left out

- Networking and goroutines are not modelled: `net.Listen`, `Accept`, the `go` statements, and the atomic flag. The `running` flag is a plain boolean, and `listen` is run over a finite script of accept outcomes, during which the flag does not change.
- The error of `listener.Close` is not modelled; `Close` stands for it with the `listenerOpen` flag.
- The closing of connections and files (`conn.Close`, `file.Close`) is not modelled. The only difference between the two copies of `getLinesChannel` is that `main.go` closes its file, so both are modelled by `Lines.GetLinesChannel`.
- The channel of `getLinesChannel` is modelled as the sequence of strings sent.
- `internal/handlers/handlers.go` is not part of this model. It calls header and writer methods that the core does not define.
- `cmd/udplistener/main.go` is not part of this model. It only dials UDP and reads standard input.
- The `main` functions are not modelled: opening files, waiting for signals, printing and logging.
- Diagnostic output in the core is not modelled: the `fmt.Println`/`Printf` calls in `Close`, `listen` and `handle` (internal/server/main.go:53-122), the `log.Printf` calls in `onlyUpper` (internal/request/request.go:165,171), the state message printed with `ErrorInvalidWriteSequence` (internal/response/main.go:86,109,133) and the printing in `tempHandle` (cmd/httpserver/main.go:42-52).
- Failures of the connection's `Write` are not modelled: writes to the connection always succeed.
- Unicode is not modelled: `strings.ToLower` and `strings.TrimSpace` are modelled on ASCII bytes only. `unicode.IsSpace` on a byte is modelled exactly.
- Go's map iteration order is not fixed: `WriteHeaders` and the answers built on it are stated for an order that lists every key once. Which order Go picks is left out.
- `ErrorUnknownState` cannot occur: the request state has only the two values the source assigns.
- Header and body parsing of a request is not modelled: `request.go` stops after the request line, so the tests that read `Headers` or `Body` are left out.
- `HttpRequest.Grow`: the buffer doubles as `make([]byte, cap(buff)*2)`; the model uses the length, which is equal here because the buffer is always made at full length.
- `HttpRequest.RequestFromReader`, `Lines.GetLinesChannel`: readers are finite scripts, so both loops always end. A reader that keeps returning no bytes and no error, or a peer that sends bytes forever without a CRLF, is not modelled, and neither is the unbounded buffer growth in `RequestFromReader` that this causes. A read that returns bytes together with an error cannot be expressed either; both loops drop such bytes anyway (internal/request/request.go:96-99, main.go:24-28).
- `Io.ChunkScript`: a read offered less room than the test reader's chunk size gets a prefix of the current piece, and the rest comes next. The test's `chunkReader` would return up to that size of fresh bytes. `HttpRequest.ChunkSizeIrrelevant` shows that the parsed request is the same either way.
- `HttpServerMain.WritePage`: the `panic` of the source is shown unreachable and is not modelled as a program abort.

## Findings

| source | as written | input that shows it | evidently intended | confidence | as-written member | corrected member |
|---|---|---|---|---|---|---|
| main.go:37-50 | a read holding several newlines sends one string: the pieces before the last newline joined with nothing between them (cmd/tcplistener/main.go:37-50 is the same) | one read of "a\nb\n" sends "ab" | every completed line is sent on its own, "a" then "b" | not executed | Lines.MergedLines | Lines.LinesFixedAreStreamLines |
