// internal/server/main.go: the server's life cycle (Serve, Close), its accept
// loop, the per-connection handling with its fallback "400 Bad Request" answer,
// and WriteResponse, the status-line / headers / body sequence on a Writer.
// Sockets, goroutines and the atomic flag are replaced by sequential state:
// a connection is the script of replies its reader gives, and the accept loop
// runs over a finite script of accept outcomes.

module HttpServer {
  import opened Wrappers
  import opened Bytes
  import opened Io
  import HttpHeaders
  import opened HttpRequest
  import opened HttpResponse

  /** `ErrorClosingOfflineServer`, and the failure of `net.Listen` that `Serve` passes on. */
  datatype ServerError = ClosingOfflineServer | ListenFailed

  /** What one `Accept` on the listener gives: a connection (the replies its reader will give), or an error. */
  datatype AcceptOutcome = Accepted(conn: seq<Reply>) | AcceptFailed

  /** The headers of an HTML answer: the defaults with the content type replaced. */
  function HtmlFields(contentLen: int): (h: HttpHeaders.HeaderMap)
    ensures h.Keys == DefaultFields(contentLen).Keys
    ensures h["content-type"] == "text/html"
    ensures forall k :: k in h && k != "content-type" ==> h[k] == DefaultFields(contentLen)[k]
  {
    DefaultFields(contentLen)["content-type" := "text/html"]
  }

  /** The bytes a fresh writer holds after a complete answer: status line, header lines in
      `order`, the blank line, the body. */
  function ResponseText(status: StatusCode, heads: HttpHeaders.HeaderMap, order: seq<string>, body: string): string
    requires Reason(status).Some? && forall k :: k in order ==> k in heads
  {
    StatusLineText(status, Reason(status).value) + HeaderLines(order, heads) + CRLF + body
  }

  /** Replacing the content type of the default headers succeeds, with the HTML headers as result. */
  lemma ContentTypeReplaceable(contentLen: int)
    ensures HttpHeaders.ValidFieldName("Content-Type")
    ensures Lower("Content-Type") in DefaultFields(contentLen)
    ensures DefaultFields(contentLen)[Lower("Content-Type")] != ""
    ensures DefaultFields(contentLen)[Lower("Content-Type") := "text/html"] == HtmlFields(contentLen)
  {
    LowerContentType();
    ContentTypeValid();
  }

  /** The content length an HTML answer announces reads back as the length of its body, and it
      has the three default headers. */
  lemma HtmlFieldsAnnounceLength(body: string)
    ensures |HtmlFields(|body|)| == 3
    ensures "content-length" in HtmlFields(|body|)
    ensures Value(HtmlFields(|body|)["content-length"], 10) == |body|
    ensures HtmlFields(|body|)["connection"] == "close"
  {
    DefaultFieldsKeys(|body|);
    var h := HtmlFields(|body|);
    assert |h| == |h.Keys|;
  }

  /** `WriteResponse`: status line, then headers, then the body if there is one; the first error
      ends it, and nothing is written past it. */
  method WriteResponse(w: Writer, status: StatusCode, heads: HttpHeaders.HeaderMap, body: string)
    returns (ghost order: seq<string>)
    modifies w
    ensures old(w.state) != EmptyState ==> unchanged(w)
    ensures old(w.state) == EmptyState && Reason(status).None? ==>
      w.state == StatusLineState && w.conn == old(w.conn)
    ensures old(w.state) == EmptyState && Reason(status).Some? && |heads| == 0 ==>
      w.state == StatusLineState && w.conn == old(w.conn) + StatusLineText(status, Reason(status).value)
    ensures old(w.state) == EmptyState && Reason(status).Some? && |heads| > 0 ==>
      && Enumerates(order, heads)
      && w.conn == old(w.conn) + ResponseText(status, heads, order, body)
      && w.state == (if |body| == 0 then HeadersState else BodyState)
  {
    order := [];
    ghost var start := w.conn;
    var err := w.WriteStatusLine(status);
    if err.Some? {
      return;
    }
    ghost var line := StatusLineText(status, Reason(status).value);
    order := WriteFieldsAndBody(w, heads, body);
    if |heads| > 0 {
      AnswerBytes(start, line, HeaderLines(order, heads), body);
    }
  }

  /** The second half of `WriteResponse`: the headers, then the body if there is one. */
  method WriteFieldsAndBody(w: Writer, heads: HttpHeaders.HeaderMap, body: string) returns (ghost order: seq<string>)
    requires w.state == StatusLineState
    modifies w
    ensures |heads| == 0 ==> w.state == StatusLineState && w.conn == old(w.conn)
    ensures |heads| > 0 ==>
      && Enumerates(order, heads)
      && w.conn == old(w.conn) + (HeaderLines(order, heads) + CRLF) + body
      && w.state == (if |body| == 0 then HeadersState else BodyState)
  {
    var err;
    err, order := w.WriteHeaders(heads);
    if err.Some? {
      return;
    }
    if |body| != 0 {
      var _, bodyErr := w.WriteBody(body);
    } else {
      assert w.conn + body == w.conn;
    }
  }

  /** The bytes of the three writes, regrouped as the start followed by the whole answer. */
  lemma AnswerBytes(start: string, line: string, lines: string, body: string)
    ensures start + line + (lines + CRLF) + body == start + (line + lines + CRLF + body)
  {
    Assoc(line, lines, CRLF);
    Assoc(start + line, lines + CRLF, body);
    Assoc(start, line, lines + CRLF + body);
    Assoc(line, lines + CRLF, body);
  }

  /** The answer to a request that does not parse, as `handle` writes it. */
  function BadRequestText(order: seq<string>): string
    requires forall k :: k in order ==> k in HtmlFields(|StatusBadBody|)
  {
    ResponseText(StatusBad, HtmlFields(|StatusBadBody|), order, StatusBadBody)
  }

  /** `handle`, up to the call of the handler: parse the request from the connection; if that
      fails, answer "400 Bad Request" with an HTML body and give no request to the handler;
      otherwise hand the parsed request and an untouched writer on. */
  method Handle(conn: Reader) returns (w: Writer, req: Request?, ghost order: seq<string>)
    modifies conn
    ensures fresh(w)
    ensures var out := ReadOutcome(Stream(old(conn.replies)), EndError(old(conn.replies)));
      && (out.Success? ==>
            req != null && fresh(req) && req.state == Done && req.requestLine == out.value
            && w.state == EmptyState && w.conn == [])
      && (out.Failure? ==>
            req == null && Enumerates(order, HtmlFields(|StatusBadBody|))
            && w.state == BodyState && w.conn == BadRequestText(order))
  {
    w := new Writer();
    var err;
    req, err := RequestFromReader(conn);
    order := [];
    if err.Some? {
      order := WriteBadRequest(w);
    }
  }

  /** The fallback answer of `handle`: the default headers for the "400 Bad Request" body, the
      content type replaced by HTML, and the whole response. */
  method WriteBadRequest(w: Writer) returns (ghost order: seq<string>)
    requires w.state == EmptyState && w.conn == []
    modifies w
    ensures Enumerates(order, HtmlFields(|StatusBadBody|))
    ensures w.state == BodyState && w.conn == BadRequestText(order)
  {
    BodyLengths();
    order := WriteHtml(w, StatusBad, StatusBadBody);
  }

  /** Lines 91-99 of `handle` for any status and body: default headers for the body, the content
      type replaced by HTML (which cannot fail), then `WriteResponse`. */
  method WriteHtml(w: Writer, status: StatusCode, body: string) returns (ghost order: seq<string>)
    requires w.state == EmptyState && Reason(status).Some?
    modifies w
    ensures Enumerates(order, HtmlFields(|body|))
    ensures w.state == (if |body| == 0 then HeadersState else BodyState)
    ensures w.conn == old(w.conn) + ResponseText(status, HtmlFields(|body|), order, body)
  {
    var heads := GetDefaultHeaders(|body|);
    ContentTypeReplaceable(|body|);
    var replaceErr := heads.Replace("Content-Type", "text/html");
    // The source gives up when the replacement fails; it cannot fail here.
    assert replaceErr.None?;
    assert heads.fields == HtmlFields(|body|);
    HtmlFieldsAnnounceLength(body);
    order := WriteResponse(w, status, heads.fields, body);
  }

  /** The running flag and the listener of a served port. */
  class Server {
    var running: bool
    var listenerOpen: bool

    /** `Serve` after the listener was opened: running, listener open. */
    constructor ()
      ensures running && listenerOpen
    {
      running := true;
      listenerOpen := true;
    }

    /** `Close`: the first call stops the server and closes the listener; any later call reports
        `ClosingOfflineServer` and touches nothing. */
    method Close() returns (err: Option<ServerError>)
      modifies this
      ensures !running
      ensures old(running) ==> err.None? && !listenerOpen
      ensures !old(running) ==> err == Some(ClosingOfflineServer) && listenerOpen == old(listenerOpen)
    {
      var wasRunning := running;
      running := false;
      if !wasRunning {
        return Some(ClosingOfflineServer);
      }
      listenerOpen := false;
      return None;
    }

    /** `listen`: accept connections one after the other and dispatch each. A failed accept
        ends the loop once the server no longer runs and is skipped otherwise. */
    method Listen(script: seq<AcceptOutcome>) returns (dispatched: seq<seq<Reply>>)
      ensures running ==> dispatched == Connections(script)
      ensures !running ==> dispatched == Connections(script[..FirstFailure(script)])
    {
      dispatched := [];
      var i := 0;
      while i < |script|
        invariant 0 <= i <= |script|
        invariant !running ==> i <= FirstFailure(script)
        invariant dispatched == Connections(script[..i])
      {
        ConnectionsAppend(script[..i], script[i]);
        assert script[..i + 1] == script[..i] + [script[i]];
        if script[i].AcceptFailed? {
          if !running {
            FirstFailureAt(script, i);
            return;
          }
        } else {
          if !running {
            FirstFailurePast(script, i);
          }
          dispatched := dispatched + [script[i].conn];
        }
        i := i + 1;
      }
      assert script[..i] == script;
      if !running {
        FirstFailureEnd(script);
      }
    }
  }

  /** `Serve`: open the listener (its failure is passed in) and start a running server. */
  method Serve(listenFails: bool) returns (srv: Server?, err: Option<ServerError>)
    ensures listenFails ==> srv == null && err == Some(ListenFailed)
    ensures !listenFails ==> err.None? && srv != null && fresh(srv) && srv.running && srv.listenerOpen
  {
    if listenFails {
      return null, Some(ListenFailed);
    }
    srv := new Server();
    err := None;
  }

  /** The connections in a script of accept outcomes, in order. */
  function Connections(script: seq<AcceptOutcome>): seq<seq<Reply>>
  {
    if |script| == 0 then []
    else
      var tail := Connections(script[1..]);
      if script[0].Accepted? then [script[0].conn] + tail else tail
  }

  /** The index of the first failed accept, or the length of the script when none fails. */
  function FirstFailure(script: seq<AcceptOutcome>): (k: nat)
    ensures k <= |script|
    ensures forall i :: 0 <= i < k ==> script[i].Accepted?
    ensures k < |script| ==> script[k].AcceptFailed?
  {
    if |script| == 0 then 0
    else if script[0].AcceptFailed? then 0
    else 1 + FirstFailure(script[1..])
  }

  lemma {:induction false} ConnectionsAppend(script: seq<AcceptOutcome>, a: AcceptOutcome)
    ensures Connections(script + [a]) == Connections(script) + (if a.Accepted? then [a.conn] else [])
    decreases |script|
  {
    if |script| == 0 {
      assert [a][1..] == [];
    } else {
      assert (script + [a])[1..] == script[1..] + [a];
      ConnectionsAppend(script[1..], a);
    }
  }

  lemma FirstFailureAt(script: seq<AcceptOutcome>, i: nat)
    requires i < |script| && script[i].AcceptFailed? && i <= FirstFailure(script)
    ensures FirstFailure(script) == i
  {
  }

  lemma FirstFailurePast(script: seq<AcceptOutcome>, i: nat)
    requires i < |script| && script[i].Accepted? && i <= FirstFailure(script)
    ensures i + 1 <= FirstFailure(script)
  {
  }

  lemma FirstFailureEnd(script: seq<AcceptOutcome>)
    requires |script| <= FirstFailure(script)
    ensures script[..FirstFailure(script)] == script
  {
  }

  /** The dispatched connections are exactly those of the successful accepts. */
  lemma {:induction false} ConnectionsExactly(script: seq<AcceptOutcome>)
    ensures forall i :: 0 <= i < |script| && script[i].Accepted? ==> script[i].conn in Connections(script)
    ensures forall c :: c in Connections(script) ==> Accepted(c) in script
    decreases |script|
  {
    if |script| > 0 {
      ConnectionsExactly(script[1..]);
      forall i | 0 <= i < |script| && script[i].Accepted?
        ensures script[i].conn in Connections(script)
      {
        if i > 0 {
          assert script[1..][i - 1] == script[i];
        }
      }
    }
  }
}
