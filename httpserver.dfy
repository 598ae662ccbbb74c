// cmd/httpserver/main.go: the demonstration handler `tempHandle`, which picks a
// status and an HTML page from the request target and writes the response step
// by step, and its use as the handler of the server.

module HttpServerMain {
  import opened Wrappers
  import opened Bytes
  import opened Io
  import HttpHeaders
  import opened HttpRequest
  import opened HttpResponse
  import opened HttpServer

  /** The status and body `tempHandle` answers with. */
  datatype Page = Page(status: StatusCode, body: string)

  /** The routing switch of `tempHandle`: "/yourproblem" is the client's fault, "/myproblem" the
      server's, anything else is fine. Every page has a status the writer supports and a body. */
  function Route(target: string): (p: Page)
    ensures Reason(p.status).Some? && |p.body| > 0
    ensures p.status == StatusBad <==> target == "/yourproblem"
    ensures p.status == StatusInServErr <==> target == "/myproblem"
    ensures p.status == StatusOK <==> target != "/yourproblem" && target != "/myproblem"
    ensures p.body == StatusBadBody <==> p.status == StatusBad
    ensures p.body == StatusInServErrBody <==> p.status == StatusInServErr
  {
    BodyLengths();
    if target == "/yourproblem" then Page(StatusBad, StatusBadBody)
    else if target == "/myproblem" then Page(StatusInServErr, StatusInServErrBody)
    else Page(StatusOK, StatusOKBody)
  }

  /** `tempHandle`: route, then write the page. */
  method TempHandle(w: Writer, req: Request) returns (ghost order: seq<string>)
    modifies w
    ensures old(w.state) != EmptyState ==> unchanged(w)
    ensures var p := Route(req.requestLine.requestTarget);
      old(w.state) == EmptyState ==>
        && Enumerates(order, HtmlFields(|p.body|))
        && w.state == BodyState
        && w.conn == old(w.conn) + ResponseText(p.status, HtmlFields(|p.body|), order, p.body)
  {
    var p := Route(req.requestLine.requestTarget);
    order := WritePage(w, p.status, p.body);
  }

  /** The writing part of `tempHandle`: the default headers for the body with the content type
      switched to HTML, then status line, headers and body, giving up at the first error. */
  method WritePage(w: Writer, status: StatusCode, body: string) returns (ghost order: seq<string>)
    requires Reason(status).Some?
    modifies w
    ensures old(w.state) != EmptyState ==> unchanged(w)
    ensures old(w.state) == EmptyState ==>
      && Enumerates(order, HtmlFields(|body|))
      && w.state == BodyState
      && w.conn == old(w.conn) + ResponseText(status, HtmlFields(|body|), order, body)
  {
    var heads := GetDefaultHeaders(|body|);
    ContentTypeReplaceable(|body|);
    var err := heads.Replace("Content-Type", "text/html");
    // The panic of the source: replacing the content type of the defaults cannot fail.
    assert err.None?;
    HtmlFieldsAnnounceLength(body);
    ghost var start := w.conn;
    var writeErr := w.WriteStatusLine(status);
    order := [];
    if writeErr.Some? {
      return;
    }
    ghost var line := StatusLineText(status, Reason(status).value);
    assert w.conn == start + line;
    writeErr, order := w.WriteHeaders(heads.fields);
    if writeErr.Some? {
      return;
    }
    ghost var lines := HeaderLines(order, heads.fields);
    assert w.conn == start + line + (lines + CRLF) by {
      Assoc(start + line, lines, CRLF);
    }
    var _, bodyErr := w.WriteBody(body);
    Assoc(line, lines, CRLF);
    Assoc(line, lines + CRLF, body);
    Assoc(start + line, lines + CRLF, body);
    Assoc(start, line, lines + CRLF + body);
  }

  /** The server of the program with `tempHandle` as its handler, on one connection: a request
      that parses is answered with the page of its target, anything else with "400 Bad Request". */
  method ServeConnection(conn: Reader) returns (w: Writer, ghost order: seq<string>)
    modifies conn
    ensures fresh(w)
    ensures var out := ReadOutcome(Stream(old(conn.replies)), EndError(old(conn.replies)));
      && (out.Success? ==>
            var p := Route(out.value.requestTarget);
            && Enumerates(order, HtmlFields(|p.body|))
            && w.state == BodyState
            && w.conn == ResponseText(p.status, HtmlFields(|p.body|), order, p.body))
      && (out.Failure? ==>
            && Enumerates(order, HtmlFields(|StatusBadBody|))
            && w.state == BodyState
            && w.conn == BadRequestText(order))
  {
    var req;
    w, req, order := Handle(conn);
    if req != null {
      order := TempHandle(w, req);
    }
  }

  /** Asking for "/yourproblem" gets, byte for byte, the answer to a request that does not parse. */
  lemma YourProblemIsBadRequest(order: seq<string>)
    requires forall k :: k in order ==> k in HtmlFields(|StatusBadBody|)
    ensures var p := Route("/yourproblem");
      ResponseText(p.status, HtmlFields(|p.body|), order, p.body) == BadRequestText(order)
  {
  }

  /** A well-formed request line for `target`, whatever follows it, is answered with the page of
      `target`. */
  lemma ServedTarget(methodName: string, target: string, protocol: string, version: string, rest: string, end: ReadError)
    requires WellFormedPieces(methodName, target, protocol, version)
    ensures var out := ReadOutcome(LineText(methodName, target, protocol, version) + CRLF + rest, end);
      out.Success? && out.value.requestTarget == target
  {
    ParseRequestLineFormat(methodName, target, protocol, version, rest);
  }
}
