/** The pure kernel of `handle_request`: the request line already read from the
    connection is trimmed, matched against the one line the server answers, and
    the chosen (status, content) pair is rendered as the bytes written back. */
module Handler {
  import opened Text

  /** The only request line that is answered with the page. */
  const RootRequest := "GET / HTTP/1.1"

  const OkStatus := "HTTP/1.1 200 OK"
  const OkContent := "<html><head><title>200 Ok</title></head><body><h1>Hello, World!</h1></body></html>"
  const NotFoundStatus := "HTTP/1.1 404 Not Found"
  const NotFoundContent := "<html><head><title>404 Not Found</title></head><body><h1>404 Not Found</h1></body></html>"

  /** The line terminator, and the empty line that ends the header block. */
  const Crlf := "\r\n"
  const HeaderEnd := "\r\n\r\n"

  /** The exact bytes written for the two branches. The status literals already
      carry the protocol version, and the format string adds it once more. */
  const OkResponse :=
    "HTTP/1.1 " + OkStatus + Crlf + ("Content-Length: " + "82") + HeaderEnd + OkContent
  const NotFoundResponse :=
    "HTTP/1.1 " + NotFoundStatus + Crlf + ("Content-Length: " + "89") + HeaderEnd
    + NotFoundContent

  /** The (status, content) pair picked by the `match`. */
  datatype Reply = Reply(status: string, content: string)

  /** The `match` on the trimmed request line: the root request is found,
      everything else is not. */
  function Classify(trimmed: string): (d: Reply)
    ensures d.status == OkStatus <==> trimmed == RootRequest
    ensures d == Reply(OkStatus, OkContent) || d == Reply(NotFoundStatus, NotFoundContent)
  {
    if trimmed == RootRequest then Reply(OkStatus, OkContent)
    else Reply(NotFoundStatus, NotFoundContent)
  }

  /** The `format!` that renders a reply: a first line made of the version and
      the status, a `Content-Length` header, an empty line and the content,
      with nothing before or after. `content.len()` counts bytes; both contents
      are ASCII, so the character count is that number. */
  function Serialize(d: Reply): (r: string)
    ensures |r| >= 9 && r[..9] == "HTTP/1.1 "
    ensures |r| >= |d.content| && r[|r| - |d.content|..] == d.content
  {
    var first := "HTTP/1.1 " + d.status;
    var field := "Content-Length: " + Decimal(|d.content|);
    first + Crlf + field + HeaderEnd + d.content
  }

  /** Everything `handle_request` computes from the line it read. */
  function Respond(line: string): (r: string)
    ensures r == OkResponse || r == NotFoundResponse
  {
    var d := Classify(Trim(line));
    assert d == Reply(OkStatus, OkContent) || d == Reply(NotFoundStatus, NotFoundContent);
    SerializeBranches();
    Serialize(d)
  }

  /** The `Content-Length` values: 82 bytes for the page, 89 for the error. */
  lemma ContentLengths()
    ensures |OkContent| == 82 && Decimal(|OkContent|) == "82"
    ensures |NotFoundContent| == 89 && Decimal(|NotFoundContent|) == "89"
  {
    assert Decimal(8) == "8" && Decimal(82) == Decimal(8) + [DigitChar(2)];
    assert Decimal(89) == Decimal(8) + [DigitChar(9)];
  }

  /** Serializing either reply gives the bytes listed above. */
  lemma SerializeBranches()
    ensures Serialize(Reply(OkStatus, OkContent)) == OkResponse
    ensures Serialize(Reply(NotFoundStatus, NotFoundContent)) == NotFoundResponse
  {
    ContentLengths();
  }

  /** The page is sent exactly for lines that trim to the root request, and the
      error for every other line. */
  lemma RespondCases(line: string)
    ensures Respond(line) == OkResponse || Respond(line) == NotFoundResponse
    ensures Respond(line) == OkResponse <==> Trim(line) == RootRequest
    ensures Respond(line) == NotFoundResponse <==> Trim(line) != RootRequest
  {
    SerializeBranches();
    assert OkResponse[18] == '2' && NotFoundResponse[18] == '4';
  }

  /** Both status literals begin with the version and hold no line break. */
  lemma StatusLiterals()
    ensures |OkStatus| >= 9 && OkStatus[..9] == "HTTP/1.1 " && '\r' !in OkStatus
    ensures |NotFoundStatus| >= 9 && NotFoundStatus[..9] == "HTTP/1.1 " && '\r' !in NotFoundStatus
  {
  }

  /** A status that itself begins with the version gets it twice. */
  lemma SerializeRepeatsVersion(d: Reply)
    requires |d.status| >= 9 && d.status[..9] == "HTTP/1.1 "
    ensures |Serialize(d)| >= 18 && Serialize(d)[..18] == "HTTP/1.1 HTTP/1.1 "
  {
    var p := "HTTP/1.1 " + d.status;
    assert Serialize(d)[..18] == p[..18];
    assert p[..18] == "HTTP/1.1 " + d.status[..9];
  }

  /** Every response starts with the version twice over. */
  lemma DuplicatedVersion(line: string)
    ensures |Respond(line)| >= 18 && Respond(line)[..18] == "HTTP/1.1 HTTP/1.1 "
  {
    StatusLiterals();
    SerializeRepeatsVersion(Classify(Trim(line)));
  }

  /** Only the trimmed line is looked at: whitespace added before or after a
      line, such as the `\r\n` or `\n` that `read_line` leaves on it, never
      changes the response. */
  lemma RespondIgnoresSurroundingWhitespace(w1: string, line: string, w2: string)
    requires AllWhitespace(w1) && AllWhitespace(w2)
    ensures Respond(w1 + line + w2) == Respond(line)
  {
    TrimIgnoresSurroundingWhitespace(w1, line, w2);
  }

  /** The root request gets the page with any whitespace around it. */
  lemma RootRequestAnswered(w1: string, w2: string)
    requires AllWhitespace(w1) && AllWhitespace(w2)
    ensures Respond(w1 + RootRequest + w2) == OkResponse
  {
    TrimUnique(w1, RootRequest, w2);
    RespondCases(w1 + RootRequest + w2);
  }

  /** The line as `read_line` delivers it, terminator included, gets the page. */
  lemma RootRequestWithTerminators()
    ensures Respond(RootRequest + "\r\n") == OkResponse
    ensures Respond(RootRequest + "\n") == OkResponse
  {
    var crlf, lf: string := "\r\n", "\n";
    assert AllWhitespace(crlf) && AllWhitespace(lf);
    assert RootRequest + crlf == [] + RootRequest + crlf;
    assert RootRequest + lf == [] + RootRequest + lf;
    RootRequestAnswered([], crlf);
    RootRequestAnswered([], lf);
  }

  /** A line that is already trimmed gets the page only if it is the root
      request character for character: the empty line, extra inner spaces,
      other letter case, another method, path or version all get the error. */
  lemma OtherLinesNotFound(line: string)
    requires line in {"", "GET  / HTTP/1.1", "get / http/1.1", "POST / HTTP/1.1",
                      "GET /foo HTTP/1.1", "GET / HTTP/1.0"}
    ensures Respond(line) == NotFoundResponse
  {
    assert Trimmed(line) && line != RootRequest;
    assert [] + line + [] == line;
    NotFoundWhenTrimmed([], line, []);
  }

  /** Any line other than the root request gets the error, whatever whitespace
      surrounds it. */
  lemma NotFoundWhenTrimmed(w1: string, t: string, w2: string)
    requires AllWhitespace(w1) && AllWhitespace(w2) && Trimmed(t) && t != RootRequest
    ensures Respond(w1 + t + w2) == NotFoundResponse
  {
    TrimUnique(w1, t, w2);
    RespondCases(w1 + t + w2);
  }
}
