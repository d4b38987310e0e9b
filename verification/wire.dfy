/** The response as a client reads it back: the header block ends at the first
    empty line, the first line is the version followed by the status, the one
    header field is `Content-Length`, and the body is everything after the
    empty line. These are the reference definitions the handler's output is
    checked against, together with the status-line grammar of section 4 of
    RFC 9112. */
module Wire {
  import opened Text
  import opened Handler

  /** What a client learns from a response: the text after the version on the
      first line, the value of `Content-Length`, and the body. */
  datatype Head = Head(status: string, contentLength: nat, body: string)

  /** The first line of a response, without its terminator. */
  function FirstLine(r: string): (l: Option<string>)
    ensures l.Some? ==> |l.value| + 2 <= |r| && r[..|l.value| + 2] == l.value + Crlf
  {
    match IndexOf(r, Crlf)
    case None => None
    case Some(i) =>
      assert r[..i + 2] == r[..i] + r[i..i + 2];
      Some(r[..i])
  }

  /** The header field `Content-Length: <digits>` and the value it gives. */
  function ParseLengthField(field: string): Option<nat>
  {
    if |field| < 16 || field[..16] != "Content-Length: " then None
    else
      var value := field[16..];
      if value == [] || !AllDigits(value) then None
      else Some(ParseDecimal(value))
  }

  /** The header block `HTTP/1.1 <status>\r\n<field>`. */
  function ParseHeader(h: string): Option<(string, nat)>
  {
    if |h| < 9 || h[..9] != "HTTP/1.1 " then None
    else
      var rest := h[9..];
      match IndexOf(rest, Crlf)
      case None => None
      case Some(i) =>
        match ParseLengthField(rest[i + 2..])
        case None => None
        case Some(length) => Some((rest[..i], length))
  }

  /** Splits a response at its first empty line and reads the header block. */
  function ParseResponse(r: string): (h: Option<Head>)
    ensures h.Some? ==> IndexOf(r, HeaderEnd).Some?
                        && h.value.body == r[IndexOf(r, HeaderEnd).value + 4..]
  {
    match IndexOf(r, HeaderEnd)
    case None => None
    case Some(k) =>
      match ParseHeader(r[..k])
      case None => None
      case Some((status, length)) => Some(Head(status, length, r[k + 4..]))
  }

  /** A header block `p\r\nq` with no carriage return in `p` or `q` holds no
      empty line, so the first empty line of `p\r\nq\r\n\r\nc` follows `q`. */
  lemma FirstHeaderEnd(p: string, q: string, c: string)
    requires '\r' !in p && '\r' !in q && q != []
    ensures IndexOf(p + Crlf + q + HeaderEnd + c, HeaderEnd) == Some(|p| + 2 + |q|)
  {
    var a := p + Crlf + q;
    var r := a + HeaderEnd + c;
    assert r[|a|..|a| + 4] == HeaderEnd;
    forall k: nat | k < |a| ensures !OccursAt(r, HeaderEnd, k) {
      assert r[k] != '\r' || r[k + 2] != '\r' by {
        if k < |p| {
          assert r[k] == p[k];
        } else if k == |p| {
          assert r[k + 2] == q[0];
        } else if k == |p| + 1 {
          assert r[k] == '\n';
        } else {
          assert r[k] == q[k - |p| - 2];
        }
      }
      assert r[k..k + 4][0] == r[k] && r[k..k + 4][2] == r[k + 2];
    }
    IndexOfFirst(r, HeaderEnd, |a|);
  }

  lemma ParseLengthFieldOf(digits: string)
    requires digits != [] && AllDigits(digits)
    ensures ParseLengthField("Content-Length: " + digits) == Some(ParseDecimal(digits))
  {
    var q := "Content-Length: " + digits;
    assert q[..16] == "Content-Length: " && q[16..] == digits;
  }

  /** The header block `Serialize` writes reads back as its status and the
      value of its digits. */
  lemma ParseHeaderBlock(status: string, digits: string)
    requires '\r' !in status && digits != [] && AllDigits(digits)
    ensures ParseHeader("HTTP/1.1 " + status + Crlf + ("Content-Length: " + digits))
            == Some((status, ParseDecimal(digits)))
  {
    var q := "Content-Length: " + digits;
    var rest := status + Crlf + q;
    var h := "HTTP/1.1 " + status + Crlf + q;
    assert |h| >= 9 && h[..9] == "HTTP/1.1 " && h[9..] == rest by {
      assert h == "HTTP/1.1 " + rest;
    }
    assert IndexOf(rest, Crlf) == Some(|status|) by {
      IndexOfAfterPrefix(status, Crlf, q);
    }
    assert rest[..|status|] == status && rest[|status| + 2..] == q;
    assert ParseLengthField(q) == Some(ParseDecimal(digits)) by {
      ParseLengthFieldOf(digits);
    }
  }

  /** Reading back what `Serialize` wrote gives the status, a `Content-Length`
      equal to the size of the content, and exactly the content as the body,
      for any status without a carriage return (both status literals qualify). */
  lemma ParseSerialize(d: Reply)
    requires '\r' !in d.status
    ensures ParseResponse(Serialize(d)) == Some(Head(d.status, |d.content|, d.content))
  {
    var digits := Decimal(|d.content|);
    var p := "HTTP/1.1 " + d.status;
    var q := "Content-Length: " + digits;
    var r := Serialize(d);
    assert '\r' !in digits;
    assert '\r' !in q;
    FirstHeaderEnd(p, q, d.content);
    var k := |p| + 2 + |q|;
    assert r[..k] == p + Crlf + q;
    assert r[k + 4..] == d.content;
    ParseHeaderBlock(d.status, digits);
    DecimalRoundTrip(|d.content|);
  }

  /** Either reply reads back as its status, its content size and its content. */
  lemma RepliesReadBack(d: Reply)
    requires d == Reply(OkStatus, OkContent) || d == Reply(NotFoundStatus, NotFoundContent)
    ensures ParseResponse(Serialize(d)) == Some(Head(d.status, |d.content|, d.content))
  {
    assert '\r' !in d.status by { StatusLiterals(); }
    ParseSerialize(d);
  }

  /** The number in the `Content-Length` field of every response equals the
      length of the text after the first empty line, which is exactly the chosen
      content. */
  lemma ContentLengthMatchesBody(line: string)
    ensures var h := ParseResponse(Respond(line));
            h.Some? && h.value.contentLength == |h.value.body|
            && h.value.body == Classify(Trim(line)).content
  {
    var d := Classify(Trim(line));
    assert Respond(line) == Serialize(d);
    RepliesReadBack(d);
  }

  // ---------------------------------------------------------------------------
  // The status line of section 4 of RFC 9112
  // ---------------------------------------------------------------------------

  /** HTAB, SP, VCHAR or obs-text: the characters a reason phrase may hold. */
  predicate IsReasonChar(c: char) {
    c == '\t' || c == ' ' || ('!' <= c <= '~') || (0x80 <= c as int <= 0xFF)
  }

  /** `HTTP-version SP status-code SP [ reason-phrase ]`, with the version
      `HTTP/` DIGIT `.` DIGIT and a three-digit status code. */
  predicate IsStatusLine(l: string) {
    && |l| >= 13
    && l[..5] == "HTTP/" && IsDigit(l[5]) && l[6] == '.' && IsDigit(l[7])
    && l[8] == ' '
    && IsDigit(l[9]) && IsDigit(l[10]) && IsDigit(l[11])
    && l[12] == ' '
    && forall k :: 13 <= k < |l| ==> IsReasonChar(l[k])
  }

  /** Each status literal is, on its own, a well-formed status line. */
  lemma StatusLiteralsAreStatusLines()
    ensures IsStatusLine(OkStatus) && IsStatusLine(NotFoundStatus)
  {
    forall k | 13 <= k < |OkStatus| ensures IsReasonChar(OkStatus[k]) {
      assert OkStatus[13..] == "OK";
      assert OkStatus[k] == OkStatus[13..][k - 13];
    }
    forall k | 13 <= k < |NotFoundStatus| ensures IsReasonChar(NotFoundStatus[k]) {
      assert NotFoundStatus[13..] == "Not Found";
      assert NotFoundStatus[k] == NotFoundStatus[13..][k - 13];
    }
  }

  /** The first line `Serialize` writes is the version followed by the status. */
  lemma FirstLineOfSerialize(d: Reply)
    requires '\r' !in d.status
    ensures FirstLine(Serialize(d)) == Some("HTTP/1.1 " + d.status)
  {
    var p := "HTTP/1.1 " + d.status;
    var s := Serialize(d);
    assert s[..|p|] == p && s[|p|..|p| + 2] == Crlf;
    IndexOfAt(s, p, Crlf);
  }

  /** A line with `H` where the status code should start is no status line. */
  lemma RepeatedVersionNotStatusLine(s: string)
    requires |s| > 0 && s[0] == 'H'
    ensures !IsStatusLine("HTTP/1.1 " + s)
  {
    assert ("HTTP/1.1 " + s)[9] == 'H';
  }

  /** The first line written for either reply is the version followed by a
      status literal that repeats the version, so it is not a well-formed
      status line. */
  lemma RepliesStatusLineMalformed(d: Reply)
    requires d == Reply(OkStatus, OkContent) || d == Reply(NotFoundStatus, NotFoundContent)
    ensures FirstLine(Serialize(d)) == Some("HTTP/1.1 " + d.status)
    ensures !IsStatusLine("HTTP/1.1 " + d.status)
  {
    assert '\r' !in d.status && |d.status| > 0 && d.status[0] == 'H' by {
      StatusLiterals();
      assert d.status[0] == d.status[..9][0];
    }
    FirstLineOfSerialize(d);
    RepeatedVersionNotStatusLine(d.status);
  }

  /** The first line actually sent is the version followed by a status literal
      that repeats the version, so it is never a well-formed status line: where
      the status code should start it reads `HTT`. */
  lemma SentStatusLineMalformed(line: string)
    ensures FirstLine(Respond(line)) == Some("HTTP/1.1 " + Classify(Trim(line)).status)
    ensures !IsStatusLine("HTTP/1.1 " + Classify(Trim(line)).status)
  {
    var d := Classify(Trim(line));
    assert Respond(line) == Serialize(d);
    RepliesStatusLineMalformed(d);
  }
}
