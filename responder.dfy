/** `respond_to_request` (src/main.rs:46-111): the route chosen by verb and
    path, and the one write it makes, if any. Reading a file is a parameter:
    `fs::read` of the base directory joined with the sub-path. */
module Responder {

  import opened Optional
  import opened Ascii
  import opened Decimal
  import opened Replace
  import opened Parser
  import opened Message

  /** What `fs::read(base_dir.join(sub_path))` yields: the file's bytes, or
      `None` for any error. */
  type FileReader = (string, string) -> Option<seq<byte>>

  const OkStatus: string := "HTTP/1.1 200 OK"
  const NotFoundStatus: string := "HTTP/1.1 404 Not found"

  function ContentLength(n: nat): Header {
    Header("Content-Length", NatToDecimal(n))
  }

  /** The reply to `/echo` and `/user-agent`. `String::len` counts bytes,
      which for ASCII text is its length. */
  function PlainText(text: string): Response
    requires IsAscii(text)
  {
    Response(OkStatus, [Header("Content-Type", "text/plain"), ContentLength(|text|)], Encode(text))
  }

  /** The reply to `/files`: the file's bytes on success, or an empty body
      under a 404 status line when the read fails. */
  function OctetStream(status: string, content: seq<byte>): Response {
    Response(status, [Header("Content-Type", "application/octet-stream"), ContentLength(|content|)], content)
  }

  function Bare(status: string): Response {
    Response(status, [], [])
  }

  /** The response the server writes, or `None` when it writes nothing. */
  function Dispatch(req: Request, baseDir: string, files: FileReader): (r: Option<Response>)
    requires IsAscii(req.path) && IsAscii(req.userAgent)
    ensures r.Some? ==> r.value.status == OkStatus || r.value.status == NotFoundStatus
    ensures r.Some? && r.value.status == NotFoundStatus ==> r.value.body == []
  {
    if req.verb == "GET" then
      if req.path == "/" then Some(Bare(OkStatus))
      else if "/echo" <= req.path then Some(PlainText(SubPathAscii(req.path, "/echo")))
      else if "/user-agent" <= req.path then Some(PlainText(req.userAgent))
      else if "/files" <= req.path then
        match files(baseDir, SubPath(req.path, "/files"))
        case Some(content) => Some(OctetStream(OkStatus, content))
        case None => Some(OctetStream(NotFoundStatus, []))
      else Some(Bare(NotFoundStatus))
    else if req.verb == "POST" then
      if "/files" <= req.path then None
      else Some(Bare(NotFoundStatus))
    else None
  }

  function SubPathAscii(path: string, route: string): (sub: string)
    requires |route| > 0 && IsAscii(path)
    ensures sub == SubPath(path, route) && IsAscii(sub)
  {
    SubPathChars(path, route);
    SubPath(path, route)
  }

  lemma SubPathChars(path: string, route: string)
    requires |route| > 0
    ensures forall c :: c in SubPath(path, route) ==> c in path
  {
    ReplaceAllChars(path, route);
  }

  lemma {:induction false} ReplaceAllChars(s: string, pat: string)
    requires |pat| > 0
    ensures forall c :: c in ReplaceAll(s, pat, "") ==> c in s
    decreases |s|
  {
    if s != [] {
      if pat <= s {
        ReplaceAllChars(s[|pat|..], pat);
      } else {
        ReplaceAllChars(s[1..], pat);
      }
    }
  }

  /** The bytes of the single `write`, or `None` when nothing is written. */
  function Respond(req: Request, baseDir: string, files: FileReader): (written: Option<seq<byte>>)
    requires IsAscii(req.path) && IsAscii(req.userAgent)
    ensures written.Some? <==> Dispatch(req, baseDir, files).Some?
    ensures written.Some? ==> ParseResponse(written.value) == Dispatch(req, baseDir, files)
  {
    match Dispatch(req, baseDir, files)
    case None => None
    case Some(r) =>
      DispatchWellFormed(req, baseDir, files);
      ParseSerialize(r);
      Some(Serialize(r))
  }

  /** Every response the server writes is framed correctly: a client reads
      back exactly the response dispatched, with a 200 or 404 status line,
      and its `Content-Length`, when present, is the length of its body. */
  lemma WrittenResponseIsFramed(req: Request, baseDir: string, files: FileReader)
    requires IsAscii(req.path) && IsAscii(req.userAgent)
    ensures var written := Respond(req, baseDir, files);
      written.Some? ==>
        var r := Dispatch(req, baseDir, files).value;
        ParseResponse(written.value) == Some(r) && FramedByLength(r) &&
        (r.status == OkStatus || r.status == NotFoundStatus)
  {
    if req.verb == "GET" && req.path != "/" {
      if "/echo" <= req.path {
        PlainTextFramed(SubPathAscii(req.path, "/echo"));
      } else if "/user-agent" <= req.path {
        PlainTextFramed(req.userAgent);
      } else if "/files" <= req.path {
        match files(baseDir, SubPath(req.path, "/files"))
        case Some(content) => OctetStreamFramed(OkStatus, content);
        case None => OctetStreamFramed(NotFoundStatus, []);
      }
    }
  }

  lemma PlainTextFramed(text: string)
    requires IsAscii(text)
    ensures FramedByLength(PlainText(text))
  {
    DecimalRoundTrip(|text|);
  }

  lemma OctetStreamFramed(status: string, content: seq<byte>)
    ensures FramedByLength(OctetStream(status, content))
  {
    DecimalRoundTrip(|content|);
  }

  /** Nothing is written exactly for POST to a `/files` path and for verbs
      other than GET and POST. */
  lemma NothingWrittenIff(req: Request, baseDir: string, files: FileReader)
    requires IsAscii(req.path) && IsAscii(req.userAgent)
    ensures Respond(req, baseDir, files).None? <==>
      (req.verb != "GET" && (req.verb != "POST" || "/files" <= req.path))
  {
  }

  /** `GET /echo<remainder>`, where the remainder does not contain `/echo`
      again, is answered with the remainder, less one leading `/`, as a
      plain-text body that a client reads back unchanged. */
  lemma EchoReply(req: Request, baseDir: string, files: FileReader, remainder: string)
    requires req.verb == "GET" && req.path == "/echo" + remainder
    requires IsAscii(req.path) && IsAscii(req.userAgent)
    requires !Occurs("/echo", remainder)
    ensures var text := if "/" <= remainder then remainder[1..] else remainder;
      IsAscii(text) && Dispatch(req, baseDir, files) == Some(PlainText(text)) &&
      ParseResponse(Respond(req, baseDir, files).value) == Some(PlainText(text)) &&
      Decode(PlainText(text).body) == text
  {
    assert "/echo" <= req.path;
    SubPathOfRoute("/echo", remainder);
    var text := SubPathAscii(req.path, "/echo");
    WrittenResponseIsFramed(req, baseDir, files);
  }

  /** `GET /user-agent...` is answered with the parsed `User-Agent` value as
      a plain-text body that a client reads back unchanged. */
  lemma UserAgentReply(req: Request, baseDir: string, files: FileReader)
    requires req.verb == "GET" && "/user-agent" <= req.path
    requires IsAscii(req.path) && IsAscii(req.userAgent)
    ensures Dispatch(req, baseDir, files) == Some(PlainText(req.userAgent)) &&
      ParseResponse(Respond(req, baseDir, files).value) == Some(PlainText(req.userAgent)) &&
      Decode(PlainText(req.userAgent).body) == req.userAgent
  {
    assert req.path[1] == 'u';
    WrittenResponseIsFramed(req, baseDir, files);
  }

  /** `GET /files...` is answered with the bytes of the file named by the
      sub-path, read from the base directory. */
  lemma FileFoundReply(req: Request, baseDir: string, files: FileReader, content: seq<byte>)
    requires req.verb == "GET" && "/files" <= req.path
    requires IsAscii(req.path) && IsAscii(req.userAgent)
    requires files(baseDir, SubPath(req.path, "/files")) == Some(content)
    ensures Dispatch(req, baseDir, files) == Some(OctetStream(OkStatus, content))
    ensures ParseResponse(Respond(req, baseDir, files).value) == Some(OctetStream(OkStatus, content))
  {
    FilesRoute(req.path);
    WrittenResponseIsFramed(req, baseDir, files);
  }

  /** When that read fails, the answer is a 404 status line and an empty
      body of stated length 0. */
  lemma FileMissingReply(req: Request, baseDir: string, files: FileReader)
    requires req.verb == "GET" && "/files" <= req.path
    requires IsAscii(req.path) && IsAscii(req.userAgent)
    requires files(baseDir, SubPath(req.path, "/files")).None?
    ensures Dispatch(req, baseDir, files) == Some(OctetStream(NotFoundStatus, []))
    ensures var r := ParseResponse(Respond(req, baseDir, files).value);
      r == Some(OctetStream(NotFoundStatus, [])) &&
      r.value.headers[1] == Header("Content-Length", "0")
  {
    FilesRoute(req.path);
    WrittenResponseIsFramed(req, baseDir, files);
    assert NatToDecimal(0) == "0";
  }

  /** A `/files` path matches neither `/`, `/echo` nor `/user-agent`. */
  lemma FilesRoute(path: string)
    requires "/files" <= path
    ensures path != "/" && !("/echo" <= path) && !("/user-agent" <= path)
  {
    assert path[1] == 'f';
  }

  /** A bare status line is written as that line and a blank line. */
  lemma BareBytes(status: string)
    requires LineSafe(status)
    ensures WellFormed(Bare(status)) && Serialize(Bare(status)) == Encode(status + "\r\n\r\n")
  {
    assert Head(Bare(status)) == status + "\r\n\r\n";
    assert Serialize(Bare(status)) == Encode(Head(Bare(status))) + [];
  }

  /** `GET /` gets the bare 200 status line and nothing else. */
  lemma RootReply(req: Request, baseDir: string, files: FileReader)
    requires req.verb == "GET" && req.path == "/" && IsAscii(req.userAgent)
    ensures var written := Respond(req, baseDir, files);
      written.Some? && Decode(written.value) == "HTTP/1.1 200 OK\r\n\r\n"
  {
    OkStatusSafe();
    BareBytes(OkStatus);
    assert OkStatus + "\r\n\r\n" == "HTTP/1.1 200 OK\r\n\r\n";
  }

  /** A GET on no route, and a POST outside `/files`, get the bare 404
      status line and nothing else. */
  lemma NotFoundReply(req: Request, baseDir: string, files: FileReader)
    requires IsAscii(req.path) && IsAscii(req.userAgent)
    requires
      || (req.verb == "GET" && req.path != "/" &&
          !("/echo" <= req.path) && !("/user-agent" <= req.path) && !("/files" <= req.path))
      || (req.verb == "POST" && !("/files" <= req.path))
    ensures var written := Respond(req, baseDir, files);
      written.Some? && Decode(written.value) == "HTTP/1.1 404 Not found\r\n\r\n"
  {
    NotFoundStatusSafe();
    BareBytes(NotFoundStatus);
    assert NotFoundStatus + "\r\n\r\n" == "HTTP/1.1 404 Not found\r\n\r\n";
  }

  /** The head of a response with two headers, line by line. */
  lemma HeadWithTwoHeaders(status: string, first: Header, second: Header, body: seq<byte>)
    ensures Head(Response(status, [first, second], body)) ==
      status + CRLF + (first.name + ": " + first.value + CRLF) +
      (second.name + ": ") + second.value + (CRLF + CRLF)
  {
    var headers := [first, second];
    assert headers[1..] == [second];
    assert [second][1..] == [];
    assert HeaderBlock([second]) == second.name + ": " + second.value + CRLF + "";
    assert HeaderBlock(headers) ==
      first.name + ": " + first.value + CRLF + (second.name + ": " + second.value + CRLF + "");
    var line, c, d := first.name + ": " + first.value + CRLF, second.name + ": ", second.value;
    assert status + CRLF + (line + ((c + d + CRLF) + "")) + CRLF ==
      status + CRLF + line + c + d + (CRLF + CRLF) by {
      assert (c + d + CRLF) + "" == c + d + CRLF;
    }
  }

  /** The head of a text reply is the source's format string with the length
      in decimal. */
  lemma PlainTextHead(text: string)
    requires IsAscii(text)
    ensures Head(PlainText(text)) ==
      "HTTP/1.1 200 OK\r\n" + "Content-Type: text/plain\r\n" + "Content-Length: " +
      NatToDecimal(|text|) + "\r\n\r\n"
  {
    PlainTextParts(text);
    OkStatusLine();
    TextKindLine();
    HeadLines(OkStatus, "HTTP/1.1 200 OK\r\n", "text/plain", "Content-Type: text/plain\r\n",
              NatToDecimal(|text|));
  }

  /** The head of a file reply is the source's format string with the file's
      length in decimal. */
  lemma OctetStreamHead(content: seq<byte>)
    ensures Head(OctetStream(OkStatus, content)) ==
      "HTTP/1.1 200 OK\r\n" + "Content-Type: application/octet-stream\r\n" + "Content-Length: " +
      NatToDecimal(|content|) + "\r\n\r\n"
  {
    OctetStreamParts(OkStatus, content);
    OkStatusLine();
    OctetKindLine();
    HeadLines(OkStatus, "HTTP/1.1 200 OK\r\n", "application/octet-stream",
              "Content-Type: application/octet-stream\r\n", NatToDecimal(|content|));
  }

  lemma PlainTextParts(text: string)
    requires IsAscii(text)
    ensures Head(PlainText(text)) ==
      OkStatus + CRLF + ("Content-Type" + ": " + "text/plain" + CRLF) + ("Content-Length" + ": ") +
      NatToDecimal(|text|) + (CRLF + CRLF)
  {
    var r := PlainText(text);
    HeadWithTwoHeaders(r.status, r.headers[0], r.headers[1], r.body);
  }

  lemma OctetStreamParts(status: string, content: seq<byte>)
    ensures Head(OctetStream(status, content)) ==
      status + CRLF + ("Content-Type" + ": " + "application/octet-stream" + CRLF) +
      ("Content-Length" + ": ") + NatToDecimal(|content|) + (CRLF + CRLF)
  {
    var r := OctetStream(status, content);
    HeadWithTwoHeaders(r.status, r.headers[0], r.headers[1], r.body);
  }

  lemma OkStatusLine()
    ensures OkStatus + CRLF == "HTTP/1.1 200 OK\r\n"
  {
  }

  lemma TextKindLine()
    ensures "Content-Type" + ": " + "text/plain" + CRLF == "Content-Type: text/plain\r\n"
  {
  }

  lemma OctetKindLine()
    ensures "Content-Type" + ": " + "application/octet-stream" + CRLF ==
      "Content-Type: application/octet-stream\r\n"
  {
  }

  /** Assembles a head from its status line, its content-type line and its
      length. */
  lemma HeadLines(status: string, statusLine: string, kind: string, kindLine: string, digits: string)
    requires status + CRLF == statusLine
    requires "Content-Type" + ": " + kind + CRLF == kindLine
    ensures status + CRLF + ("Content-Type" + ": " + kind + CRLF) + ("Content-Length" + ": ") +
      digits + (CRLF + CRLF) ==
      statusLine + kindLine + "Content-Length: " + digits + "\r\n\r\n"
  {
    LengthLabel();
  }

  lemma LengthLabel()
    ensures "Content-Length" + ": " == "Content-Length: " && CRLF + CRLF == "\r\n\r\n"
  {
  }

  /** The head written when a file cannot be read is the source's fixed 404
      text, stating a length of 0. */
  lemma FileMissingHead()
    ensures Head(OctetStream(NotFoundStatus, [])) ==
      "HTTP/1.1 404 Not found\r\n" + "Content-Type: application/octet-stream\r\n" +
      "Content-Length: " + "0" + "\r\n\r\n"
  {
    OctetStreamParts(NotFoundStatus, []);
    NotFoundStatusLine();
    OctetKindLine();
    assert NatToDecimal(0) == "0";
    HeadLines(NotFoundStatus, "HTTP/1.1 404 Not found\r\n", "application/octet-stream",
              "Content-Type: application/octet-stream\r\n", "0");
  }

  lemma NotFoundStatusLine()
    ensures NotFoundStatus + CRLF == "HTTP/1.1 404 Not found\r\n"
  {
  }

  lemma DigitsLineSafe(s: string)
    requires AllDigits(s)
    ensures LineSafe(s) && ':' !in s
  {
  }

  lemma DispatchWellFormed(req: Request, baseDir: string, files: FileReader)
    requires IsAscii(req.path) && IsAscii(req.userAgent)
    ensures Dispatch(req, baseDir, files).Some? ==> WellFormed(Dispatch(req, baseDir, files).value)
  {
    StatusLinesSafe();
    if req.verb == "GET" && req.path != "/" {
      if "/echo" <= req.path {
        PlainTextWellFormed(SubPathAscii(req.path, "/echo"));
      } else if "/user-agent" <= req.path {
        PlainTextWellFormed(req.userAgent);
      } else if "/files" <= req.path {
        match files(baseDir, SubPath(req.path, "/files"))
        case Some(content) => OctetStreamWellFormed(OkStatus, content);
        case None => OctetStreamWellFormed(NotFoundStatus, []);
      }
    }
  }

  lemma StatusLinesSafe()
    ensures LineSafe(OkStatus) && LineSafe(NotFoundStatus)
  {
    OkStatusSafe();
    NotFoundStatusSafe();
  }

  // The fixed texts of the replies hold no line break, and the header names
  // no colon.

  lemma OkStatusSafe()
    ensures LineSafe("HTTP/1.1 200 OK")
  {
  }

  lemma NotFoundStatusSafe()
    ensures LineSafe("HTTP/1.1 404 Not found")
  {
  }

  lemma ContentTypeNameSafe()
    ensures LineSafe("Content-Type") && ':' !in "Content-Type"
  {
  }

  lemma ContentLengthNameSafe()
    ensures LineSafe("Content-Length") && ':' !in "Content-Length"
  {
  }

  lemma TextPlainSafe()
    ensures LineSafe("text/plain")
  {
  }

  lemma OctetStreamNameSafe()
    ensures LineSafe("application/octet-stream")
  {
    assert IsAscii("application/octet-stream");
  }

  lemma HeaderSafeOf(name: string, value: string)
    requires LineSafe(name) && |name| > 0 && ':' !in name && LineSafe(value)
    ensures HeaderSafe(Header(name, value))
  {
  }

  lemma ContentLengthSafe(n: nat)
    ensures HeaderSafe(ContentLength(n))
  {
    DigitsLineSafe(NatToDecimal(n));
    ContentLengthNameSafe();
    HeaderSafeOf("Content-Length", NatToDecimal(n));
  }

  lemma ContentTypeSafe(value: string)
    requires value == "text/plain" || value == "application/octet-stream"
    ensures HeaderSafe(Header("Content-Type", value))
  {
    ContentTypeNameSafe();
    if value == "text/plain" {
      TextPlainSafe();
    } else {
      OctetStreamNameSafe();
    }
    HeaderSafeOf("Content-Type", value);
  }

  lemma PlainTextWellFormed(text: string)
    requires IsAscii(text)
    ensures WellFormed(PlainText(text))
  {
    StatusLinesSafe();
    ContentLengthSafe(|text|);
    ContentTypeSafe("text/plain");
  }

  lemma OctetStreamWellFormed(status: string, content: seq<byte>)
    requires LineSafe(status)
    ensures WellFormed(OctetStream(status, content))
  {
    ContentLengthSafe(|content|);
    ContentTypeSafe("application/octet-stream");
  }

}
