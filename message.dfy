/** The shape of every response the server writes: a status line, header
    lines and a blank line, each ended by CRLF, then the body (sections 2.1
    and 4 of RFC 9112), and the reading a client applies to it. */
module Message {

  import opened Optional
  import opened Ascii
  import opened Decimal
  import opened Sequences

  datatype Header = Header(name: string, value: string)

  datatype Response = Response(status: string, headers: seq<Header>, body: seq<byte>)

  const CRLF: string := "\r\n"

  /** Text that can stand inside one line: ASCII, with no CR or LF. */
  predicate LineSafe(s: string) {
    IsAscii(s) && '\r' !in s && '\n' !in s
  }

  predicate HeaderSafe(h: Header) {
    LineSafe(h.name) && LineSafe(h.value) && |h.name| > 0 && ':' !in h.name
  }

  predicate HeadersSafe(headers: seq<Header>)
    decreases |headers|
  {
    headers == [] || (HeaderSafe(headers[0]) && HeadersSafe(headers[1..]))
  }

  predicate WellFormed(r: Response) {
    LineSafe(r.status) && HeadersSafe(r.headers)
  }

  /** Each header as `name: value` followed by CRLF. */
  function HeaderBlock(headers: seq<Header>): string
    decreases |headers|
  {
    if headers == [] then ""
    else headers[0].name + ": " + headers[0].value + CRLF + HeaderBlock(headers[1..])
  }

  /** Everything before the body, up to and including the blank line. */
  function Head(r: Response): string {
    r.status + CRLF + HeaderBlock(r.headers) + CRLF
  }

  lemma {:induction false} HeaderBlockAscii(headers: seq<Header>)
    requires HeadersSafe(headers)
    ensures IsAscii(HeaderBlock(headers))
    decreases |headers|
  {
    if headers != [] {
      HeaderBlockAscii(headers[1..]);
    }
  }

  /** The bytes of the response on the wire. */
  function Serialize(r: Response): (b: seq<byte>)
    requires WellFormed(r)
    ensures |b| == |Head(r)| + |r.body| && b[|Head(r)|..] == r.body
  {
    HeaderBlockAscii(r.headers);
    Encode(Head(r)) + r.body
  }

  // Reading a response back, as a client does.

  /** The index of the first CRLF in `b`. */
  function FindLineEnd(b: seq<byte>): (r: Option<nat>)
    ensures r.Some? ==> r.value + 2 <= |b| && b[r.value] == 13 && b[r.value + 1] == 10
    ensures r.Some? ==> forall j :: 0 <= j < r.value ==> !(b[j] == 13 && b[j + 1] == 10)
    ensures r.None? ==> forall j :: 0 <= j < |b| - 1 ==> !(b[j] == 13 && b[j + 1] == 10)
    decreases |b|
  {
    if |b| < 2 then None
    else if b[0] == 13 && b[1] == 10 then Some(0)
    else match FindLineEnd(b[1..])
      case None => None
      case Some(i) => Some(i + 1)
  }

  /** The text of the first line and the bytes after its CRLF. */
  function ReadLine(b: seq<byte>): (r: Option<(string, seq<byte>)>)
    ensures r.Some? ==> |r.value.1| + 2 <= |b|
  {
    match FindLineEnd(b)
    case None => None
    case Some(i) => Some((Decode(b[..i]), b[i + 2..]))
  }

  /** The first index of `c` in `s`. */
  function IndexOfChar(s: string, c: char): (r: Option<nat>)
    ensures r.None? <==> c !in s
    ensures r.Some? ==> r.value < |s| && s[r.value] == c && c !in s[..r.value]
    decreases |s|
  {
    if s == [] then None
    else if s[0] == c then Some(0)
    else match IndexOfChar(s[1..], c)
      case None => None
      case Some(i) => Some(i + 1)
  }

  /** `name: value`: the name runs to the first colon, and one space after
      the colon is dropped from the value. */
  function ParseHeaderLine(line: string): Option<Header> {
    match IndexOfChar(line, ':')
    case None => None
    case Some(i) =>
      if i == 0 then None
      else
        var after := line[i + 1..];
        Some(Header(line[..i], if " " <= after then after[1..] else after))
  }

  /** Header lines up to the blank line, and the bytes after it. */
  function ReadHeaders(b: seq<byte>): Option<(seq<Header>, seq<byte>)>
    decreases |b|
  {
    match ReadLine(b)
    case None => None
    case Some((line, rest)) =>
      if line == "" then Some(([], rest))
      else match ParseHeaderLine(line)
        case None => None
        case Some(h) =>
          match ReadHeaders(rest)
          case None => None
          case Some((headers, body)) => Some(([h] + headers, body))
  }

  /** The status line, the headers and the body of a response. */
  function ParseResponse(b: seq<byte>): Option<Response> {
    match ReadLine(b)
    case None => None
    case Some((status, rest)) =>
      match ReadHeaders(rest)
      case None => None
      case Some((headers, body)) => Some(Response(status, headers, body))
  }

  // The round trip.

  lemma FindLineEndAfter(line: string, rest: seq<byte>)
    requires LineSafe(line)
    ensures FindLineEnd(Encode(line) + [13, 10] + rest) == Some(|line|)
  {
    var x := Encode(line);
    forall i | 0 <= i < |x| ensures x[i] != 13 {
      assert line[i] in line;
    }
    FindLineEndBytes(x, rest);
  }

  /** Bytes with no CR in them, then CRLF: the first line ends there. */
  lemma {:induction false} FindLineEndBytes(x: seq<byte>, rest: seq<byte>)
    requires forall i :: 0 <= i < |x| ==> x[i] != 13
    ensures FindLineEnd(x + [13, 10] + rest) == Some(|x|)
    decreases |x|
  {
    var b := x + [13, 10] + rest;
    if x != [] {
      assert b[1..] == x[1..] + [13, 10] + rest;
      FindLineEndBytes(x[1..], rest);
    }
  }

  lemma ReadLineAfter(line: string, rest: seq<byte>)
    requires LineSafe(line)
    ensures IsAscii(line + CRLF)
    ensures ReadLine(Encode(line + CRLF) + rest) == Some((line, rest))
  {
    EncodeConcat(line, CRLF);
    assert Encode(CRLF) == [13, 10];
    var b := Encode(line + CRLF) + rest;
    assert b == Encode(line) + [13, 10] + rest;
    FindLineEndAfter(line, rest);
    assert b[..|line|] == Encode(line);
    assert b[|line| + 2..] == rest;
  }

  lemma ParseHeaderLineOf(h: Header)
    requires HeaderSafe(h)
    ensures ParseHeaderLine(h.name + ": " + h.value) == Some(h)
  {
    var line := h.name + ": " + h.value;
    var rest := ": " + h.value;
    var after := line[|h.name| + 1..];
    ColonAfterName(h.name, h.value);
    Associative(h.name, ": ", h.value);
    Halves(h.name, rest, 1);
    assert after == rest[1..];
    DropFromFirst(": ", h.value, 1);
    assert ": "[1..] == " ";
    assert after == " " + h.value;
    Halves(" ", h.value, 0);
    assert " " <= after && after[1..] == h.value;
  }

  lemma ColonAfterName(name: string, value: string)
    requires ':' !in name
    ensures IndexOfChar(name + ": " + value, ':') == Some(|name|)
  {
    var rest := ": " + value;
    assert rest[0] == ':';
    assert IndexOfChar(rest, ':') == Some(0);
    assert name + ": " + value == name + rest;
    IndexOfCharAfter(name, rest, ':');
  }

  /** Searching past a prefix that does not hold `c`. */
  lemma {:induction false} IndexOfCharAfter(prefix: string, rest: string, c: char)
    requires c !in prefix
    ensures IndexOfChar(prefix + rest, c) ==
      match IndexOfChar(rest, c)
      case None => None
      case Some(i) => Some(|prefix| + i)
    decreases |prefix|
  {
    if prefix == [] {
      assert prefix + rest == rest;
    } else {
      var whole := prefix + rest;
      assert prefix[0] in prefix;
      assert whole[0] != c;
      DropFromFirst(prefix, rest, 1);
      IndexOfCharAfter(prefix[1..], rest, c);
    }
  }

  lemma {:induction false} ReadHeadersOf(headers: seq<Header>, body: seq<byte>)
    requires HeadersSafe(headers)
    ensures IsAscii(HeaderBlock(headers) + CRLF)
    ensures ReadHeaders(Encode(HeaderBlock(headers) + CRLF) + body) == Some((headers, body))
    decreases |headers|
  {
    if headers == [] {
      assert HeaderBlock(headers) + CRLF == "" + CRLF;
      ReadLineAfter("", body);
    } else {
      ReadHeadersOf(headers[1..], body);
      ReadHeadersCons(headers, body);
    }
  }

  /** One header line more in front of a block that reads back. */
  lemma ReadHeadersCons(headers: seq<Header>, body: seq<byte>)
    requires |headers| > 0 && HeadersSafe(headers)
    requires IsAscii(HeaderBlock(headers[1..]) + CRLF)
    requires ReadHeaders(Encode(HeaderBlock(headers[1..]) + CRLF) + body) == Some((headers[1..], body))
    ensures IsAscii(HeaderBlock(headers) + CRLF)
    ensures ReadHeaders(Encode(HeaderBlock(headers) + CRLF) + body) == Some((headers, body))
  {
    var h := headers[0];
    var more := Encode(HeaderBlock(headers[1..]) + CRLF) + body;
    var line := h.name + ": " + h.value + CRLF;
    assert IsAscii(HeaderBlock(headers) + CRLF) && IsAscii(line) &&
      Encode(HeaderBlock(headers) + CRLF) + body == Encode(line) + more by {
      HeaderBlockBytes(headers, body);
    }
    assert ReadHeaders(Encode(line) + more) == Some(([h] + headers[1..], body)) by {
      ReadHeadersStep(h, more, headers[1..], body);
    }
    ConsTail(headers);
  }

  /** The bytes of a non-empty header block: its first line, then the rest. */
  lemma HeaderBlockBytes(headers: seq<Header>, body: seq<byte>)
    requires |headers| > 0 && HeadersSafe(headers)
    ensures var h := headers[0];
      IsAscii(HeaderBlock(headers) + CRLF) && IsAscii(h.name + ": " + h.value + CRLF) &&
      IsAscii(HeaderBlock(headers[1..]) + CRLF) &&
      Encode(HeaderBlock(headers) + CRLF) + body ==
        Encode(h.name + ": " + h.value + CRLF) + (Encode(HeaderBlock(headers[1..]) + CRLF) + body)
  {
    var h := headers[0];
    HeaderBlockCons(headers);
    HeaderLineSafe(h);
    BlockThenBlankAscii(headers[1..]);
    EncodeSplit(HeaderBlock(headers) + CRLF, h.name + ": " + h.value + CRLF,
                HeaderBlock(headers[1..]) + CRLF, body);
  }

  lemma BlockThenBlankAscii(headers: seq<Header>)
    requires HeadersSafe(headers)
    ensures IsAscii(HeaderBlock(headers) + CRLF)
  {
    HeaderBlockAscii(headers);
    AsciiConcat(HeaderBlock(headers), CRLF);
  }

  lemma HeaderBlockCons(headers: seq<Header>)
    requires |headers| > 0
    ensures var h := headers[0];
      HeaderBlock(headers) + CRLF == h.name + ": " + h.value + CRLF + (HeaderBlock(headers[1..]) + CRLF)
  {
  }

  lemma HeaderLineSafe(h: Header)
    requires HeaderSafe(h)
    ensures LineSafe(h.name + ": " + h.value) && IsAscii(h.name + ": " + h.value + CRLF)
  {
  }

  /** Reading a header line: the header, then whatever follows it. */
  lemma ReadHeadersStep(h: Header, more: seq<byte>, headers: seq<Header>, body: seq<byte>)
    requires HeaderSafe(h)
    requires ReadHeaders(more) == Some((headers, body))
    ensures IsAscii(h.name + ": " + h.value + CRLF)
    ensures ReadHeaders(Encode(h.name + ": " + h.value + CRLF) + more) == Some(([h] + headers, body))
  {
    var line := h.name + ": " + h.value;
    HeaderLineSafe(h);
    ReadLineAfter(line, more);
    ParseHeaderLineOf(h);
    assert line != "" by { assert line[|h.name|] == ':'; }
  }

  /** A client reading the bytes of a well-formed response gets back exactly
      its status line, its headers and its body. */
  lemma ParseSerialize(r: Response)
    requires WellFormed(r)
    ensures ParseResponse(Serialize(r)) == Some(r)
  {
    var tail := HeaderBlock(r.headers) + CRLF;
    ReadHeadersOf(r.headers, r.body);
    ReadLineAfter(r.status, Encode(tail) + r.body);
    SerializedShape(r);
  }

  /** The bytes of a response: its status line, then its header block. */
  lemma SerializedShape(r: Response)
    requires WellFormed(r)
    ensures IsAscii(r.status + CRLF) && IsAscii(HeaderBlock(r.headers) + CRLF)
    ensures Serialize(r) == Encode(r.status + CRLF) + (Encode(HeaderBlock(r.headers) + CRLF) + r.body)
  {
    HeaderBlockAscii(r.headers);
    var tail := HeaderBlock(r.headers) + CRLF;
    assert Head(r) == r.status + CRLF + tail;
    EncodeThen(r.status + CRLF, tail, r.body);
  }

  /** Every `Content-Length` header states the body's length, and a response
      without one has no body (section 8.6 of RFC 9110). */
  predicate FramedByLength(r: Response) {
    (forall h :: h in r.headers && h.name == "Content-Length" ==> ParseDecimal(h.value) == Some(|r.body|))
    && ((forall h :: h in r.headers ==> h.name != "Content-Length") ==> r.body == [])
  }

}
