/** `handle_stream` and the base-directory choice in `main`
    (src/main.rs:113-132): one read of at most 128 bytes into a zeroed
    buffer, the whole buffer parsed as a request, and one response. */
module Server {

  import opened Optional
  import opened Ascii
  import opened Tokens
  import opened Parser
  import opened Message
  import opened Responder
  import opened Sequences

  /** The size of the request buffer, `vec![0; 128]`. */
  const BufferSize: nat := 128

  function Zeros(n: nat): (z: seq<byte>)
    ensures |z| == n && forall i :: 0 <= i < n ==> z[i] == 0
  {
    seq(n, _ => 0)
  }

  /** NUL characters, as zero bytes decode. */
  function Nuls(n: nat): (z: string)
    ensures |z| == n && forall i :: 0 <= i < n ==> z[i] == '\0'
  {
    seq(n, _ => '\0')
  }

  /** The buffer after a read of `received`: the bytes read, then the zeros
      the buffer was created with. */
  function Padded(received: seq<byte>): (buffer: seq<byte>)
    requires |received| <= BufferSize
    ensures |buffer| == BufferSize
    ensures buffer[..|received|] == received
    ensures forall i :: |received| <= i < BufferSize ==> buffer[i] == 0
  {
    received + Zeros(BufferSize - |received|)
  }

  /** `stream.read(&mut request_buffer)` into a fresh zeroed buffer. */
  method ReadIntoBuffer(received: seq<byte>) returns (buffer: seq<byte>)
    requires |received| <= BufferSize
    ensures buffer == Padded(received)
  {
    var a := new byte[BufferSize](_ => 0);
    var i := 0;
    while i < |received|
      invariant 0 <= i <= |received|
      invariant a[..i] == received[..i]
      invariant forall j :: i <= j < BufferSize ==> a[j] == 0
    {
      a[i] := received[i];
      i := i + 1;
    }
    buffer := a[..];
    assert buffer == received + Zeros(BufferSize - |received|);
  }

  /** What one read of the stream yields. */
  datatype ReadResult = Received(bytes: seq<byte>) | ReadError

  /** How handling one connection ends: the read failed and the error was
      logged, `parse_request` indexed out of bounds, or the request was
      answered with the bytes written, if any. */
  datatype Outcome = ReadFailed | Panicked | Served(written: Option<seq<byte>>)

  /** Reads the source accepts here: at most a buffer's worth of ASCII. */
  predicate AcceptableRead(read: ReadResult) {
    read.Received? ==> |read.bytes| <= BufferSize && IsAsciiBytes(read.bytes)
  }

  /** The request text: the whole buffer, decoded. */
  function RequestText(received: seq<byte>): (text: string)
    requires |received| <= BufferSize && IsAsciiBytes(received)
    ensures |text| == BufferSize && IsAscii(text)
  {
    var buffer := Padded(received);
    assert IsAsciiBytes(buffer) by {
      forall i | 0 <= i < |buffer| ensures buffer[i] < 128 {
        if i < |received| {
          assert buffer[i] == buffer[..|received|][i];
        }
      }
    }
    EncodeDecode(buffer);
    Decode(buffer)
  }

  /** What handling one connection does. */
  function Serve(read: ReadResult, baseDir: string, files: FileReader): (outcome: Outcome)
    requires AcceptableRead(read)
    ensures outcome.ReadFailed? <==> read.ReadError?
    ensures read.Received? ==> (outcome.Panicked? <==> !Parsable(RequestText(read.bytes)))
  {
    match read
    case ReadError => ReadFailed
    case Received(bytes) =>
      var text := RequestText(bytes);
      if !Parsable(text) then Panicked
      else
        ParsedFieldsAreTokens(text);
        Served(Respond(ParseRequest(text), baseDir, files))
  }

  method HandleStream(read: ReadResult, baseDir: string, files: FileReader) returns (outcome: Outcome)
    requires AcceptableRead(read)
    ensures outcome == Serve(read, baseDir, files)
  {
    match read {
      case ReadError =>
        outcome := ReadFailed;
      case Received(bytes) =>
        var buffer := ReadIntoBuffer(bytes);
        var text := Decode(buffer);
        if !Parsable(text) {
          outcome := Panicked;
        } else {
          ParsedFieldsAreTokens(text);
          var req := ParseRequest(text);
          outcome := Served(Respond(req, baseDir, files));
        }
    }
  }

  /** The directory files are served from: the argument after `--directory`
      when that flag is the first argument and a value follows it, and the
      working directory otherwise. */
  method SelectBaseDir(args: seq<string>) returns (baseDir: string)
    ensures |args| > 2 && args[1] == "--directory" ==> baseDir == args[2]
    ensures !(|args| > 2 && args[1] == "--directory") ==> baseDir == "."
  {
    baseDir := ".";
    if |args| > 2 && args[1] == "--directory" {
      baseDir := args[2];
    }
  }

  /** Whatever is written parses back as a framed 200 or 404 response. */
  lemma EveryWriteIsFramed(read: ReadResult, baseDir: string, files: FileReader)
    requires AcceptableRead(read)
    ensures var outcome := Serve(read, baseDir, files);
      outcome.Served? && outcome.written.Some? ==>
        exists r :: ParseResponse(outcome.written.value) == Some(r) && FramedByLength(r) &&
          (r.status == OkStatus || r.status == NotFoundStatus)
  {
    if read.Received? {
      var text := RequestText(read.bytes);
      if Parsable(text) {
        ParsedFieldsAreTokens(text);
        WrittenResponseIsFramed(ParseRequest(text), baseDir, files);
      }
    }
  }

  /** A request shorter than the buffer is read as its text followed by NULs. */
  lemma ShortRequestText(text: string)
    requires IsAscii(text) && |text| <= BufferSize
    ensures |Encode(text)| <= BufferSize && IsAsciiBytes(Encode(text))
    ensures RequestText(Encode(text)) == text + Nuls(BufferSize - |text|)
  {
    var k := BufferSize - |text|;
    DecodeConcat(Encode(text), Zeros(k));
    assert Decode(Zeros(k)) == Nuls(k);
  }

  lemma NulsAreToken(n: nat)
    requires n > 0
    ensures IsToken(Nuls(n)) && Nuls(n) != UserAgentMarker
  {
    assert Nuls(n)[0] != UserAgentMarker[0];
  }

  /** A request line and a `User-Agent` header, with room left in the
      buffer, is parsed into those fields and answered as that request. */
  lemma UserAgentRequestServed(verb: string, path: string, version: string, agent: string,
                               baseDir: string, files: FileReader)
    requires IsToken(verb) && IsToken(path) && IsToken(version) && IsToken(agent)
    requires UserAgentMarker !in [verb, path, version]
    requires IsAscii(path) && IsAscii(agent)
    requires var text := verb + " " + path + " " + version + "\r\n" + "User-Agent: " + agent + "\r\n\r\n";
      IsAscii(text) && |text| < BufferSize
    ensures var text := verb + " " + path + " " + version + "\r\n" + "User-Agent: " + agent + "\r\n\r\n";
      Serve(Received(Encode(text)), baseDir, files) ==
        Served(Respond(Request(verb, path, version, agent), baseDir, files))
  {
    var header := "User-Agent: " + agent + "\r\n\r\n";
    var text := verb + " " + path + " " + version + "\r\n" + "User-Agent: " + agent + "\r\n\r\n";
    var nuls := Nuls(BufferSize - |text|);
    ShortRequestText(text);
    NulsAreToken(BufferSize - |text|);
    RequestLineTokens(verb, path, version, "\r\n", header + nuls);
    RequestShape(verb + " " + path + " " + version + "\r\n", agent, nuls);
    HeaderTokens(agent, nuls);
    var tokens := [verb, path, version] + [UserAgentMarker, agent] + [nuls];
    assert SplitWhitespace(text + nuls) == tokens;
    UserAgentAfterFirstMarker(text + nuls, [verb, path, version], agent, [nuls]);
    ParsedFieldsAreTokens(text + nuls);
  }

  /** The request text regrouped as its request line and the rest. */
  lemma RequestShape(line: string, agent: string, nuls: string)
    ensures line + "User-Agent: " + agent + "\r\n\r\n" + nuls == line + ("User-Agent: " + agent + "\r\n\r\n" + nuls)
  {
  }

  /** The `User-Agent` line, the blank line and the padding are three tokens. */
  lemma HeaderTokens(agent: string, nuls: string)
    requires IsToken(agent) && IsToken(nuls)
    ensures SplitWhitespace("User-Agent: " + agent + "\r\n\r\n" + nuls) == [UserAgentMarker, agent, nuls]
  {
    var afterAgent := agent + "\r\n\r\n" + nuls;
    assert "User-Agent: " + agent + "\r\n\r\n" + nuls == UserAgentMarker + " " + afterAgent by {
      assert "User-Agent: " == UserAgentMarker + " ";
      Associative4("User-Agent: ", agent, "\r\n\r\n", nuls);
    }
    assert IsToken(UserAgentMarker) by {
      assert forall c :: c in UserAgentMarker ==> !IsWhitespace(c);
    }
    assert SplitWhitespace(UserAgentMarker + " " + afterAgent) ==
      [UserAgentMarker] + SplitWhitespace(afterAgent) by {
      TokenThenRest(UserAgentMarker, " ", afterAgent);
    }
    assert SplitWhitespace(afterAgent) == [agent] + SplitWhitespace(nuls) by {
      TokenThenRest(agent, "\r\n\r\n", nuls);
    }
    SplitSingleToken(nuls);
  }

  /** A request line and a blank line, with no `User-Agent` header, is
      answered as a request whose user agent is the sentinel `None`. */
  lemma NoUserAgentRequestServed(verb: string, path: string, version: string,
                                 baseDir: string, files: FileReader)
    requires IsToken(verb) && IsToken(path) && IsToken(version)
    requires UserAgentMarker !in [verb, path, version]
    requires IsAscii(path)
    requires var text := verb + " " + path + " " + version + "\r\n\r\n";
      IsAscii(text) && |text| < BufferSize
    ensures var text := verb + " " + path + " " + version + "\r\n\r\n";
      Serve(Received(Encode(text)), baseDir, files) ==
        Served(Respond(Request(verb, path, version, NoUserAgent), baseDir, files))
  {
    var text := verb + " " + path + " " + version + "\r\n\r\n";
    var nuls := Nuls(BufferSize - |text|);
    ShortRequestText(text);
    NulsAreToken(BufferSize - |text|);
    RequestLineTokens(verb, path, version, "\r\n\r\n", nuls);
    SplitSingleToken(nuls);
    assert SplitWhitespace(text + nuls) == [verb, path, version, nuls];
    NoMarkerGivesSentinel(text + nuls);
  }

  /** A request that stops after the path, with no version, has only two
      tokens, the second being the path with the padding glued to it: the
      handling thread panics and nothing is written. */
  lemma IncompleteRequestLinePanics(verb: string, path: string, baseDir: string, files: FileReader)
    requires IsToken(verb) && IsToken(path)
    requires IsAscii(verb + " " + path) && |verb + " " + path| < BufferSize
    ensures Serve(Received(Encode(verb + " " + path)), baseDir, files) == Panicked
  {
    var text := verb + " " + path;
    var nuls := Nuls(BufferSize - |text|);
    ShortRequestText(text);
    NulsAreToken(BufferSize - |text|);
    assert text + nuls == verb + " " + (path + nuls);
    GlueToken(path, nuls);
    TokenThenRest(verb, " ", path + nuls);
    SplitSingleToken(path + nuls);
  }

  /** A request line not ended by whitespace, filling less than the buffer,
      has the padding glued to its version. */
  lemma UnterminatedVersionKeepsPadding(verb: string, path: string, version: string)
    requires IsToken(verb) && IsToken(path) && IsToken(version)
    requires UserAgentMarker !in [verb, path, version]
    requires var text := verb + " " + path + " " + version;
      IsAscii(text) && |text| < BufferSize
    ensures var text := verb + " " + path + " " + version;
      var padded := RequestText(Encode(text));
      Parsable(padded) &&
      ParseRequest(padded) ==
        Request(verb, path, version + Nuls(BufferSize - |text|), NoUserAgent)
  {
    var text := verb + " " + path + " " + version;
    var nuls := Nuls(BufferSize - |text|);
    ShortRequestText(text);
    NulsAreToken(BufferSize - |text|);
    GlueToken(version, nuls);
    PaddedIsNotMarker(version, nuls);
    ThreeTokens(verb, path, version, nuls);
    NoMarkerGivesSentinel(text + nuls);
  }

  /** Three tokens separated by single spaces, the last one padded. */
  lemma ThreeTokens(verb: string, path: string, version: string, nuls: string)
    requires IsToken(verb) && IsToken(path) && IsToken(version + nuls)
    ensures SplitWhitespace(verb + " " + path + " " + version + nuls) == [verb, path, version + nuls]
  {
    assert verb + " " + path + " " + version + nuls == verb + " " + (path + " " + (version + nuls));
    TokenThenRest(path, " ", version + nuls);
    TokenThenRest(verb, " ", path + " " + (version + nuls));
    SplitSingleToken(version + nuls);
  }

  lemma PaddedIsNotMarker(t: string, nuls: string)
    requires |nuls| > 0 && forall i :: 0 <= i < |nuls| ==> nuls[i] == '\0'
    ensures t + nuls != UserAgentMarker
  {
    if |t| < |UserAgentMarker| {
      assert (t + nuls)[|t|] == '\0';
      assert UserAgentMarker[|t|] != '\0';
    }
  }

  lemma GlueToken(t: string, u: string)
    requires IsToken(t) && IsToken(u)
    ensures IsToken(t + u)
  {
  }

}
