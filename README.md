# rust-http-server, modelled in Dafny

A model of the request handling in `src/main.rs` of a small HTTP/1.1 server.
For each connection the server does the following:

- It reads once into a 128-byte buffer of zeros and decodes the whole buffer as text.
- It splits that text on whitespace. It takes the first three tokens as verb, path and
  version, and takes the token after the first `User-Agent:` token as the user agent.
- It answers with at most one write:
  - `GET /` gets a bare 200.
  - `GET /echo...` gets the path with `/echo` removed.
  - `GET /user-agent...` gets the user agent.
  - `GET /files...` gets the bytes of a file under the base directory, or a 404.
  - Every other GET, and a POST outside `/files`, gets a bare 404.
  - A POST to `/files...` and any other verb get nothing.

The base directory is the argument after `--directory`, and only when that flag is the
first argument.

The modules follow that flow:

| file | module | what it holds |
|---|---|---|
| `ascii.dfy` | `Ascii` | bytes and the ASCII text the server reads and writes |
| `tokens.dfy` | `Tokens` | `str::split_whitespace` |
| `replace.dfy` | `Replace` | `str::replace` and the sub-path rule |
| `parser.dfy` | `Parser` | `parse_request` |
| `decimal.dfy` | `Decimal` | the decimal `Content-Length` value |
| `message.dfy` | `Message` | a response as status line, headers and body; its bytes on the wire; a client's reading of those bytes |
| `responder.dfy` | `Responder` | `respond_to_request` |
| `server.dfy` | `Server` | `handle_stream` and the base-directory choice in `main` |
| `optional.dfy` | `Optional` | the option datatype |
| `sequences.dfy` | `Sequences` | generic facts about concatenation and slicing |

A response is a structured value (`Message.Response`), and `Message.Serialize` gives its
bytes. The lemmas prove two things about it:

- The bytes are exactly the format strings in the source.
- A client that reads the status line, the header lines up to the blank line, and the
  body gets the response back. Every `Content-Length` then equals the body's length.

Reading a file is a function parameter (`Responder.FileReader`) that takes the base
directory and the sub-path.

Some behaviour of the code is modelled as written:

- When no `User-Agent:` token is present, the recorded user agent is the string `None`
  with a capital letter (src/main.rs:34), not an empty or lower-case value.
- A verb other than GET or POST gets no reply at all, not a 404: there is no branch for
  it (src/main.rs:47-109).
- `str::replace` removes every occurrence of the route. So `/echo/a/echo` echoes `a`,
  and removing matches can leave a new one behind.
- Prefix matching means `/echoes` echoes `es`.
- The NUL padding of the buffer is not whitespace:
  - a request line with nothing after the version gets the NULs glued to the version;
  - a request that stops after the path has only two tokens, and parsing panics.
- A panic while parsing is the outcome `Server.Panicked`: the handling thread stops
  without writing. `Parser.ParseRequest` requires exactly the inputs on which the
  source's indexing stays in bounds (`Parser.Parsable`).

## Model

| member | source | states |
|---|---|---|
| Ascii.Decode | src/main.rs:117 | the decoded text has one character per byte, each with that byte's code (what `from_utf8_lossy` yields on ASCII) |
| Ascii.Encode | src/main.rs:63 | ASCII text is written as ASCII bytes that decode back to the same text |
| Ascii.EncodeDecode | src/main.rs:117 | ASCII bytes decode to ASCII text that encodes back to the same bytes, so decoding loses nothing |
| Decimal.NatToDecimal | src/main.rs:58-62 | the `{}` rendering of a length is non-empty, all digits, has no leading zero, and is `0` exactly for 0 |
| Decimal.DecimalRoundTrip | src/main.rs:58-62 | every rendered length reads back as the same number |
| Decimal.DecimalCanonical | src/main.rs:58-62 | every digit string without a leading zero is the rendering of its value, so rendering is a bijection onto those strings |
| Tokens.SplitWhitespace | src/main.rs:24 | a text ending in a non-whitespace character has at least one token; with the lemmas below, the tokens are exactly the text's maximal runs of non-whitespace, in order |
| Tokens.SplitKeepsText | src/main.rs:24 | the tokens, put back together, are the text with its whitespace removed |
| Tokens.SplitYieldsTokens | src/main.rs:24 | every token is non-empty and holds no whitespace |
| Tokens.AsciiTokens | src/main.rs:24 | the tokens of ASCII text are ASCII |
| Tokens.SplitTrailingWhitespace | src/main.rs:24 | whitespace after a text adds no token |
| Tokens.SplitSingleToken | src/main.rs:24 | a non-empty text without whitespace is one token |
| Tokens.SplitAcrossWhitespace | src/main.rs:24 | the tokens of `s + w + t`, with `w` non-empty whitespace, are those of `s` followed by those of `t` |
| Tokens.SplitWithTrailingToken | src/main.rs:24 | characters without whitespace placed after a text join its last token when the text ends inside a token, and form a new last token otherwise |
| Replace.ReplaceAll | src/main.rs:54 | a text with no occurrence of the pattern is unchanged, and replacing by the empty string never lengthens the text |
| Replace.ReplaceAfterUnmatched | src/main.rs:54 | text in which no match of the pattern starts is copied through unchanged, ahead of the replacement of what follows |
| Replace.ReplaceAtMatch | src/main.rs:54 | a match at the front is replaced and the replacement carries on after it, so every match is replaced, not only the first; with the lemma above this fixes the result on every input |
| Replace.ReplaceBySelf | src/main.rs:54 | replacing a pattern by itself changes nothing |
| Replace.SubPath | src/main.rs:54-57 | the sub-path is never longer than the path, and a path without the route just loses one leading `/` |
| Replace.SubPathDropsOneSlash | src/main.rs:54-57 | the sub-path is the text left after removing the route, less exactly one leading `/` when there is one |
| Replace.SubPathOfRoute | src/main.rs:54-57 | the route followed by a remainder that does not contain the route gives that remainder, less one leading `/` |
| Replace.SubPathRemovesInnerOccurrences | src/main.rs:54-57 | `/echo/a/echo` gives `a`: occurrences after the front are removed too |
| Replace.RemovalCanLeaveAnOccurrence | src/main.rs:54-57 | the echo path `/echo/e/echocho` gives the sub-path `echo`: removing matches can join a new one, which stays in the result |
| Parser.Position | src/main.rs:28 | the result is `None` exactly when the token is absent; otherwise it is the index of the first occurrence |
| Parser.Parsable | src/main.rs:25-42 | the source indexes in bounds exactly when the text has at least three tokens and, if `User-Agent:` is among them, it also occurs before the last token |
| Parser.PositionAfter | src/main.rs:28 | searching past a prefix that lacks the token finds its first occurrence in the rest, shifted by the prefix length |
| Parser.ParseRequest | src/main.rs:23-44 | verb, path and version are tokens 0 to 2; the user agent is `None` without a marker, and otherwise the token after the first marker |
| Parser.ParsedFieldsAreTokens | src/main.rs:24-43 | every recorded field is a whitespace-free token, and ASCII text gives an ASCII path and user agent |
| Parser.UserAgentAfterFirstMarker | src/main.rs:28-43 | when tokens are `before + [User-Agent:, a] + after` with no marker in `before` and at least three tokens in all, the text parses and the user agent is `a`, wherever the marker stands and whatever markers follow |
| Parser.NoMarkerGivesSentinel | src/main.rs:29-36 | three or more tokens and no marker give the user agent `None` |
| Parser.MarkerLastPanics | src/main.rs:42 | a `User-Agent:` token that is the last token and the only one makes the text unparsable (the index is past the end) |
| Parser.RequestLineTokens | src/main.rs:24-27 | a request line `verb path version` followed by whitespace yields those three tokens first, then the tokens of the rest |
| Message.Serialize | src/main.rs:58-63 | the bytes written are the head followed by the body, byte for byte |
| Message.ParseSerialize | src/main.rs:58-93 | a client reading the bytes of any well-formed response gets back its status line, its headers and its body |
| Responder.SubPathAscii | src/main.rs:54-57 | the sub-path of an ASCII path is ASCII |
| Responder.Dispatch | src/main.rs:46-109 | the response chosen, if any, has status 200 or 404, and every 404 has an empty body |
| Responder.Respond | src/main.rs:46-109 | something is written exactly when a response is chosen, and the bytes written parse back as that response |
| Responder.DispatchWellFormed | src/main.rs:46-109 | every response the server chooses has a single-line ASCII status and well-formed headers |
| Responder.WrittenResponseIsFramed | src/main.rs:46-109 | whatever is written parses back as the response chosen, with status 200 or 404, and every `Content-Length` equals the body's length |
| Responder.NothingWrittenIff | src/main.rs:47-109 | nothing is written exactly when the verb is not GET and is either not POST or a POST to a `/files` path |
| Responder.RootReply | src/main.rs:49-52 | `GET /` writes exactly `HTTP/1.1 200 OK` and a blank line |
| Responder.EchoReply | src/main.rs:53-64 | `GET /echo<r>`, with `/echo` not in `r`, answers 200 text/plain with body `r` less one leading `/`, and the client reads that text back |
| Responder.UserAgentReply | src/main.rs:65-72 | `GET /user-agent...` answers 200 text/plain with the recorded user agent as body, and the client reads it back |
| Responder.FileFoundReply | src/main.rs:73-86 | `GET /files...` with a readable file answers 200 octet-stream with exactly the file's bytes as body |
| Responder.FileMissingReply | src/main.rs:87-89 | `GET /files...` with an unreadable file answers 404 octet-stream with an empty body and `Content-Length: 0` |
| Responder.NotFoundReply | src/main.rs:92-107 | a GET on no route, and a POST outside `/files`, writes exactly `HTTP/1.1 404 Not found` and a blank line |
| Responder.PlainTextHead | src/main.rs:58-62 | the head of a text reply is the source's format string with the text's length in decimal |
| Responder.OctetStreamHead | src/main.rs:82-84 | the head of a file reply is the source's format string with the file's length in decimal |
| Responder.FileMissingHead | src/main.rs:88 | the head written for an unreadable file is the source's fixed 404 text stating length 0 |
| Server.Padded | src/main.rs:114-115 | the buffer is 128 bytes: the bytes read, then zeros |
| Server.ReadIntoBuffer | src/main.rs:114-115 | filling a fresh zeroed 128-byte array with the bytes read leaves exactly the padded buffer |
| Server.RequestText | src/main.rs:114-117 | the text parsed is always 128 ASCII characters |
| Server.HandleStream | src/main.rs:113-125 | a failed read writes nothing; otherwise the padded buffer is decoded and parsed, and is either answered by `Respond` or panics |
| Server.Serve | src/main.rs:113-125 | a connection ends in a read failure exactly when the read fails, and panics exactly when the decoded buffer is not parsable; the lemmas below give the replies to typical requests |
| Server.SelectBaseDir | src/main.rs:128-132 | the base directory is the third argument when the second is `--directory`, and `.` otherwise |
| Server.EveryWriteIsFramed | src/main.rs:113-125 | whatever a connection writes parses back as a framed 200 or 404 response |
| Server.ShortRequestText | src/main.rs:114-117 | a request shorter than the buffer is read as its text followed by NULs |
| Server.UserAgentRequestServed | src/main.rs:113-119 | a request line with a `User-Agent` header is answered as the request with those four fields |
| Server.NoUserAgentRequestServed | src/main.rs:113-119 | a request line with no `User-Agent` header is answered as that request with user agent `None` |
| Server.IncompleteRequestLinePanics | src/main.rs:117 | a request that stops after the path has the padding glued to its path and only two tokens, so the thread panics and writes nothing |
| Server.UnterminatedVersionKeepsPadding | src/main.rs:114-117 | a request line not ended by whitespace is recorded with the NUL padding glued to its version |

## Left out

- The listener, the accept loop and the thread per connection (src/main.rs:134-149) are
  left out because they are I/O and concurrency. Each connection is modelled on its own
  by `Server.Serve`.
- Console output (src/main.rs:110, 118, 122, 135-138, 146) is left out because it does
  not affect what is written.
- `fs::read` and `PathBuf::join` (src/main.rs:78-79) are the parameter
  `Responder.FileReader`, which receives the base directory and the sub-path. How paths
  join (an absolute sub-path, `..`) is not modelled.
- The POST `/files` branch builds a target path and never uses it
  (src/main.rs:99-103). The model writes nothing there and does not build the path.
- The result of `stream.write` is ignored by the source. The model treats the single
  write as delivering all its bytes.
- How many bytes one `read` returns is decided by the network. It is the parameter
  `Server.ReadResult`, of at most 128 bytes.
- Server.HandleStream: requires the bytes read to be ASCII. `from_utf8_lossy` on
  non-ASCII or invalid UTF-8 is not modelled.
- Responder.Respond: requires an ASCII path and user agent. Under that restriction
  `String::len`, which counts bytes, equals the number of characters.
- Responder.Dispatch: has the same ASCII requirement as `Responder.Respond`.
- Server.Serve: has the same ASCII requirement as `Server.HandleStream`.
- Message.ParseResponse: is a client's reading, used only to state framing. It is not
  part of the server.
