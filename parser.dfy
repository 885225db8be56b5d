/** `parse_request` (src/main.rs:23-44): the request line's three tokens and
    the token after the first `User-Agent:` marker. */
module Parser {

  import opened Optional
  import opened Ascii
  import opened Tokens
  import opened Sequences

  /** The request as the server records it (src/main.rs:16-21); `verb` is the
      source's `method` field, a reserved word here. */
  datatype Request = Request(verb: string, path: string, version: string, userAgent: string)

  const UserAgentMarker: string := "User-Agent:"

  /** What the server records when no `User-Agent:` token is present. */
  const NoUserAgent: string := "None"

  /** `Iterator::position` with an equality test: the first index holding `x`. */
  function Position(tokens: seq<string>, x: string): (r: Option<nat>)
    ensures r.None? <==> x !in tokens
    ensures r.Some? ==> r.value < |tokens| && tokens[r.value] == x && x !in tokens[..r.value]
    decreases |tokens|
  {
    if tokens == [] then None
    else if tokens[0] == x then Some(0)
    else match Position(tokens[1..], x)
      case None => None
      case Some(i) => Some(i + 1)
  }

  /** The texts `parse_request` handles without indexing out of bounds: at
      least three tokens, and a first `User-Agent:` token that is not the
      last one. On every other text the source panics. */
  predicate Parsable(text: string): (ok: bool)
    ensures var tokens := SplitWhitespace(text);
      ok <==> (|tokens| >= 3 &&
               (UserAgentMarker in tokens ==> UserAgentMarker in tokens[..|tokens| - 1]))
  {
    var tokens := SplitWhitespace(text);
    FirstMarkerNotLast(tokens);
    |tokens| >= 3 &&
    match Position(tokens, UserAgentMarker)
    case None => true
    case Some(i) => i + 1 < |tokens|
  }

  /** The first marker is not the last token exactly when the marker also
      occurs before the last token. */
  lemma FirstMarkerNotLast(tokens: seq<string>)
    ensures match Position(tokens, UserAgentMarker)
      case None => UserAgentMarker !in tokens
      case Some(i) => (i + 1 < |tokens| <==> UserAgentMarker in tokens[..|tokens| - 1])
  {
    match Position(tokens, UserAgentMarker)
    case None =>
    case Some(i) =>
      if i + 1 < |tokens| {
        assert tokens[..|tokens| - 1][i] == UserAgentMarker;
      } else {
        assert tokens[..|tokens| - 1] == tokens[..i];
      }
  }

  function ParseRequest(text: string): (req: Request)
    requires Parsable(text)
    ensures var tokens := SplitWhitespace(text);
      req.verb == tokens[0] && req.path == tokens[1] && req.version == tokens[2]
    ensures var tokens := SplitWhitespace(text);
      UserAgentMarker !in tokens ==> req.userAgent == NoUserAgent
    ensures var tokens := SplitWhitespace(text);
      UserAgentMarker in tokens ==>
        exists i :: 0 <= i < |tokens| - 1 && tokens[i] == UserAgentMarker &&
          UserAgentMarker !in tokens[..i] && req.userAgent == tokens[i + 1]
  {
    var tokens := SplitWhitespace(text);
    var agent :=
      match Position(tokens, UserAgentMarker)
      case None => NoUserAgent
      case Some(i) => tokens[i + 1];
    Request(tokens[0], tokens[1], tokens[2], agent)
  }

  /** The recorded fields are whitespace-free tokens of the text (or the
      sentinel), so ASCII text gives an ASCII request. */
  lemma ParsedFieldsAreTokens(text: string)
    requires Parsable(text)
    ensures var req := ParseRequest(text);
      IsToken(req.verb) && IsToken(req.path) && IsToken(req.version) && IsToken(req.userAgent)
    ensures IsAscii(text) ==> IsAscii(ParseRequest(text).path) && IsAscii(ParseRequest(text).userAgent)
  {
    var tokens := SplitWhitespace(text);
    SplitYieldsTokens(text);
    if IsAscii(text) {
      AsciiTokens(text, 1);
      match Position(tokens, UserAgentMarker)
      case None =>
      case Some(i) => AsciiTokens(text, i + 1);
    }
  }

  /** The user agent is the token right after the first marker, whatever
      other markers follow. */
  lemma {:induction false} UserAgentAfterFirstMarker(text: string, before: seq<string>, agent: string, after: seq<string>)
    requires SplitWhitespace(text) == before + [UserAgentMarker, agent] + after
    requires |before| + |after| >= 1 && UserAgentMarker !in before
    ensures Parsable(text) && ParseRequest(text).userAgent == agent
  {
    var tokens := SplitWhitespace(text);
    PositionAfter(before, [UserAgentMarker, agent] + after, UserAgentMarker);
    Associative(before, [UserAgentMarker, agent], after);
    assert tokens == before + ([UserAgentMarker, agent] + after);
    assert Position(tokens, UserAgentMarker) == Some(|before|);
  }

  /** Without a `User-Agent:` token the sentinel `None` is recorded. */
  lemma NoMarkerGivesSentinel(text: string)
    requires |SplitWhitespace(text)| >= 3 && UserAgentMarker !in SplitWhitespace(text)
    ensures Parsable(text) && ParseRequest(text).userAgent == NoUserAgent
  {
  }

  /** A `User-Agent:` token that is the last token and the only one makes
      the source index past the end. */
  lemma MarkerLastPanics(text: string, before: seq<string>)
    requires SplitWhitespace(text) == before + [UserAgentMarker]
    requires UserAgentMarker !in before
    ensures !Parsable(text)
  {
    PositionAfter(before, [UserAgentMarker], UserAgentMarker);
  }

  /** Searching past a prefix that does not hold `x`. */
  lemma {:induction false} PositionAfter(prefix: seq<string>, rest: seq<string>, x: string)
    requires x !in prefix
    ensures Position(prefix + rest, x) ==
      match Position(rest, x)
      case None => None
      case Some(i) => Some(|prefix| + i)
    decreases |prefix|
  {
    if prefix == [] {
      assert prefix + rest == rest;
    } else {
      var whole := prefix + rest;
      assert prefix[0] in prefix;
      assert whole[0] != x;
      DropFromFirst(prefix, rest, 1);
      PositionAfter(prefix[1..], rest, x);
    }
  }

  /** The request line: three tokens separated by single spaces and ended by
      whitespace give the first three tokens of the text. */
  lemma RequestLineTokens(verb: string, path: string, version: string, w: string, rest: string)
    requires IsToken(verb) && IsToken(path) && IsToken(version)
    requires |w| > 0 && AllWhitespace(w)
    ensures SplitWhitespace(verb + " " + path + " " + version + w + rest) ==
      [verb, path, version] + SplitWhitespace(rest)
  {
    var x2 := path + " " + (version + w + rest);
    var r := SplitWhitespace(rest);
    assert verb + " " + path + " " + version + w + rest == verb + " " + x2;
    assert SplitWhitespace(x2) == [path, version] + r by {
      PathAndVersionTokens(path, version, w, rest);
    }
    assert SplitWhitespace(verb + " " + x2) == [verb] + SplitWhitespace(x2) by {
      TokenThenRest(verb, " ", x2);
    }
    ConsThree(verb, path, version, r);
  }

  lemma PathAndVersionTokens(path: string, version: string, w: string, rest: string)
    requires IsToken(path) && IsToken(version)
    requires |w| > 0 && AllWhitespace(w)
    ensures SplitWhitespace(path + " " + (version + w + rest)) == [path, version] + SplitWhitespace(rest)
  {
    var x3 := version + w + rest;
    var r := SplitWhitespace(rest);
    assert SplitWhitespace(x3) == [version] + r by {
      TokenThenRest(version, w, rest);
    }
    assert SplitWhitespace(path + " " + x3) == [path] + SplitWhitespace(x3) by {
      TokenThenRest(path, " ", x3);
    }
    ConsTwo(path, version, r);
  }

  lemma TokenThenRest(t: string, w: string, rest: string)
    requires IsToken(t) && |w| > 0 && AllWhitespace(w)
    ensures SplitWhitespace(t + w + rest) == [t] + SplitWhitespace(rest)
  {
    SplitSingleToken(t);
    SplitAcrossWhitespace(t, w, rest);
  }

}
