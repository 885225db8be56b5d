/** `str::replace` and the sub-path rule the responder applies to `/echo`
    and `/files` paths (src/main.rs:54-57, 74-77, 99-102). */
module Replace {

  import opened Sequences

  /** `pat` occurs somewhere in `s`. */
  predicate Occurs(pat: string, s: string)
    decreases |s|
  {
    pat <= s || (s != [] && Occurs(pat, s[1..]))
  }

  /** Every match of `pat` in `s` replaced by `rep`, matches taken left to
      right without overlap, as `str::replace` does. */
  function ReplaceAll(s: string, pat: string, rep: string): (r: string)
    requires |pat| > 0
    ensures !Occurs(pat, s) ==> r == s
    ensures rep == [] ==> |r| <= |s|
    decreases |s|
  {
    if s == [] then []
    else if pat <= s then rep + ReplaceAll(s[|pat|..], pat, rep)
    else [s[0]] + ReplaceAll(s[1..], pat, rep)
  }

  /** A match of `pat` starts at index `i` of `s`. */
  predicate MatchAt(pat: string, s: string, i: nat) {
    i <= |s| && pat <= s[i..]
  }

  /** Text in which no match starts is copied through unchanged, so the
      replacement proceeds from the first match onward. */
  lemma {:induction false} ReplaceAfterUnmatched(a: string, b: string, pat: string, rep: string)
    requires |pat| > 0
    requires forall i :: 0 <= i < |a| ==> !MatchAt(pat, a + b, i)
    ensures ReplaceAll(a + b, pat, rep) == a + ReplaceAll(b, pat, rep)
    decreases |a|
  {
    if a != [] {
      var s := a + b;
      assert !MatchAt(pat, s, 0);
      assert s[0..] == s;
      DropFromFirst(a, b, 1);
      forall i | 0 <= i < |a[1..]|
        ensures !MatchAt(pat, a[1..] + b, i)
      {
        assert !MatchAt(pat, s, i + 1);
        assert s[i + 1..] == (a[1..] + b)[i..];
      }
      ReplaceAfterUnmatched(a[1..], b, pat, rep);
      assert a == [a[0]] + a[1..];
      Associative([a[0]], a[1..], ReplaceAll(b, pat, rep));
    }
  }

  /** A match is replaced, and the replacement carries on after it: every
      match is replaced, not only the first. */
  lemma ReplaceAtMatch(b: string, pat: string, rep: string)
    requires |pat| > 0
    ensures ReplaceAll(pat + b, pat, rep) == rep + ReplaceAll(b, pat, rep)
  {
    assert (pat + b)[|pat|..] == b;
  }

  /** Replacing a pattern by itself changes nothing. */
  lemma {:induction false} ReplaceBySelf(s: string, pat: string)
    requires |pat| > 0
    ensures ReplaceAll(s, pat, pat) == s
    decreases |s|
  {
    if s != [] {
      if pat <= s {
        ReplaceBySelf(s[|pat|..], pat);
        assert s == pat + s[|pat|..];
      } else {
        ReplaceBySelf(s[1..], pat);
        assert s == [s[0]] + s[1..];
      }
    }
  }

  /** The path with every occurrence of `route` removed and then at most one
      leading `/` dropped. */
  function SubPath(path: string, route: string): (sub: string)
    requires |route| > 0
    ensures |sub| <= |path|
    ensures !Occurs(route, path) ==> sub == if "/" <= path then path[1..] else path
  {
    var rest := ReplaceAll(path, route, "");
    if "/" <= rest then rest[1..] else rest
  }

  function LeadingSlashes(s: string): nat
    decreases |s|
  {
    if s != [] && s[0] == '/' then 1 + LeadingSlashes(s[1..]) else 0
  }

  /** Only one slash is dropped: the sub-path keeps all but the first of the
      leading slashes left after the removal, and everything after them. */
  lemma SubPathDropsOneSlash(path: string, route: string)
    requires |route| > 0
    ensures var rest := ReplaceAll(path, route, "");
      var sub := SubPath(path, route);
      LeadingSlashes(sub) == (if LeadingSlashes(rest) > 0 then LeadingSlashes(rest) - 1 else 0)
      && rest == (if LeadingSlashes(rest) > 0 then "/" else "") + sub
  {
  }

  /** A path that is the route followed by a remainder in which the route
      does not occur yields that remainder, less one leading `/`. This is the
      case the route is meant for: `/echo/abc` gives `abc`, `/echoes` gives `es`. */
  lemma SubPathOfRoute(route: string, remainder: string)
    requires |route| > 0 && !Occurs(route, remainder)
    ensures SubPath(route + remainder, route) ==
      if "/" <= remainder then remainder[1..] else remainder
  {
    assert (route + remainder)[|route|..] == remainder;
  }

  /** Occurrences past the front are removed as well: `/echo/a/echo` gives
      `a`, not `a/echo`. */
  lemma SubPathRemovesInnerOccurrences()
    ensures SubPath("/echo/a/echo", "/echo") == "a"
  {
    var p := "/echo/a/echo";
    assert "/echo" <= p;
    assert p[5..] == "/a/echo";
    assert "/a/echo"[1] != "/echo"[1];
    assert "/a/echo"[1..] == "a/echo";
    assert "a/echo"[0] != "/echo"[0];
    assert "a/echo"[1..] == "/echo";
    assert "/echo"[5..] == [];
    assert ReplaceAll(p, "/echo", "") == "/a";
  }

  /** Removing matches can create a new one, so the result of `str::replace`
      may still contain the pattern: `/echo/e/echocho` echoes `echo`. */
  lemma RemovalCanLeaveAnOccurrence()
    ensures SubPath("/echo/e/echocho", "/echo") == "echo"
  {
    var p := "/e/echocho";
    assert ReplaceAll("/echo/e/echocho", "/echo", "") == "/echo" by {
      assert "/echo/e/echocho" == "/echo" + p;
      ReplaceAtMatch(p, "/echo", "");
      RemovalJoinsAMatch();
    }
    assert "/echo"[1..] == "echo";
  }

  /** Removing the one match in `/e/echocho` joins its halves into `/echo`. */
  lemma RemovalJoinsAMatch()
    ensures ReplaceAll("/e/echocho", "/echo", "") == "/echo"
  {
    var p := "/e/echocho";
    assert p[2] != "/echo"[2];
    assert p[1..] == "e/echocho";
    assert p[1..][0] != '/';
    assert p[2..] == "/echocho";
    assert "/echo" <= p[2..];
    assert p[2..][5..] == "cho";
    assert "cho"[0] != '/' && "cho"[1..] == "ho";
    assert "ho"[0] != '/' && "ho"[1..] == "o";
    assert "o"[0] != '/' && "o"[1..] == [];
  }

}
