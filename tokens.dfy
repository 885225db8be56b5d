/** `str::split_whitespace`: the tokens of a text are its maximal runs of
    non-whitespace characters, in order. */
module Tokens {

  import opened Ascii
  import opened Sequences

  predicate IsToken(t: string) {
    |t| > 0 && forall c :: c in t ==> !IsWhitespace(c)
  }

  predicate AllTokens(tokens: seq<string>) {
    forall i :: 0 <= i < |tokens| ==> IsToken(tokens[i])
  }

  predicate AllWhitespace(w: string) {
    forall c :: c in w ==> IsWhitespace(c)
  }

  /** The tokens of `s`, built as the text is scanned: a non-whitespace
      character extends the token in progress when the character before it
      is not whitespace, and otherwise starts a new token. */
  function SplitWhitespace(s: string): (tokens: seq<string>)
    ensures |s| > 0 && !IsWhitespace(s[|s| - 1]) ==> |tokens| > 0
    decreases |s|
  {
    if s == [] then []
    else
      var init, c := SplitWhitespace(s[..|s| - 1]), s[|s| - 1];
      if IsWhitespace(c) then init
      else if |s| > 1 && !IsWhitespace(s[|s| - 2]) then Glue(init, [c])
      else init + [[c]]
  }

  /** `tokens` with `tail` appended to its last token. */
  function Glue(tokens: seq<string>, tail: string): (r: seq<string>)
    requires |tokens| > 0
    ensures |r| == |tokens| && r[..|r| - 1] == tokens[..|tokens| - 1]
    ensures r[|r| - 1] == tokens[|tokens| - 1] + tail
  {
    tokens[..|tokens| - 1] + [tokens[|tokens| - 1] + tail]
  }

  lemma GlueTwice(tokens: seq<string>, a: string, b: string)
    requires |tokens| > 0
    ensures Glue(Glue(tokens, a), b) == Glue(tokens, a + b)
  {
    var last := tokens[|tokens| - 1];
    assert last + a + b == last + (a + b);
  }

  lemma GlueAfterSnoc(tokens: seq<string>, a: string, b: string)
    ensures Glue(tokens + [a], b) == tokens + [a + b]
  {
  }

  lemma GlueAfterConcat(left: seq<string>, right: seq<string>, b: string)
    requires |right| > 0
    ensures Glue(left + right, b) == left + Glue(right, b)
  {
    assert (left + right)[..|left + right| - 1] == left + right[..|right| - 1];
  }

  /** One step of the scan, stated on `s + [c]`. */
  lemma SplitStep(s: string, c: char)
    ensures SplitWhitespace(s + [c]) ==
      if IsWhitespace(c) then SplitWhitespace(s)
      else if |s| > 0 && !IsWhitespace(s[|s| - 1]) then Glue(SplitWhitespace(s), [c])
      else SplitWhitespace(s) + [[c]]
  {
    var t := s + [c];
    assert t[..|t| - 1] == s;
    assert t[|t| - 1] == c;
    if |s| > 0 {
      assert t[|t| - 2] == s[|s| - 1];
    }
  }

  function Concat(tokens: seq<string>): string {
    if tokens == [] then [] else Concat(tokens[..|tokens| - 1]) + tokens[|tokens| - 1]
  }

  function RemoveWhitespace(s: string): (r: string)
    ensures forall c :: c in r ==> c in s && !IsWhitespace(c)
  {
    if s == [] then []
    else RemoveWhitespace(s[..|s| - 1]) + (if IsWhitespace(s[|s| - 1]) then [] else [s[|s| - 1]])
  }

  lemma ConcatSnoc(tokens: seq<string>, t: string)
    ensures Concat(tokens + [t]) == Concat(tokens) + t
  {
    assert (tokens + [t])[..|tokens|] == tokens;
  }

  /** Splitting loses only whitespace: the tokens, put back together, are the
      text with its whitespace removed. */
  lemma {:induction false} SplitKeepsText(s: string)
    ensures Concat(SplitWhitespace(s)) == RemoveWhitespace(s)
    decreases |s|
  {
    if s != [] {
      var s', c := s[..|s| - 1], s[|s| - 1];
      assert s == s' + [c];
      SplitStep(s', c);
      RemoveWhitespaceStep(s', c);
      SplitKeepsText(s');
      var init := SplitWhitespace(s');
      if !IsWhitespace(c) {
        if |s'| > 0 && !IsWhitespace(s'[|s'| - 1]) {
          ConcatGlue(init, [c]);
        } else {
          ConcatSnoc(init, [c]);
        }
      }
    }
  }

  lemma RemoveWhitespaceStep(s: string, c: char)
    ensures RemoveWhitespace(s + [c]) == RemoveWhitespace(s) + (if IsWhitespace(c) then [] else [c])
  {
    assert (s + [c])[..|s|] == s;
  }

  lemma ConcatGlue(tokens: seq<string>, tail: string)
    requires |tokens| > 0
    ensures Concat(Glue(tokens, tail)) == Concat(tokens) + tail
  {
    var g := Glue(tokens, tail);
    var init, last := tokens[..|tokens| - 1], tokens[|tokens| - 1];
    assert Concat(g) == Concat(init) + (last + tail) by {
      assert g[..|g| - 1] == init;
    }
    assert Concat(tokens) == Concat(init) + last;
    Associative(Concat(init), last, tail);
  }

  /** Every token is non-empty and holds no whitespace. */
  lemma {:induction false} SplitYieldsTokens(s: string)
    ensures AllTokens(SplitWhitespace(s))
    decreases |s|
  {
    if s != [] {
      var s', c := s[..|s| - 1], s[|s| - 1];
      assert s == s' + [c];
      SplitStep(s', c);
      SplitYieldsTokens(s');
    }
  }

  lemma {:induction false} InConcat(tokens: seq<string>, i: nat)
    requires i < |tokens|
    ensures forall c :: c in tokens[i] ==> c in Concat(tokens)
    decreases |tokens|
  {
    if i < |tokens| - 1 {
      InConcat(tokens[..|tokens| - 1], i);
    }
  }

  /** Tokens are made of the text's own characters, so ASCII text has ASCII tokens. */
  lemma AsciiTokens(s: string, i: nat)
    requires IsAscii(s) && i < |SplitWhitespace(s)|
    ensures IsAscii(SplitWhitespace(s)[i])
  {
    SplitKeepsText(s);
    InConcat(SplitWhitespace(s), i);
  }

  /** Whitespace after a text adds no token. */
  lemma {:induction false} SplitTrailingWhitespace(s: string, w: string)
    requires AllWhitespace(w)
    ensures SplitWhitespace(s + w) == SplitWhitespace(s)
    decreases |w|
  {
    if w != [] {
      var w', c := w[..|w| - 1], w[|w| - 1];
      assert w == w' + [c];
      assert s + w == (s + w') + [c];
      assert c in w;
      SplitStep(s + w', c);
      SplitTrailingWhitespace(s, w');
    } else {
      assert s + w == s;
    }
  }

  /** A text with no whitespace in it is a single token. */
  lemma {:induction false} SplitSingleToken(t: string)
    requires IsToken(t)
    ensures SplitWhitespace(t) == [t]
    decreases |t|
  {
    var t', c := t[..|t| - 1], t[|t| - 1];
    assert t == t' + [c];
    assert c in t;
    SplitStep(t', c);
    if |t| > 1 {
      assert t'[|t'| - 1] in t;
      SplitSingleToken(t');
    }
  }

  /** A run of whitespace separates: the tokens of `s + w + t` are those of
      `s` followed by those of `t`. */
  lemma {:induction false} SplitAcrossWhitespace(s: string, w: string, t: string)
    requires |w| > 0 && AllWhitespace(w)
    ensures SplitWhitespace(s + w + t) == SplitWhitespace(s) + SplitWhitespace(t)
    decreases |t|
  {
    if t == [] {
      SplitTrailingWhitespace(s, w);
      assert s + w + t == s + w;
    } else {
      var t', c := t[..|t| - 1], t[|t| - 1];
      var x := s + w + t';
      assert s + w + t == x + [c];
      assert t == t' + [c];
      SplitStep(x, c);
      SplitStep(t', c);
      SplitAcrossWhitespace(s, w, t');
      var left, right := SplitWhitespace(s), SplitWhitespace(t');
      if !IsWhitespace(c) {
        if t' == [] {
          assert x == s + w;
          assert w[|w| - 1] in w;
          assert left + right + [[c]] == left + (right + [[c]]);
        } else {
          assert x[|x| - 1] == t'[|t'| - 1];
          if !IsWhitespace(t'[|t'| - 1]) {
            GlueAfterConcat(left, right, [c]);
          } else {
            assert left + right + [[c]] == left + (right + [[c]]);
          }
        }
      }
    }
  }

  /** Characters with no whitespace among them, placed after a text, join its
      last token when the text ends inside a token, and form a token of their
      own otherwise. */
  lemma {:induction false} SplitWithTrailingToken(s: string, z: string)
    requires IsToken(z)
    ensures SplitWhitespace(s + z) == TrailingTokenSplit(s, z)
    decreases |z|
  {
    var z', c := z[..|z| - 1], z[|z| - 1];
    assert z == z' + [c];
    assert c in z;
    if |z| == 1 {
      assert s + z == s + [c];
      SplitStep(s, c);
    } else {
      assert z'[|z'| - 1] in z;
      SplitWithTrailingToken(s, z');
      ExtendTrailingToken(s, z', c);
    }
  }

  /** The tokens of `s + z` for a token `z`: `z` glued to the last token of
      `s` when `s` ends inside a token, and a new last token otherwise. */
  function TrailingTokenSplit(s: string, z: string): seq<string> {
    var tokens := SplitWhitespace(s);
    if |s| > 0 && !IsWhitespace(s[|s| - 1]) then Glue(tokens, z) else tokens + [z]
  }

  lemma ExtendTrailingToken(s: string, z: string, c: char)
    requires |z| > 0 && !IsWhitespace(z[|z| - 1]) && !IsWhitespace(c)
    requires SplitWhitespace(s + z) == TrailingTokenSplit(s, z)
    ensures SplitWhitespace(s + (z + [c])) == TrailingTokenSplit(s, z + [c])
  {
    assert s + (z + [c]) == (s + z) + [c];
    assert (s + z)[|s + z| - 1] == z[|z| - 1];
    SplitStep(s + z, c);
    var tokens := SplitWhitespace(s);
    if |s| > 0 && !IsWhitespace(s[|s| - 1]) {
      GlueTwice(tokens, z, [c]);
    } else {
      GlueAfterSnoc(tokens, z, [c]);
    }
  }

}
