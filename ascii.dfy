/** Bytes on the wire and the ASCII text the server reads them as.

    The server decodes its request buffer with `String::from_utf8_lossy` and
    writes its responses as UTF-8. On ASCII input both are the identity on
    character codes, so the model keeps text as `string` and converts at the
    two edges with `Decode` and `Encode`. */
module Ascii {

  newtype byte = b: int | 0 <= b < 256

  predicate IsAscii(s: string) {
    forall c :: c in s ==> c as int < 128
  }

  predicate IsAsciiBytes(b: seq<byte>) {
    forall i :: 0 <= i < |b| ==> b[i] < 128
  }

  /** The characters `str::split_whitespace` separates on, within ASCII:
      space, tab, line feed, vertical tab, form feed and carriage return.
      NUL is not among them. */
  predicate IsWhitespace(c: char) {
    c == ' ' || c == '\t' || c == '\n' || c == '\U{0B}' || c == '\U{0C}' || c == '\r'
  }

  function ByteOf(c: char): byte
    requires c as int < 256
  {
    c as int as byte
  }

  /** Bytes read as characters of the same code. For ASCII bytes this is what
      `String::from_utf8_lossy` produces. */
  function Decode(b: seq<byte>): (s: string)
    ensures |s| == |b|
    ensures forall i :: 0 <= i < |b| ==> s[i] as int == b[i] as int
  {
    seq(|b|, i requires 0 <= i < |b| => b[i] as int as char)
  }

  /** The UTF-8 encoding of ASCII text: one byte per character. */
  function Encode(s: string): (b: seq<byte>)
    requires IsAscii(s)
    ensures IsAsciiBytes(b)
    ensures Decode(b) == s
  {
    assert forall i :: 0 <= i < |s| ==> s[i] in s;
    seq(|s|, i requires 0 <= i < |s| => ByteOf(s[i]))
  }

  /** Decoding loses nothing on ASCII bytes: encoding the text gives the bytes back. */
  lemma EncodeDecode(b: seq<byte>)
    requires IsAsciiBytes(b)
    ensures IsAscii(Decode(b)) && Encode(Decode(b)) == b
  {
    var s := Decode(b);
    forall c | c in s ensures c as int < 128 {
      var i :| 0 <= i < |s| && s[i] == c;
    }
  }

  lemma EncodeConcat(a: string, b: string)
    requires IsAscii(a) && IsAscii(b)
    ensures IsAscii(a + b) && Encode(a + b) == Encode(a) + Encode(b)
  {
  }

  lemma EncodeThen(a: string, b: string, rest: seq<byte>)
    requires IsAscii(a) && IsAscii(b)
    ensures IsAscii(a + b) && Encode(a + b) + rest == Encode(a) + (Encode(b) + rest)
  {
    EncodeConcat(a, b);
  }

  lemma AsciiConcat(a: string, b: string)
    requires IsAscii(a) && IsAscii(b)
    ensures IsAscii(a + b)
  {
  }

  /** Encoding a text split in two: the encoding of each part, in order. */
  lemma EncodeSplit(whole: string, first: string, tail: string, rest: seq<byte>)
    requires IsAscii(first) && IsAscii(tail) && whole == first + tail
    ensures IsAscii(whole) && Encode(whole) + rest == Encode(first) + (Encode(tail) + rest)
  {
    EncodeThen(first, tail, rest);
  }

  lemma DecodeConcat(a: seq<byte>, b: seq<byte>)
    ensures Decode(a + b) == Decode(a) + Decode(b)
  {
  }

}
