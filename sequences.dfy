/** Facts about sequence concatenation and slicing, for sequences of any
    element type: regrouping a concatenation, taking the halves of one apart,
    and prepending one, two or three elements. */
module Sequences {

  lemma Associative<T>(a: seq<T>, b: seq<T>, c: seq<T>)
    ensures a + b + c == a + (b + c)
  {
  }

  lemma Associative4<T>(a: seq<T>, b: seq<T>, c: seq<T>, d: seq<T>)
    ensures a + b + c + d == a + (b + c + d)
  {
  }

  /** The two halves of a concatenation, with `k` more elements dropped
      from the front of the second. */
  lemma Halves<T>(a: seq<T>, b: seq<T>, k: nat)
    requires k <= |b|
    ensures (a + b)[..|a|] == a && (a + b)[|a| + k..] == b[k..]
  {
  }

  lemma DropFromFirst<T>(a: seq<T>, b: seq<T>, k: nat)
    requires k <= |a|
    ensures (a + b)[k..] == a[k..] + b
  {
  }

  lemma ConsTail<T>(s: seq<T>)
    requires |s| > 0
    ensures [s[0]] + s[1..] == s
  {
  }

  lemma ConsTwo<T>(a: T, b: T, r: seq<T>)
    ensures [a] + ([b] + r) == [a, b] + r
  {
  }

  lemma ConsThree<T>(a: T, b: T, c: T, r: seq<T>)
    ensures [a] + ([b, c] + r) == [a, b, c] + r
  {
  }

}
