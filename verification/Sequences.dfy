/** Regrouping of sequences, kept apart from the proofs that need it. */
module Sequences {
  lemma Assoc<T>(a: seq<T>, b: seq<T>, c: seq<T>)
    ensures a + b + c == a + (b + c)
  {
  }

  lemma Cons<T>(x: T, s: seq<T>)
    ensures ([x] + s)[0] == x && ([x] + s)[1..] == s
  {
  }

  lemma Uncons<T>(s: seq<T>)
    requires s != []
    ensures s == [s[0]] + s[1..]
  {
  }

  lemma Snoc<T>(s: seq<T>, x: T)
    ensures (s + [x])[..|s|] == s && (s + [x])[|s|] == x
  {
  }

  lemma Unsnoc<T>(s: seq<T>)
    requires s != []
    ensures s == s[..|s| - 1] + [s[|s| - 1]]
  {
  }
}
