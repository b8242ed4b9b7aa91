/** Facts about sequences that several modules share. */
module Sequences {
  lemma Assoc<T>(a: seq<T>, b: seq<T>, c: seq<T>)
    ensures (a + b) + c == a + (b + c)
  {
  }

  /** The elements among the first `n`. */
  function Among<T(==)>(s: seq<T>, n: nat): set<T>
    requires n <= |s|
  {
    if n == 0 then {} else Among(s, n - 1) + {s[n - 1]}
  }
}
