/** Small facts about sequences that the drivers' proofs use. */
module Seqs {

  lemma AppendAssoc<T>(a: seq<T>, b: seq<T>, c: seq<T>)
    ensures (a + b) + c == a + (b + c)
  {
  }

  lemma AppendEmpty<T>(a: seq<T>)
    ensures a + [] == a
  {
  }

  /** The last element of a + b is the last of b. */
  lemma LastOfAppend<T>(a: seq<T>, b: seq<T>)
    requires b != []
    ensures (a + b)[|a + b| - 1] == b[|b| - 1]
  {
  }

  /** A proper prefix of a prefix is a proper prefix. */
  lemma PrefixExtends<T>(a: seq<T>, b: seq<T>, c: seq<T>)
    requires a < b && b <= c
    ensures a < c
  {
  }
}
