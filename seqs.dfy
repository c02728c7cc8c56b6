/** Facts about sequence concatenation, stated once for any element type. */
module Seqs {

  /**
    Concatenation regroups freely.  Proved over an abstract element type, so that proofs about
    sequences of large values need not compare elements.
  */
  lemma AppendAssoc<T>(a: seq<T>, b: seq<T>, c: seq<T>)
    ensures a + b + c == a + (b + c)
  {
  }

  /** Two single elements appended one after the other, regrouped with what follows them. */
  lemma AppendPair<T>(a: seq<T>, x: T, y: T, rest: seq<T>)
    ensures a + [x] + [y] + rest == a + ([x, y] + rest)
    ensures a + [x] + [y] == a + ([x, y] + [])
  {
  }

  /** A sequence is its prefix before position `k`, the element at `k` and the rest. */
  lemma SplitAt<T>(s: seq<T>, k: nat)
    requires k < |s|
    ensures s == s[..k] + [s[k]] + s[k + 1..]
  { }
}
