/** Facts about sequence concatenation, stated over plain variables. */
module Seqs {
  /** Appending the same tail to both sides of `p == h + e`. */
  lemma AppendBoth<T>(p: seq<T>, p': seq<T>, h: seq<T>, e: seq<T>, e': seq<T>, o: seq<T>)
    requires p == h + e && p' == p + o && e' == e + o
    ensures p' == h + e'
  {
  }

  lemma AppendAssoc<T>(a: seq<T>, b: seq<T>, c: seq<T>)
    ensures (a + b) + c == a + (b + c)
  {
  }

  /** A sequence is its prefix of length `n` followed by the rest. */
  lemma TakeDrop<T>(s: seq<T>, n: nat)
    requires n <= |s|
    ensures s[..n] + s[n..] == s
  {
  }
}
