/** Sequences in general: distinct elements, and one step of a loop over a prefix. */
module Sequences {

  predicate Distinct<T(==)>(s: seq<T>) {
    forall i, j :: 0 <= i < j < |s| ==> s[i] != s[j]
  }

  lemma TakeOneMore<T>(s: seq<T>, n: nat)
    requires n < |s|
    ensures s[..n + 1][..n] == s[..n] && s[..n + 1][n] == s[n] && s[..n + 1] == s[..n] + [s[n]]
  {
  }

  lemma TakeAll<T>(s: seq<T>)
    ensures s[..|s|] == s
  {
  }

  lemma AppendOneMore<T>(a: seq<T>, b: seq<T>, n: nat)
    requires n < |b|
    ensures (a + b[..n]) + [b[n]] == a + b[..n + 1]
  {
  }
}
