/** Facts about taking prefixes, stated once so that proofs about contents need not redo them. */
module Sequences {
  lemma TakeOne<T>(s: seq<T>, i: nat)
    requires i < |s|
    ensures s[..i + 1] == s[..i] + [s[i]]
    ensures s[..i + 1][..i] == s[..i] && s[..i + 1][|s[..i + 1]| - 1] == s[i]
  {
  }

  lemma TakeAll<T>(s: seq<T>)
    ensures s[..|s|] == s
  {
  }

  /** Concatenation may be regrouped. */
  lemma Regroup<T>(a: seq<T>, b: seq<T>, c: seq<T>, d: seq<T>, e: seq<T>)
    ensures a + (b + c + d) + e == (a + b) + c + (d + e)
    ensures a + (b + (c + d + e)) == (a + (b + c)) + d + e
    ensures a + (b + c + d) == a + b + c + d
  {
  }

  /** A slice in three spellings, and what is behind it. */
  lemma Slices<T>(s: seq<T>, i: nat, n: nat)
    requires i + n <= |s|
    ensures s[i..][..n] == s[i..i + n] == s[..i + n][i..]
    ensures s[i..][n..] == s[i + n..]
    ensures s[..i] + s[i..] == s
    ensures n < |s| - i ==> s[i..][n] == s[i + n]
  {
  }

  /** Taking a concatenation apart. */
  lemma Parts<T>(a: seq<T>, b: seq<T>, c: seq<T>)
    ensures (a + b)[..|a|] == a && (a + b)[|a|..] == b
    ensures a + b + c == a + (b + c)
  {
  }
}
