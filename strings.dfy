/** Character-level string helpers shared by the encoder, the cache key and the tallies. */
module Strings {

  /** Python's `s.replace(a, b)` for one-character `a` and `b`: every occurrence of `a` becomes `b`. */
  function Replace(s: string, a: char, b: char): (r: string)
    ensures |r| == |s|
    ensures forall i :: 0 <= i < |s| ==> r[i] == (if s[i] == a then b else s[i])
    ensures a != b ==> a !in r
  {
    seq(|s|, i requires 0 <= i < |s| => if s[i] == a then b else s[i])
  }

  /** Every character is a bit. */
  predicate IsBinary(s: string) {
    forall i :: 0 <= i < |s| ==> s[i] == '0' || s[i] == '1'
  }

  /** The number of '0' characters in `s`. */
  function Zeros(s: string): (n: nat)
    ensures n <= |s|
  {
    if s == [] then 0 else Zeros(s[..|s| - 1]) + (if s[|s| - 1] == '0' then 1 else 0)
  }

  /** Counting one more character at the end of a prefix. */
  lemma ZerosSnoc(s: string, i: nat)
    requires i < |s|
    ensures Zeros(s[..i + 1]) == Zeros(s[..i]) + (if s[i] == '0' then 1 else 0)
  {
    assert s[..i + 1][..i] == s[..i];
  }

  /** A string with no '0' has no zeros to count; one made only of '0' is all zeros. */
  lemma {:induction false} ZerosUniform(s: string)
    ensures (forall i :: 0 <= i < |s| ==> s[i] != '0') ==> Zeros(s) == 0
    ensures (forall i :: 0 <= i < |s| ==> s[i] == '0') ==> Zeros(s) == |s|
  {
    if s != [] {
      ZerosUniform(s[..|s| - 1]);
    }
  }
}
