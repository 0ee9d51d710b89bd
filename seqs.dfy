/** Facts about sequences that the proofs use at many places, each proved on its own. */
module Seqs {
  /** A non-empty sequence is its front followed by its last element. */
  lemma SnocLast<T>(s: seq<T>)
    requires s != []
    ensures s[..|s| - 1] + [s[|s| - 1]] == s
  {
  }

  /** Taking one more element of `s` appends it. */
  lemma TakeOneMore<T>(s: seq<T>, i: nat)
    requires i < |s|
    ensures s[..i + 1] == s[..i] + [s[i]]
    ensures s[..i + 1][..i] == s[..i]
  {
  }

  /** Appending `x` keeps every element of `s` in place and puts `x` after them. */
  lemma SnocAt<T>(s: seq<T>, x: T)
    ensures (s + [x])[|s|] == x
    ensures forall k :: 0 <= k < |s| ==> (s + [x])[k] == s[k]
  {
  }

  /** Concatenation is associative. */
  lemma AppendAssoc<T>(a: seq<T>, b: seq<T>, c: seq<T>)
    ensures (a + b) + c == a + (b + c)
  {
  }

  /** All of a sequence is the sequence. */
  lemma TakeAll<T>(s: seq<T>)
    ensures s[..|s|] == s
  {
  }

  /** The front of `s + [x]` is `s` and its last element is `x`. */
  lemma FrontOfSnoc<T>(s: seq<T>, x: T)
    ensures (s + [x])[..|s|] == s && (s + [x])[|s|] == x
  {
  }

  /** The front of a non-empty sequence agrees with it position by position. */
  lemma PrefixAt<T>(s: seq<T>)
    requires s != []
    ensures forall i :: 0 <= i < |s| - 1 ==> s[..|s| - 1][i] == s[i]
  {
  }

  /**
   * Dropping position `i` of `s`: dropping the last one leaves the front, and
   * dropping an earlier one commutes with taking the front.
   */
  lemma DropAt<T>(s: seq<T>, i: nat)
    requires i < |s|
    ensures |s[..i] + s[i + 1..]| == |s| - 1
    ensures i == |s| - 1 ==> s[..i] + s[i + 1..] == s[..|s| - 1]
    ensures i < |s| - 1 ==>
              var q := s[..i] + s[i + 1..];
              var f := s[..|s| - 1];
              q[..|q| - 1] == f[..i] + f[i + 1..] && q[|q| - 1] == s[|s| - 1]
  {
    if i < |s| - 1 {
      var q := s[..i] + s[i + 1..];
      var f := s[..|s| - 1];
      assert q[..|q| - 1] == f[..i] + f[i + 1..];
    }
  }

  /** Taking the element at `j` out of `s`: what is left, and its multiset. */
  lemma RemoveAt<T>(s: seq<T>, j: nat)
    requires j < |s|
    ensures s == s[..j] + [s[j]] + s[j + 1..]
    ensures multiset(s[..j] + s[j + 1..]) == multiset(s) - multiset{s[j]}
  {
    assert s == s[..j] + [s[j]] + s[j + 1..];
  }

  /** The front of a non-empty sequence, and its multiset. */
  lemma RemoveLast<T>(s: seq<T>)
    requires s != []
    ensures multiset(s[..|s| - 1]) == multiset(s) - multiset{s[|s| - 1]}
  {
    assert s == s[..|s| - 1] + [s[|s| - 1]];
  }

  /** An element of the multiset of `s` is at some index of `s`. */
  lemma IndexOfMember<T>(s: seq<T>, x: T) returns (j: nat)
    requires x in multiset(s)
    ensures j < |s| && s[j] == x
  {
    j :| 0 <= j < |s| && s[j] == x;
  }
}
