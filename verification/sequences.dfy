/** Facts about sequences and multisets that proofs elsewhere name, so that they need
    not be found again in a larger context. */
module Sequences {
  lemma ConcatAssociates<T>(a: seq<T>, b: seq<T>, c: seq<T>)
    ensures a + b + c == a + (b + c)
  {
  }

  lemma NothingBefore<T>(a: seq<T>)
    ensures [] + a == a
  {
  }

  lemma SliceOfSlice<T>(s: seq<T>, at: nat, len: nat, from: nat, to: nat)
    requires at + len <= |s| && from <= to <= len
    ensures s[at..at + len][from..to] == s[at + from..at + to]
  {
    forall i | at + from <= i < at + to
      ensures s[i] == s[at..at + len][i - at]
    {
    }
  }

  lemma NothingAfter<T>(a: seq<T>)
    ensures a + [] == a
  {
  }

  // A slice is the same in two sequences that agree on all before, or behind, a place.

  lemma SliceBefore<T>(s: seq<T>, n: nat, t: seq<T>, from: nat, to: nat)
    requires n <= |s| && n <= |t| && t[..n] == s[..n] && from <= to <= n
    ensures t[from..to] == s[from..to]
  {
    forall k | 0 <= k < n
      ensures t[k] == s[k]
    {
      assert t[..n][k] == s[..n][k];
    }
  }

  lemma SliceAfter<T>(s: seq<T>, n: nat, t: seq<T>, from: nat, to: nat)
    requires n <= |s| && |t| == |s| && t[n..] == s[n..] && n <= from <= to <= |s|
    ensures t[from..to] == s[from..to]
  {
    forall k | n <= k < |s|
      ensures t[k] == s[k]
    {
      assert t[n..][k - n] == s[n..][k - n];
    }
  }
}
