// Sequence operations the lookup performs on its arrays: findIndex with an
// identity test, splice of one element, and the order-preserving
// subsequence relation that filtering establishes.

module Seqs {

  /** No element occurs twice. */
  predicate NoDuplicates<T(==)>(s: seq<T>)
  {
    forall i, j :: 0 <= i < j < |s| ==> s[i] != s[j]
  }

  /** `s.findIndex(n => n === x)`: the first position holding `x`, or -1. */
  function FindIndex<T(==)>(s: seq<T>, x: T): (r: int)
    ensures -1 <= r < |s|
    ensures r == -1 <==> x !in s
    ensures 0 <= r ==> s[r] == x && x !in s[..r]
  {
    if s == [] then -1
    else if s[0] == x then 0
    else
      var k := FindIndex(s[1..], x);
      if k == -1 then -1
      else
        assert s[..k + 1] == [s[0]] + s[1..][..k];
        k + 1
  }

  /** In a sequence without duplicates, FindIndex inverts indexing. */
  lemma FindIndexOfDistinct<T>(s: seq<T>, i: nat)
    requires NoDuplicates(s) && i < |s|
    ensures FindIndex(s, s[i]) == i
  {
  }

  /** `s.splice(i, 1)` on the remaining array: drops position `i`; the other
      elements keep their order. */
  function RemoveAt<T>(s: seq<T>, i: nat): (r: seq<T>)
    requires i < |s|
    ensures |r| == |s| - 1
    ensures multiset(r) == multiset(s) - multiset{s[i]}
    ensures forall k :: 0 <= k < |r| ==> r[k] == if k < i then s[k] else s[k + 1]
  {
    assert s == s[..i] + [s[i]] + s[i + 1..];
    s[..i] + s[i + 1..]
  }

  /** Removing an element keeps a sequence free of duplicates. */
  lemma RemoveAtNoDuplicates<T>(s: seq<T>, i: nat)
    requires i < |s| && NoDuplicates(s)
    ensures NoDuplicates(RemoveAt(s, i))
  {
    var r := RemoveAt(s, i);
    forall a, b | 0 <= a < b < |r| ensures r[a] != r[b] {
      var a' := if a < i then a else a + 1;
      var b' := if b < i then b else b + 1;
      assert r[a] == s[a'] && r[b] == s[b'] && a' < b';
    }
  }

  /** Appending an element not yet present keeps a sequence free of
      duplicates. */
  lemma AppendNoDuplicates<T>(s: seq<T>, x: T)
    requires NoDuplicates(s) && x !in s
    ensures NoDuplicates(s + [x])
  {
    var r := s + [x];
    forall a, b | 0 <= a < b < |r| ensures r[a] != r[b] {
      if b == |s| { assert r[a] == s[a]; }
      else { assert r[a] == s[a] && r[b] == s[b]; }
    }
  }

  /** `a` is `b` with some elements left out, the rest in their original
      order. */
  predicate IsSubsequence<T(==)>(a: seq<T>, b: seq<T>)
    decreases |b|
  {
    a == [] ||
    (b != [] &&
      ((a[|a| - 1] == b[|b| - 1] && IsSubsequence(a[..|a| - 1], b[..|b| - 1]))
       || IsSubsequence(a, b[..|b| - 1])))
  }

  /** Every element of a subsequence occurs in the sequence. */
  lemma {:induction false} SubsequenceMembers<T>(a: seq<T>, b: seq<T>)
    requires IsSubsequence(a, b)
    ensures forall x :: x in a ==> x in b
    decreases |b|
  {
    if a != [] {
      var b' := b[..|b| - 1];
      assert b == b' + [b[|b| - 1]];
      if a[|a| - 1] == b[|b| - 1] && IsSubsequence(a[..|a| - 1], b') {
        SubsequenceMembers(a[..|a| - 1], b');
        assert a == a[..|a| - 1] + [a[|a| - 1]];
      } else {
        SubsequenceMembers(a, b');
      }
    }
  }

  /** A prefix of a subsequence is a subsequence. */
  lemma {:induction false} SubsequencePrefix<T>(a: seq<T>, b: seq<T>, k: nat)
    requires IsSubsequence(a, b) && k <= |a|
    ensures IsSubsequence(a[..k], b)
    decreases |b|
  {
    if k == |a| {
      assert a[..k] == a;
    } else if k > 0 {
      var b' := b[..|b| - 1];
      if a[|a| - 1] == b[|b| - 1] && IsSubsequence(a[..|a| - 1], b') {
        SubsequencePrefix(a[..|a| - 1], b', k);
        assert a[..|a| - 1][..k] == a[..k];
      } else {
        SubsequencePrefix(a, b', k);
      }
    }
  }

  /** A subsequence of a sequence without duplicates has none either. */
  lemma {:induction false} SubsequenceNoDuplicates<T>(a: seq<T>, b: seq<T>)
    requires IsSubsequence(a, b) && NoDuplicates(b)
    ensures NoDuplicates(a)
    decreases |b|
  {
    if a != [] {
      var b' := b[..|b| - 1];
      assert NoDuplicates(b');
      var a' := a[..|a| - 1];
      if a[|a| - 1] == b[|b| - 1] && IsSubsequence(a', b') {
        SubsequenceNoDuplicates(a', b');
        SubsequenceMembers(a', b');
        assert b[|b| - 1] !in b' by {
          forall i | 0 <= i < |b'| ensures b'[i] != b[|b| - 1] {
            assert b'[i] == b[i];
          }
        }
        assert a == a' + [a[|a| - 1]];
        AppendNoDuplicates(a', a[|a| - 1]);
      } else {
        SubsequenceNoDuplicates(a, b');
      }
    }
  }
}
