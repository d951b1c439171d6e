/** Sequence helpers: distinctness and Python's first-occurrence dedup
    `list(dict.fromkeys(xs))`. */
module Seqs {

  /** A sequence is its prefix of length `n` followed by the rest. */
  lemma SplitAt<T>(s: seq<T>, n: nat)
    requires n <= |s|
    ensures s == s[..n] + s[n..]
  {
  }

  /** Slicing `s` at `n` through its tail `s[1..]`. */
  lemma SlicesOfTail<T>(s: seq<T>, n: nat)
    requires 1 <= n <= |s|
    ensures s[n..] == s[1..][n - 1..]
    ensures s[..n] == [s[0]] + s[1..][..n - 1]
  {
  }

  /** Slicing `s` at `n` through its front `s[..|s| - 1]`. */
  lemma SlicesOfInit<T>(s: seq<T>, n: nat)
    requires n < |s|
    ensures s[..n] == s[..|s| - 1][..n]
    ensures s[n..] == s[..|s| - 1][n..] + [s[|s| - 1]]
  {
  }

  /** Slicing a concatenation within its first part. */
  lemma ConcatSlices<T>(a: seq<T>, t: seq<T>, n: nat)
    requires n <= |a|
    ensures (a + t)[..n] == a[..n]
    ensures (a + t)[n..] == a[n..] + t
  {
  }

  lemma ConcatAssoc<T>(a: seq<T>, b: seq<T>, c: seq<T>)
    ensures a + (b + c) == a + b + c
  {
  }

  predicate Distinct<T(==)>(s: seq<T>) {
    forall i, j :: 0 <= i < j < |s| ==> s[i] != s[j]
  }

  /** A sequence with one more element is duplicate-free exactly when the
      rest is and the new element is not already there. */
  lemma DistinctSnoc<T>(s: seq<T>, x: T)
    ensures Distinct(s + [x]) <==> Distinct(s) && x !in s
  {
    assert forall k :: 0 <= k < |s| ==> (s + [x])[k] == s[k];
    assert (s + [x])[|s|] == x;
  }

  /** Position of the first occurrence of `x` in `s`. */
  function FirstIndex<T(==)>(s: seq<T>, x: T): (i: nat)
    requires x in s
    ensures i < |s| && s[i] == x
    ensures forall k :: 0 <= k < i ==> s[k] != x
  {
    if s[0] == x then 0 else 1 + FirstIndex(s[1..], x)
  }

  /** `list(dict.fromkeys(s))`: walks `s` in order and keeps an element only
      if it has not been kept before. */
  function Dedup<T(==, !new)>(s: seq<T>): (r: seq<T>)
    ensures Distinct(r)
    ensures forall x :: x in r <==> x in s
    ensures |r| <= |s|
  {
    if s == [] then []
    else
      var prev := Dedup(s[..|s| - 1]);
      var x := s[|s| - 1];
      assert forall i :: 0 <= i < |s| - 1 ==> s[i] == s[..|s| - 1][i];
      if x in prev then prev else prev + [x]
  }

  /** The first occurrence is the only position holding `x` with no `x` before it. */
  lemma FirstIndexUnique<T>(s: seq<T>, x: T, j: nat)
    requires j < |s| && s[j] == x
    requires forall k :: 0 <= k < j ==> s[k] != x
    ensures FirstIndex(s, x) == j
  {
    var i := FirstIndex(s, x);
    assert !(i < j) && !(j < i);
  }

  lemma FirstIndexOfPrefix<T>(s: seq<T>, n: nat, x: T)
    requires n <= |s| && x in s[..n]
    ensures FirstIndex(s, x) == FirstIndex(s[..n], x)
  {
    var t := s[..n];
    var j := FirstIndex(t, x);
    forall k | 0 <= k <= j ensures s[k] == t[k] {
    }
    FirstIndexUnique(s, x, j);
  }

  /** One more element either leaves the dedup as it was or appends itself,
      the latter exactly when it is new. */
  lemma DedupStep<T(!new)>(s: seq<T>)
    requires s != []
    ensures |Dedup(s[..|s| - 1])| <= |Dedup(s)| <= |Dedup(s[..|s| - 1])| + 1
    ensures forall k :: 0 <= k < |Dedup(s[..|s| - 1])| ==>
      Dedup(s)[k] == Dedup(s[..|s| - 1])[k] && Dedup(s)[k] in s[..|s| - 1]
    ensures |Dedup(s)| == |Dedup(s[..|s| - 1])| + 1 ==>
      Dedup(s)[|Dedup(s[..|s| - 1])|] == s[|s| - 1] && s[|s| - 1] !in s[..|s| - 1]
  {
    var prev := Dedup(s[..|s| - 1]);
    assert Dedup(s) == if s[|s| - 1] in prev then prev else prev + [s[|s| - 1]];
    forall k | 0 <= k < |prev| ensures prev[k] in s[..|s| - 1] {
      assert prev[k] in prev;
    }
  }

  /** An element not seen before the last position first occurs there. */
  lemma FirstIndexOfLast<T>(s: seq<T>)
    requires s != [] && s[|s| - 1] !in s[..|s| - 1]
    ensures FirstIndex(s, s[|s| - 1]) == |s| - 1
  {
    forall k | 0 <= k < |s| - 1 ensures s[k] != s[|s| - 1] {
      assert s[k] == s[..|s| - 1][k];
    }
    FirstIndexUnique(s, s[|s| - 1], |s| - 1);
  }

  /** A position kept before the last element keeps its element and its
      first occurrence. */
  lemma DedupKeptEarlier<T(!new)>(s: seq<T>, i: nat)
    requires s != [] && i < |Dedup(s[..|s| - 1])|
    ensures i < |Dedup(s)| && Dedup(s)[i] == Dedup(s[..|s| - 1])[i]
    ensures FirstIndex(s, Dedup(s)[i]) == FirstIndex(s[..|s| - 1], Dedup(s)[i]) < |s| - 1
  {
    DedupStep(s);
    FirstIndexOfPrefix(s, |s| - 1, Dedup(s)[i]);
  }

  /** A position added by the last element first occurs at the end. */
  lemma DedupKeptLast<T(!new)>(s: seq<T>, j: nat)
    requires s != [] && |Dedup(s[..|s| - 1])| <= j < |Dedup(s)|
    ensures FirstIndex(s, Dedup(s)[j]) == |s| - 1
  {
    DedupStep(s);
    FirstIndexOfLast(s);
  }

  /** The kept elements appear in the order of their first occurrences. */
  lemma {:induction false} DedupOrder<T(!new)>(s: seq<T>, i: nat, j: nat)
    requires i < j < |Dedup(s)|
    ensures FirstIndex(s, Dedup(s)[i]) < FirstIndex(s, Dedup(s)[j])
    decreases |s|
  {
    var p := s[..|s| - 1];
    DedupStep(s);
    DedupKeptEarlier(s, i);
    if j < |Dedup(p)| {
      DedupKeptEarlier(s, j);
      DedupOrder(p, i, j);
    } else {
      DedupKeptLast(s, j);
    }
  }

  /** Dedup leaves a duplicate-free sequence as it is. */
  lemma {:induction false} DedupOfDistinct<T(!new)>(s: seq<T>)
    requires Distinct(s)
    ensures Dedup(s) == s
  {
    if s != [] {
      var p := s[..|s| - 1];
      assert Distinct(p);
      DedupOfDistinct(p);
      assert s[|s| - 1] !in p;
      assert s == p + [s[|s| - 1]];
    }
  }

  lemma DedupIdempotent<T(!new)>(s: seq<T>)
    ensures Dedup(Dedup(s)) == Dedup(s)
  {
    DedupOfDistinct(Dedup(s));
  }

  /** `a` is what remains of `b` after deleting some of its elements. */
  predicate IsSubsequence<T(==)>(a: seq<T>, b: seq<T>)
    decreases |b|
  {
    a == [] || (b != [] && ((a[0] == b[0] && IsSubsequence(a[1..], b[1..])) || IsSubsequence(a, b[1..])))
  }

  lemma {:induction false} SubsequenceOfLonger<T>(c: seq<T>, b: seq<T>, d: seq<T>)
    requires IsSubsequence(c, d)
    ensures IsSubsequence(c, b + d)
    decreases |b|
  {
    if b == [] {
      assert b + d == d;
    } else {
      SubsequenceOfLonger(c, b[1..], d);
      assert (b + d)[1..] == b[1..] + d;
    }
  }

  /** Subsequences of two parts give a subsequence of the concatenation. */
  lemma {:induction false} SubsequenceConcat<T>(a: seq<T>, b: seq<T>, c: seq<T>, d: seq<T>)
    requires IsSubsequence(a, b) && IsSubsequence(c, d)
    ensures IsSubsequence(a + c, b + d)
    decreases |b|
  {
    if a == [] {
      SubsequenceOfLonger(c, b, d);
      assert a + c == c;
    } else {
      assert (b + d)[1..] == b[1..] + d;
      if a[0] == b[0] && IsSubsequence(a[1..], b[1..]) {
        SubsequenceConcat(a[1..], b[1..], c, d);
        assert (a + c)[1..] == a[1..] + c;
      } else {
        SubsequenceConcat(a, b[1..], c, d);
      }
    }
  }

  /** Every element of a subsequence is an element of the whole. */
  lemma {:induction false} SubsequenceMembers<T>(a: seq<T>, b: seq<T>)
    requires IsSubsequence(a, b)
    ensures forall x :: x in a ==> x in b
    decreases |b|
  {
    if a != [] {
      if a[0] == b[0] && IsSubsequence(a[1..], b[1..]) {
        SubsequenceMembers(a[1..], b[1..]);
        assert a == [a[0]] + a[1..] && b == [b[0]] + b[1..];
      } else {
        SubsequenceMembers(a, b[1..]);
        assert b == [b[0]] + b[1..];
      }
    }
  }
}
