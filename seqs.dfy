/** Order-preserving subsequences and pairwise relations over sequences. */
module Seqs {

  /** `a` can be obtained from `b` by deleting elements, keeping the order of the rest. */
  predicate Subseq<T(==)>(a: seq<T>, b: seq<T>)
    decreases |b|
  {
    if a == [] then true
    else if b == [] then false
    else (a[|a| - 1] == b[|b| - 1] && Subseq(a[..|a| - 1], b[..|b| - 1]))
         || Subseq(a, b[..|b| - 1])
  }

  /** `R` holds of every pair of elements taken in sequence order. */
  predicate Pairwise<T>(s: seq<T>, R: (T, T) -> bool)
  {
    forall i, j :: 0 <= i < j < |s| ==> R(s[i], s[j])
  }

  lemma {:induction false} SubseqRefl<T>(s: seq<T>)
    ensures Subseq(s, s)
    decreases |s|
  {
    if s != [] {
      SubseqRefl(s[..|s| - 1]);
    }
  }

  /** Appending the same element to both sides keeps the relation. */
  lemma SubseqAppend<T>(a: seq<T>, b: seq<T>, x: T)
    requires Subseq(a, b)
    ensures Subseq(a + [x], b + [x])
  {
    assert (a + [x])[..|a|] == a;
    assert (b + [x])[..|b|] == b;
  }

  /** Appending to the larger side only keeps the relation. */
  lemma SubseqExtend<T>(a: seq<T>, b: seq<T>, x: T)
    requires Subseq(a, b)
    ensures Subseq(a, b + [x])
  {
    assert (b + [x])[..|b|] == b;
  }

  /** Dropping the last element of the smaller side keeps the relation. */
  lemma {:induction false} SubseqDropLast<T>(a: seq<T>, b: seq<T>)
    requires a != [] && Subseq(a, b)
    ensures Subseq(a[..|a| - 1], b)
    decreases |b|
  {
    var a', b' := a[..|a| - 1], b[..|b| - 1];
    if a[|a| - 1] == b[|b| - 1] && Subseq(a', b') {
      assert Subseq(a', b);
    } else {
      SubseqDropLast(a, b');
      assert Subseq(a', b);
    }
  }

  /** A subsequence takes no element more often than the sequence holds it. */
  lemma {:induction false} SubseqMultiset<T>(a: seq<T>, b: seq<T>)
    requires Subseq(a, b)
    ensures multiset(a) <= multiset(b)
    ensures |a| <= |b|
    decreases |b|
  {
    if a != [] {
      var a', b' := a[..|a| - 1], b[..|b| - 1];
      assert b == b' + [b[|b| - 1]];
      if a[|a| - 1] == b[|b| - 1] && Subseq(a', b') {
        assert a == a' + [a[|a| - 1]];
        SubseqMultiset(a', b');
      } else {
        SubseqMultiset(a, b');
      }
    }
  }

  /** A pairwise relation of a sequence holds of each of its subsequences. */
  lemma {:induction false} SubseqPairwise<T>(a: seq<T>, b: seq<T>, R: (T, T) -> bool)
    requires Subseq(a, b) && Pairwise(b, R)
    ensures Pairwise(a, R)
    decreases |b|
  {
    if a != [] {
      var a', b' := a[..|a| - 1], b[..|b| - 1];
      assert Pairwise(b', R) by {
        forall i, j | 0 <= i < j < |b'| ensures R(b'[i], b'[j]) {
          assert b'[i] == b[i] && b'[j] == b[j];
        }
      }
      if a[|a| - 1] == b[|b| - 1] && Subseq(a', b') {
        SubseqPairwise(a', b', R);
        SubseqMultiset(a', b');
        forall i, j | 0 <= i < j < |a| ensures R(a[i], a[j]) {
          if j < |a| - 1 {
            assert a[i] == a'[i] && a[j] == a'[j];
          } else {
            assert a[i] == a'[i];
            assert a[i] in multiset(b');
            var k :| 0 <= k < |b'| && b'[k] == a[i];
            assert R(b[k], b[|b| - 1]);
          }
        }
      } else {
        SubseqPairwise(a, b', R);
      }
    }
  }
}
