/**
 * The sort that opens the merge: a stable sort of the pooled results by the
 * key (start, -confidence), that is by start ascending and, among equal
 * starts, by confidence descending. Results with the same start and the same
 * confidence keep their input order.
 */
module Sorting {
  import opened Results

  /** `a`'s key (start, -confidence) is no larger than `b`'s. */
  predicate KeyLe(a: PIIResult, b: PIIResult)
  {
    a.start < b.start || (a.start == b.start && a.confidence >= b.confidence)
  }

  predicate KeySorted(s: seq<PIIResult>)
  {
    forall i, j :: 0 <= i < j < |s| ==> KeyLe(s[i], s[j])
  }

  /** The entries of `s` whose key is (start, -confidence), in their order in `s`. */
  function WithKey(s: seq<PIIResult>, start: int, confidence: real): seq<PIIResult>
  {
    if s == [] then []
    else (if s[0].start == start && s[0].confidence == confidence then [s[0]] else [])
         + WithKey(s[1..], start, confidence)
  }

  /** Puts `x` in front of the first entry whose key is not smaller than its own. */
  function Insert(x: PIIResult, s: seq<PIIResult>): seq<PIIResult>
  {
    if s == [] || KeyLe(x, s[0]) then [x] + s
    else [s[0]] + Insert(x, s[1..])
  }

  /** Stable insertion sort by key: the value `list.sort` leaves in the list. */
  function SortByKey(s: seq<PIIResult>): seq<PIIResult>
  {
    if s == [] then [] else Insert(s[0], SortByKey(s[1..]))
  }

  lemma {:induction false} WithKeyConcat(a: seq<PIIResult>, b: seq<PIIResult>, start: int, confidence: real)
    ensures WithKey(a + b, start, confidence) == WithKey(a, start, confidence) + WithKey(b, start, confidence)
  {
    if a != [] {
      var head := if a[0].start == start && a[0].confidence == confidence then [a[0]] else [];
      assert (a + b)[0] == a[0];
      assert (a + b)[1..] == a[1..] + b;
      WithKeyConcat(a[1..], b, start, confidence);
      calc {
        WithKey(a + b, start, confidence);
        head + WithKey(a[1..] + b, start, confidence);
        head + (WithKey(a[1..], start, confidence) + WithKey(b, start, confidence));
        (head + WithKey(a[1..], start, confidence)) + WithKey(b, start, confidence);
      }
    } else {
      assert a + b == b;
    }
  }

  /** Inserting adds exactly one occurrence of `x`. */
  lemma {:induction false} InsertMultiset(x: PIIResult, s: seq<PIIResult>)
    ensures multiset(Insert(x, s)) == multiset{x} + multiset(s)
  {
    if !(s == [] || KeyLe(x, s[0])) {
      InsertMultiset(x, s[1..]);
      assert s == [s[0]] + s[1..];
    }
  }

  /** Insertion puts `x` before every entry with the same key, so each key's entries stay in order. */
  lemma {:induction false} InsertWithKey(x: PIIResult, s: seq<PIIResult>, start: int, confidence: real)
    ensures WithKey(Insert(x, s), start, confidence) == WithKey([x], start, confidence) + WithKey(s, start, confidence)
  {
    if s == [] || KeyLe(x, s[0]) {
      WithKeyConcat([x], s, start, confidence);
    } else {
      InsertWithKey(x, s[1..], start, confidence);
      WithKeyConcat([s[0]], Insert(x, s[1..]), start, confidence);
      WithKeyConcat([s[0]], s[1..], start, confidence);
      assert s == [s[0]] + s[1..];
    }
  }

  /** Putting in front of a key-sorted list an entry whose key is no larger than any of its keys keeps it sorted. */
  lemma ConsKeySorted(x: PIIResult, s: seq<PIIResult>)
    requires KeySorted(s)
    requires forall y :: y in s ==> KeyLe(x, y)
    ensures KeySorted([x] + s)
  {
    forall i, j | 0 <= i < j < |[x] + s| ensures KeyLe(([x] + s)[i], ([x] + s)[j]) {
      assert ([x] + s)[j] == s[j - 1];
      if i > 0 {
        assert ([x] + s)[i] == s[i - 1];
      } else {
        assert s[j - 1] in s;
      }
    }
  }

  /** An entry of `Insert(x, s)` is `x` or an entry of `s`. */
  lemma InsertMembers(x: PIIResult, s: seq<PIIResult>, y: PIIResult)
    requires y in Insert(x, s)
    ensures y == x || y in s
  {
    InsertMultiset(x, s);
    assert y in multiset(Insert(x, s));
  }

  lemma {:induction false} InsertSorted(x: PIIResult, s: seq<PIIResult>)
    requires KeySorted(s)
    ensures KeySorted(Insert(x, s))
  {
    if s == [] || KeyLe(x, s[0]) {
      forall y | y in s ensures KeyLe(x, y) {
        var k :| 0 <= k < |s| && s[k] == y;
        assert k == 0 || KeyLe(s[0], s[k]);
      }
      ConsKeySorted(x, s);
    } else {
      var rest := Insert(x, s[1..]);
      assert KeySorted(s[1..]) by {
        forall i, j | 0 <= i < j < |s[1..]| ensures KeyLe(s[1..][i], s[1..][j]) {
          assert s[1..][i] == s[i + 1] && s[1..][j] == s[j + 1];
        }
      }
      InsertSorted(x, s[1..]);
      forall y | y in rest ensures KeyLe(s[0], y) {
        InsertMembers(x, s[1..], y);
        if y != x {
          var k :| 0 <= k < |s[1..]| && s[1..][k] == y;
          assert s[k + 1] == y;
        }
      }
      ConsKeySorted(s[0], rest);
    }
  }

  /**
   * What `list.sort(key=lambda x: (x.start, -x.confidence))` promises: the
   * result is sorted by key, is a permutation of the input, and is stable
   * (for every key, the entries carrying it appear in input order).
   */
  lemma {:induction false} SortByKeySpec(s: seq<PIIResult>)
    ensures KeySorted(SortByKey(s))
    ensures multiset(SortByKey(s)) == multiset(s)
    ensures forall start, confidence :: WithKey(SortByKey(s), start, confidence) == WithKey(s, start, confidence)
  {
    if s != [] {
      SortByKeySpec(s[1..]);
      InsertSorted(s[0], SortByKey(s[1..]));
      InsertMultiset(s[0], SortByKey(s[1..]));
      assert s == [s[0]] + s[1..];
      forall start, confidence
        ensures WithKey(SortByKey(s), start, confidence) == WithKey(s, start, confidence)
      {
        InsertWithKey(s[0], SortByKey(s[1..]), start, confidence);
        WithKeyConcat([s[0]], s[1..], start, confidence);
      }
    }
  }

  /** Sorting by key sorts by start. */
  lemma KeySortedIsStartSorted(s: seq<PIIResult>)
    requires KeySorted(s)
    ensures StartSorted(s)
  {
  }

  /** Sorting keeps every pair of inputs disjoint, so a pairwise disjoint pool stays so. */
  lemma {:induction false} SortKeepsPairwiseDisjoint(s: seq<PIIResult>)
    requires PairwiseDisjoint(s)
    ensures PairwiseDisjoint(SortByKey(s))
  {
    if s != [] {
      assert PairwiseDisjoint(s[1..]) by {
        forall i, j | 0 <= i < j < |s[1..]| ensures Disjoint(s[1..][i], s[1..][j]) {
          assert s[1..][i] == s[i + 1] && s[1..][j] == s[j + 1];
        }
      }
      SortKeepsPairwiseDisjoint(s[1..]);
      var t := SortByKey(s[1..]);
      SortByKeySpec(s[1..]);
      forall y | y in t ensures Disjoint(s[0], y) {
        assert y in multiset(s[1..]);
        var k :| 0 <= k < |s[1..]| && s[1..][k] == y;
        assert s[k + 1] == y;
      }
      InsertKeepsPairwiseDisjoint(s[0], t);
    }
  }

  /** Putting in front of a pairwise disjoint list an entry disjoint from all of it keeps it pairwise disjoint. */
  lemma ConsPairwiseDisjoint(x: PIIResult, s: seq<PIIResult>)
    requires PairwiseDisjoint(s)
    requires forall y :: y in s ==> Disjoint(x, y)
    ensures PairwiseDisjoint([x] + s)
  {
    forall i, j | 0 <= i < j < |[x] + s| ensures Disjoint(([x] + s)[i], ([x] + s)[j]) {
      assert ([x] + s)[j] == s[j - 1];
      if i > 0 {
        assert ([x] + s)[i] == s[i - 1];
      } else {
        assert s[j - 1] in s;
      }
    }
  }

  lemma {:induction false} InsertKeepsPairwiseDisjoint(x: PIIResult, s: seq<PIIResult>)
    requires PairwiseDisjoint(s)
    requires forall y :: y in s ==> Disjoint(x, y)
    ensures PairwiseDisjoint(Insert(x, s))
  {
    if s == [] || KeyLe(x, s[0]) {
      ConsPairwiseDisjoint(x, s);
    } else {
      assert PairwiseDisjoint(s[1..]) by {
        forall i, j | 0 <= i < j < |s[1..]| ensures Disjoint(s[1..][i], s[1..][j]) {
          assert s[1..][i] == s[i + 1] && s[1..][j] == s[j + 1];
        }
      }
      InsertKeepsPairwiseDisjoint(x, s[1..]);
      var rest := Insert(x, s[1..]);
      forall y | y in rest ensures Disjoint(s[0], y) {
        InsertMembers(x, s[1..], y);
        if y == x {
          assert s[0] in s;
        } else {
          var k :| 0 <= k < |s[1..]| && s[1..][k] == y;
          assert s[k + 1] == y;
        }
      }
      ConsPairwiseDisjoint(s[0], rest);
    }
  }
}
