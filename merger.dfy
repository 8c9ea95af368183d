/**
 * The overlap merger: pool both layers' results, sort them by
 * (start, -confidence), then sweep left to right keeping a list in which an
 * overlapping newcomer can only take the place of the last kept result, and
 * only when its confidence is strictly greater.
 */
module Merger {
  import opened Results
  import opened Seqs
  import opened Sorting

  /**
   * One turn of the sweep over the sorted pool: `result` is appended when the
   * list is empty or it starts at or after the end of the last kept result;
   * otherwise it overwrites the last kept result if its confidence is strictly
   * greater, and is dropped if not.
   */
  function Step(merged: seq<PIIResult>, result: PIIResult): seq<PIIResult>
  {
    if merged == [] || result.start >= merged[|merged| - 1].end then merged + [result]
    else if result.confidence > merged[|merged| - 1].confidence then merged[|merged| - 1 := result]
    else merged
  }

  /** The list the sweep has built after visiting all of `s`, in order. */
  function Sweep(s: seq<PIIResult>): (merged: seq<PIIResult>)
    ensures |merged| <= |s|
    ensures s != [] ==> merged != []
    decreases |s|
  {
    if s == [] then [] else Step(Sweep(s[..|s| - 1]), s[|s| - 1])
  }

  /** The value `merge_results(ml_results, rule_results)` returns. */
  function Merge(ml: seq<PIIResult>, rules: seq<PIIResult>): seq<PIIResult>
  {
    Sweep(SortByKey(ml + rules))
  }

  /** One turn keeps the list a subsequence of what has been visited. */
  lemma StepSubseq(m: seq<PIIResult>, visited: seq<PIIResult>, r: PIIResult)
    requires Subseq(m, visited)
    ensures Subseq(Step(m, r), visited + [r])
  {
    if m == [] || r.start >= m[|m| - 1].end {
      SubseqAppend(m, visited, r);
    } else if r.confidence > m[|m| - 1].confidence {
      assert m[|m| - 1 := r] == m[..|m| - 1] + [r];
      SubseqDropLast(m, visited);
      SubseqAppend(m[..|m| - 1], visited, r);
    } else {
      SubseqExtend(m, visited, r);
    }
  }

  /** The sweep keeps input entries only, in input order, each at most once. */
  lemma {:induction false} SweepSubseq(s: seq<PIIResult>)
    ensures Subseq(Sweep(s), s)
    decreases |s|
  {
    if s != [] {
      var s', r := s[..|s| - 1], s[|s| - 1];
      var m := Sweep(s');
      SweepSubseq(s');
      StepSubseq(m, s', r);
      assert Sweep(s) == Step(m, r);
      assert s == s' + [r];
    }
  }

  /**
   * Appending a result that starts at or after the last kept result's start
   * and end keeps the list free of overlaps.
   */
  lemma AppendKeepsNonOverlapping(m: seq<PIIResult>, r: PIIResult)
    requires NonOverlapping(m)
    requires m == [] || (m[|m| - 1].start <= r.start && m[|m| - 1].end <= r.start)
    ensures NonOverlapping(m + [r])
  {
    var k := |m| - 1;
    forall i, j | 0 <= i < j < |m + [r]| ensures Before((m + [r])[i], (m + [r])[j]) {
      if j == |m| {
        assert (m + [r])[j] == r && (m + [r])[i] == m[i];
        if i < k {
          assert Before(m[i], m[k]);
        }
      } else {
        assert (m + [r])[i] == m[i] && (m + [r])[j] == m[j];
      }
    }
  }

  /** Overwriting the last kept result with one that starts no earlier keeps the list free of overlaps. */
  lemma ReplaceLastKeepsNonOverlapping(m: seq<PIIResult>, r: PIIResult)
    requires NonOverlapping(m) && m != []
    requires m[|m| - 1].start <= r.start
    ensures NonOverlapping(m[|m| - 1 := r])
  {
    var k := |m| - 1;
    var m' := m[k := r];
    forall i, j | 0 <= i < j < |m'| ensures Before(m'[i], m'[j]) {
      if j == k {
        assert Before(m[i], m[k]);
      }
    }
  }

  /** Over a pool sorted by start, every kept result ends before every later kept result starts. */
  lemma {:induction false} SweepNonOverlapping(s: seq<PIIResult>)
    requires StartSorted(s)
    ensures NonOverlapping(Sweep(s))
    decreases |s|
  {
    if s != [] {
      var s', r := s[..|s| - 1], s[|s| - 1];
      var m := Sweep(s');
      assert StartSorted(s') by {
        forall i, j | 0 <= i < j < |s'| ensures StartLe(s'[i], s'[j]) {
          assert s'[i] == s[i] && s'[j] == s[j];
        }
      }
      SweepNonOverlapping(s');
      if m != [] {
        SweepSubseq(s');
        SubseqMultiset(m, s');
        var x := m[|m| - 1];
        assert x in multiset(s');
        var k :| 0 <= k < |s'| && s'[k] == x;
        assert StartLe(s[k], s[|s| - 1]);
        if r.start >= x.end {
          AppendKeepsNonOverlapping(m, r);
        } else if r.confidence > x.confidence {
          ReplaceLastKeepsNonOverlapping(m, r);
        }
      } else {
        AppendKeepsNonOverlapping(m, r);
      }
    }
  }

  /** A pool that is already free of overlaps passes through the sweep untouched. */
  lemma {:induction false} SweepKeepsNonOverlapping(s: seq<PIIResult>)
    requires NonOverlapping(s)
    ensures Sweep(s) == s
    decreases |s|
  {
    if s != [] {
      var s', r := s[..|s| - 1], s[|s| - 1];
      assert NonOverlapping(s') by {
        forall i, j | 0 <= i < j < |s'| ensures Before(s'[i], s'[j]) {
          assert s'[i] == s[i] && s'[j] == s[j];
        }
      }
      SweepKeepsNonOverlapping(s');
      if s' != [] {
        assert Before(s[|s'| - 1], s[|s| - 1]);
      }
      assert s' + [r] == s;
    }
  }

  /**
   * Only the last kept result is ever revisited: whatever comes later in the
   * pool, every result kept before the last one stays where it is, and the
   * list never gets shorter.
   */
  lemma {:induction false} SweepOnlyLastReplaced(s: seq<PIIResult>, t: seq<PIIResult>)
    ensures |Sweep(s)| <= |Sweep(s + t)|
    ensures Sweep(s) != [] ==> Sweep(s)[..|Sweep(s)| - 1] <= Sweep(s + t)
    decreases |t|
  {
    if t == [] {
      assert s + t == s;
    } else {
      var t', r := t[..|t| - 1], t[|t| - 1];
      SweepOnlyLastReplaced(s, t');
      assert s + t == (s + t') + [r];
      assert (s + t)[..|s + t| - 1] == s + t';
      var m := Sweep(s + t');
      if m != [] {
        assert m[..|m| - 1] <= Step(m, r);
      }
    }
  }

  /**
   * What the merge promises: the output is sorted by start, no two results
   * in it overlap, it takes every result from the pooled input and none more
   * often than the input holds it, and it is empty exactly when both inputs
   * are.
   */
  lemma MergeSound(ml: seq<PIIResult>, rules: seq<PIIResult>)
    ensures StartSorted(Merge(ml, rules))
    ensures NonOverlapping(Merge(ml, rules))
    ensures multiset(Merge(ml, rules)) <= multiset(ml + rules)
    ensures |Merge(ml, rules)| <= |ml| + |rules|
    ensures Merge(ml, rules) == [] <==> ml == [] && rules == []
  {
    var sorted := SortByKey(ml + rules);
    SortByKeySpec(ml + rules);
    assert |sorted| == |ml + rules| by {
      assert |multiset(sorted)| == |multiset(ml + rules)|;
    }
    KeySortedIsStartSorted(sorted);
    SweepNonOverlapping(sorted);
    SweepSubseq(sorted);
    SubseqMultiset(Sweep(sorted), sorted);
    assert StartSorted(Sweep(sorted)) by {
      assert Pairwise(sorted, StartLe);
      SubseqPairwise(Sweep(sorted), sorted, StartLe);
    }
  }

  /** With well-formed spans the merged starts strictly increase. */
  lemma MergeStartsIncrease(ml: seq<PIIResult>, rules: seq<PIIResult>)
    requires AllWellFormed(ml + rules)
    ensures forall i, j :: 0 <= i < j < |Merge(ml, rules)| ==>
      Merge(ml, rules)[i].start < Merge(ml, rules)[j].start
  {
    var merged := Merge(ml, rules);
    MergeSound(ml, rules);
    forall i, j | 0 <= i < j < |merged| ensures merged[i].start < merged[j].start {
      assert merged[i] in multiset(ml + rules);
      var k :| 0 <= k < |ml + rules| && (ml + rules)[k] == merged[i];
      assert WellFormed((ml + rules)[k]);
      assert Before(merged[i], merged[j]);
    }
  }

  /** When no two pooled results overlap, the merge keeps all of them, in sorted order. */
  lemma MergeKeepsDisjointInputs(ml: seq<PIIResult>, rules: seq<PIIResult>)
    requires AllWellFormed(ml + rules)
    requires PairwiseDisjoint(ml + rules)
    ensures Merge(ml, rules) == SortByKey(ml + rules)
    ensures multiset(Merge(ml, rules)) == multiset(ml + rules)
  {
    var sorted := SortByKey(ml + rules);
    SortByKeySpec(ml + rules);
    SortKeepsPairwiseDisjoint(ml + rules);
    forall i, j | 0 <= i < j < |sorted| ensures Before(sorted[i], sorted[j]) {
      assert sorted[j] in multiset(ml + rules);
      var k :| 0 <= k < |ml + rules| && (ml + rules)[k] == sorted[j];
      assert WellFormed((ml + rules)[k]);
      assert KeyLe(sorted[i], sorted[j]);
      assert Disjoint(sorted[i], sorted[j]);
    }
    SweepKeepsNonOverlapping(sorted);
  }

  /** Merging two pooled results: sort the pair, then one turn of the sweep after the first. */
  lemma MergeTwo(x: PIIResult, y: PIIResult)
    ensures Merge([x], [y]) == if KeyLe(x, y) then Step([x], y) else Step([y], x)
  {
    assert [x] + [y] == [x, y];
    assert SortByKey([y]) == [y] by {
      assert [y][1..] == [];
    }
    assert SortByKey([x, y]) == if KeyLe(x, y) then [x, y] else [y, x] by {
      assert [x, y][1..] == [y];
      assert Insert(x, []) == [x];
    }
    SweepTwo(x, y);
    SweepTwo(y, x);
  }

  lemma SweepTwo(x: PIIResult, y: PIIResult)
    ensures Sweep([x, y]) == Step([x], y)
  {
    assert [x, y][..1] == [x];
    assert Sweep([x]) == [x] by {
      assert [x][..0] == [];
    }
  }

  /**
   * Two results that start together: the more confident one survives,
   * whichever layer delivers it.
   */
  lemma MergeSameStartHigherWins(a: PIIResult, b: PIIResult)
    requires a.start == b.start && a.confidence > b.confidence && WellFormed(a)
    ensures Merge([a], [b]) == [a] && Merge([b], [a]) == [a]
  {
    MergeTwo(a, b);
    MergeTwo(b, a);
  }


  /**
   * Two results with the same start and the same confidence: the stable sort
   * keeps their pooled order, and the one that comes first survives.
   */
  lemma MergeEqualKeysKeepPooledOrder(a: PIIResult, b: PIIResult)
    requires a.start == b.start && a.confidence == b.confidence && WellFormed(a) && WellFormed(b)
    ensures Merge([a], [b]) == [a] && Merge([b], [a]) == [b]
  {
    MergeTwo(a, b);
    MergeTwo(b, a);
  }


  /**
   * A result that starts inside an earlier one replaces it only when it is
   * strictly more confident; on equal confidence the earlier one stays.
   */
  lemma MergeLaterOverlapping(a: PIIResult, b: PIIResult)
    requires a.start < b.start < a.end
    ensures Merge([a], [b]) == Merge([b], [a])
    ensures Merge([a], [b]) == if b.confidence > a.confidence then [b] else [a]
  {
    MergeTwo(a, b);
    MergeTwo(b, a);
  }


  /**
   * merge_results: pools both lists, sorts a copy by (start, -confidence)
   * and sweeps it, appending to `merged` or overwriting its last element.
   */
  method MergeResults(mlResults: seq<PIIResult>, ruleResults: seq<PIIResult>) returns (merged: seq<PIIResult>)
    ensures merged == Merge(mlResults, ruleResults)
    ensures StartSorted(merged) && NonOverlapping(merged)
    ensures multiset(merged) <= multiset(mlResults + ruleResults)
  {
    var allResults := SortByKey(mlResults + ruleResults);
    merged := [];
    var i := 0;
    while i < |allResults|
      invariant 0 <= i <= |allResults|
      invariant merged == Sweep(allResults[..i])
    {
      var result := allResults[i];
      assert allResults[..i + 1][..i] == allResults[..i];
      if merged == [] || result.start >= merged[|merged| - 1].end {
        merged := merged + [result];
      } else if result.confidence > merged[|merged| - 1].confidence {
        merged := merged[|merged| - 1 := result];
      }
      i := i + 1;
    }
    assert allResults[..i] == allResults;
    MergeSound(mlResults, ruleResults);
  }
}
