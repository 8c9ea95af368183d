/**
 * The context scorer: a window of up to 50 characters on either side of a
 * result is cut out of the analysed text, lower-cased, and scored by how
 * many of twelve fixed indicator words occur in it.
 */
module Context {
  import opened Results

  const CONTEXT_WINDOW: int := 50

  /** The indicator words, in the order the detector lists them. */
  const INDICATORS: seq<string> :=
    ["ssn", "social", "credit", "card", "phone", "email",
     "address", "number", "id", "account", "dob", "birth"]

  function Max(a: int, b: int): int { if a < b then b else a }

  function Min(a: int, b: int): int { if a < b then a else b }

  /**
   * Where a slice index of a string of length `n` lands: a negative index
   * counts from the end, and the result is clamped into [0, n].
   */
  function SliceIndex(i: int, n: nat): (k: nat)
    ensures k <= n
    ensures 0 <= i <= n ==> k == i
  {
    if i < 0 then (if i + n < 0 then 0 else i + n)
    else if i > n then n
    else i
  }

  /** The slice `s[i:j]` with its negative-index and out-of-range rules. */
  function Slice(s: string, i: int, j: int): (r: string)
    ensures |r| <= |s|
    ensures 0 <= i <= j <= |s| ==> r == s[i..j]
  {
    var lo, hi := SliceIndex(i, |s|), SliceIndex(j, |s|);
    if lo < hi then s[lo..hi] else []
  }

  /** Lower-casing of one character (A to Z only). */
  function LowerChar(c: char): char
  {
    if 'A' <= c <= 'Z' then (c as int - 'A' as int + 'a' as int) as char else c
  }

  /** `s.lower()`: every character lower-cased, in place. */
  function Lower(s: string): string
  {
    seq(|s|, i requires 0 <= i < |s| => LowerChar(s[i]))
  }

  /** A substring of a substring is a substring. */
  lemma SliceOfSlice(s: string, lo: int, hi: int, i: int, j: int)
    requires 0 <= lo <= hi <= |s| && 0 <= i <= j <= hi - lo
    ensures s[lo..hi][i..j] == s[lo + i..lo + j]
  {
    assert forall k :: 0 <= k < j - i ==> s[lo..hi][i..j][k] == s[lo + i + k];
  }

  /** Lower-casing commutes with taking a substring. */
  lemma LowerSlice(s: string, i: int, j: int)
    requires 0 <= i <= j <= |s|
    ensures Lower(s)[i..j] == Lower(s[i..j])
  {
  }

  /** `needle` occurs in `haystack` starting at offset `k`. */
  predicate OccursAt(haystack: string, needle: string, k: int)
  {
    0 <= k <= |haystack| - |needle| && haystack[k..k + |needle|] == needle
  }

  /** Substring test, `needle in haystack`: the needle is a prefix of some suffix of the haystack. */
  predicate Contains(haystack: string, needle: string)
    decreases |haystack|
  {
    |needle| <= |haystack| && (haystack[..|needle|] == needle || Contains(haystack[1..], needle))
  }

  /** The substring test holds exactly when the needle occurs at some offset. */
  lemma {:induction false} ContainsIff(haystack: string, needle: string)
    ensures Contains(haystack, needle) <==> exists k :: OccursAt(haystack, needle, k)
    decreases |haystack|
  {
    if |needle| <= |haystack| {
      if haystack[..|needle|] == needle {
        assert OccursAt(haystack, needle, 0);
      } else {
        var rest := haystack[1..];
        ContainsIff(rest, needle);
        if Contains(rest, needle) {
          var k :| OccursAt(rest, needle, k);
          assert rest[k..k + |needle|] == haystack[k + 1..k + 1 + |needle|];
          assert OccursAt(haystack, needle, k + 1);
        }
        if exists k :: OccursAt(haystack, needle, k) {
          var k :| OccursAt(haystack, needle, k);
          assert k != 0 by {
            assert haystack[..|needle|] == haystack[0..|needle|];
          }
          assert rest[k - 1..k - 1 + |needle|] == haystack[k..k + |needle|];
          assert OccursAt(rest, needle, k - 1);
        }
      }
    }
  }

  /** The lower-cased window around `result` that the scorer searches. */
  function ContextOf(fullText: string, result: PIIResult): string
  {
    Lower(Slice(fullText, Max(0, result.start - CONTEXT_WINDOW), Min(|fullText|, result.end + CONTEXT_WINDOW)))
  }

  /** How many of `indicators` occur in `context` (each counted once, however often it occurs). */
  function IndicatorCount(context: string, indicators: seq<string>): (n: nat)
    ensures n <= |indicators|
  {
    if indicators == [] then 0
    else (if Contains(context, indicators[0]) then 1 else 0) + IndicatorCount(context, indicators[1..])
  }

  /** The count is 0 exactly when no indicator occurs. */
  lemma {:induction false} IndicatorCountNoneIff(context: string, indicators: seq<string>)
    ensures IndicatorCount(context, indicators) == 0
      <==> forall i :: 0 <= i < |indicators| ==> !Contains(context, indicators[i])
  {
    if indicators != [] {
      var rest := indicators[1..];
      IndicatorCountNoneIff(context, rest);
      assert forall i :: 1 <= i < |indicators| ==> indicators[i] == rest[i - 1];
    }
  }

  /** `min(1.0, count * 0.3)` */
  function ScoreOfCount(count: nat): real
  {
    if count as real * 0.3 < 1.0 then count as real * 0.3 else 1.0
  }

  /** _analyze_context: the score of the window around `result`, which lies in [0, 1]. */
  function AnalyzeContext(fullText: string, result: PIIResult): (score: real)
    ensures 0.0 <= score <= 1.0
  {
    ScoreOfCount(IndicatorCount(ContextOf(fullText, result), INDICATORS))
  }

  /** The context score is 0 exactly when no indicator occurs in the window, and 1 exactly when four or more do. */
  lemma AnalyzeContextExtremes(fullText: string, result: PIIResult)
    ensures AnalyzeContext(fullText, result) == 0.0
      <==> forall i :: 0 <= i < |INDICATORS| ==> !Contains(ContextOf(fullText, result), INDICATORS[i])
    ensures AnalyzeContext(fullText, result) == 1.0 <==> IndicatorCount(ContextOf(fullText, result), INDICATORS) >= 4
  {
    IndicatorCountNoneIff(ContextOf(fullText, result), INDICATORS);
  }

  /** Indicators that occur in `context`, as a set. */
  function Present(context: string, indicators: seq<string>): set<string>
  {
    set ind | ind in indicators && Contains(context, ind)
  }

  predicate Distinct(s: seq<string>)
  {
    forall i, j :: 0 <= i < j < |s| ==> s[i] != s[j]
  }

  lemma IndicatorsDistinct()
    ensures Distinct(INDICATORS)
  {
  }

  /** Over a list without repeats, the count is the number of distinct indicators present. */
  lemma {:induction false} IndicatorCountIsPresentSize(context: string, indicators: seq<string>)
    requires Distinct(indicators)
    ensures IndicatorCount(context, indicators) == |Present(context, indicators)|
  {
    if indicators != [] {
      var rest := indicators[1..];
      assert Distinct(rest) by {
        forall i, j | 0 <= i < j < |rest| ensures rest[i] != rest[j] {
          assert rest[i] == indicators[i + 1] && rest[j] == indicators[j + 1];
        }
      }
      IndicatorCountIsPresentSize(context, rest);
      assert indicators[0] !in rest;
      var head := if Contains(context, indicators[0]) then {indicators[0]} else {};
      assert Present(context, indicators) == head + Present(context, rest);
      assert head !! Present(context, rest);
    }
  }

  /**
   * The context score is `min(1, 0.3 * k)` where k is the number of distinct
   * indicator words found in the window.
   */
  lemma AnalyzeContextCountsDistinct(fullText: string, result: PIIResult)
    ensures AnalyzeContext(fullText, result) == ScoreOfCount(|Present(ContextOf(fullText, result), INDICATORS)|)
  {
    IndicatorsDistinct();
    IndicatorCountIsPresentSize(ContextOf(fullText, result), INDICATORS);
  }

  /**
   * For a span inside the text, the window is the text from 50 characters
   * before the span to 50 after it, clamped to the text, lower-cased.
   */
  lemma ContextWindow(fullText: string, result: PIIResult)
    requires 0 <= result.start <= result.end <= |fullText|
    ensures ContextOf(fullText, result)
      == Lower(fullText[Max(0, result.start - CONTEXT_WINDOW)..Min(|fullText|, result.end + CONTEXT_WINDOW)])
  {
  }

  /** The span's own characters, lower-cased, are part of the window. */
  lemma WindowCoversSpan(fullText: string, result: PIIResult)
    requires 0 <= result.start <= result.end <= |fullText|
    ensures var lo := Max(0, result.start - CONTEXT_WINDOW);
      Lower(fullText[result.start..result.end]) == ContextOf(fullText, result)[result.start - lo..result.end - lo]
  {
    var lo, hi := Max(0, result.start - CONTEXT_WINDOW), Min(|fullText|, result.end + CONTEXT_WINDOW);
    var i, j := result.start - lo, result.end - lo;
    ContextWindow(fullText, result);
    SliceOfSlice(fullText, lo, hi, i, j);
    LowerSlice(fullText[lo..hi], i, j);
  }
}
