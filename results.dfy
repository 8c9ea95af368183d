/** The record every detection layer emits, and the span relations the pipeline promises. */
module Results {

  /**
   * A detected span (the PIIResult data class). `start` and `end` are
   * half-open character offsets into the analysed text; nothing in the
   * detector checks them, so any integers are allowed here.
   */
  datatype PIIResult = PIIResult(
    text: string,
    piiType: string,
    confidence: real,
    start: int,
    end: int,
    detectionLayer: string)

  /** A span that covers at least one character. */
  predicate WellFormed(r: PIIResult)
  {
    r.start < r.end
  }

  /** `a` ends at or before the point where `b` starts. */
  predicate Before(a: PIIResult, b: PIIResult)
  {
    a.end <= b.start
  }

  predicate StartLe(a: PIIResult, b: PIIResult)
  {
    a.start <= b.start
  }

  /** Neither span reaches into the other. */
  predicate Disjoint(a: PIIResult, b: PIIResult)
  {
    Before(a, b) || Before(b, a)
  }

  /** Sorted by start, ascending. */
  predicate StartSorted(s: seq<PIIResult>)
  {
    forall i, j :: 0 <= i < j < |s| ==> StartLe(s[i], s[j])
  }

  /** Every span lies wholly before every span after it. */
  predicate NonOverlapping(s: seq<PIIResult>)
  {
    forall i, j :: 0 <= i < j < |s| ==> Before(s[i], s[j])
  }

  /** No two entries (at different positions) overlap, in whatever order they come. */
  predicate PairwiseDisjoint(s: seq<PIIResult>)
  {
    forall i, j :: 0 <= i < j < |s| ==> Disjoint(s[i], s[j])
  }

  predicate AllWellFormed(s: seq<PIIResult>)
  {
    forall i :: 0 <= i < |s| ==> WellFormed(s[i])
  }

  /** `b` differs from `a` at most in its confidence. */
  predicate SameSpan(a: PIIResult, b: PIIResult)
  {
    b == a.(confidence := b.confidence)
  }
}
