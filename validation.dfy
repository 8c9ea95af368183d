/**
 * The validation gate: every merged result is re-scored from its detector
 * confidence, its context and its entropy; a result whose fused score
 * reaches the minimum confidence has its confidence overwritten with that
 * score and is kept, any other result is dropped and left as it was.
 */
module Validation {
  import opened Results
  import opened Seqs
  import Context
  import opened Scoring

  /** The fused score the gate computes for `candidate`. */
  function Fused(settings: Settings, shannon: string -> real, text: string, candidate: PIIResult): real
  {
    FinalConfidence(
      candidate.confidence,
      Context.AnalyzeContext(text, candidate),
      CalculateEntropy(shannon, candidate.text) > settings.entropyThreshold)
  }

  /** The fused score of every candidate, in order. */
  function FusedScores(settings: Settings, shannon: string -> real, text: string, candidates: seq<PIIResult>): (scores: seq<real>)
    ensures |scores| == |candidates|
  {
    seq(|candidates|, i requires 0 <= i < |candidates| => Fused(settings, shannon, text, candidates[i]))
  }

  /**
   * A record once the gate has given it the fused score `fused`: only its
   * confidence can change, a kept record carries `fused` (at least the
   * minimum), and a rejected record is untouched.
   */
  function Rescored(candidate: PIIResult, fused: real, minConfidence: real): (r: PIIResult)
    ensures SameSpan(candidate, r)
    ensures fused >= minConfidence ==> r.confidence == fused
    ensures fused < minConfidence ==> r == candidate
  {
    if fused >= minConfidence then candidate.(confidence := fused) else candidate
  }

  /** The gate's output when `fused[i]` is the fused score of `candidates[i]`. */
  function Gate(candidates: seq<PIIResult>, fused: seq<real>, minConfidence: real): seq<PIIResult>
    requires |fused| == |candidates|
    decreases |candidates|
  {
    if candidates == [] then []
    else
      var n := |candidates| - 1;
      Gate(candidates[..n], fused[..n], minConfidence)
      + (if fused[n] >= minConfidence then [Rescored(candidates[n], fused[n], minConfidence)] else [])
  }

  /** One more candidate extends the gate's output by at most its own rescored record. */
  lemma GateStep(candidates: seq<PIIResult>, fused: seq<real>, minConfidence: real, i: nat)
    requires |fused| == |candidates| && i < |candidates|
    ensures Gate(candidates[..i + 1], fused[..i + 1], minConfidence)
      == Gate(candidates[..i], fused[..i], minConfidence)
         + (if fused[i] >= minConfidence then [Rescored(candidates[i], fused[i], minConfidence)] else [])
  {
    assert candidates[..i + 1][..i] == candidates[..i] && fused[..i + 1][..i] == fused[..i];
  }

  /** Every candidate record, rescored, in input order. */
  function AfterGate(candidates: seq<PIIResult>, fused: seq<real>, minConfidence: real): seq<PIIResult>
    requires |fused| == |candidates|
  {
    seq(|candidates|, i requires 0 <= i < |candidates| => Rescored(candidates[i], fused[i], minConfidence))
  }

  /** The list `validate_statistical_layer` returns for `candidates`. */
  function Validated(settings: Settings, shannon: string -> real, text: string, candidates: seq<PIIResult>): seq<PIIResult>
  {
    Gate(candidates, FusedScores(settings, shannon, text, candidates), settings.minConfidence)
  }

  /** The candidate records as they stand after `validate_statistical_layer`. */
  function AfterValidation(settings: Settings, shannon: string -> real, text: string, candidates: seq<PIIResult>): seq<PIIResult>
  {
    AfterGate(candidates, FusedScores(settings, shannon, text, candidates), settings.minConfidence)
  }

  /** Every kept result's confidence reaches the minimum. */
  lemma {:induction false} GateAboveThreshold(candidates: seq<PIIResult>, fused: seq<real>, minConfidence: real)
    requires |fused| == |candidates|
    ensures forall i :: 0 <= i < |Gate(candidates, fused, minConfidence)| ==>
      Gate(candidates, fused, minConfidence)[i].confidence >= minConfidence
    decreases |candidates|
  {
    if candidates != [] {
      var n := |candidates| - 1;
      GateAboveThreshold(candidates[..n], fused[..n], minConfidence);
    }
  }

  /**
   * The gate's output is an order-preserving subsequence of the rescored
   * candidates, so it is no longer than its input.
   */
  lemma {:induction false} GateSubsequence(candidates: seq<PIIResult>, fused: seq<real>, minConfidence: real)
    requires |fused| == |candidates|
    ensures Subseq(Gate(candidates, fused, minConfidence), AfterGate(candidates, fused, minConfidence))
    ensures |Gate(candidates, fused, minConfidence)| <= |candidates|
    decreases |candidates|
  {
    var out := Gate(candidates, fused, minConfidence);
    var after := AfterGate(candidates, fused, minConfidence);
    if candidates != [] {
      var n := |candidates| - 1;
      var outInit := Gate(candidates[..n], fused[..n], minConfidence);
      var afterInit := AfterGate(candidates[..n], fused[..n], minConfidence);
      var last := Rescored(candidates[n], fused[n], minConfidence);
      GateSubsequence(candidates[..n], fused[..n], minConfidence);
      assert after == afterInit + [last];
      if fused[n] >= minConfidence {
        assert out == outInit + [last];
        SubseqAppend(outInit, afterInit, last);
      } else {
        assert out == outInit;
        SubseqExtend(outInit, afterInit, last);
      }
    } else {
      assert out == [];
    }
    SubseqMultiset(out, after);
  }

  /** Every record the gate keeps is some candidate that passes, carrying its fused score. */
  lemma {:induction false} GateOrigin(candidates: seq<PIIResult>, fused: seq<real>, minConfidence: real, x: PIIResult)
    requires |fused| == |candidates|
    requires x in Gate(candidates, fused, minConfidence)
    ensures exists i :: 0 <= i < |candidates| && fused[i] >= minConfidence && x == candidates[i].(confidence := fused[i])
    decreases |candidates|
  {
    var n := |candidates| - 1;
    var init, fusedInit := candidates[..n], fused[..n];
    if fused[n] >= minConfidence && x == Rescored(candidates[n], fused[n], minConfidence) {
      assert x == candidates[n].(confidence := fused[n]);
    } else {
      assert x in Gate(init, fusedInit, minConfidence);
      GateOrigin(init, fusedInit, minConfidence, x);
      var i :| 0 <= i < n && fusedInit[i] >= minConfidence && x == init[i].(confidence := fusedInit[i]);
      assert candidates[i] == init[i] && fused[i] == fusedInit[i];
    }
  }

  /** Every candidate that passes is kept, carrying its fused score. */
  lemma {:induction false} GateHas(candidates: seq<PIIResult>, fused: seq<real>, minConfidence: real, i: nat)
    requires |fused| == |candidates|
    requires i < |candidates| && fused[i] >= minConfidence
    ensures candidates[i].(confidence := fused[i]) in Gate(candidates, fused, minConfidence)
    decreases |candidates|
  {
    var n := |candidates| - 1;
    var init, fusedInit := candidates[..n], fused[..n];
    if i < n {
      assert init[i] == candidates[i] && fusedInit[i] == fused[i];
      GateHas(init, fusedInit, minConfidence, i);
    }
  }

  /** A record is in the gate's output exactly when it is the rescored form of a candidate that passes. */
  lemma GateMembership(candidates: seq<PIIResult>, fused: seq<real>, minConfidence: real, x: PIIResult)
    requires |fused| == |candidates|
    ensures x in Gate(candidates, fused, minConfidence) <==>
      exists i :: 0 <= i < |candidates| && fused[i] >= minConfidence && x == candidates[i].(confidence := fused[i])
  {
    if x in Gate(candidates, fused, minConfidence) {
      GateOrigin(candidates, fused, minConfidence, x);
    }
    if exists i :: 0 <= i < |candidates| && fused[i] >= minConfidence && x == candidates[i].(confidence := fused[i]) {
      var i :| 0 <= i < |candidates| && fused[i] >= minConfidence && x == candidates[i].(confidence := fused[i]);
      GateHas(candidates, fused, minConfidence, i);
    }
  }

  /** The gate keeps the merged spans' order: a sorted, non-overlapping input gives a sorted, non-overlapping output. */
  lemma GateKeepsOrder(candidates: seq<PIIResult>, fused: seq<real>, minConfidence: real)
    requires |fused| == |candidates|
    ensures StartSorted(candidates) ==> StartSorted(Gate(candidates, fused, minConfidence))
    ensures NonOverlapping(candidates) ==> NonOverlapping(Gate(candidates, fused, minConfidence))
  {
    var out := Gate(candidates, fused, minConfidence);
    var after := AfterGate(candidates, fused, minConfidence);
    GateSubsequence(candidates, fused, minConfidence);
    if StartSorted(candidates) {
      assert Pairwise(after, StartLe) by {
        forall i, j | 0 <= i < j < |after| ensures StartLe(after[i], after[j]) {
          assert StartLe(candidates[i], candidates[j]);
        }
      }
      SubseqPairwise(out, after, StartLe);
    }
    if NonOverlapping(candidates) {
      assert Pairwise(after, Before) by {
        forall i, j | 0 <= i < j < |after| ensures Before(after[i], after[j]) {
          assert Before(candidates[i], candidates[j]);
        }
      }
      SubseqPairwise(out, after, Before);
    }
  }

  /**
   * What validate_statistical_layer promises about its result: an
   * order-preserving subsequence of the records as it leaves them, every
   * kept confidence at least the minimum, and the merge's order kept.
   */
  lemma ValidatedSound(settings: Settings, shannon: string -> real, text: string, candidates: seq<PIIResult>)
    ensures Subseq(Validated(settings, shannon, text, candidates), AfterValidation(settings, shannon, text, candidates))
    ensures |Validated(settings, shannon, text, candidates)| <= |candidates|
    ensures forall x :: x in Validated(settings, shannon, text, candidates) ==> x.confidence >= settings.minConfidence
    ensures StartSorted(candidates) ==> StartSorted(Validated(settings, shannon, text, candidates))
    ensures NonOverlapping(candidates) ==> NonOverlapping(Validated(settings, shannon, text, candidates))
  {
    var scores := FusedScores(settings, shannon, text, candidates);
    GateSubsequence(candidates, scores, settings.minConfidence);
    GateAboveThreshold(candidates, scores, settings.minConfidence);
    GateKeepsOrder(candidates, scores, settings.minConfidence);
  }

  /**
   * A record is kept exactly when its fused score reaches the minimum, and
   * it is kept with that score as its confidence.
   */
  lemma ValidatedMembership(settings: Settings, shannon: string -> real, text: string, candidates: seq<PIIResult>, x: PIIResult)
    ensures x in Validated(settings, shannon, text, candidates) <==>
      exists i :: 0 <= i < |candidates| && Fused(settings, shannon, text, candidates[i]) >= settings.minConfidence
        && x == candidates[i].(confidence := Fused(settings, shannon, text, candidates[i]))
  {
    var scores := FusedScores(settings, shannon, text, candidates);
    GateMembership(candidates, scores, settings.minConfidence, x);
  }

  /**
   * The records after the gate: each keeps its span, text, type and layer;
   * one that passes carries its fused score, one that fails is unchanged.
   */
  lemma AfterValidationAt(settings: Settings, shannon: string -> real, text: string, candidates: seq<PIIResult>, i: nat)
    requires i < |candidates|
    ensures |AfterValidation(settings, shannon, text, candidates)| == |candidates|
    ensures SameSpan(candidates[i], AfterValidation(settings, shannon, text, candidates)[i])
    ensures Fused(settings, shannon, text, candidates[i]) >= settings.minConfidence ==>
      AfterValidation(settings, shannon, text, candidates)[i].confidence == Fused(settings, shannon, text, candidates[i])
    ensures Fused(settings, shannon, text, candidates[i]) < settings.minConfidence ==>
      AfterValidation(settings, shannon, text, candidates)[i] == candidates[i]
  {
  }

  /** The records once the gate has visited the first `i` of them: those rescored, the rest as they were. */
  function Visited(candidates: seq<PIIResult>, fused: seq<real>, minConfidence: real, i: nat): seq<PIIResult>
    requires |fused| == |candidates| && i <= |candidates|
  {
    AfterGate(candidates[..i], fused[..i], minConfidence) + candidates[i..]
  }

  /** Visiting one more record rescores that record and nothing else. */
  lemma VisitedStep(candidates: seq<PIIResult>, fused: seq<real>, minConfidence: real, i: nat)
    requires |fused| == |candidates| && i < |candidates|
    ensures |Visited(candidates, fused, minConfidence, i)| == |candidates|
    ensures Visited(candidates, fused, minConfidence, i)[i] == candidates[i]
    ensures Visited(candidates, fused, minConfidence, i)[i := Rescored(candidates[i], fused[i], minConfidence)]
      == Visited(candidates, fused, minConfidence, i + 1)
  {
    var before := Visited(candidates, fused, minConfidence, i);
    var after := Visited(candidates, fused, minConfidence, i + 1);
    assert |before| == |after|;
    forall k | 0 <= k < |after| ensures before[i := Rescored(candidates[i], fused[i], minConfidence)][k] == after[k] {
      if k < i {
        assert before[k] == Rescored(candidates[k], fused[k], minConfidence);
      } else if k > i {
        assert before[k] == candidates[k];
      }
    }
  }

  /**
   * validate_statistical_layer over the merged candidates, held in an array
   * because the source overwrites `candidate.confidence` on the shared
   * records: kept records are overwritten in place, rejected ones are not.
   */
  method ValidateStatisticalLayer(settings: Settings, shannon: string -> real, text: string, candidates: array<PIIResult>)
    returns (validated: seq<PIIResult>)
    modifies candidates
    ensures validated == Validated(settings, shannon, text, old(candidates[..]))
    ensures candidates[..] == AfterValidation(settings, shannon, text, old(candidates[..]))
  {
    ghost var original := candidates[..];
    ghost var scores := FusedScores(settings, shannon, text, original);
    validated := [];
    var i := 0;
    while i < candidates.Length
      invariant 0 <= i <= candidates.Length
      invariant validated == Gate(original[..i], scores[..i], settings.minConfidence)
      invariant candidates[..] == Visited(original, scores, settings.minConfidence, i)
    {
      VisitedStep(original, scores, settings.minConfidence, i);
      GateStep(original, scores, settings.minConfidence, i);
      var candidate := candidates[i];
      var entropy := CalculateEntropy(shannon, candidate.text);
      var contextScore := Context.AnalyzeContext(text, candidate);
      var finalConfidence := FinalConfidence(candidate.confidence, contextScore, entropy > settings.entropyThreshold);
      if finalConfidence >= settings.minConfidence {
        candidates[i] := candidate.(confidence := finalConfidence);
        validated := validated + [candidates[i]];
      }
      i := i + 1;
    }
    assert original[..i] == original && scores[..i] == scores;
  }
}
