/**
 * The detector's top-level `detect`: both layers' results are merged, the
 * merged candidates are validated, and the survivors are reported with a
 * summary holding their number and their mean confidence.
 */
module Pipeline {
  import opened Results
  import opened Scoring
  import Layers
  import Merger
  import Validation

  /** One reported result; `position` is the pair [start, end]. */
  datatype ReportEntry = ReportEntry(text: string, piiType: string, confidence: real, position: (int, int), layer: string)

  datatype Summary = Summary(totalPiiFound: nat, averageConfidence: real)

  /** The dictionary `detect` returns, without its two constant accuracy strings. */
  datatype Report = Report(piiDetected: seq<ReportEntry>, summary: Summary)

  function SumConfidence(rs: seq<PIIResult>): real
    decreases |rs|
  {
    if rs == [] then 0.0 else SumConfidence(rs[..|rs| - 1]) + rs[|rs| - 1].confidence
  }

  /** The mean confidence of `rs`, or 0 when there is none. */
  function AverageConfidence(rs: seq<PIIResult>): (average: real)
    ensures rs == [] ==> average == 0.0
    ensures rs != [] ==> average * (|rs| as real) == SumConfidence(rs)
  {
    if |rs| > 0 then SumConfidence(rs) / (|rs| as real) else 0.0
  }

  /** The report entry for one validated result. */
  function Entry(r: PIIResult): ReportEntry
  {
    ReportEntry(r.text, r.piiType, r.confidence, (r.start, r.end), r.detectionLayer)
  }

  /** The report for the validated results: one entry per result, in order, and the summary. */
  function BuildReport(validated: seq<PIIResult>): (report: Report)
    ensures |report.piiDetected| == |validated| == report.summary.totalPiiFound
    ensures forall i :: 0 <= i < |validated| ==> report.piiDetected[i] == Entry(validated[i])
    ensures report.summary.averageConfidence == AverageConfidence(validated)
  {
    Report(
      seq(|validated|, i requires 0 <= i < |validated| => Entry(validated[i])),
      Summary(|validated|, AverageConfidence(validated)))
  }

  /** A sum of confidences that each lie in [lo, hi] lies between |rs| * lo and |rs| * hi. */
  lemma {:induction false} SumWithinBounds(rs: seq<PIIResult>, lo: real, hi: real)
    requires forall r :: r in rs ==> lo <= r.confidence <= hi
    ensures (|rs| as real) * lo <= SumConfidence(rs) <= (|rs| as real) * hi
    decreases |rs|
  {
    if rs != [] {
      var n := |rs| - 1;
      var init, last := rs[..n], rs[n];
      forall r | r in init ensures lo <= r.confidence <= hi {
        var k :| 0 <= k < n && init[k] == r;
        assert rs[k] == r;
      }
      SumWithinBounds(init, lo, hi);
      assert lo <= last.confidence <= hi by {
        assert last in rs;
      }
      assert SumConfidence(rs) == SumConfidence(init) + last.confidence;
      BoundsStep(n as real, lo, hi, SumConfidence(init), last.confidence);
    }
  }

  /** Adding one value in [lo, hi] to a sum of m such values keeps it within m + 1 times the bounds. */
  lemma BoundsStep(m: real, lo: real, hi: real, sum: real, c: real)
    requires m * lo <= sum <= m * hi && lo <= c <= hi
    ensures (m + 1.0) * lo <= sum + c <= (m + 1.0) * hi
  {
    assert (m + 1.0) * lo == m * lo + lo && (m + 1.0) * hi == m * hi + hi;
  }

  /** The mean of confidences in [lo, hi] is in [lo, hi]. */
  lemma AverageWithinBounds(rs: seq<PIIResult>, lo: real, hi: real)
    requires rs != []
    requires forall r :: r in rs ==> lo <= r.confidence <= hi
    ensures lo <= AverageConfidence(rs) <= hi
  {
    SumWithinBounds(rs, lo, hi);
    var n := |rs| as real;
    var average := AverageConfidence(rs);
    ScaleCancels(lo, average, n);
    ScaleCancels(average, hi, n);
  }

  lemma ScaleCancels(a: real, b: real, n: real)
    requires n > 0.0 && a * n <= b * n
    ensures a <= b
  {
    assert (b - a) * n >= 0.0;
  }

  /** The value `detect` returns for the recogniser's entities and each pattern's matches on `text`. */
  function DetectSpec(settings: Settings, shannon: string -> real, text: string,
                      entities: seq<Layers.Entity>, found: seq<Layers.PatternMatches>): Report
  {
    BuildReport(Validation.Validated(settings, shannon, text,
      Merger.Merge(Layers.MlLayer(entities), Layers.RulesLayer(found))))
  }

  /** The confidences the two layers give their results: the entity scores, and 1.0 for every match. */
  predicate ScoresInUnitRange(entities: seq<Layers.Entity>)
  {
    forall i :: 0 <= i < |entities| ==> 0.0 <= entities[i].score <= 1.0
  }

  /**
   * What the report promises: the count is the number of entries; the
   * entries are in start order and do not overlap; each reaches the minimum
   * confidence, and so does the average when there are entries; with entity
   * scores in [0, 1], no confidence and no average exceeds 1.
   */
  lemma DetectSound(settings: Settings, shannon: string -> real, text: string,
                    entities: seq<Layers.Entity>, found: seq<Layers.PatternMatches>)
    ensures var report := DetectSpec(settings, shannon, text, entities, found);
      report.summary.totalPiiFound == |report.piiDetected|
      && (forall i, j :: 0 <= i < j < |report.piiDetected| ==>
            report.piiDetected[i].position.0 <= report.piiDetected[j].position.0
            && report.piiDetected[i].position.1 <= report.piiDetected[j].position.0)
      && (forall e :: e in report.piiDetected ==> e.confidence >= settings.minConfidence)
      && (report.piiDetected != [] ==> report.summary.averageConfidence >= settings.minConfidence)
  {
    var merged := Merger.Merge(Layers.MlLayer(entities), Layers.RulesLayer(found));
    var validated := Validation.Validated(settings, shannon, text, merged);
    var report := BuildReport(validated);
    Merger.MergeSound(Layers.MlLayer(entities), Layers.RulesLayer(found));
    Validation.ValidatedSound(settings, shannon, text, merged);
    forall e | e in report.piiDetected ensures e.confidence >= settings.minConfidence {
      var i :| 0 <= i < |report.piiDetected| && report.piiDetected[i] == e;
      assert validated[i] in validated;
    }
    if validated != [] {
      forall r | r in validated ensures settings.minConfidence <= r.confidence <= MaxConfidence(validated) {
        MaxIsUpperBound(validated, r);
      }
      AverageWithinBounds(validated, settings.minConfidence, MaxConfidence(validated));
    }
  }

  /** Every candidate either layer produces has a confidence in [0, 1] when the entity scores are. */
  lemma LayerScoresInUnitRange(entities: seq<Layers.Entity>, found: seq<Layers.PatternMatches>, r: PIIResult)
    requires ScoresInUnitRange(entities)
    requires r in Layers.MlLayer(entities) + Layers.RulesLayer(found)
    ensures 0.0 <= r.confidence <= 1.0
  {
    if r in Layers.MlLayer(entities) {
      Layers.MlLayerMembership(entities, r);
    } else {
      Layers.RulesLayerStamped(found);
    }
  }

  /**
   * With entity scores in [0, 1], every reported confidence lies in
   * [0.05, 1], and so does the average.
   */
  lemma DetectConfidenceInUnitRange(settings: Settings, shannon: string -> real, text: string,
                                    entities: seq<Layers.Entity>, found: seq<Layers.PatternMatches>)
    requires ScoresInUnitRange(entities)
    ensures var report := DetectSpec(settings, shannon, text, entities, found);
      (forall e :: e in report.piiDetected ==> 0.05 <= e.confidence <= 1.0)
      && 0.0 <= report.summary.averageConfidence <= 1.0
  {
    var ml, rules := Layers.MlLayer(entities), Layers.RulesLayer(found);
    var merged := Merger.Merge(ml, rules);
    var validated := Validation.Validated(settings, shannon, text, merged);
    var report := BuildReport(validated);
    Merger.MergeSound(ml, rules);
    forall x | x in validated ensures 0.05 <= x.confidence <= 1.0 {
      Validation.ValidatedMembership(settings, shannon, text, merged, x);
      var i :| 0 <= i < |merged| && x == merged[i].(confidence := Validation.Fused(settings, shannon, text, merged[i]));
      assert merged[i] in multiset(ml + rules);
      LayerScoresInUnitRange(entities, found, merged[i]);
    }
    forall e | e in report.piiDetected ensures 0.05 <= e.confidence <= 1.0 {
      var i :| 0 <= i < |report.piiDetected| && report.piiDetected[i] == e;
      assert validated[i] in validated;
    }
    if validated != [] {
      AverageWithinBounds(validated, 0.05, 1.0);
    }
  }

  /** The largest confidence in a non-empty list. */
  function MaxConfidence(rs: seq<PIIResult>): real
    requires rs != []
    decreases |rs|
  {
    if |rs| == 1 then rs[0].confidence
    else
      var m := MaxConfidence(rs[..|rs| - 1]);
      if rs[|rs| - 1].confidence > m then rs[|rs| - 1].confidence else m
  }

  lemma {:induction false} MaxIsUpperBound(rs: seq<PIIResult>, r: PIIResult)
    requires r in rs
    ensures r.confidence <= MaxConfidence(rs)
    decreases |rs|
  {
    if |rs| > 1 && r != rs[|rs| - 1] {
      var k :| 0 <= k < |rs| && rs[k] == r;
      assert rs[..|rs| - 1][k] == r;
      MaxIsUpperBound(rs[..|rs| - 1], r);
    }
  }

  /** No entities and no matches give an empty report whose average is 0. */
  lemma DetectEmpty(settings: Settings, shannon: string -> real, text: string)
    ensures DetectSpec(settings, shannon, text, [], []) == Report([], Summary(0, 0.0))
  {
    Merger.MergeSound([], []);
  }

  /** detect, with the recogniser's entities and each pattern's matches given. */
  method Detect(settings: Settings, shannon: string -> real, text: string,
                entities: seq<Layers.Entity>, found: seq<Layers.PatternMatches>) returns (report: Report)
    ensures report == DetectSpec(settings, shannon, text, entities, found)
    ensures report.summary.totalPiiFound == |report.piiDetected|
    ensures forall e :: e in report.piiDetected ==> e.confidence >= settings.minConfidence
  {
    var mlResults := Layers.DetectMlLayer(entities);
    var ruleResults := Layers.DetectRulesLayer(found);
    var merged := Merger.MergeResults(mlResults, ruleResults);
    var candidates := new PIIResult[|merged|](i requires 0 <= i < |merged| => merged[i]);
    assert candidates[..] == merged;
    var validated := Validation.ValidateStatisticalLayer(settings, shannon, text, candidates);
    report := BuildReport(validated);
    DetectSound(settings, shannon, text, entities, found);
  }
}
