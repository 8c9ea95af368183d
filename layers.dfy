/**
 * The first two layers as adapters: the named-entity layer keeps the
 * person, location and organisation entities the recogniser reports, and
 * the rule layer turns every pattern match into a result with confidence
 * 1.0. The recogniser's entities and the matches of each pattern are inputs.
 */
module Layers {
  import opened Results

  /** One aggregated entity as the token-classification pipeline reports it. */
  datatype Entity = Entity(word: string, entityGroup: string, score: real, start: int, end: int)

  /** The entity groups the learned layer keeps. */
  const PERSONAL_LABELS: seq<string> := ["PER", "LOC", "ORG"]

  const ML_LAYER: string := "ML/NLP"

  const RULES_LAYER: string := "Rules"

  /** The result the learned layer builds from a kept entity. */
  function FromEntity(e: Entity): PIIResult
  {
    PIIResult(e.word, e.entityGroup, e.score, e.start, e.end, ML_LAYER)
  }

  /** The list `detect_ml_layer` returns for the recogniser's `entities`. */
  function MlLayer(entities: seq<Entity>): seq<PIIResult>
    decreases |entities|
  {
    if entities == [] then []
    else
      var n := |entities| - 1;
      MlLayer(entities[..n]) + (if entities[n].entityGroup in PERSONAL_LABELS then [FromEntity(entities[n])] else [])
  }

  /** A result comes out of the learned layer exactly when it is built from a person, location or organisation entity. */
  lemma {:induction false} MlLayerMembership(entities: seq<Entity>, r: PIIResult)
    ensures r in MlLayer(entities) <==>
      exists i :: 0 <= i < |entities| && entities[i].entityGroup in PERSONAL_LABELS && r == FromEntity(entities[i])
    decreases |entities|
  {
    if entities != [] {
      var n := |entities| - 1;
      var init := entities[..n];
      MlLayerMembership(init, r);
      if exists i :: 0 <= i < |entities| && entities[i].entityGroup in PERSONAL_LABELS && r == FromEntity(entities[i]) {
        var i :| 0 <= i < |entities| && entities[i].entityGroup in PERSONAL_LABELS && r == FromEntity(entities[i]);
        if i < n {
          assert init[i] == entities[i];
        }
      }
      if exists i :: 0 <= i < n && init[i].entityGroup in PERSONAL_LABELS && r == FromEntity(init[i]) {
        var i :| 0 <= i < n && init[i].entityGroup in PERSONAL_LABELS && r == FromEntity(init[i]);
        assert entities[i] == init[i];
      }
    }
  }

  /** Every result of the learned layer has a kept label and the learned layer's tag, and there are no more results than entities. */
  lemma {:induction false} MlLayerLabels(entities: seq<Entity>)
    ensures |MlLayer(entities)| <= |entities|
    ensures forall r :: r in MlLayer(entities) ==> r.piiType in PERSONAL_LABELS && r.detectionLayer == ML_LAYER
    decreases |entities|
  {
    if entities != [] {
      MlLayerLabels(entities[..|entities| - 1]);
    }
  }

  /** detect_ml_layer over the recogniser's output. */
  method DetectMlLayer(entities: seq<Entity>) returns (results: seq<PIIResult>)
    ensures results == MlLayer(entities)
    ensures forall r :: r in results ==> r.piiType in PERSONAL_LABELS && r.detectionLayer == ML_LAYER
  {
    results := [];
    var i := 0;
    while i < |entities|
      invariant 0 <= i <= |entities|
      invariant results == MlLayer(entities[..i])
    {
      var entity := entities[i];
      assert entities[..i + 1][..i] == entities[..i];
      if entity.entityGroup in PERSONAL_LABELS {
        results := results + [FromEntity(entity)];
      }
      i := i + 1;
    }
    assert entities[..i] == entities;
    MlLayerLabels(entities);
  }

  /** One match of a pattern: the matched text and its offsets. */
  datatype Match = Match(group: string, start: int, end: int)

  /** The matches of one pattern, under the pattern's display name. */
  datatype PatternMatches = PatternMatches(name: string, matches: seq<Match>)

  /** The result the rule layer builds from a match of the pattern called `name`. */
  function FromMatch(name: string, m: Match): PIIResult
  {
    PIIResult(m.group, name, 1.0, m.start, m.end, RULES_LAYER)
  }

  /** The results for the matches of one pattern, in match order. */
  function Stamp(name: string, matches: seq<Match>): (rs: seq<PIIResult>)
    ensures |rs| == |matches|
    decreases |matches|
  {
    if matches == [] then []
    else Stamp(name, matches[..|matches| - 1]) + [FromMatch(name, matches[|matches| - 1])]
  }

  /** The list `detect_rules_layer` returns: each pattern's results in table order. */
  function RulesLayer(found: seq<PatternMatches>): seq<PIIResult>
    decreases |found|
  {
    if found == [] then []
    else RulesLayer(found[..|found| - 1]) + Stamp(found[|found| - 1].name, found[|found| - 1].matches)
  }

  function TotalMatches(found: seq<PatternMatches>): nat
    decreases |found|
  {
    if found == [] then 0 else TotalMatches(found[..|found| - 1]) + |found[|found| - 1].matches|
  }

  /** The k-th result for a pattern is its k-th match, stamped. */
  lemma {:induction false} StampAt(name: string, matches: seq<Match>, k: nat)
    requires k < |matches|
    ensures Stamp(name, matches)[k] == FromMatch(name, matches[k])
    decreases |matches|
  {
    var n := |matches| - 1;
    if k < n {
      StampAt(name, matches[..n], k);
      assert matches[..n][k] == matches[k];
    }
  }

  /**
   * Every result of the rule layer has confidence 1.0 and the rule layer's
   * tag, and there is exactly one result per match.
   */
  lemma {:induction false} RulesLayerStamped(found: seq<PatternMatches>)
    ensures |RulesLayer(found)| == TotalMatches(found)
    ensures forall r :: r in RulesLayer(found) ==> r.confidence == 1.0 && r.detectionLayer == RULES_LAYER
    decreases |found|
  {
    if found != [] {
      var n := |found| - 1;
      RulesLayerStamped(found[..n]);
      forall r | r in Stamp(found[n].name, found[n].matches)
        ensures r.confidence == 1.0 && r.detectionLayer == RULES_LAYER
      {
        var k :| 0 <= k < |found[n].matches| && Stamp(found[n].name, found[n].matches)[k] == r;
        StampAt(found[n].name, found[n].matches, k);
      }
    }
  }

  /** Every result of the rule layer is the stamped k-th match of some pattern p. */
  lemma {:induction false} RulesLayerOrigin(found: seq<PatternMatches>, r: PIIResult)
    requires r in RulesLayer(found)
    ensures exists p, k :: 0 <= p < |found| && 0 <= k < |found[p].matches| && r == FromMatch(found[p].name, found[p].matches[k])
    decreases |found|
  {
    var n := |found| - 1;
    var last := Stamp(found[n].name, found[n].matches);
    assert RulesLayer(found) == RulesLayer(found[..n]) + last;
    if r in last {
      var k :| 0 <= k < |last| && last[k] == r;
      StampAt(found[n].name, found[n].matches, k);
    } else {
      RulesLayerOrigin(found[..n], r);
      var p, k :| 0 <= p < n && 0 <= k < |found[..n][p].matches| && r == FromMatch(found[..n][p].name, found[..n][p].matches[k]);
      assert found[..n][p] == found[p];
    }
  }

  /** The stamped k-th match of pattern p is a result of the rule layer. */
  lemma {:induction false} RulesLayerHas(found: seq<PatternMatches>, p: nat, k: nat)
    requires p < |found| && k < |found[p].matches|
    ensures FromMatch(found[p].name, found[p].matches[k]) in RulesLayer(found)
    decreases |found|
  {
    var n := |found| - 1;
    var last := Stamp(found[n].name, found[n].matches);
    assert RulesLayer(found) == RulesLayer(found[..n]) + last;
    if p < n {
      assert found[..n][p] == found[p];
      RulesLayerHas(found[..n], p, k);
    } else {
      StampAt(found[n].name, found[n].matches, k);
      assert last[k] in last;
    }
  }

  /** A result comes out of the rule layer exactly when it is a stamped match of some pattern. */
  lemma RulesLayerMembership(found: seq<PatternMatches>, r: PIIResult)
    ensures r in RulesLayer(found) <==>
      exists p, k :: 0 <= p < |found| && 0 <= k < |found[p].matches| && r == FromMatch(found[p].name, found[p].matches[k])
  {
    if r in RulesLayer(found) {
      RulesLayerOrigin(found, r);
    }
    if exists p, k :: 0 <= p < |found| && 0 <= k < |found[p].matches| && r == FromMatch(found[p].name, found[p].matches[k]) {
      var p, k :| 0 <= p < |found| && 0 <= k < |found[p].matches| && r == FromMatch(found[p].name, found[p].matches[k]);
      RulesLayerHas(found, p, k);
    }
  }

  /** detect_rules_layer over the matches of every pattern, in table order. */
  method DetectRulesLayer(found: seq<PatternMatches>) returns (results: seq<PIIResult>)
    ensures results == RulesLayer(found)
    ensures |results| == TotalMatches(found)
    ensures forall r :: r in results ==> r.confidence == 1.0 && r.detectionLayer == RULES_LAYER
  {
    results := [];
    var p := 0;
    while p < |found|
      invariant 0 <= p <= |found|
      invariant results == RulesLayer(found[..p])
    {
      var config := found[p];
      ghost var before := results;
      var k := 0;
      while k < |config.matches|
        invariant 0 <= k <= |config.matches|
        invariant results == before + Stamp(config.name, config.matches[..k])
      {
        assert config.matches[..k + 1][..k] == config.matches[..k];
        results := results + [FromMatch(config.name, config.matches[k])];
        k := k + 1;
      }
      assert config.matches[..k] == config.matches;
      assert found[..p + 1][..p] == found[..p];
      p := p + 1;
    }
    assert found[..p] == found;
    RulesLayerStamped(found);
  }
}
