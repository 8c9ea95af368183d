/**
 * The statistical layer's scalar parts: the detector's two thresholds, the
 * entropy interface, and the weighted sum that fuses a result's detector
 * confidence with its context score and its entropy signal.
 */
module Scoring {
  import Context

  /** The two thresholds the detector object carries. */
  datatype Settings = Settings(entropyThreshold: real, minConfidence: real)

  /** The values the detector is constructed with. */
  const DEFAULT_SETTINGS: Settings := Settings(2.5, 0.85)

  /**
   * _calculate_entropy. `shannon` stands for the base-2 Shannon entropy of
   * the character frequencies of a non-empty text, which is not modelled;
   * the empty text has entropy 0.
   */
  function CalculateEntropy(shannon: string -> real, text: string): (entropy: real)
    ensures text == [] ==> entropy == 0.0
    ensures text != [] ==> entropy == shannon(text)
  {
    if text == [] then 0.0 else shannon(text)
  }

  /** The entropy term: 1.0 above the threshold, 0.5 otherwise. */
  function EntropyBonus(highEntropy: bool): real
  {
    if highEntropy then 1.0 else 0.5
  }

  /**
   * The fused score `0.6 * confidence + 0.3 * context + 0.1 * bonus`. With
   * confidence and context in [0, 1] it lies in [0.05, 1]; it never falls
   * below its entropy share, and it grows with each input.
   */
  function FinalConfidence(confidence: real, contextScore: real, highEntropy: bool): (fused: real)
    ensures 0.0 <= confidence <= 1.0 && 0.0 <= contextScore <= 1.0 ==> 0.05 <= fused <= 1.0
    ensures 0.0 <= confidence && 0.0 <= contextScore ==> fused >= EntropyBonus(highEntropy) * 0.1
  {
    confidence * 0.6 + contextScore * 0.3 + EntropyBonus(highEntropy) * 0.1
  }

  /** The fused score is monotone in the detector confidence, the context score and the entropy signal. */
  lemma FinalConfidenceMonotone(c1: real, c2: real, x1: real, x2: real, h1: bool, h2: bool)
    requires c1 <= c2 && x1 <= x2 && (h1 ==> h2)
    ensures FinalConfidence(c1, x1, h1) <= FinalConfidence(c2, x2, h2)
  {
  }

  /**
   * A pattern match enters with confidence 1.0; it passes the default
   * threshold exactly when three or more indicators are present, or two are
   * and the text's entropy is above the threshold.
   */
  lemma RuleMatchPassesIff(indicatorCount: nat, highEntropy: bool)
    ensures FinalConfidence(1.0, Context.ScoreOfCount(indicatorCount), highEntropy) >= DEFAULT_SETTINGS.minConfidence
      <==> indicatorCount >= 3 || (highEntropy && indicatorCount >= 2)
  {
  }

  /**
   * A result whose detector confidence is below 0.75 never reaches the
   * default threshold, whatever its context and entropy (context at most 1).
   */
  lemma LowConfidenceAlwaysRejected(confidence: real, contextScore: real, highEntropy: bool)
    requires confidence < 0.75 && contextScore <= 1.0
    ensures FinalConfidence(confidence, contextScore, highEntropy) < DEFAULT_SETTINGS.minConfidence
  {
  }

  /** Fusing a pattern match with context 0.6 and high entropy gives 0.88, which passes. */
  lemma FusionScenario()
    ensures FinalConfidence(1.0, 0.6, true) == 0.88 >= DEFAULT_SETTINGS.minConfidence
  {
  }

  /** A learned result with confidence 0.5, no context and low entropy scores 0.35 and is rejected. */
  lemma RejectionScenario()
    ensures FinalConfidence(0.5, 0.0, false) == 0.35 < DEFAULT_SETTINGS.minConfidence
  {
  }

  /** The empty text never counts as high-entropy under a non-negative threshold. */
  lemma EmptyTextLowEntropy(shannon: string -> real, settings: Settings)
    requires settings.entropyThreshold >= 0.0
    ensures !(CalculateEntropy(shannon, []) > settings.entropyThreshold)
  {
  }
}
