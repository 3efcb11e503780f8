/**
 * core/blur_detector.py: the Laplacian-variance score of one image, with
 * 0.0 for a file that cannot be read or decoded, and the threshold test on
 * it. The variance itself is an input.
 */
module BlurDetector {
  /** `is_blurry`'s default threshold (line 34). */
  const DefaultThreshold := 50.0

  /** What opening and decoding one file gives. */
  datatype Decoded = Unreadable | Undecodable | Failed | Gray(laplacianVariance: real)

  /** `calculate_blur_score` (lines 6-31): the variance of a decoded image,
      0.0 for every failure. */
  function BlurScore(d: Decoded): (s: real)
    ensures !d.Gray? ==> s == 0.0
  {
    if d.Gray? then d.laplacianVariance else 0.0
  }

  /** `is_blurry(score, threshold)` (lines 33-35). */
  predicate IsBlurry(score: real, threshold: real)
  {
    score < threshold
  }

  /** A lower score is at least as blurry. */
  lemma BlurryMonotone(s1: real, s2: real, threshold: real)
    requires s1 <= s2 && IsBlurry(s2, threshold)
    ensures IsBlurry(s1, threshold)
  {
  }

  /** A file that cannot be read or decoded is blurry under every positive
      threshold, the default among them. */
  lemma FailureIsBlurry(d: Decoded, threshold: real)
    requires !d.Gray? && threshold > 0.0
    ensures IsBlurry(BlurScore(d), threshold) && IsBlurry(BlurScore(d), DefaultThreshold)
  {
  }
}
