/**
 * The noise verdict of utils/noise.py: an image is noisy when a chosen
 * metric is strictly above its threshold. The metrics (flat-region
 * variance, wavelet variance, JPEG blockiness) are inputs; the wavelet
 * variance is `None` when PyWavelets is not installed, and a `None` score
 * or threshold never reports noisy.
 */
module Noise {
  import opened Wrappers
  import opened PathText

  /** The methods `is_noisy` accepts, lower-cased (line 117). */
  const Methods := {"var_flat", "wavelet_var", "jpeg_block", "flat+block"}

  /** `scores.get(name)` / `thresholds.get(name)`: a missing key is `None`. */
  function Get(m: map<string, Option<real>>, name: string): Option<real>
  {
    if name in m then m[name] else None
  }

  /** `above(name)` (lines 121-126): false when the score or the threshold is
      missing, else a strict comparison. */
  predicate Above(scores: map<string, Option<real>>, thresholds: map<string, Option<real>>, name: string)
  {
    Get(scores, name).Some? && Get(thresholds, name).Some? && Get(scores, name).value > Get(thresholds, name).value
  }

  /** `is_noisy(scores, thresholds, method)` (lines 114-135); an unknown
      method raises `ValueError`. */
  function IsNoisy(scores: map<string, Option<real>>, thresholds: map<string, Option<real>>, noiseMethod: string): (r: Result<bool, string>)
    ensures r.Err? <==> Lower(noiseMethod) !in Methods
  {
    NoisyFor(scores, thresholds, Lower(noiseMethod))
  }

  /** The verdict for the lower-cased method name `m`. */
  function NoisyFor(scores: map<string, Option<real>>, thresholds: map<string, Option<real>>, m: string): (r: Result<bool, string>)
    ensures r.Err? <==> m !in Methods
  {
    if m !in Methods then Err("Unknown noise method: " + m)
    else if m == "var_flat" then Ok(Above(scores, thresholds, "var_flat"))
    else if m == "wavelet_var" then Ok(Above(scores, thresholds, "wavelet_var"))
    else if m == "jpeg_block" then Ok(Above(scores, thresholds, "jpeg_block"))
    else Ok(Above(scores, thresholds, "var_flat") || Above(scores, thresholds, "jpeg_block"))
  }

  lemma {:induction false} LowerOfPlain(s: string)
    requires forall k :: 0 <= k < |s| ==> ('a' <= s[k] <= 'z' || s[k] == '_' || s[k] == '+')
    ensures Lower(s) == s
  {
    if s != [] {
      var n := |s| - 1;
      LowerOfPlain(s[..n]);
      assert s == s[..n] + [s[n]];
    }
  }

  /** A single-metric method reports noisy exactly when its own score and
      threshold are both present and the score is strictly greater. */
  lemma SingleMetric(scores: map<string, Option<real>>, thresholds: map<string, Option<real>>, name: string)
    requires name in {"var_flat", "wavelet_var", "jpeg_block"}
    ensures IsNoisy(scores, thresholds, name) ==
      Ok(Get(scores, name).Some? && Get(thresholds, name).Some? && Get(scores, name).value > Get(thresholds, name).value)
  {
    if name == "var_flat" {
      LowerOfPlain("var_flat");
    } else if name == "wavelet_var" {
      LowerOfPlain("wavelet_var");
    } else {
      LowerOfPlain("jpeg_block");
    }
    assert NoisyFor(scores, thresholds, name) == Ok(Above(scores, thresholds, name));
  }

  /** "flat+block" is the disjunction of "var_flat" and "jpeg_block". */
  lemma FlatOrBlock(scores: map<string, Option<real>>, thresholds: map<string, Option<real>>)
    ensures IsNoisy(scores, thresholds, "var_flat").Ok? && IsNoisy(scores, thresholds, "jpeg_block").Ok?
    ensures IsNoisy(scores, thresholds, "flat+block") ==
      Ok(IsNoisy(scores, thresholds, "var_flat").value || IsNoisy(scores, thresholds, "jpeg_block").value)
  {
    LowerOfPlain("flat+block");
    SingleMetric(scores, thresholds, "var_flat");
    SingleMetric(scores, thresholds, "jpeg_block");
  }

  /** A single-metric verdict depends only on that metric's score and
      threshold. */
  lemma OwnMetricOnly(s1: map<string, Option<real>>, t1: map<string, Option<real>>,
                      s2: map<string, Option<real>>, t2: map<string, Option<real>>, name: string)
    requires name in {"var_flat", "wavelet_var", "jpeg_block"}
    requires Get(s1, name) == Get(s2, name) && Get(t1, name) == Get(t2, name)
    ensures IsNoisy(s1, t1, name) == IsNoisy(s2, t2, name)
  {
    SingleMetric(s1, t1, name);
    SingleMetric(s2, t2, name);
  }

  /** Without a wavelet variance (no PyWavelets, lines 73-75) the
      "wavelet_var" method never reports noisy. */
  lemma NoWaveletNeverNoisy(scores: map<string, Option<real>>, thresholds: map<string, Option<real>>)
    requires Get(scores, "wavelet_var") == None
    ensures IsNoisy(scores, thresholds, "wavelet_var") == Ok(false)
  {
    SingleMetric(scores, thresholds, "wavelet_var");
  }

  /** The method name is case-insensitive. */
  lemma MethodCaseInsensitive(scores: map<string, Option<real>>, thresholds: map<string, Option<real>>, m: string)
    ensures IsNoisy(scores, thresholds, m) == IsNoisy(scores, thresholds, Lower(m))
  {
    LowerIdempotent(m);
  }
}
