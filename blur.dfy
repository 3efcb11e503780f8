/**
 * The blur verdict of utils/blur.py: an image is blurry when its variance
 * of Laplacian ("vol"), its high-frequency ratio ("hfr"), or both, fall
 * strictly below their thresholds. The scores themselves (Laplacian, FFT)
 * are inputs; a missing score reads as +infinity and a missing threshold as
 * 0.0. Also the guards of `_resize_long_side`.
 */
module Blur {
  import opened Wrappers
  import opened PathText

  /** `_LONG_SIDE` (line 12). */
  const LongSide := 1024

  /** `_LOW_TEXTURE_EPSILON`, returned by `low_texture_epsilon()` (lines 13, 130-132). */
  const LowTextureEpsilon := 1.0

  /** The methods `is_blurry` accepts, lower-cased (line 117). */
  const Methods := {"vol", "hfr", "vol+hfr"}

  /** `scores.get(name, inf) < thr.get(name, 0.0)`: a missing score is
      +infinity and never below a threshold. */
  predicate Below(scores: map<string, real>, thr: map<string, real>, name: string)
  {
    name in scores && scores[name] < (if name in thr then thr[name] else 0.0)
  }

  /** `is_blurry(scores, thr, method=method)` (lines 104-127); `None` for the
      method is read as "", and an unknown method raises `ValueError`. */
  function IsBlurry(scores: map<string, real>, thr: map<string, real>, blurMethod: Option<string>): (r: Result<bool, string>)
    ensures r.Err? <==> blurMethod.None? || Lower(blurMethod.value) !in Methods
  {
    BlurredFor(scores, thr, if blurMethod.Some? then Lower(blurMethod.value) else "")
  }

  /** The verdict for the lower-cased method name `m`. */
  function BlurredFor(scores: map<string, real>, thr: map<string, real>, m: string): (r: Result<bool, string>)
    ensures r.Err? <==> m !in Methods
  {
    if m !in Methods then Err("Unknown blur method: " + m)
    else if m == "vol" then Ok(Below(scores, thr, "vol"))
    else if m == "hfr" then Ok(Below(scores, thr, "hfr"))
    else Ok(Below(scores, thr, "vol") && Below(scores, thr, "hfr"))
  }

  /** "vol" and "hfr" each compare one score strictly against its threshold,
      and "vol+hfr" holds exactly when both single-metric verdicts hold. */
  lemma BlurVerdicts(scores: map<string, real>, thr: map<string, real>)
    ensures IsBlurry(scores, thr, Some("vol")) == Ok("vol" in scores && scores["vol"] < (if "vol" in thr then thr["vol"] else 0.0))
    ensures IsBlurry(scores, thr, Some("hfr")) == Ok("hfr" in scores && scores["hfr"] < (if "hfr" in thr then thr["hfr"] else 0.0))
    ensures IsBlurry(scores, thr, Some("vol+hfr")) ==
      Ok(IsBlurry(scores, thr, Some("vol")).value && IsBlurry(scores, thr, Some("hfr")).value)
  {
    SingleVerdict(scores, thr, "vol");
    SingleVerdict(scores, thr, "hfr");
    BothVerdict(scores, thr);
  }

  /** A single-metric method compares that metric alone. */
  lemma SingleVerdict(scores: map<string, real>, thr: map<string, real>, m: string)
    requires m == "vol" || m == "hfr"
    ensures IsBlurry(scores, thr, Some(m)) == Ok(Below(scores, thr, m))
  {
    LowerOfAscii(m);
  }

  lemma BothVerdict(scores: map<string, real>, thr: map<string, real>)
    ensures IsBlurry(scores, thr, Some("vol+hfr")) == Ok(Below(scores, thr, "vol") && Below(scores, thr, "hfr"))
  {
    LowerOfAscii("vol+hfr");
  }

  /** Lower-casing changes nothing in a string without upper-case letters
      or the two special characters `Lower` maps. */
  lemma {:induction false} LowerOfAscii(s: string)
    requires forall k :: 0 <= k < |s| ==> ('a' <= s[k] <= 'z' || s[k] == '+')
    ensures Lower(s) == s
  {
    if s != [] {
      var n := |s| - 1;
      LowerOfAscii(s[..n]);
      assert s == s[..n] + [s[n]];
    }
  }

  /** The method name is case-insensitive. */
  lemma MethodCaseInsensitive(scores: map<string, real>, thr: map<string, real>, m: string)
    ensures IsBlurry(scores, thr, Some(m)) == IsBlurry(scores, thr, Some(Lower(m)))
  {
    LowerIdempotent(m);
  }

  /** A missing score reads as +infinity: without "vol" neither "vol" nor
      "vol+hfr" reports blurry, and without "hfr" neither "hfr" nor
      "vol+hfr" does, whatever the thresholds. */
  lemma MissingScoreNeverBlurry(scores: map<string, real>, thr: map<string, real>)
    ensures "vol" !in scores ==>
      IsBlurry(scores, thr, Some("vol")) == Ok(false) && IsBlurry(scores, thr, Some("vol+hfr")) == Ok(false)
    ensures "hfr" !in scores ==>
      IsBlurry(scores, thr, Some("hfr")) == Ok(false) && IsBlurry(scores, thr, Some("vol+hfr")) == Ok(false)
  {
    BlurVerdicts(scores, thr);
  }

  // ---------------------------------------------------------------------------
  // `_resize_long_side` (lines 16-29)

  /** A numpy image: its size is the product of its dimensions. */
  datatype Image = Image(height: nat, width: nat, channels: nat)

  function Size(img: Image): nat
  {
    img.height * img.width * img.channels
  }

  /** The image is returned as it is, or scaled so that its long side is
      `target`; the scaled dimensions are not modelled. */
  datatype Resized = Unchanged | ScaledTo(target: int)

  function ResizeLongSide(img: Option<Image>, target: int): (r: Result<Resized, string>)
    ensures r.Err? <==> img.None? || Size(img.value) == 0 || img.value.height == 0 || img.value.width == 0
    ensures r.Ok? ==> (r.value == Unchanged <==> (if img.value.height > img.value.width then img.value.height else img.value.width) <= target)
  {
    if img.None? || Size(img.value) == 0 then Err("Empty image provided to blur scoring")
    else
      var h, w := img.value.height, img.value.width;
      if h == 0 || w == 0 then Err("Image with zero dimension provided to blur scoring")
      else
        var maxDim := if h > w then h else w;
        if maxDim <= target then Ok(Unchanged)
        else Ok(ScaledTo(target))
  }

  /** The zero-dimension guard (lines 21-22) adds nothing: an image with a
      zero side has size 0 and is refused as empty (lines 18-19). */
  lemma ZeroSideIsEmpty(img: Image)
    requires img.height == 0 || img.width == 0
    ensures ResizeLongSide(Some(img), LongSide) == Err("Empty image provided to blur scoring")
  {
  }
}
