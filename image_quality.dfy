/**
 * core/image_quality.py: a 0-100 quality score made of four capped
 * components (resolution, sharpness, brightness, file size), and the
 * choice of the best image of a group as the first one with the strictly
 * greatest score. What opening an image gives (dimensions, mean brightness,
 * file size, or a failure) is an input; arithmetic is on exact reals.
 */
module ImageQuality {
  import opened Wrappers

  function Min(a: real, b: real): real
  {
    if a <= b then a else b
  }

  function Max(a: real, b: real): real
  {
    if a >= b then a else b
  }

  function Abs(x: real): real
  {
    if x < 0.0 then -x else x
  }

  /** What opening one image gives when it succeeds: its dimensions, the
      mean of its RGB pixel values and its size in bytes (lines 17-41). */
  datatype Picture = Picture(width: nat, height: nat, brightness: real, fileSize: nat)

  /** Resolution component: 10 points per megapixel, at most 30 (lines 23-24). */
  function ResolutionScore(p: Picture): (s: real)
    ensures 0.0 <= s <= 30.0
  {
    Min(30.0, (p.width * p.height) as real / 1000000.0 * 10.0)
  }

  /** Sharpness component: 30 points per 100 of blur score, at most 30, and
      15 when no blur score is known (lines 27-30). */
  function BlurQuality(blur: Option<real>): (s: real)
    ensures s <= 30.0
    ensures blur.None? ==> s == 15.0
    ensures blur.Some? && blur.value >= 0.0 ==> s >= 0.0
  {
    if blur.Some? then Min(30.0, blur.value / 100.0 * 30.0) else 15.0
  }

  /** Brightness component: 20 points at a mean of 128, falling linearly
      and never below 0 (lines 33-37). */
  function BrightnessScore(brightness: real): (s: real)
    ensures 0.0 <= s <= 20.0
    ensures s == 20.0 <==> brightness == 128.0
  {
    Max(0.0, 20.0 - Abs(128.0 - brightness) / 128.0 * 20.0)
  }

  /** File-size component: 2 points per MiB, at most 20 (lines 41-43). */
  function SizeScore(fileSize: nat): (s: real)
    ensures 0.0 <= s <= 20.0
  {
    Min(20.0, fileSize as real / (1024.0 * 1024.0) * 2.0)
  }

  /** `calculate_quality_score` (lines 10-52): the capped sum of the four
      components, or 0 when the image cannot be opened. */
  function QualityScore(p: Option<Picture>, blur: Option<real>): (s: real)
    ensures s <= 100.0
    ensures p.None? ==> s == 0.0
    ensures blur.None? || blur.value >= 0.0 ==> s >= 0.0
  {
    if p.None? then 0.0
    else
      var total := ResolutionScore(p.value) + BlurQuality(blur) + BrightnessScore(p.value.brightness) + SizeScore(p.value.fileSize);
      Min(100.0, total)
  }

  /** `blur_scores.get(path) if blur_scores else None`: an absent or empty
      dictionary gives no blur score. */
  function BlurOf(blurScores: map<string, real>, path: string): Option<real>
  {
    if path in blurScores then Some(blurScores[path]) else None
  }

  /** The scores of a group, in group order. */
  function Scores(group: seq<string>, pictures: seq<Option<Picture>>, blurScores: map<string, real>): (s: seq<real>)
    requires |pictures| == |group|
    ensures |s| == |group|
  {
    seq(|group|, k requires 0 <= k < |group| => QualityScore(pictures[k], BlurOf(blurScores, group[k])))
  }

  /** The position and score the loop of `get_best_image_in_group` holds
      after the scores `s`: it starts from (None, -1) and takes a score only
      when it is strictly greater. */
  function Best(s: seq<real>): (r: (Option<nat>, real))
    ensures r.0.Some? ==> r.0.value < |s|
  {
    if s == [] then (None, -1.0)
    else
      var (b, m) := Best(s[..|s| - 1]);
      if s[|s| - 1] > m then (Some(|s| - 1), s[|s| - 1]) else (b, m)
  }

  /** The best score is the maximum of -1 and all scores; the position,
      when there is one, is the first to reach it; there is none exactly
      when no score exceeds -1. */
  lemma {:induction false} BestFacts(s: seq<real>)
    ensures Best(s).1 >= -1.0
    ensures forall k :: 0 <= k < |s| ==> s[k] <= Best(s).1
    ensures Best(s).0.Some? ==> Best(s).0.value < |s| && s[Best(s).0.value] == Best(s).1
    ensures Best(s).0.Some? ==> forall k :: 0 <= k < Best(s).0.value ==> s[k] < Best(s).1
    ensures Best(s).0.None? <==> Best(s).1 == -1.0
    ensures Best(s).0.None? <==> forall k :: 0 <= k < |s| ==> s[k] <= -1.0
  {
    if s != [] {
      var n := |s| - 1;
      BestFacts(s[..n]);
      assert forall k :: 0 <= k < n ==> s[k] == s[..n][k];
    }
  }

  /** One more score: it is taken only when strictly greater. */
  lemma BestStep(s: seq<real>, i: nat)
    requires i < |s|
    ensures Best(s[..i + 1]) == if s[i] > Best(s[..i]).1 then (Some(i), s[i]) else Best(s[..i])
  {
    assert s[..i + 1][..i] == s[..i];
  }

  /** `get_best_image_in_group(group, blur_scores)` (lines 54-72) with the
      opening of `group[k]` given as `pictures[k]`. */
  method BestImageInGroup(group: seq<string>, pictures: seq<Option<Picture>>, blurScores: map<string, real>)
    returns (bestPath: Option<string>, bestScore: real)
    requires |pictures| == |group|
    ensures bestScore == Best(Scores(group, pictures, blurScores)).1
    ensures bestPath.None? <==> Best(Scores(group, pictures, blurScores)).0.None?
    ensures bestPath.Some? ==> bestPath.value == group[Best(Scores(group, pictures, blurScores)).0.value]
  {
    ghost var s := Scores(group, pictures, blurScores);
    BestFacts(s);
    bestPath := None;
    bestScore := -1.0;
    ghost var at: Option<nat> := None;
    var i := 0;
    while i < |group|
      invariant 0 <= i <= |group|
      invariant (at, bestScore) == Best(s[..i])
      invariant at.Some? ==> at.value < i
      invariant bestPath.None? <==> at.None?
      invariant bestPath.Some? ==> bestPath.value == group[at.value]
    {
      BestStep(s, i);
      var score := QualityScore(pictures[i], BlurOf(blurScores, group[i]));
      assert score == s[i];
      if score > bestScore {
        bestScore := score;
        bestPath := Some(group[i]);
        at := Some(i);
      }
      i := i + 1;
    }
    assert s[..i] == s;
  }

  /** When no blur score is negative, every non-empty group yields a path:
      all scores are at least 0, above the initial -1. */
  lemma NonEmptyGroupHasBest(group: seq<string>, pictures: seq<Option<Picture>>, blurScores: map<string, real>)
    requires |pictures| == |group| && group != []
    requires forall p :: p in blurScores ==> blurScores[p] >= 0.0
    ensures Best(Scores(group, pictures, blurScores)).0.Some?
  {
    var s := Scores(group, pictures, blurScores);
    BestFacts(s);
    assert s[0] >= 0.0;
  }
}
