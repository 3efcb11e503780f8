/**
 * The command-line pass of main.py: argument guards, the gathering of
 * image paths, the per-image decision and its counters, and the choice of
 * a free destination name for a blurry image that is moved. Reading and
 * decoding images, the blur metrics, the percentile thresholds of
 * `compute_thresholds`, CSV output, logging and the moves themselves are
 * outside the model: what they give is an input.
 */
module Cli {
  import opened Wrappers
  import opened PathText
  import MediaPaths
  import Scanner
  import PathOrder
  import Blur

  // ---------------------------------------------------------------------------
  // `decide_for_image` (main.py:128-138)

  /** The decisions, named by the keys of `counts` they increment. */
  datatype Label = Blurry | Keep | LowTexture

  /** The string a decision is written as. */
  function Name(l: Label): string
  {
    match l
    case Blurry => "blurry"
    case Keep => "keep"
    case LowTexture => "low_texture"
  }

  /** `decide_for_image(scores, method, skip_blur, blur_flag)`: the decision
      and its reason. The scores are not used. */
  function DecideForImage(blurMethod: string, skipBlur: bool, blurFlag: bool): (string, string)
  {
    if skipBlur then ("low_texture", "dataset_low_texture")
    else if blurFlag then ("blurry", blurMethod)
    else ("keep", "ok")
  }

  /** The decision as a label. */
  function Decide(skipBlur: bool, blurFlag: bool): (l: Label)
    ensures Name(l) == DecideForImage("", skipBlur, blurFlag).0
  {
    if skipBlur then LowTexture else if blurFlag then Blurry else Keep
  }

  /** A low-texture data set marks every image "low_texture" whatever its
      blur flag; otherwise the flag alone chooses between "blurry" (with the
      method as reason) and "keep". */
  lemma DecisionCases(blurMethod: string, skipBlur: bool, blurFlag: bool)
    ensures skipBlur ==> DecideForImage(blurMethod, skipBlur, blurFlag) == DecideForImage(blurMethod, skipBlur, !blurFlag)
    ensures DecideForImage(blurMethod, skipBlur, blurFlag).0 == "low_texture" <==> skipBlur
    ensures DecideForImage(blurMethod, skipBlur, blurFlag).0 == "blurry" <==> !skipBlur && blurFlag
    ensures DecideForImage(blurMethod, skipBlur, blurFlag).0 == "keep" <==> !skipBlur && !blurFlag
    ensures DecideForImage(blurMethod, skipBlur, blurFlag).0 == "blurry" ==> DecideForImage(blurMethod, skipBlur, blurFlag).1 == blurMethod
  {
  }

  // ---------------------------------------------------------------------------
  // `unique_destination` (main.py:114-125)

  /** The position of the dot that starts `PurePath.suffix`: the last dot,
      provided it is neither the first nor the last character. */
  function SuffixDot(name: string): (i: int)
    ensures i == -1 || 0 < i < |name| - 1
  {
    var i := RFind(name, '.');
    if 0 < i < |name| - 1 then i else -1
  }

  /** `src.suffix`. */
  function Suffix(name: string): string
  {
    var i := SuffixDot(name);
    if i < 0 then "" else name[i..]
  }

  /** `src.stem`. */
  function Stem(name: string): string
  {
    var i := SuffixDot(name);
    if i < 0 then name else name[..i]
  }

  /** The stem and the suffix make up the name again; a name with a suffix
      has a non-empty stem. */
  lemma StemSuffix(name: string)
    ensures Stem(name) + Suffix(name) == name
    ensures Suffix(name) != "" ==> Stem(name) != "" && Suffix(name)[0] == '.'
  {
    var i := SuffixDot(name);
    if i >= 0 {
      assert name == name[..i] + name[i..];
    }
  }

  /** The name tried at attempt `idx`: `f"{stem}_{idx}{suffix}"`. */
  function NumberedName(name: string, idx: nat): string
  {
    Stem(name) + "_" + NatToString(idx) + Suffix(name)
  }

  /** The path tried at attempt `idx`, `dest_dir / f"{stem}_{idx}{suffix}"`. */
  function Candidate(destDir: string, name: string, idx: nat): string
  {
    Join(destDir, NumberedName(name, idx))
  }

  /** Joining a directory with names that do not start with '/' is
      one-to-one in the name. */
  lemma JoinInjective(a: string, b1: string, b2: string)
    requires b1 != [] && b1[0] != '/' && b2 != [] && b2[0] != '/'
    requires Join(a, b1) == Join(a, b2)
    ensures b1 == b2
  {
    var pre := if a == [] || a[|a| - 1] == '/' then a else a + "/";
    assert Join(a, b1) == pre + b1 && Join(a, b2) == pre + b2;
    assert b1 == (pre + b1)[|pre|..];
    assert b2 == (pre + b2)[|pre|..];
  }

  /** A numbered name never starts with '/' when the name has no '/'. */
  lemma NumberedNameStart(name: string, idx: nat)
    requires '/' !in name
    ensures NumberedName(name, idx) != [] && NumberedName(name, idx)[0] != '/'
  {
    StemSuffix(name);
    var s := Stem(name);
    if s != [] {
      assert s == name[..|s|];
      assert s[0] == name[0];
    }
  }

  /** Different attempts try different names. */
  lemma NumberedNameInjective(name: string, i: nat, j: nat)
    requires NumberedName(name, i) == NumberedName(name, j)
    ensures i == j
  {
    var p := Stem(name) + "_";
    var di, dj, suf := NatToString(i), NatToString(j), Suffix(name);
    assert NumberedName(name, i) == p + (di + suf);
    assert NumberedName(name, j) == p + (dj + suf);
    assert di + suf == (p + (di + suf))[|p|..];
    assert dj + suf == (p + (dj + suf))[|p|..];
    assert |di| == |dj|;
    assert di == (di + suf)[..|di|];
    assert dj == (dj + suf)[..|dj|];
    NatToStringInjective(i, j);
  }

  /** Different attempts try different paths. */
  lemma CandidateInjective(destDir: string, name: string, i: nat, j: nat)
    requires '/' !in name
    requires Candidate(destDir, name, i) == Candidate(destDir, name, j)
    ensures i == j
  {
    NumberedNameStart(name, i);
    NumberedNameStart(name, j);
    JoinInjective(destDir, NumberedName(name, i), NumberedName(name, j));
    NumberedNameInjective(name, i, j);
  }

  /** `c` was tried at one of the attempts before `idx`. */
  ghost predicate TriedBefore(destDir: string, name: string, idx: nat, c: string)
  {
    exists k :: 1 <= k < idx && c == Candidate(destDir, name, k)
  }

  lemma SubsetSize(a: set<string>, b: set<string>)
    requires a <= b
    ensures |a| <= |b|
  {
    assert b == a + (b - a);
  }

  /** Every attempt before `idx` found its path taken. */
  ghost predicate AllTaken(existing: set<string>, destDir: string, name: string, idx: nat)
  {
    forall k :: 1 <= k < idx ==> Candidate(destDir, name, k) in existing
  }

  lemma TakenGrow(existing: set<string>, destDir: string, name: string, idx: nat)
    requires AllTaken(existing, destDir, name, idx) && Candidate(destDir, name, idx) in existing
    ensures AllTaken(existing, destDir, name, idx + 1)
  {
  }

  /** One more attempt that found its path taken adds a path not tried
      before, so the taken paths tried so far keep growing. */
  lemma TriedGrow(existing: set<string>, destDir: string, name: string, tried: set<string>, idx: nat)
    requires '/' !in name && idx >= 1
    requires tried <= existing && |tried| == idx - 1
    requires forall c :: c in tried ==> TriedBefore(destDir, name, idx, c)
    requires Candidate(destDir, name, idx) in existing
    ensures tried + {Candidate(destDir, name, idx)} <= existing
    ensures |tried + {Candidate(destDir, name, idx)}| == idx
    ensures forall c :: c in tried + {Candidate(destDir, name, idx)} ==> TriedBefore(destDir, name, idx + 1, c)
  {
    var candidate := Candidate(destDir, name, idx);
    assert candidate !in tried by {
      if candidate in tried {
        var k :| 1 <= k < idx && candidate == Candidate(destDir, name, k);
        CandidateInjective(destDir, name, k, idx);
      }
    }
    forall c | c in tried + {candidate}
      ensures TriedBefore(destDir, name, idx + 1, c)
    {
      if c in tried {
        var k :| 1 <= k < idx && c == Candidate(destDir, name, k);
        assert 1 <= k < idx + 1;
      } else {
        assert c == Candidate(destDir, name, idx);
      }
    }
  }

  /** `unique_destination(src, dest_dir)` with the existing paths given as
      `existing` and `name` the source's file name: the plain name when it
      is free, otherwise the first free numbered name, with `idx` the
      attempt that succeeded (0 for the plain name). The loop of
      `itertools.count(1)` always ends, since `existing` is finite and
      the attempts try different paths. */
  method UniqueDestination(existing: set<string>, destDir: string, name: string) returns (dest: string, idx: nat)
    requires '/' !in name
    ensures dest !in existing
    ensures idx == 0 <==> Join(destDir, name) !in existing
    ensures idx == 0 ==> dest == Join(destDir, name)
    ensures idx > 0 ==> dest == Candidate(destDir, name, idx)
    ensures forall k :: 1 <= k < idx ==> Candidate(destDir, name, k) in existing
  {
    dest := Join(destDir, name);
    if dest !in existing {
      return dest, 0;
    }
    idx := 1;
    ghost var tried: set<string> := {};
    while true
      invariant idx >= 1
      invariant Join(destDir, name) in existing
      invariant tried <= existing
      invariant AllTaken(existing, destDir, name, idx)
      invariant forall c :: c in tried ==> TriedBefore(destDir, name, idx, c)
      invariant |tried| == idx - 1
      decreases |existing| - |tried|
    {
      SubsetSize(tried, existing);
      var candidate := Candidate(destDir, name, idx);
      if candidate !in existing {
        return candidate, idx;
      }
      TriedGrow(existing, destDir, name, tried, idx);
      TakenGrow(existing, destDir, name, idx);
      tried := tried + {candidate};
      SubsetSize(tried, existing);
      idx := idx + 1;
    }
  }

  // ---------------------------------------------------------------------------
  // `gather_images` (main.py:62-72)

  /** `is_image_path(str(Path(dirpath) / fn))`: the test is on the joined
      path. */
  predicate ImageIn(dirpath: string, fn: string)
  {
    MediaPaths.IsImagePath(Join(dirpath, fn))
  }

  /** `gather_images(root)`: a file root is kept alone when it is an image;
      a directory root is walked (`walk`), its image paths collected and
      sorted. */
  method GatherImages(root: string, rootIsFile: bool, walk: Scanner.Walk) returns (images: seq<string>)
    ensures rootIsFile ==> images == if MediaPaths.IsImagePath(root) then [root] else []
    ensures !rootIsFile ==> images == PathOrder.SortPaths(Scanner.FoundBy(walk, ImageIn))
    ensures images == Gathered(root, rootIsFile, walk)
  {
    if rootIsFile {
      return if MediaPaths.IsImagePath(root) then [root] else [];
    }
    var collected, _ := Scanner.ScanWith(walk, ImageIn, false);
    images := PathOrder.SortPaths(collected);
  }

  /** The paths `gather_images(root)` returns, by its definition. */
  function Gathered(root: string, rootIsFile: bool, walk: Scanner.Walk): seq<string>
  {
    if rootIsFile then (if MediaPaths.IsImagePath(root) then [root] else [])
    else PathOrder.SortPaths(Scanner.FoundBy(walk, ImageIn))
  }

  /** The gathered paths of a directory are sorted and are exactly the
      walked image paths: a path is in the result iff some walked file
      joins to it and is an image. */
  lemma GatheredPaths(walk: Scanner.Walk, p: string)
    ensures PathOrder.Sorted(PathOrder.SortPaths(Scanner.FoundBy(walk, ImageIn)))
    ensures p in PathOrder.SortPaths(Scanner.FoundBy(walk, ImageIn)) <==>
      exists i, j :: 0 <= i < |walk| && 0 <= j < |walk[i].1| && p == Join(walk[i].0, walk[i].1[j]) && MediaPaths.IsImagePath(p)
  {
    var found := Scanner.FoundBy(walk, ImageIn);
    PathOrder.SortPathsSorted(found);
    assert p in PathOrder.SortPaths(found) <==> p in multiset(PathOrder.SortPaths(found));
    assert p in found <==> p in multiset(found);
    if p in found {
      Scanner.FoundFromWalk(walk, p, ImageIn);
      var i, j :| Scanner.WalkedAt(walk, i, j, p, ImageIn);
      assert 0 <= i < |walk| && 0 <= j < |walk[i].1| && p == Join(walk[i].0, walk[i].1[j]) && MediaPaths.IsImagePath(p);
    }
    if exists i, j :: 0 <= i < |walk| && 0 <= j < |walk[i].1| && p == Join(walk[i].0, walk[i].1[j]) && MediaPaths.IsImagePath(p) {
      var i, j :| 0 <= i < |walk| && 0 <= j < |walk[i].1| && p == Join(walk[i].0, walk[i].1[j]) && MediaPaths.IsImagePath(p);
      assert Scanner.WalkedAt(walk, i, j, p, ImageIn);
      Scanner.WalkToFound(walk, i, j, p, ImageIn);
    }
  }

  // ---------------------------------------------------------------------------
  // Argument guards (main.py:29-59, 145-152)

  /** The `--blur-method` choices argparse accepts. */
  datatype BlurChoice = Vol | Hfr | VolHfr

  function ChoiceName(c: BlurChoice): string
  {
    match c
    case Vol => "vol"
    case Hfr => "hfr"
    case VolHfr => "vol+hfr"
  }

  /** argparse's `choices` check: only the exact names are accepted. */
  function ParseChoice(s: string): (r: Option<BlurChoice>)
    ensures r.Some? ==> ChoiceName(r.value) == s
  {
    if s == "vol" then Some(Vol)
    else if s == "hfr" then Some(Hfr)
    else if s == "vol+hfr" then Some(VolHfr)
    else None
  }

  /** Every choice is accepted under its own name. */
  lemma ParseChoiceName(c: BlurChoice)
    ensures ParseChoice(ChoiceName(c)) == Some(c)
  {
  }

  /** The parsed arguments that the program looks at; `--blur-list`
      and `--drop-blurry` only affect the CSV file and the log. */
  datatype Args = Args(input: string, blurPercentile: int, blurMethod: string, blurSampleLimit: int, blurMoveDir: Option<string>)

  /** The move directory in effect: `if args.blur_move_dir` treats an empty
      string like an absent option. */
  function MoveTarget(args: Args): (r: Option<string>)
    ensures r.Some? <==> args.blurMoveDir.Some? && args.blurMoveDir.value != ""
    ensures r.Some? ==> r == args.blurMoveDir
  {
    match args.blurMoveDir
    case Some(d) => if d == "" then None else Some(d)
    case None => None
  }

  /** The first guard that fails, in the order the program checks them: the
      method choice (argparse), the percentile range, the sample limit, and
      the existence of the input, reported under its resolved path. */
  function CheckArgs(args: Args, resolved: string, inputExists: bool): (r: Option<string>)
    ensures r.None? <==> ParseChoice(args.blurMethod).Some? && 5 <= args.blurPercentile <= 50 &&
                         args.blurSampleLimit > 0 && inputExists
    ensures !inputExists && r.Some? && ParseChoice(args.blurMethod).Some? && 5 <= args.blurPercentile <= 50 && args.blurSampleLimit > 0 ==>
      r.value == "Input path does not exist: " + resolved
  {
    if ParseChoice(args.blurMethod).None? then Some("invalid choice for --blur-method")
    else if !(5 <= args.blurPercentile <= 50) then Some("--blur-percentile must be between 5 and 50")
    else if args.blurSampleLimit <= 0 then Some("--blur-sample-limit must be a positive integer")
    else if !inputExists then Some("Input path does not exist: " + resolved)
    else None
  }

  // ---------------------------------------------------------------------------
  // The per-image loop of `main` (main.py:187-221)

  /** What loading an image and scoring it gives: unreadable, a metric
      error, or the blur scores (from the sampling cache or computed). */
  datatype Loaded = Unreadable | MetricError | Scored(scores: map<string, real>)

  /** `counts` (line 188): one counter per decision and one for errors. */
  datatype Counts = Counts(blurry: nat, keep: nat, lowTexture: nat, error: nat)

  const NoCounts := Counts(0, 0, 0, 0)

  function Total(c: Counts): nat
  {
    c.blurry + c.keep + c.lowTexture + c.error
  }

  /** The blur verdict of a valid choice never fails. */
  lemma ChoiceAccepted(scores: map<string, real>, thr: map<string, real>, c: BlurChoice)
    ensures Blur.IsBlurry(scores, thr, Some(ChoiceName(c))).Ok?
  {
    Blur.BlurVerdicts(scores, thr);
  }

  /** `blur_flag` (lines 211-213): false under low texture, where `is_blurry`
      is not called; otherwise its verdict. */
  function BlurFlag(scores: map<string, real>, thr: map<string, real>, c: BlurChoice, skipBlur: bool): (r: bool)
    ensures r <==> !skipBlur && Blur.IsBlurry(scores, thr, Some(ChoiceName(c))) == Ok(true)
  {
    if skipBlur then false
    else
      ChoiceAccepted(scores, thr, c);
      Blur.IsBlurry(scores, thr, Some(ChoiceName(c))).value
  }

  /** The decision for one image, `None` for an image that failed to load
      or score (counted as "error"). */
  function Verdict(load: Loaded, thr: map<string, real>, c: BlurChoice, skipBlur: bool): (r: Option<Label>)
    ensures r.None? <==> !load.Scored?
    ensures skipBlur && load.Scored? ==> r == Some(LowTexture)
    ensures !skipBlur ==> r != Some(LowTexture)
  {
    if load.Scored? then Some(Decide(skipBlur, BlurFlag(load.scores, thr, c, skipBlur))) else None
  }

  /** The decisions for `images`, in order. */
  function Verdicts(images: seq<string>, load: string -> Loaded, thr: map<string, real>, c: BlurChoice, skipBlur: bool): (r: seq<Option<Label>>)
    ensures |r| == |images|
    ensures forall k :: 0 <= k < |images| ==> r[k] == Verdict(load(images[k]), thr, c, skipBlur)
  {
    seq(|images|, k requires 0 <= k < |images| => Verdict(load(images[k]), thr, c, skipBlur))
  }

  /** The counters and the number of moves after one more image. */
  function Step(state: (Counts, nat), v: Option<Label>, moveDir: bool): (Counts, nat)
  {
    var (counts, moved) := state;
    match v
    case None => (counts.(error := counts.error + 1), moved)
    case Some(Blurry) => (counts.(blurry := counts.blurry + 1), if moveDir then moved + 1 else moved)
    case Some(Keep) => (counts.(keep := counts.keep + 1), moved)
    case Some(LowTexture) => (counts.(lowTexture := counts.lowTexture + 1), moved)
  }

  /** The counters and the number of moves after the decisions `vs`. */
  function Tally(vs: seq<Option<Label>>, moveDir: bool): (Counts, nat)
  {
    if vs == [] then (NoCounts, 0)
    else
      var n := |vs| - 1;
      Step(Tally(vs[..n], moveDir), vs[n], moveDir)
  }

  lemma TallyStep(vs: seq<Option<Label>>, i: nat, moveDir: bool)
    requires i < |vs|
    ensures Tally(vs[..i + 1], moveDir) == Step(Tally(vs[..i], moveDir), vs[i], moveDir)
  {
    assert vs[..i + 1][..i] == vs[..i];
  }

  /** The decision for a scored image (lines 211-214). */
  method DecideImage(scores: map<string, real>, thr: map<string, real>, c: BlurChoice, skipBlur: bool) returns (decision: Label)
    ensures Some(decision) == Verdict(Scored(scores), thr, c, skipBlur)
  {
    var blurFlag := false;
    if !skipBlur {
      ChoiceAccepted(scores, thr, c);
      blurFlag := Blur.IsBlurry(scores, thr, Some(ChoiceName(c))).value;
    }
    decision := Decide(skipBlur, blurFlag);
  }

  /** The destinations of the moves so far are all taken paths, none of
      them existed before the loop, and no two are the same. */
  predicate FreshMoves(dests: seq<string>, taken: set<string>, existing: set<string>)
  {
    && existing <= taken
    && (forall k :: 0 <= k < |dests| ==> dests[k] in taken && dests[k] !in existing)
    && (forall k, l :: 0 <= k < l < |dests| ==> dests[k] != dests[l])
  }

  /** One pass of the loop body (lines 193-221) for the image `path`, whose
      loading and scoring gave `loaded`: the counters take one step, and a
      blurry image is moved to a destination that is added to `taken`. */
  method HandleImage(path: string, loaded: Loaded, thr: map<string, real>, c: BlurChoice, skipBlur: bool,
                     moveDir: Option<string>, existing: set<string>,
                     counts: Counts, moved: nat, taken: set<string>, dests: seq<string>)
    returns (counts': Counts, moved': nat, taken': set<string>, dests': seq<string>)
    requires FreshMoves(dests, taken, existing) && |dests| == moved
    ensures (counts', moved') == Step((counts, moved), Verdict(loaded, thr, c, skipBlur), moveDir.Some?)
    ensures FreshMoves(dests', taken', existing) && |dests'| == moved'
  {
    counts', moved', taken', dests' := counts, moved, taken, dests;
    if loaded.Unreadable? {
      counts' := counts.(error := counts.error + 1);
    } else if loaded.MetricError? {
      counts' := counts.(error := counts.error + 1);
    } else {
      var decision := DecideImage(loaded.scores, thr, c, skipBlur);
      if decision == Blurry {
        counts' := counts.(blurry := counts.blurry + 1);
      } else if decision == Keep {
        counts' := counts.(keep := counts.keep + 1);
      } else {
        counts' := counts.(lowTexture := counts.lowTexture + 1);
      }
      if decision == Blurry && moveDir.Some? {
        var dest, _ := UniqueDestination(taken, moveDir.value, Basename(path));
        dests' := dests + [dest];
        taken' := taken + {dest};
        moved' := moved + 1;
      }
    }
  }

  /** The loop over `images` (lines 191-233), with `load(path)` what loading
      and scoring `path` gives, `moveDir` the move directory if one is set,
      and `existing` the paths that exist before the loop. Each blurry image
      that is moved gets a destination from `unique_destination`, which then
      exists; the destinations are returned in order. They are all fresh
      and all different, so no move overwrites a file or another move. */
  method ProcessImages(images: seq<string>, load: string -> Loaded, thr: map<string, real>, c: BlurChoice, skipBlur: bool,
                       moveDir: Option<string>, existing: set<string>)
    returns (counts: Counts, moved: nat, dests: seq<string>)
    ensures (counts, moved) == Tally(Verdicts(images, load, thr, c, skipBlur), moveDir.Some?)
    ensures |dests| == moved
    ensures forall k :: 0 <= k < |dests| ==> dests[k] !in existing
    ensures forall k, l :: 0 <= k < l < |dests| ==> dests[k] != dests[l]
  {
    ghost var vs := Verdicts(images, load, thr, c, skipBlur);
    counts, moved, dests := NoCounts, 0, [];
    var taken := existing;
    var i := 0;
    while i < |images|
      invariant 0 <= i <= |images|
      invariant (counts, moved) == Tally(vs[..i], moveDir.Some?)
      invariant FreshMoves(dests, taken, existing) && |dests| == moved
    {
      TallyStep(vs, i, moveDir.Some?);
      counts, moved, taken, dests := HandleImage(images[i], load(images[i]), thr, c, skipBlur, moveDir, existing, counts, moved, taken, dests);
      i := i + 1;
    }
    assert vs[..i] == vs;
  }

  /** How many images failed to load or score. */
  function Failures(vs: seq<Option<Label>>): nat
  {
    if vs == [] then 0
    else
      var n := |vs| - 1;
      Failures(vs[..n]) + (if vs[n].None? then 1 else 0)
  }

  /** Every image increments exactly one counter. */
  lemma {:induction false} TallyTotal(vs: seq<Option<Label>>, moveDir: bool)
    ensures Total(Tally(vs, moveDir).0) == |vs|
  {
    if vs == [] {
      assert Tally(vs, moveDir) == (NoCounts, 0);
    } else {
      var n := |vs| - 1;
      TallyTotal(vs[..n], moveDir);
      StepFacts(Tally(vs[..n], moveDir), vs[n], moveDir);
    }
  }

  /** "error" counts exactly the images that failed to load or score. */
  lemma {:induction false} TallyErrors(vs: seq<Option<Label>>, moveDir: bool)
    ensures Tally(vs, moveDir).0.error == Failures(vs)
  {
    if vs == [] {
      assert Tally(vs, moveDir) == (NoCounts, 0);
    } else {
      var n := |vs| - 1;
      TallyErrors(vs[..n], moveDir);
      StepFacts(Tally(vs[..n], moveDir), vs[n], moveDir);
    }
  }

  /** With a move directory every blurry image is moved, without one none
      is. */
  lemma {:induction false} TallyMoves(vs: seq<Option<Label>>, moveDir: bool)
    ensures Tally(vs, moveDir).1 == if moveDir then Tally(vs, moveDir).0.blurry else 0
  {
    if vs == [] {
      assert Tally(vs, moveDir) == (NoCounts, 0);
    } else {
      var n := |vs| - 1;
      TallyMoves(vs[..n], moveDir);
      StepFacts(Tally(vs[..n], moveDir), vs[n], moveDir);
    }
  }

  /** One image increments exactly one counter, "error" exactly when it
      failed, and a move is counted exactly with "blurry" when there is a
      move directory. */
  lemma StepFacts(state: (Counts, nat), v: Option<Label>, moveDir: bool)
    ensures Total(Step(state, v, moveDir).0) == Total(state.0) + 1
    ensures Step(state, v, moveDir).0.error == state.0.error + if v.None? then 1 else 0
    ensures Step(state, v, moveDir).1 == state.1 + if moveDir then Step(state, v, moveDir).0.blurry - state.0.blurry else 0
  {
  }

  /** Decisions that are never "low_texture" leave that counter at 0. */
  lemma {:induction false} TallyNoLowTexture(vs: seq<Option<Label>>, moveDir: bool)
    requires forall k :: 0 <= k < |vs| ==> vs[k] != Some(LowTexture)
    ensures Tally(vs, moveDir).0.lowTexture == 0
  {
    if vs == [] {
      assert Tally(vs, moveDir) == (NoCounts, 0);
    } else {
      var n := |vs| - 1;
      assert forall k :: 0 <= k < n ==> vs[..n][k] == vs[k];
      TallyNoLowTexture(vs[..n], moveDir);
    }
  }

  /** When every scored image is "low_texture", no image is blurry or kept
      and every image that did not fail is "low_texture". */
  lemma {:induction false} TallyAllLowTexture(vs: seq<Option<Label>>, moveDir: bool)
    requires forall k :: 0 <= k < |vs| ==> vs[k].None? || vs[k] == Some(LowTexture)
    ensures Tally(vs, moveDir).0.blurry == 0 && Tally(vs, moveDir).0.keep == 0
    ensures Tally(vs, moveDir).0.lowTexture + Failures(vs) == |vs|
  {
    if vs == [] {
      assert Tally(vs, moveDir) == (NoCounts, 0);
    } else {
      var n := |vs| - 1;
      assert forall k :: 0 <= k < n ==> vs[..n][k] == vs[k];
      TallyAllLowTexture(vs[..n], moveDir);
    }
  }

  /** The loop's counters over `images`: one count per image, nothing blurry
      or kept under low texture, and one move per blurry image exactly when
      there is a move directory. */
  lemma PassFacts(images: seq<string>, load: string -> Loaded, thr: map<string, real>, c: BlurChoice, skipBlur: bool, moveDir: bool)
    ensures Total(Tally(Verdicts(images, load, thr, c, skipBlur), moveDir).0) == |images|
    ensures skipBlur ==> Tally(Verdicts(images, load, thr, c, skipBlur), moveDir).0.blurry == 0 &&
                         Tally(Verdicts(images, load, thr, c, skipBlur), moveDir).0.keep == 0
    ensures Tally(Verdicts(images, load, thr, c, skipBlur), moveDir).1 ==
            if moveDir then Tally(Verdicts(images, load, thr, c, skipBlur), moveDir).0.blurry else 0
  {
    var vs := Verdicts(images, load, thr, c, skipBlur);
    TallyTotal(vs, moveDir);
    TallyMoves(vs, moveDir);
    if skipBlur {
      TallyAllLowTexture(vs, moveDir);
    }
  }

  // ---------------------------------------------------------------------------
  // `main` (main.py:141-242)

  /** How a run ends: a refused argument (`SystemExit` or argparse's exit),
      no image found, or the counters and the number of moves. */
  datatype Outcome = Abort(message: string) | NoImages | Done(counts: Counts, moved: nat)

  /** `main()`: the guards, then the gathering, then the per-image loop.
      `resolved` is `Path(args.input).expanduser().resolve()`, and
      `inputExists`, `rootIsFile` and `walk` describe the file system there;
      `globalVar` and `thr` are what the sampling pass gives, and `load`
      what loading and scoring each image gives; `existing` is the set of
      paths that exist before the first move. */
  method RunMain(args: Args, resolved: string, inputExists: bool, rootIsFile: bool, walk: Scanner.Walk,
                 globalVar: real, thr: map<string, real>, load: string -> Loaded, existing: set<string>)
    returns (outcome: Outcome)
    ensures CheckArgs(args, resolved, inputExists).Some? ==> outcome == Abort(CheckArgs(args, resolved, inputExists).value)
    ensures CheckArgs(args, resolved, inputExists).None? ==> !outcome.Abort?
    ensures outcome == NoImages <==> CheckArgs(args, resolved, inputExists).None? && Gathered(resolved, rootIsFile, walk) == []
    ensures outcome.Done? ==>
      CheckArgs(args, resolved, inputExists).None? && ParseChoice(args.blurMethod).Some? &&
      (outcome.counts, outcome.moved) ==
        Tally(Verdicts(Gathered(resolved, rootIsFile, walk), load, thr, ParseChoice(args.blurMethod).value,
                       globalVar < Blur.LowTextureEpsilon), MoveTarget(args).Some?)
    ensures outcome.Done? ==> Total(outcome.counts) == |Gathered(resolved, rootIsFile, walk)| > 0
    ensures outcome.Done? && globalVar < Blur.LowTextureEpsilon ==> outcome.counts.blurry == 0 && outcome.counts.keep == 0 && outcome.moved == 0
    ensures outcome.Done? ==> outcome.moved == if MoveTarget(args).Some? then outcome.counts.blurry else 0
  {
    var problem := CheckArgs(args, resolved, inputExists);
    if problem.Some? {
      return Abort(problem.value);
    }
    var c := ParseChoice(args.blurMethod).value;
    var images := GatherImages(resolved, rootIsFile, walk);
    if images == [] {
      return NoImages;
    }
    var skipBlur := globalVar < Blur.LowTextureEpsilon;
    var counts, moved, _ := ProcessImages(images, load, thr, c, skipBlur, MoveTarget(args), existing);
    PassFacts(images, load, thr, c, skipBlur, MoveTarget(args).Some?);
    return Done(counts, moved);
  }
}
