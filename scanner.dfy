/**
 * `Scanner.scan_directory` of core/scanner.py over a given walk: the
 * directory walk (`os.walk`) is an input, a sequence of directories each
 * with its file names in walk order. Every file whose lower-cased
 * extension is supported is joined to its directory and appended, and the
 * progress callback, when there is one, receives the running count.
 */
module Scanner {
  import opened PathText

  /** `SUPPORTED_EXTENSIONS` (line 6). */
  const SupportedExtensions := {".jpg", ".jpeg", ".png", ".heic", ".webp", ".mp4", ".avi", ".mov", ".mkv"}

  /** One step of the walk: a directory and the names of its files. */
  type Walk = seq<(string, seq<string>)>

  predicate SupportedExt(e: string)
  {
    e in SupportedExtensions
  }

  /** `os.path.splitext(file)[1].lower() in SUPPORTED_EXTENSIONS` (lines 48-49). */
  predicate IsSupported(file: string)
  {
    SupportedExt(Lower(Ext(file)))
  }

  /** The test of line 49 as a test on a directory and a file name: only
      the name counts. */
  predicate SupportedIn(root: string, file: string)
  {
    IsSupported(file)
  }

  /** What one file of directory `root` adds when files are kept by
      `keep`: its joined path, or nothing. */
  function Contribution(root: string, file: string, keep: (string, string) -> bool): (r: seq<string>)
    ensures |r| <= 1
  {
    if keep(root, file) then [Join(root, file)] else []
  }

  /** The paths kept from one directory, in file order. */
  function KeptBy(root: string, files: seq<string>, keep: (string, string) -> bool): (r: seq<string>)
    ensures |r| <= |files|
  {
    if files == [] then []
    else
      var n := |files| - 1;
      KeptBy(root, files[..n], keep) + Contribution(root, files[n], keep)
  }

  /** The paths kept from a whole walk, directory after directory. */
  function FoundBy(walk: Walk, keep: (string, string) -> bool): seq<string>
  {
    if walk == [] then []
    else
      var n := |walk| - 1;
      FoundBy(walk[..n], keep) + KeptBy(walk[n].0, walk[n].1, keep)
  }

  /** What `scan_directory` returns for a walk: the supported files, joined
      to their directories, in walk order. */
  function Accepted(walk: Walk): seq<string>
  {
    FoundBy(walk, SupportedIn)
  }

  /** The reports a callback receives after `n` accepted files: 1, 2, ..., n. */
  function Counting(n: nat): (r: seq<nat>)
    ensures |r| == n && forall k :: 0 <= k < n ==> r[k] == k + 1
  {
    if n == 0 then [] else Counting(n - 1) + [n]
  }

  lemma Associative(a: seq<string>, b: seq<string>, c: seq<string>)
    ensures a + b + c == a + (b + c)
  {
  }

  /** One more file name in a directory. */
  lemma KeptStep(root: string, files: seq<string>, j: nat, keep: (string, string) -> bool)
    requires j < |files|
    ensures KeptBy(root, files[..j + 1], keep) == KeptBy(root, files[..j], keep) + Contribution(root, files[j], keep)
  {
    assert files[..j + 1][..j] == files[..j];
  }

  /** One more file appended after what was found before. */
  lemma KeptGrow(found: seq<string>, root: string, files: seq<string>, j: nat, keep: (string, string) -> bool)
    requires j < |files|
    ensures found + KeptBy(root, files[..j + 1], keep) ==
      found + KeptBy(root, files[..j], keep) + (if keep(root, files[j]) then [Join(root, files[j])] else [])
  {
    KeptStep(root, files, j, keep);
    Associative(found, KeptBy(root, files[..j], keep), Contribution(root, files[j], keep));
  }

  /** One more directory of the walk. */
  lemma FoundStep(walk: Walk, i: nat, keep: (string, string) -> bool)
    requires i < |walk|
    ensures FoundBy(walk[..i + 1], keep) == FoundBy(walk[..i], keep) + KeptBy(walk[i].0, walk[i].1, keep)
  {
    assert walk[..i + 1][..i] == walk[..i];
  }

  /** The whole of a sequence is its longest prefix. */
  lemma KeptWhole(root: string, files: seq<string>, keep: (string, string) -> bool)
    ensures KeptBy(root, files[..|files|], keep) == KeptBy(root, files, keep)
  {
    assert files[..|files|] == files;
  }

  lemma FoundWhole(walk: Walk, keep: (string, string) -> bool)
    ensures FoundBy(walk[..|walk|], keep) == FoundBy(walk, keep)
  {
    assert walk[..|walk|] == walk;
  }

  /** The inner loop of `scan_directory` (lines 47-54) over the files of
      one directory, with the file test as a parameter: the kept paths are
      appended to `found` and, with a callback, each new length is
      reported. */
  method ScanFiles(root: string, files: seq<string>, keep: (string, string) -> bool, hasCallback: bool,
                   found: seq<string>, reported: seq<nat>) returns (imageFiles: seq<string>, reports: seq<nat>)
    requires hasCallback ==> reported == Counting(|found|)
    requires !hasCallback ==> reported == []
    ensures imageFiles == found + KeptBy(root, files, keep)
    ensures hasCallback ==> reports == Counting(|imageFiles|)
    ensures !hasCallback ==> reports == []
  {
    imageFiles, reports := found, reported;
    var j := 0;
    while j < |files|
      invariant 0 <= j <= |files|
      invariant imageFiles == found + KeptBy(root, files[..j], keep)
      invariant hasCallback ==> reports == Counting(|imageFiles|)
      invariant !hasCallback ==> reports == []
    {
      KeptGrow(found, root, files, j, keep);
      var file := files[j];
      if keep(root, file) {
        imageFiles := imageFiles + [Join(root, file)];
        if hasCallback {
          reports := reports + [|imageFiles|];
        }
      }
      j := j + 1;
    }
    KeptWhole(root, files, keep);
  }

  /** The outer loop of `scan_directory` (line 46) over the walk. */
  method ScanWith(walk: Walk, keep: (string, string) -> bool, hasCallback: bool) returns (imageFiles: seq<string>, reports: seq<nat>)
    ensures imageFiles == FoundBy(walk, keep)
    ensures hasCallback ==> reports == Counting(|imageFiles|)
    ensures !hasCallback ==> reports == []
  {
    imageFiles := [];
    reports := [];
    var i := 0;
    while i < |walk|
      invariant 0 <= i <= |walk|
      invariant imageFiles == FoundBy(walk[..i], keep)
      invariant hasCallback ==> reports == Counting(|imageFiles|)
      invariant !hasCallback ==> reports == []
    {
      FoundStep(walk, i, keep);
      imageFiles, reports := ScanFiles(walk[i].0, walk[i].1, keep, hasCallback, imageFiles, reports);
      i := i + 1;
    }
    FoundWhole(walk, keep);
  }

  /** `scan_directory(root_path, progress_callback)` (lines 28-56): the
      supported files of the walk joined to their directories, and the
      counts 1, 2, ... passed to the callback when there is one. */
  method ScanDirectory(walk: Walk, hasCallback: bool) returns (imageFiles: seq<string>, reports: seq<nat>)
    ensures imageFiles == Accepted(walk)
    ensures hasCallback ==> reports == Counting(|imageFiles|)
    ensures !hasCallback ==> reports == []
  {
    imageFiles, reports := ScanWith(walk, SupportedIn, hasCallback);
  }

  // ---------------------------------------------------------------------------
  // What the result is made of

  lemma {:induction false} KeptAppend(root: string, f1: seq<string>, f2: seq<string>, keep: (string, string) -> bool)
    ensures KeptBy(root, f1 + f2, keep) == KeptBy(root, f1, keep) + KeptBy(root, f2, keep)
    decreases |f2|
  {
    if f2 == [] {
      assert f1 + f2 == f1;
    } else {
      var n := |f2| - 1;
      var m := |f1 + f2| - 1;
      assert (f1 + f2)[..m] == f1 + f2[..n];
      assert (f1 + f2)[m] == f2[n];
      KeptAppend(root, f1, f2[..n], keep);
      KeptStep(root, f1 + f2, m, keep);
      KeptStep(root, f2, n, keep);
      KeptWhole(root, f1 + f2, keep);
      KeptWhole(root, f2, keep);
      Associative(KeptBy(root, f1, keep), KeptBy(root, f2[..n], keep), Contribution(root, f2[n], keep));
    }
  }

  lemma {:induction false} FoundAppend(w1: Walk, w2: Walk, keep: (string, string) -> bool)
    ensures FoundBy(w1 + w2, keep) == FoundBy(w1, keep) + FoundBy(w2, keep)
    decreases |w2|
  {
    if w2 == [] {
      assert w1 + w2 == w1;
    } else {
      var n := |w2| - 1;
      var m := |w1 + w2| - 1;
      assert (w1 + w2)[..m] == w1 + w2[..n];
      assert (w1 + w2)[m] == w2[n];
      FoundAppend(w1, w2[..n], keep);
      FoundStep(w1 + w2, m, keep);
      FoundStep(w2, n, keep);
      FoundWhole(w1 + w2, keep);
      FoundWhole(w2, keep);
      Associative(FoundBy(w1, keep), FoundBy(w2[..n], keep), KeptBy(w2[n].0, w2[n].1, keep));
    }
  }

  lemma FoundOne(root: string, files: seq<string>, keep: (string, string) -> bool)
    ensures FoundBy([(root, files)], keep) == KeptBy(root, files, keep)
  {
    assert [(root, files)][..0] == [];
  }

  lemma KeptOne(root: string, file: string, keep: (string, string) -> bool)
    ensures KeptBy(root, [file], keep) == Contribution(root, file, keep)
  {
    assert [file][..0] == [];
  }

  /** Walk order is kept: scanning two walks in sequence gives the paths of
      the first followed by those of the second, and within a directory,
      the paths of two runs of files are concatenated in the same way. */
  lemma AcceptedAppend(w1: Walk, w2: Walk, root: string, f1: seq<string>, f2: seq<string>)
    ensures Accepted(w1 + w2) == Accepted(w1) + Accepted(w2)
    ensures Accepted([(root, f1 + f2)]) == Accepted([(root, f1)]) + Accepted([(root, f2)])
  {
    FoundAppend(w1, w2, SupportedIn);
    KeptAppend(root, f1, f2, SupportedIn);
    FoundOne(root, f1 + f2, SupportedIn);
    FoundOne(root, f1, SupportedIn);
    FoundOne(root, f2, SupportedIn);
  }

  /** A single walked file yields its joined path exactly when its
      extension is supported, and nothing otherwise. Together with the
      append lemma this fixes the result: each walked file contributes at
      most once, in walk order. */
  lemma SingleFile(root: string, file: string)
    ensures Accepted([(root, [file])]) == if IsSupported(file) then [Join(root, file)] else []
  {
    FoundOne(root, [file], SupportedIn);
    KeptOne(root, file, SupportedIn);
  }

  /** Some file `files[j]` of the directory adds `p`. */
  ghost predicate KeptAt(root: string, files: seq<string>, j: int, p: string, keep: (string, string) -> bool)
  {
    0 <= j < |files| && keep(root, files[j]) && p == Join(root, files[j])
  }

  lemma {:induction false} KeptFromFile(root: string, files: seq<string>, p: string, keep: (string, string) -> bool)
    requires p in KeptBy(root, files, keep)
    ensures exists j :: KeptAt(root, files, j, p, keep)
  {
    var n := |files| - 1;
    if p in KeptBy(root, files[..n], keep) {
      KeptFromFile(root, files[..n], p, keep);
      var j :| KeptAt(root, files[..n], j, p, keep);
      assert files[..n][j] == files[j];
      assert KeptAt(root, files, j, p, keep);
    } else {
      assert KeptAt(root, files, n, p, keep);
    }
  }

  lemma {:induction false} FileToKept(root: string, files: seq<string>, j: int, p: string, keep: (string, string) -> bool)
    requires KeptAt(root, files, j, p, keep)
    ensures p in KeptBy(root, files, keep)
  {
    var n := |files| - 1;
    if j < n {
      assert files[..n][j] == files[j];
      assert KeptAt(root, files[..n], j, p, keep);
      FileToKept(root, files[..n], j, p, keep);
    } else {
      assert j == n;
    }
  }

  /** Some file `walk[i].1[j]` of the walk adds `p`. */
  ghost predicate WalkedAt(walk: Walk, i: int, j: int, p: string, keep: (string, string) -> bool)
  {
    0 <= i < |walk| && KeptAt(walk[i].0, walk[i].1, j, p, keep)
  }

  lemma {:induction false} FoundFromWalk(walk: Walk, p: string, keep: (string, string) -> bool)
    requires p in FoundBy(walk, keep)
    ensures exists i, j :: WalkedAt(walk, i, j, p, keep)
  {
    var n := |walk| - 1;
    if p in FoundBy(walk[..n], keep) {
      FoundFromWalk(walk[..n], p, keep);
      var i, j :| WalkedAt(walk[..n], i, j, p, keep);
      assert walk[..n][i] == walk[i];
      assert WalkedAt(walk, i, j, p, keep);
    } else {
      KeptFromFile(walk[n].0, walk[n].1, p, keep);
      var j :| KeptAt(walk[n].0, walk[n].1, j, p, keep);
      assert WalkedAt(walk, n, j, p, keep);
    }
  }

  lemma {:induction false} WalkToFound(walk: Walk, i: int, j: int, p: string, keep: (string, string) -> bool)
    requires WalkedAt(walk, i, j, p, keep)
    ensures p in FoundBy(walk, keep)
  {
    var n := |walk| - 1;
    if i < n {
      assert walk[..n][i] == walk[i];
      assert WalkedAt(walk[..n], i, j, p, keep);
      WalkToFound(walk[..n], i, j, p, keep);
    } else {
      assert i == n;
      FileToKept(walk[n].0, walk[n].1, j, p, keep);
    }
  }

  /** A path is in the result exactly when some walked file has a
      supported extension and joins to it (both directions). */
  lemma AcceptedMembers(walk: Walk, p: string)
    ensures p in Accepted(walk) <==>
      exists i, j :: 0 <= i < |walk| && 0 <= j < |walk[i].1| && IsSupported(walk[i].1[j]) && p == Join(walk[i].0, walk[i].1[j])
  {
    if p in Accepted(walk) {
      FoundFromWalk(walk, p, SupportedIn);
      var i, j :| WalkedAt(walk, i, j, p, SupportedIn);
      assert 0 <= i < |walk| && 0 <= j < |walk[i].1| && IsSupported(walk[i].1[j]) && p == Join(walk[i].0, walk[i].1[j]);
    }
    if exists i, j :: 0 <= i < |walk| && 0 <= j < |walk[i].1| && IsSupported(walk[i].1[j]) && p == Join(walk[i].0, walk[i].1[j]) {
      var i, j :| 0 <= i < |walk| && 0 <= j < |walk[i].1| && IsSupported(walk[i].1[j]) && p == Join(walk[i].0, walk[i].1[j]);
      assert WalkedAt(walk, i, j, p, SupportedIn);
      WalkToFound(walk, i, j, p, SupportedIn);
    }
  }
}
