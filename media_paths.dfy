/**
 * Path classification by extension (app/image_utils.py, app/video_utils.py)
 * and the byte-count rendering of app/image_utils.py. The extension is
 * the `os.path.splitext` one of `PathText.Ext`, lower-cased.
 */
module MediaPaths {
  import opened PathText

  /** `IMG_EXTS` (app/image_utils.py:8). */
  const ImageExts := {".jpg", ".jpeg", ".png", ".bmp", ".tiff", ".webp"}

  /** `VIDEO_EXTS` (app/video_utils.py:9). */
  const VideoExts := {".mp4", ".mov", ".avi", ".mkv", ".m4v", ".wmv"}

  /** `is_image_path(path)` (app/image_utils.py:10-12). */
  predicate IsImagePath(p: string)
  {
    IsImageExt(Lower(Ext(p)))
  }

  predicate IsImageExt(e: string)
  {
    e in ImageExts
  }

  /** `is_video_path(path)` (app/video_utils.py:11-12). */
  predicate IsVideoPath(p: string)
  {
    IsVideoExt(Lower(Ext(p)))
  }

  predicate IsVideoExt(e: string)
  {
    e in VideoExts
  }

  /** The kind the scan worker records for a path (app/workers.py:44). */
  function KindOf(p: string): (k: string)
    ensures k == "img" <==> IsImagePath(p)
    ensures k == "vid" <==> IsVideoPath(p)
    ensures k == "other" <==> !IsImagePath(p) && !IsVideoPath(p)
  {
    ImageVideoDisjoint(p);
    if IsImagePath(p) then "img" else if IsVideoPath(p) then "vid" else "other"
  }

  /** No path is both an image and a video: the two extension sets share
      no member. */
  lemma ImageVideoDisjoint(p: string)
    ensures !(IsImagePath(p) && IsVideoPath(p))
  {
    ExtsDisjoint(Lower(Ext(p)));
  }

  /** The image and video extension sets share no member: every video
      extension has four characters, and the four-character image
      extensions differ from all of them in the second character. */
  lemma ExtsDisjoint(x: string)
    ensures !(IsImageExt(x) && IsVideoExt(x))
  {
    assert IsImageExt(x) ==> |x| == 5 || x[1] in {'j', 'p', 'b'};
    assert IsVideoExt(x) ==> |x| == 4 && x[1] in {'m', 'a', 'w'};
  }

  /** A path without an extension is neither an image nor a video. */
  lemma {:induction false} NoExtensionNoMedia(p: string)
    requires Ext(p) == ""
    ensures !IsImagePath(p) && !IsVideoPath(p)
  {
    assert Lower("") == "";
  }

  /** The last occurrence of `c` is the one with no `c` after it. */
  lemma RFindLast(s: string, c: char, r: int)
    requires -1 <= r < |s| && (r >= 0 ==> s[r] == c)
    requires forall i :: r < i < |s| ==> s[i] != c
    ensures RFind(s, c) == r
  {
  }

  /** Appending an ending without '/' leaves the last '/' where it was. */
  lemma {:induction false} RFindSlashAppend(base: string, e: string)
    requires '/' !in e
    ensures RFind(base + e, '/') == RFind(base, '/')
  {
    var p := base + e;
    var r := RFind(base, '/');
    forall i | r < i < |p|
      ensures p[i] != '/'
    {
      if i >= |base| {
        assert p[i] == e[i - |base|];
      } else {
        assert p[i] == base[i];
      }
    }
    assert r >= 0 ==> p[r] == base[r];
    RFindLast(p, '/', r);
  }

  /** In a name ending in `e`, a dot followed by no dot, the last dot is
      the first character of `e`. */
  lemma {:induction false} RFindDotEnding(b: string, e: string)
    requires |e| >= 1 && |e| <= |b| && b[|b| - |e|..] == e
    requires e[0] == '.' && '.' !in e[1..]
    ensures RFind(b, '.') == |b| - |e|
  {
    var d := |b| - |e|;
    forall i | d < i < |b|
      ensures b[i] != '.'
    {
      assert b[i] == e[i - d] == e[1..][i - d - 1];
    }
    assert b[d] == e[0];
    RFindLast(b, '.', d);
  }

  /** Appending an ending without '/' to a base whose tail from `k` on has
      no '/' gives the base's last component followed by the ending. */
  lemma {:induction false} BasenameOfName(base: string, e: string, k: nat)
    requires '/' !in e
    requires k < |base| && '/' !in base[k..]
    ensures RFind(base, '/') < k
    ensures Basename(base + e) == base[RFind(base, '/') + 1..] + e
  {
    var r := RFind(base, '/');
    RFindSlashAppend(base, e);
    assert (base + e)[r + 1..] == base[r + 1..] + e;
  }

  /** A name made of a base with some non-dot character after its last '/'
      and an ending `e` that is a dot followed by no dot or '/' has the
      extension `e`. */
  lemma {:induction false} ExtOfName(base: string, e: string, k: nat)
    requires |e| >= 1 && e[0] == '.' && '.' !in e[1..] && '/' !in e
    requires k < |base| && base[k] != '.' && '/' !in base[k..]
    ensures Ext(base + e) == e
  {
    var r := RFind(base, '/');
    BasenameOfName(base, e, k);
    var tail := base[r + 1..];
    var b := Basename(base + e);
    assert b == tail + e;
    var d := |tail|;
    assert b[d..] == e && b[..d] == tail;
    RFindDotEnding(b, e);
    var j := k - (r + 1);
    assert tail[j] == base[k];
    NotAllDots(tail, j);
  }

  /** Whether a name is an image depends only on its lower-cased ending,
      so ".JPG" counts as ".jpg". */
  lemma {:induction false} IsImageByEnding(base: string, e: string, k: nat)
    requires |e| >= 1 && e[0] == '.' && '.' !in e[1..] && '/' !in e
    requires k < |base| && base[k] != '.' && '/' !in base[k..]
    ensures IsImagePath(base + e) <==> IsImageExt(Lower(e))
    ensures IsVideoPath(base + e) <==> IsVideoExt(Lower(e))
  {
    ExtOfName(base, e, k);
  }

  // ---------------------------------------------------------------------------
  // `format_bytes` (app/image_utils.py:60-65)

  /** The units the loop tries, and the one it falls through to. */
  const Units := ["B", "KB", "MB", "GB", "TB", "PB"]

  /** A rendered byte count: the integer itself with "B", or a quotient with
      a larger unit (rendered with one decimal, which is not modelled). */
  datatype Shown = Bytes(text: string) | Scaled(value: real, unit: string)

  function Pow1024(k: nat): (r: real)
    ensures r >= 1.0
  {
    if k == 0 then 1.0 else 1024.0 * Pow1024(k - 1)
  }

  /** The running quotient and the unit index where the loop stops when it
      is at unit `k` with quotient `x`. */
  function UnitFor(x: real, k: nat): (real, nat)
    requires k <= 5
    decreases 5 - k
  {
    if k == 5 || x < 1024.0 then (x, k) else UnitFor(x / 1024.0, k + 1)
  }

  /** The loop stops at unit `j` no earlier than `k`: the quotient is
      below 1024 unless the units ran out at "PB", and it is at least 1
      once a division has happened. */
  lemma {:induction false} UnitForFacts(x: real, k: nat)
    requires k <= 5
    ensures k <= UnitFor(x, k).1 <= 5
    ensures UnitFor(x, k).1 < 5 ==> UnitFor(x, k).0 < 1024.0
    ensures UnitFor(x, k).1 > k ==> UnitFor(x, k).0 >= 1.0
    ensures UnitFor(x, k).1 == k <==> k == 5 || x < 1024.0
    decreases 5 - k
  {
    if k < 5 && x >= 1024.0 {
      UnitForFacts(x / 1024.0, k + 1);
    }
  }

  /** Multiplying the quotient back by 1024 once per unit passed gives the
      original count. */
  lemma {:induction false} UnitForQuotient(x: real, k: nat)
    requires k <= 5
    ensures k <= UnitFor(x, k).1
    ensures UnitFor(x, k).0 * Pow1024(UnitFor(x, k).1 - k) == x
    decreases 5 - k
  {
    if k < 5 && x >= 1024.0 {
      UnitForQuotient(x / 1024.0, k + 1);
      var (v, j) := UnitFor(x / 1024.0, k + 1);
      var q := Pow1024(j - (k + 1));
      assert Pow1024(j - k) == 1024.0 * q;
      calc {
        v * Pow1024(j - k);
        v * (1024.0 * q);
        1024.0 * (v * q);
        1024.0 * (x / 1024.0);
        x;
      }
    }
  }

  /** `format_bytes(n)`. */
  function FormatBytes(n: int): Shown
  {
    var (v, j) := UnitFor(n as real, 0);
    if j == 0 then Bytes(IntToString(n) + "B") else Scaled(v, Units[j])
  }

  /** Below 1024 the count is shown as an integer with "B"; from 1024 on it
      is shown in the first unit, "KB" to "PB", at which it is at least 1
      and below 1024 (or "PB" if none), with `n == v * 1024^j`. */
  lemma FormatBytesUnit(n: int)
    ensures n < 1024 <==> FormatBytes(n).Bytes?
    ensures n < 1024 ==> FormatBytes(n).text == IntToString(n) + "B"
    ensures n >= 1024 ==> 1 <= UnitFor(n as real, 0).1 <= 5
    ensures n >= 1024 ==> FormatBytes(n) == Scaled(UnitFor(n as real, 0).0, Units[UnitFor(n as real, 0).1])
    ensures FormatBytes(n).Scaled? ==> 1.0 <= FormatBytes(n).value
    ensures FormatBytes(n).Scaled? && FormatBytes(n).unit != "PB" ==> FormatBytes(n).value < 1024.0
    ensures FormatBytes(n).Scaled? ==> FormatBytes(n).value * Pow1024(UnitFor(n as real, 0).1) == n as real
  {
    UnitForFacts(n as real, 0);
    UnitForQuotient(n as real, 0);
  }

  /** The loop of `format_bytes`: the quotient is divided by 1024 for each
      unit passed. */
  method FormatBytesLoop(n: int) returns (s: Shown)
    ensures s == FormatBytes(n)
  {
    var x := n as real;
    var k := 0;
    while k < 5
      invariant 0 <= k <= 5
      invariant UnitFor(x, k) == UnitFor(n as real, 0)
    {
      if x < 1024.0 {
        if k == 0 {
          return Bytes(IntToString(n) + "B");
        }
        return Scaled(x, Units[k]);
      }
      x := x / 1024.0;
      k := k + 1;
    }
    return Scaled(x, "PB");
  }
}
