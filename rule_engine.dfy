/**
 * The keep/delete decision of core/rule_engine.py: in a group of paths the
 * one with the greatest (resolution, size, blur score) is kept and every
 * other path is deleted. The reading of each file (size, dimensions, blur
 * score, or a failure) is an input; `sorted(..., reverse=True)` is the
 * stable insertion sort `SortDesc`.
 */
module RuleEngine {
  import opened Wrappers

  datatype Verdict = Keep | Delete

  /** What reading one file gives when it succeeds (lines 29-36). */
  datatype Probe = Probe(size: int, width: int, height: int, blurScore: real)

  /** One metadata record (lines 38-43 and 47-52). */
  datatype Meta = Meta(path: string, size: int, resolution: int, blurScore: real)

  /** The record of one path; a file that cannot be read is ranked with
      (0, 0, 0) (lines 44-52). */
  function MetaOf(path: string, read: Option<Probe>): (m: Meta)
    ensures m.path == path
    ensures read.None? ==> m.size == 0 && m.resolution == 0 && m.blurScore == 0.0
    ensures read.Some? ==> m.resolution == read.value.width * read.value.height
  {
    match read
    case Some(p) => Meta(path, p.size, p.width * p.height, p.blurScore)
    case None => Meta(path, 0, 0, 0.0)
  }

  /** The records of a whole group, in group order. */
  function Metas(group: seq<string>, probes: seq<Option<Probe>>): (ms: seq<Meta>)
    requires |probes| == |group|
    ensures |ms| == |group|
  {
    seq(|group|, k requires 0 <= k < |group| => MetaOf(group[k], probes[k]))
  }

  /** `sort_key(a) < sort_key(b)` (lines 57-62): tuples compare lexicographically. */
  predicate KeyBelow(a: Meta, b: Meta)
  {
    a.resolution < b.resolution ||
    (a.resolution == b.resolution && (a.size < b.size || (a.size == b.size && a.blurScore < b.blurScore)))
  }

  // ---------------------------------------------------------------------------
  // `sorted(metadata, key=sort_key, reverse=True)` (line 64)

  /** Puts `x`, which came before every element of `s`, in front of the
      first element whose key is not above its own: equal keys keep their
      order. */
  function Insert(x: Meta, s: seq<Meta>): (r: seq<Meta>)
    ensures |r| == |s| + 1
    ensures multiset(r) == multiset(s) + multiset{x}
  {
    if s == [] || !KeyBelow(x, s[0]) then [x] + s
    else
      assert s == [s[0]] + s[1..];
      [s[0]] + Insert(x, s[1..])
  }

  function SortDesc(ms: seq<Meta>): (r: seq<Meta>)
    ensures |r| == |ms|
    ensures multiset(r) == multiset(ms)
  {
    if ms == [] then []
    else
      assert ms == [ms[0]] + ms[1..];
      Insert(ms[0], SortDesc(ms[1..]))
  }

  /** No element's key is below that of a later one. */
  predicate Descending(s: seq<Meta>)
  {
    forall i, j :: 0 <= i < j < |s| ==> !KeyBelow(s[i], s[j])
  }

  lemma {:induction false} InsertDescending(x: Meta, s: seq<Meta>)
    requires Descending(s)
    ensures Descending(Insert(x, s))
    ensures Insert(x, s)[0] == x || (s != [] && Insert(x, s)[0] == s[0])
    decreases |s|
  {
    if s != [] && KeyBelow(x, s[0]) {
      InsertDescending(x, s[1..]);
      var r := Insert(x, s);
      assert r == [s[0]] + Insert(x, s[1..]);
      forall j | 0 < j < |r|
        ensures !KeyBelow(r[0], r[j])
      {
        var t := Insert(x, s[1..]);
        assert r[j] == t[j - 1];
        assert t[j - 1] in multiset(t);
        assert r[j] == x || r[j] in multiset(s[1..]);
        if r[j] != x {
          var k :| 0 <= k < |s[1..]| && s[1..][k] == r[j];
          assert s[k + 1] == r[j];
        }
      }
    }
  }

  /** The sort returns a rearrangement of its input, best key first. */
  lemma {:induction false} SortDescending(ms: seq<Meta>)
    ensures Descending(SortDesc(ms))
  {
    if ms != [] {
      SortDescending(ms[1..]);
      InsertDescending(ms[0], SortDesc(ms[1..]));
    }
  }

  // ---------------------------------------------------------------------------
  // The first best record

  /** Position of the first record whose key no other record's key exceeds. */
  function FirstBest(ms: seq<Meta>): (b: nat)
    requires ms != []
    ensures b < |ms|
  {
    if |ms| == 1 then 0
    else
      var r := 1 + FirstBest(ms[1..]);
      if KeyBelow(ms[0], ms[r]) then r else 0
  }

  /** The record at `FirstBest` has a maximal key, and every earlier record's
      key is strictly below it: ties go to the earliest. */
  lemma {:induction false} FirstBestIsFirstMax(ms: seq<Meta>)
    requires ms != []
    ensures forall j :: 0 <= j < |ms| ==> !KeyBelow(ms[FirstBest(ms)], ms[j])
    ensures forall j :: 0 <= j < FirstBest(ms) ==> KeyBelow(ms[j], ms[FirstBest(ms)])
  {
    if |ms| > 1 {
      FirstBestIsFirstMax(ms[1..]);
      var r := 1 + FirstBest(ms[1..]);
      assert forall j :: 1 <= j < |ms| ==> ms[j] == ms[1..][j - 1];
      assert forall j :: 1 <= j < |ms| ==> !KeyBelow(ms[r], ms[j]);
      assert forall j :: 1 <= j < r ==> KeyBelow(ms[j], ms[r]);
    }
  }

  /** `sorted_items[0]` (line 67) is the first best record of the group. */
  lemma {:induction false} SortHead(ms: seq<Meta>)
    requires ms != []
    ensures SortDesc(ms)[0] == ms[FirstBest(ms)]
  {
    if |ms| > 1 {
      SortHead(ms[1..]);
      assert ms[1..][FirstBest(ms[1..])] == ms[1 + FirstBest(ms[1..])];
    }
  }

  // ---------------------------------------------------------------------------
  // The result mapping (lines 69-74)

  /** The mapping the result loop builds over `ms` once `best` is chosen. */
  function Decisions(ms: seq<Meta>, best: string): (d: map<string, Verdict>)
  {
    if ms == [] then map[]
    else
      var m := ms[|ms| - 1];
      Decisions(ms[..|ms| - 1], best)[m.path := if m.path == best then Keep else Delete]
  }

  /** The keys are exactly the paths of the records, and a path maps to
      `Keep` exactly when it is the best path. */
  lemma {:induction false} DecisionsFacts(ms: seq<Meta>, best: string)
    ensures forall q :: q in Decisions(ms, best) <==> exists k :: 0 <= k < |ms| && ms[k].path == q
    ensures forall q :: q in Decisions(ms, best) ==> (Decisions(ms, best)[q] == Keep <==> q == best)
  {
    if ms != [] {
      var n := |ms| - 1;
      DecisionsFacts(ms[..n], best);
      forall q | q in Decisions(ms, best)
        ensures exists k :: 0 <= k < |ms| && ms[k].path == q
      {
        if q != ms[n].path {
          assert q in Decisions(ms[..n], best);
          var k :| 0 <= k < n && ms[..n][k].path == q;
          assert ms[k].path == q;
        }
      }
      forall q | exists k :: 0 <= k < |ms| && ms[k].path == q
        ensures q in Decisions(ms, best)
      {
        var k :| 0 <= k < |ms| && ms[k].path == q;
        if k < n {
          assert ms[..n][k].path == q;
        }
      }
    }
  }

  /** The metadata loop (lines 26-52), with the reading of `group[k]` given
      as `probes[k]`. */
  method GatherMetadata(group: seq<string>, probes: seq<Option<Probe>>) returns (metadata: seq<Meta>)
    requires |probes| == |group|
    ensures metadata == Metas(group, probes)
  {
    metadata := [];
    var i := 0;
    while i < |group|
      invariant 0 <= i <= |group|
      invariant |metadata| == i
      invariant forall k :: 0 <= k < i ==> metadata[k] == MetaOf(group[k], probes[k])
    {
      metadata := metadata + [MetaOf(group[i], probes[i])];
      i := i + 1;
    }
  }

  /** The result loop (lines 69-74): every path of `metadata` is a key, and
      only `best` maps to `Keep`. */
  method Decide(metadata: seq<Meta>, best: string) returns (result: map<string, Verdict>)
    ensures result == Decisions(metadata, best)
    ensures forall q :: q in result <==> exists k :: 0 <= k < |metadata| && metadata[k].path == q
    ensures forall q :: q in result ==> (result[q] == Keep <==> q == best)
  {
    result := map[];
    var j := 0;
    while j < |metadata|
      invariant 0 <= j <= |metadata|
      invariant result == Decisions(metadata[..j], best)
    {
      assert metadata[..j + 1][..j] == metadata[..j];
      var item := metadata[j];
      if item.path == best {
        result := result[item.path := Keep];
      } else {
        result := result[item.path := Delete];
      }
      j := j + 1;
    }
    assert metadata[..j] == metadata;
    DecisionsFacts(metadata, best);
  }

  /** `RuleEngine.apply_rules` (lines 8-76) with the reading of `group[k]`
      given as `probes[k]`. */
  method ApplyRules(group: seq<string>, probes: seq<Option<Probe>>) returns (result: map<string, Verdict>)
    requires |probes| == |group|
    ensures group == [] ==> result == map[]
    ensures |group| == 1 ==> result == map[group[0] := Keep]
    ensures |group| >= 2 ==> result == Decisions(Metas(group, probes), group[FirstBest(Metas(group, probes))])
    ensures forall q :: q in result <==> q in group
    ensures |group| >= 2 ==> forall q :: q in result ==>
      (result[q] == Keep <==> q == group[FirstBest(Metas(group, probes))])
  {
    if group == [] {
      return map[];
    }
    if |group| == 1 {
      return map[group[0] := Keep];
    }
    var metadata := GatherMetadata(group, probes);
    var sortedItems := SortDesc(metadata);
    var best := sortedItems[0];
    SortHead(metadata);
    result := Decide(metadata, best.path);
    forall q
      ensures q in result <==> q in group
    {
      if q in group {
        var k :| 0 <= k < |group| && group[k] == q;
        assert metadata[k].path == q;
      }
    }
  }
}
