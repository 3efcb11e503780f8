/**
 * The grouping logic of `ScanWorker.run` (app/workers.py:20-159).
 *
 * The walk, `os.stat`, the cache and the decoders are outside the model:
 * each walked media file arrives as a `Probe` holding what they produced.
 * Items are values in a sequence and a group holds item indices, so an
 * index plays the part of the Python object identity: marking the
 * similarity of an item that belongs to two groups is seen through both,
 * exactly as the shared `ResultItem` objects are.
 */
module ScanWorker {
  import opened Wrappers
  import opened Models
  import opened OrderedGroups
  import Hamming

  /** `ScanWorker.__init__`: default Hamming threshold for near duplicates. */
  const DefaultSimThresh := 5
  const ExactKind := "重複"
  const NearKind := "類似"
  /** Progress is reported every 50 files in the first two phases, every 20 buckets in the third. */
  const FileBatch := 50
  const BucketBatch := 20

  /** A walked image or video file: `Unreadable` when its metadata could not
      be read on a cache miss (the file is skipped), otherwise the size,
      dimensions, SHA-256 hex digest and perceptual-hash hex string that the
      cache or the decoders give for it. */
  datatype Probe =
    | Unreadable
    | Measured(path: string, size: int, width: int, height: int, sha256: string, phash: string)

  /** A group under construction: its items are indices into the item list. */
  datatype Ref = Ref(kind: string, title: string, members: seq<nat>, score: Option<real>)

  datatype ScanResult = ScanResult(groups: seq<ResultGroup>, progress: seq<int>)

  // ---------------------------------------------------------------------------
  // Phase 1: items and the SHA-256 dictionary (lines 40-78)

  /** The item built for a measured file (lines 71-72). */
  function ItemOf(f: Probe): (it: ResultItem)
    requires f.Measured?
    ensures it.path == f.path && it.size == f.size && it.sha256 == Some(f.sha256)
    ensures it.width == Some(f.width) && it.height == Some(f.height)
    ensures it.phash == None && it.similarity == None
  {
    NewResultItem(f.path, f.size, f.width, f.height).(sha256 := Some(f.sha256))
  }

  /** The files that yield an item, in walk order. */
  function Measurements(files: seq<Probe>): (ms: seq<Probe>)
    ensures |ms| <= |files|
    ensures forall k :: 0 <= k < |ms| ==> ms[k].Measured?
  {
    if files == [] then []
    else Measurements(files[..|files| - 1]) + (if files[|files| - 1].Measured? then [files[|files| - 1]] else [])
  }

  /** The item list after the first loop. */
  function Items(files: seq<Probe>): (items: seq<ResultItem>)
    ensures |items| == |Measurements(files)|
    ensures forall k :: 0 <= k < |items| ==> items[k] == ItemOf(Measurements(files)[k])
  {
    if files == [] then []
    else Items(files[..|files| - 1]) + (if files[|files| - 1].Measured? then [ItemOf(files[|files| - 1])] else [])
  }

  /** `it.sha256` as the dictionary key (`sha256 or ""`). */
  function ShaKey(it: ResultItem): string
  {
    if it.sha256.Some? then it.sha256.value else ""
  }

  /** Each item index under its SHA-256 key, in item order. */
  function ShaPairs(items: seq<ResultItem>): (ps: seq<(string, nat)>)
    ensures |ps| == |items|
    ensures forall k :: 0 <= k < |ps| ==> ps[k] == (ShaKey(items[k]), k)
  {
    seq(|items|, k requires 0 <= k < |items| => (ShaKey(items[k]), k as nat))
  }

  /** Progress reported by the first loop after `n` files (line 78). */
  function CollectProgress(files: seq<Probe>, n: nat): seq<int>
    requires n <= |files|
  {
    if n == 0 then []
    else
      var report := files[n - 1].Measured? && n % FileBatch == 0;
      CollectProgress(files, n - 1) + (if report then [Percent(0, 20, n, |files|)] else [])
  }

  // ---------------------------------------------------------------------------
  // Keep choice and similarity marks (lines 84-86 and 135-137)

  /** Strict lexicographic order on (pixels, size). */
  predicate KeyLess(a: (int, int), b: (int, int))
  {
    a.0 < b.0 || (a.0 == b.0 && a.1 < b.1)
  }

  /** `(it.width*it.height, it.size)` */
  function RankKey(it: ResultItem): (int, int)
  {
    (Pixels(it), it.size)
  }

  /** The position `max` picks: the first position whose key no other key exceeds. */
  function KeepPos(ks: seq<(int, int)>): (p: nat)
    requires |ks| > 0
    ensures p < |ks|
    ensures forall j :: 0 <= j < |ks| ==> !KeyLess(ks[p], ks[j])
    ensures forall j :: 0 <= j < p ==> KeyLess(ks[j], ks[p])
  {
    if |ks| == 1 then 0
    else
      var p := KeepPos(ks[..|ks| - 1]);
      if KeyLess(ks[p], ks[|ks| - 1]) then |ks| - 1 else p
  }

  predicate IdsBelow(ids: seq<nat>, n: nat)
  {
    forall j :: 0 <= j < |ids| ==> ids[j] < n
  }

  function RankKeys(items: seq<ResultItem>, ids: seq<nat>): (ks: seq<(int, int)>)
    requires IdsBelow(ids, |items|)
    ensures |ks| == |ids|
    ensures forall j :: 0 <= j < |ids| ==> ks[j] == RankKey(items[ids[j]])
  {
    seq(|ids|, j requires 0 <= j < |ids| => RankKey(items[ids[j]]))
  }

  /** The item index `max(arr, key=…)` returns for a group. */
  function KeepOf(items: seq<ResultItem>, ids: seq<nat>): nat
    requires |ids| > 0 && IdsBelow(ids, |items|)
  {
    ids[KeepPos(RankKeys(items, ids))]
  }

  /** The similarity a group member receives: `None` for the kept item, 1.0 for the others. */
  function MarkOf(k: nat, keep: nat): Option<real>
  {
    if k == keep then None else Some(1.0)
  }

  /** The items after `for it in arr: it.similarity = 1.0 if it is not keep else None`. */
  function Mark(items: seq<ResultItem>, ids: seq<nat>, keep: nat): (out: seq<ResultItem>)
    ensures |out| == |items|
  {
    seq(|items|, k requires 0 <= k < |items| =>
      if k in ids then items[k].(similarity := MarkOf(k, keep)) else items[k])
  }

  predicate RefsBelow(refs: seq<Ref>, n: nat)
  {
    forall r :: 0 <= r < |refs| ==> |refs[r].members| > 0 && IdsBelow(refs[r].members, n)
  }

  /** The items after every group of `refs`, in order, has marked its members. */
  function MarkAll(items: seq<ResultItem>, refs: seq<Ref>): (out: seq<ResultItem>)
    requires RefsBelow(refs, |items|)
    ensures |out| == |items|
  {
    if refs == [] then items
    else
      var before := MarkAll(items, refs[..|refs| - 1]);
      var r := refs[|refs| - 1];
      Mark(before, r.members, KeepOf(before, r.members))
  }

  // ---------------------------------------------------------------------------
  // Phase 2: exact-duplicate groups (lines 80-87)

  /** `h[:n]` */
  function Take(h: string, n: nat): string
  {
    if |h| <= n then h else h[..n]
  }

  function ExactRef(b: Bucket): Ref
  {
    Ref(ExactKind, "SHA256 " + Take(b.key, 8) + "...", b.members, None)
  }

  /** One exact group per dictionary entry with a non-empty key and more than one item. */
  function ExactRefs(dup: seq<Bucket>): (refs: seq<Ref>)
  {
    if dup == [] then []
    else
      var b := dup[|dup| - 1];
      ExactRefs(dup[..|dup| - 1]) + (if b.key != "" && |b.members| > 1 then [ExactRef(b)] else [])
  }

  /** `x` is the group of some dictionary entry with a non-empty key and more than one item. */
  predicate FromEntry(dup: seq<Bucket>, x: Ref)
  {
    exists a :: 0 <= a < |dup| && x == ExactRef(dup[a]) && dup[a].key != "" && |dup[a].members| > 1
  }

  /** Every exact group is the group of one dictionary entry with a
      non-empty key and more than one item. */
  lemma {:induction false} ExactRefsFrom(dup: seq<Bucket>)
    ensures forall r :: 0 <= r < |ExactRefs(dup)| ==> FromEntry(dup, ExactRefs(dup)[r])
  {
    if dup != [] {
      var n := |dup| - 1;
      var prev := ExactRefs(dup[..n]);
      var keep := dup[n].key != "" && |dup[n].members| > 1;
      ExactRefsFrom(dup[..n]);
      assert ExactRefs(dup) == prev + (if keep then [ExactRef(dup[n])] else []);
      forall r | 0 <= r < |ExactRefs(dup)|
        ensures FromEntry(dup, ExactRefs(dup)[r])
      {
        if r < |prev| {
          assert ExactRefs(dup)[r] == prev[r];
          assert FromEntry(dup[..n], prev[r]);
          var a :| 0 <= a < n && prev[r] == ExactRef(dup[..n][a]) && dup[..n][a].key != "" && |dup[..n][a].members| > 1;
          assert dup[a] == dup[..n][a];
        } else {
          assert keep && ExactRefs(dup)[r] == ExactRef(dup[n]);
        }
      }
    }
  }

  lemma ExactRefsBelow(dup: seq<Bucket>, n: nat)
    requires forall a :: 0 <= a < |dup| ==> |dup[a].members| > 0 && IdsBelow(dup[a].members, n)
    ensures RefsBelow(ExactRefs(dup), n)
  {
    ExactRefsFrom(dup);
    forall r | 0 <= r < |ExactRefs(dup)|
      ensures |ExactRefs(dup)[r].members| > 0 && IdsBelow(ExactRefs(dup)[r].members, n)
    {
      assert FromEntry(dup, ExactRefs(dup)[r]);
      var a :| 0 <= a < |dup| && ExactRefs(dup)[r] == ExactRef(dup[a]) && dup[a].key != "" && |dup[a].members| > 1;
    }
  }

  // ---------------------------------------------------------------------------
  // Phase 3: the items outside every exact group, and their perceptual hashes (lines 89-109)

  /** `any(it in g.items for g in groups)`: `in` compares items by value. */
  predicate InSomeGroup(items: seq<ResultItem>, refs: seq<Ref>, x: ResultItem)
  {
    exists r, j :: 0 <= r < |refs| && 0 <= j < |refs[r].members| &&
      refs[r].members[j] < |items| && items[refs[r].members[j]] == x
  }

  /** `unique_items`, as item indices in item order (the first `n` items considered). */
  function UniqueIds(items: seq<ResultItem>, refs: seq<Ref>, n: nat): (ids: seq<nat>)
    requires n <= |items|
    ensures IdsBelow(ids, n) && Increasing(ids)
  {
    if n == 0 then []
    else UniqueIds(items, refs, n - 1) + (if InSomeGroup(items, refs, items[n - 1]) then [] else [n - 1])
  }

  /** The items after `it.phash = ph or ""` for every index in `ids`. */
  function WithPhash(items: seq<ResultItem>, ids: seq<nat>, ms: seq<Probe>): (out: seq<ResultItem>)
    requires |ms| == |items| && forall k :: 0 <= k < |ms| ==> ms[k].Measured?
    ensures |out| == |items|
  {
    seq(|items|, k requires 0 <= k < |items| =>
      if k in ids then items[k].(phash := Some(ms[k].phash)) else items[k])
  }

  /** Progress reported by the perceptual-hash loop after `n` unique items (line 109). */
  function PhashProgress(total2: nat, n: nat): seq<int>
    requires total2 >= 1
  {
    if n == 0 then []
    else PhashProgress(total2, n - 1) + (if n % FileBatch == 0 then [Percent(20, 35, n, total2)] else [])
  }

  // ---------------------------------------------------------------------------
  // Phase 4: prefix buckets (lines 111-115)

  /** `it.phash` read as a string (`None` never occurs for a unique item). */
  function PhashOf(it: ResultItem): string
  {
    if it.phash.Some? then it.phash.value else ""
  }

  /** The pairs `buckets[it.phash[:4]].append(it)` files, for the items with a non-empty hash. */
  function BucketPairs(items: seq<ResultItem>, ids: seq<nat>): (ps: seq<(string, nat)>)
    requires IdsBelow(ids, |items|)
    ensures forall i :: 0 <= i < |ps| ==> ps[i].1 in ids
    ensures Increasing(ids) ==> Increasing(IdsOf(ps))
  {
    if ids == [] then []
    else
      var id := ids[|ids| - 1];
      BucketPairs(items, ids[..|ids| - 1]) +
        (if PhashOf(items[id]) != "" then [(Take(PhashOf(items[id]), 4), id)] else [])
  }

  // ---------------------------------------------------------------------------
  // Phase 5: greedy grouping inside each bucket (lines 117-141)

  /** One emitted group, as bucket positions: at least two of them, inside
      the bucket and increasing; the first is a pivot with a hash and every
      other member has a hash within `t` of the pivot's. */
  predicate GroupOk(hs: seq<string>, dist: (string, string) -> nat, t: int, g: seq<nat>)
  {
    |g| >= 2 && (forall j :: 0 <= j < |g| ==> g[j] < |hs|) && Increasing(g) &&
    hs[g[0]] != "" &&
    forall j :: 0 < j < |g| ==> hs[g[j]] != "" && dist(hs[g[0]], hs[g[j]]) <= t
  }

  /** The groups of a bucket: each is `GroupOk`, their pivots increase, and
      no pivot occurs in an earlier group. */
  predicate Emitted(hs: seq<string>, dist: (string, string) -> nat, t: int, gs: seq<seq<nat>>)
  {
    (forall k :: 0 <= k < |gs| ==> GroupOk(hs, dist, t, gs[k])) &&
    (forall k1, k2 :: 0 <= k1 < k2 < |gs| ==> gs[k1][0] < gs[k2][0]) &&
    (forall k1, k2, m :: 0 <= k1 < k2 < |gs| && 0 < m < |gs[k1]| ==> gs[k1][m] != gs[k2][0])
  }

  /** The candidate loop for pivot `i` from position `j` on (lines 128-133).
      Candidates are not checked against `visited`; each one that joins is
      added to it. */
  function Collect(hs: seq<string>, dist: (string, string) -> nat, t: int, i: nat, j: nat, grp: seq<nat>, visited: set<nat>): (seq<nat>, set<nat>)
    requires i < |hs|
    decreases |hs| - j
  {
    if j >= |hs| then (grp, visited)
    else if Joins(hs, dist, t, i, j) then Collect(hs, dist, t, i, j + 1, grp + [j], visited + {j})
    else Collect(hs, dist, t, i, j + 1, grp, visited)
  }

  /** Position `j` joins the group of pivot `i`: it has a hash (line 130)
      within `t` of the pivot's (line 132). The worker measures with
      `Hamming.Distance`; the grouping is stated for any `dist`. */
  predicate Joins(hs: seq<string>, dist: (string, string) -> nat, t: int, i: nat, j: nat)
    requires i < |hs| && j < |hs|
  {
    hs[j] != "" && dist(hs[i], hs[j]) <= t
  }

  /** The candidate loop only adds positions inside the bucket. */
  lemma {:induction false} CollectInRange(hs: seq<string>, dist: (string, string) -> nat, t: int, i: nat, j: nat, grp: seq<nat>, visited: set<nat>)
    requires i < |hs| && forall m :: 0 <= m < |grp| ==> grp[m] < |hs|
    ensures |Collect(hs, dist, t, i, j, grp, visited).0| >= |grp|
    ensures forall m :: 0 <= m < |Collect(hs, dist, t, i, j, grp, visited).0| ==> Collect(hs, dist, t, i, j, grp, visited).0[m] < |hs|
    decreases |hs| - j
  {
    if j < |hs| {
      CollectInRange(hs, dist, t, i, j + 1, grp, visited);
      CollectInRange(hs, dist, t, i, j + 1, grp + [j], visited + {j});
    }
  }

  /** The group of pivot `i` after the candidates before `j`: the pivot
      first, positions increasing and below `j`, and every other member a
      position with a hash within `t` of the pivot's, recorded in `visited`. */
  predicate PartialGroup(hs: seq<string>, dist: (string, string) -> nat, t: int, i: nat, grp: seq<nat>, visited: set<nat>, j: nat)
    requires i < |hs|
  {
    j <= |hs| && |grp| >= 1 && grp[0] == i && Increasing(grp) &&
    (forall m :: 0 <= m < |grp| ==> grp[m] < j) &&
    forall m :: 0 < m < |grp| ==> hs[grp[m]] != "" && dist(hs[i], hs[grp[m]]) <= t && grp[m] in visited
  }

  /** A candidate that joins extends the partial group. */
  lemma PartialGroupJoin(hs: seq<string>, dist: (string, string) -> nat, t: int, i: nat, grp: seq<nat>, visited: set<nat>, j: nat)
    requires i < j < |hs| && PartialGroup(hs, dist, t, i, grp, visited, j) && Joins(hs, dist, t, i, j)
    ensures PartialGroup(hs, dist, t, i, grp + [j], visited + {j}, j + 1)
  {
    var g := grp + [j];
    forall m | 0 < m < |g|
      ensures hs[g[m]] != "" && dist(hs[i], hs[g[m]]) <= t && g[m] in visited + {j}
    {
      if m < |grp| {
        assert g[m] == grp[m];
      }
    }
  }

  /** A candidate that does not join leaves the partial group as it is. */
  lemma PartialGroupSkip(hs: seq<string>, dist: (string, string) -> nat, t: int, i: nat, grp: seq<nat>, visited: set<nat>, j: nat)
    requires i < j < |hs| && PartialGroup(hs, dist, t, i, grp, visited, j)
    ensures PartialGroup(hs, dist, t, i, grp, visited, j + 1)
  {
  }

  /** What the candidate loop keeps: the pivot stays first, positions
      increase, and every joined position has a hash within `t` of the
      pivot's and is recorded in `visited`; from `j` on, exactly the
      positions that join are added to the group and to `visited`. */
  lemma {:induction false} CollectFacts(hs: seq<string>, dist: (string, string) -> nat, t: int, i: nat, j: nat, grp: seq<nat>, visited: set<nat>)
    requires i < j <= |hs| && PartialGroup(hs, dist, t, i, grp, visited, j)
    ensures PartialGroup(hs, dist, t, i, Collect(hs, dist, t, i, j, grp, visited).0, Collect(hs, dist, t, i, j, grp, visited).1, |hs|)
    ensures |Collect(hs, dist, t, i, j, grp, visited).0| >= |grp| && visited <= Collect(hs, dist, t, i, j, grp, visited).1
    ensures forall m :: j <= m < |hs| ==> (m in Collect(hs, dist, t, i, j, grp, visited).0 <==> Joins(hs, dist, t, i, m))
    ensures forall m :: m in Collect(hs, dist, t, i, j, grp, visited).1 <==> m in visited || (j <= m < |hs| && Joins(hs, dist, t, i, m))
    decreases |hs| - j
  {
    CollectJoins(hs, dist, t, i, j, grp, visited);
    if j < |hs| {
      if !Joins(hs, dist, t, i, j) {
        PartialGroupSkip(hs, dist, t, i, grp, visited, j);
        CollectFacts(hs, dist, t, i, j + 1, grp, visited);
      } else {
        PartialGroupJoin(hs, dist, t, i, grp, visited, j);
        CollectFacts(hs, dist, t, i, j + 1, grp + [j], visited + {j});
      }
    }
  }

  /** From `j` on, the candidate loop adds to the group and to `visited`
      exactly the positions that join. */
  lemma CollectJoins(hs: seq<string>, dist: (string, string) -> nat, t: int, i: nat, j: nat, grp: seq<nat>, visited: set<nat>)
    requires i < j <= |hs| && PartialGroup(hs, dist, t, i, grp, visited, j)
    ensures forall m :: j <= m < |hs| ==> (m in Collect(hs, dist, t, i, j, grp, visited).0 <==> Joins(hs, dist, t, i, m))
    ensures forall m :: m in Collect(hs, dist, t, i, j, grp, visited).1 <==> m in visited || (j <= m < |hs| && Joins(hs, dist, t, i, m))
  {
    var r := Collect(hs, dist, t, i, j, grp, visited);
    var js := JoinersFrom(hs, dist, t, i, j);
    CollectIs(hs, dist, t, i, j, grp, visited);
    JoinersFromMembers(hs, dist, t, i, j);
    forall m | j <= m < |hs|
      ensures m in r.0 <==> Joins(hs, dist, t, i, m)
    {
      assert m in r.0 <==> m in grp || m in js;
    }
  }

  /** Position `i` starts a group: it is not visited and has a hash (line 124). */
  predicate Pivot(hs: seq<string>, i: nat, visited: set<nat>)
    requires i < |hs|
  {
    i !in visited && hs[i] != ""
  }

  /** The pivot loop from position `i` on (lines 123-138), with the groups
      found so far in `acc`: a pivot's group is emitted when it has two members. */
  function Greedy(hs: seq<string>, dist: (string, string) -> nat, t: int, i: nat, visited: set<nat>, acc: seq<seq<nat>>): seq<seq<nat>>
    requires i <= |hs|
    decreases |hs| - i
  {
    if i == |hs| then acc
    else if !Pivot(hs, i, visited) then Greedy(hs, dist, t, i + 1, visited, acc)
    else
      var (grp, v) := Collect(hs, dist, t, i, i + 1, [i], visited);
      Greedy(hs, dist, t, i + 1, v, if |grp| >= 2 then acc + [grp] else acc)
  }

  /** The pivot loop keeps `Emitted`, provided every earlier pivot lies
      before `i` and every earlier non-pivot member is visited. */
  lemma {:induction false} GreedyFacts(hs: seq<string>, dist: (string, string) -> nat, t: int, i: nat, visited: set<nat>, acc: seq<seq<nat>>)
    requires i <= |hs|
    requires Emitted(hs, dist, t, acc)
    requires forall k :: 0 <= k < |acc| ==> acc[k][0] < i
    requires forall k, m :: 0 <= k < |acc| && 0 < m < |acc[k]| ==> acc[k][m] in visited
    ensures Emitted(hs, dist, t, Greedy(hs, dist, t, i, visited, acc))
    ensures |Greedy(hs, dist, t, i, visited, acc)| >= |acc| && Greedy(hs, dist, t, i, visited, acc)[..|acc|] == acc
    decreases |hs| - i
  {
    if i < |hs| {
      if !Pivot(hs, i, visited) {
        GreedyFacts(hs, dist, t, i + 1, visited, acc);
      } else {
        var (grp, v) := Collect(hs, dist, t, i, i + 1, [i], visited);
        CollectFacts(hs, dist, t, i, i + 1, [i], visited);
        if |grp| >= 2 {
          EmitStep(hs, dist, t, i, visited, acc, grp, v);
          GreedyFacts(hs, dist, t, i + 1, v, acc + [grp]);
          assert (acc + [grp])[..|acc|] == acc;
        } else {
          GreedyFacts(hs, dist, t, i + 1, v, acc);
        }
      }
    }
  }

  /** Groups of at least two positions inside the bucket. */
  predicate InRange(gs: seq<seq<nat>>, n: nat)
  {
    (forall k :: 0 <= k < |gs| ==> |gs[k]| >= 2) &&
    forall k, m :: 0 <= k < |gs| && 0 <= m < |gs[k]| ==> gs[k][m] < n
  }

  lemma {:induction false} GreedyInRange(hs: seq<string>, dist: (string, string) -> nat, t: int, i: nat, visited: set<nat>, acc: seq<seq<nat>>)
    requires i <= |hs| && InRange(acc, |hs|)
    ensures InRange(Greedy(hs, dist, t, i, visited, acc), |hs|)
    decreases |hs| - i
  {
    if i < |hs| {
      if !Pivot(hs, i, visited) {
        GreedyInRange(hs, dist, t, i + 1, visited, acc);
      } else {
        var (grp, v) := Collect(hs, dist, t, i, i + 1, [i], visited);
        CollectInRange(hs, dist, t, i, i + 1, [i], visited);
        if |grp| >= 2 {
          GreedyInRange(hs, dist, t, i + 1, v, acc + [grp]);
        } else {
          GreedyInRange(hs, dist, t, i + 1, v, acc);
        }
      }
    }
  }

  /** The groups, as positions in the bucket, that the greedy pass emits. */
  function GreedyGroups(hs: seq<string>, dist: (string, string) -> nat, t: int): seq<seq<nat>>
  {
    Greedy(hs, dist, t, 0, {}, [])
  }

  /** Every group the greedy pass emits is `GroupOk`, pivots increase and no
      pivot occurs in an earlier group; a group holds every later position
      that joins its pivot, and every position that could start a group does. */
  lemma GreedyGroupsEmitted(hs: seq<string>, dist: (string, string) -> nat, t: int)
    ensures Emitted(hs, dist, t, GreedyGroups(hs, dist, t))
    ensures var gs := GreedyGroups(hs, dist, t);
      forall k, m :: 0 <= k < |gs| && |gs[k]| >= 1 && gs[k][0] < m < |hs| ==> (m in gs[k] <==> Joins(hs, dist, t, gs[k][0], m))
    ensures var gs := GreedyGroups(hs, dist, t);
      forall p :: 0 <= p < |hs| ==> (IsPivot(gs, p) <==> hs[p] != "" && !CoveredEarlier(gs, p) && HasJoiner(hs, dist, t, p))
  {
    GreedyFacts(hs, dist, t, 0, {}, []);
    GreedyGroupsExactly(hs, dist, t);
  }

  /** Emitting the group of pivot `i` keeps the pivot loop's invariant. */
  lemma EmitStep(hs: seq<string>, dist: (string, string) -> nat, t: int, i: nat, visited: set<nat>, acc: seq<seq<nat>>, grp: seq<nat>, v: set<nat>)
    requires i < |hs| && i !in visited && hs[i] != ""
    requires Emitted(hs, dist, t, acc)
    requires forall k :: 0 <= k < |acc| ==> acc[k][0] < i
    requires forall k, m :: 0 <= k < |acc| && 0 < m < |acc[k]| ==> acc[k][m] in visited
    requires |grp| >= 2 && grp[0] == i && Increasing(grp) && visited <= v
    requires forall m :: 0 <= m < |grp| ==> grp[m] < |hs|
    requires forall m :: 0 < m < |grp| ==>
      hs[grp[m]] != "" && dist(hs[i], hs[grp[m]]) <= t && grp[m] in v
    ensures Emitted(hs, dist, t, acc + [grp])
    ensures forall k :: 0 <= k < |acc| + 1 ==> (acc + [grp])[k][0] < i + 1
    ensures forall k, m :: 0 <= k < |acc| + 1 && 0 < m < |(acc + [grp])[k]| ==> (acc + [grp])[k][m] in v
  {
    var gs := acc + [grp];
    assert GroupOk(hs, dist, t, grp);
    forall k1, k2, m | 0 <= k1 < k2 < |gs| && 0 < m < |gs[k1]|
      ensures gs[k1][m] != gs[k2][0]
    {
      if k2 == |acc| {
        assert gs[k1][m] in visited;
      }
    }
  }

  // ---------------------------------------------------------------------------
  // Which positions the greedy pass groups

  /** The positions from `j` on that join the group of pivot `i`, in order. */
  function JoinersFrom(hs: seq<string>, dist: (string, string) -> nat, t: int, i: nat, j: nat): seq<nat>
    requires i < |hs|
    decreases |hs| - j
  {
    if j >= |hs| then []
    else if Joins(hs, dist, t, i, j) then [j] + JoinersFrom(hs, dist, t, i, j + 1)
    else JoinersFrom(hs, dist, t, i, j + 1)
  }

  /** The set of positions from `j` on that join the group of pivot `i`. */
  function JoinSet(hs: seq<string>, dist: (string, string) -> nat, t: int, i: nat, j: nat): set<nat>
    requires i < |hs|
  {
    set m: nat | j <= m < |hs| && Joins(hs, dist, t, i, m)
  }

  /** The joiners from `j` on are exactly the positions from `j` on that
      join, each once and in increasing order. */
  lemma JoinersFromMembers(hs: seq<string>, dist: (string, string) -> nat, t: int, i: nat, j: nat)
    requires i < |hs|
    ensures forall m :: m in JoinersFrom(hs, dist, t, i, j) <==> j <= m < |hs| && Joins(hs, dist, t, i, m)
    ensures Increasing(JoinersFrom(hs, dist, t, i, j))
  {
    forall m
      ensures m in JoinersFrom(hs, dist, t, i, j) <==> j <= m < |hs| && Joins(hs, dist, t, i, m)
    {
      if 0 <= m {
        JoinersFromHas(hs, dist, t, i, j, m);
      }
    }
    JoinersFromIncreasing(hs, dist, t, i, j);
  }

  lemma {:induction false} JoinersFromHas(hs: seq<string>, dist: (string, string) -> nat, t: int, i: nat, j: nat, m: nat)
    requires i < |hs|
    ensures m in JoinersFrom(hs, dist, t, i, j) <==> j <= m < |hs| && Joins(hs, dist, t, i, m)
    decreases |hs| - j
  {
    if j < |hs| {
      JoinersFromHas(hs, dist, t, i, j + 1, m);
      if Joins(hs, dist, t, i, j) {
        assert JoinersFrom(hs, dist, t, i, j) == [j] + JoinersFrom(hs, dist, t, i, j + 1);
      }
    }
  }

  lemma {:induction false} JoinersFromIncreasing(hs: seq<string>, dist: (string, string) -> nat, t: int, i: nat, j: nat)
    requires i < |hs|
    ensures var js := JoinersFrom(hs, dist, t, i, j); Increasing(js) && forall a :: 0 <= a < |js| ==> j <= js[a]
    decreases |hs| - j
  {
    if j < |hs| {
      JoinersFromIncreasing(hs, dist, t, i, j + 1);
      var r := JoinersFrom(hs, dist, t, i, j + 1);
      if Joins(hs, dist, t, i, j) {
        IncreasingCons(j, r);
        var js := [j] + r;
        assert JoinersFrom(hs, dist, t, i, j) == js;
        forall a | 0 <= a < |js|
          ensures j <= js[a]
        {
          if a > 0 {
            assert js[a] == r[a - 1];
          }
        }
      }
    }
  }

  /** Putting a smaller position in front keeps a sequence increasing. */
  lemma IncreasingCons(x: nat, s: seq<nat>)
    requires Increasing(s) && forall a :: 0 <= a < |s| ==> x < s[a]
    ensures Increasing([x] + s)
  {
    var r := [x] + s;
    forall a, b | 0 <= a < b < |r|
      ensures r[a] < r[b]
    {
      assert r[b] == s[b - 1];
      if a > 0 {
        assert r[a] == s[a - 1];
      }
    }
  }

  /** The candidate loop appends the joiners from `j` on to the group and
      adds them to `visited`. */
  lemma {:induction false} CollectIs(hs: seq<string>, dist: (string, string) -> nat, t: int, i: nat, j: nat, grp: seq<nat>, visited: set<nat>)
    requires i < |hs|
    ensures Collect(hs, dist, t, i, j, grp, visited) == (grp + JoinersFrom(hs, dist, t, i, j), visited + JoinSet(hs, dist, t, i, j))
    decreases |hs| - j
  {
    JoinSetStep(hs, dist, t, i, j);
    if j >= |hs| {
      assert Collect(hs, dist, t, i, j, grp, visited) == (grp, visited);
      assert JoinersFrom(hs, dist, t, i, j) == [];
      assert grp + [] == grp;
      assert visited + {} == visited;
    } else if Joins(hs, dist, t, i, j) {
      CollectIs(hs, dist, t, i, j + 1, grp + [j], visited + {j});
      var js := JoinersFrom(hs, dist, t, i, j + 1);
      assert Collect(hs, dist, t, i, j, grp, visited) == Collect(hs, dist, t, i, j + 1, grp + [j], visited + {j});
      assert JoinersFrom(hs, dist, t, i, j) == [j] + js;
      assert grp + [j] + js == grp + ([j] + js);
      assert visited + {j} + JoinSet(hs, dist, t, i, j + 1) == visited + JoinSet(hs, dist, t, i, j);
    } else {
      CollectIs(hs, dist, t, i, j + 1, grp, visited);
      assert Collect(hs, dist, t, i, j, grp, visited) == Collect(hs, dist, t, i, j + 1, grp, visited);
      assert JoinersFrom(hs, dist, t, i, j) == JoinersFrom(hs, dist, t, i, j + 1);
      assert JoinSet(hs, dist, t, i, j) == {} + JoinSet(hs, dist, t, i, j + 1) == JoinSet(hs, dist, t, i, j + 1);
    }
  }

  /** `JoinSet` from `j` is empty past the end, and otherwise `j` (when it
      joins) together with `JoinSet` from `j + 1`. */
  lemma JoinSetStep(hs: seq<string>, dist: (string, string) -> nat, t: int, i: nat, j: nat)
    requires i < |hs|
    ensures j >= |hs| ==> JoinSet(hs, dist, t, i, j) == {}
    ensures j < |hs| ==> JoinSet(hs, dist, t, i, j) == (if Joins(hs, dist, t, i, j) then {j} else {}) + JoinSet(hs, dist, t, i, j + 1)
  {
    if j < |hs| {
      var a, b := JoinSet(hs, dist, t, i, j), (if Joins(hs, dist, t, i, j) then {j} else {}) + JoinSet(hs, dist, t, i, j + 1);
      forall m | m in a
        ensures m in b
      {
        if m != j {
          assert j + 1 <= m;
        }
      }
      assert a == b;
    } else {
      forall m | m in JoinSet(hs, dist, t, i, j)
        ensures false
      {
      }
    }
  }

  /** The non-pivot members of one group. */
  function Later(g: seq<nat>): set<nat>
  {
    set m | 0 < m < |g| :: g[m]
  }

  /** The non-pivot members of the groups `gs`. */
  function Covered(gs: seq<seq<nat>>): set<nat>
  {
    if gs == [] then {} else Covered(gs[..|gs| - 1]) + Later(gs[|gs| - 1])
  }

  lemma {:induction false} CoveredMembers(gs: seq<seq<nat>>, x: nat)
    ensures x in Covered(gs) <==> exists k, m :: 0 <= k < |gs| && 0 < m < |gs[k]| && gs[k][m] == x
  {
    if gs != [] {
      var init := gs[..|gs| - 1];
      CoveredMembers(init, x);
      if x in Covered(init) {
        var k, m :| 0 <= k < |init| && 0 < m < |init[k]| && init[k][m] == x;
        assert gs[k] == init[k];
      } else if x in Later(gs[|gs| - 1]) {
        var m :| 0 < m < |gs[|gs| - 1]| && gs[|gs| - 1][m] == x;
      }
      if exists k, m :: 0 <= k < |gs| && 0 < m < |gs[k]| && gs[k][m] == x {
        var k, m :| 0 <= k < |gs| && 0 < m < |gs[k]| && gs[k][m] == x;
        if k < |init| {
          assert init[k] == gs[k];
        }
      }
    }
  }

  /** Position `p` starts a group after the groups `acc`: it has a hash, is
      no later member of a group of `acc` and some later position joins it. */
  predicate Starts(hs: seq<string>, dist: (string, string) -> nat, t: int, acc: seq<seq<nat>>, p: nat)
    requires p < |hs|
  {
    hs[p] != "" && p !in Covered(acc) && JoinersFrom(hs, dist, t, p, p + 1) != []
  }

  /** The groups of the positions before `n`, by definition rather than by
      the loop: each position that `Starts` contributes itself followed by
      every later position that joins it. */
  function PivotGroups(hs: seq<string>, dist: (string, string) -> nat, t: int, n: nat): seq<seq<nat>>
    requires n <= |hs|
  {
    if n == 0 then []
    else
      var acc := PivotGroups(hs, dist, t, n - 1);
      if Starts(hs, dist, t, acc, n - 1) then acc + [[n - 1] + JoinersFrom(hs, dist, t, n - 1, n)] else acc
  }

  /** A group of `PivotGroups`: its pivot followed by every later position
      that joins it, and at least one such. */
  predicate PivotGroup(hs: seq<string>, dist: (string, string) -> nat, t: int, g: seq<nat>)
  {
    |g| >= 2 && g[0] < |hs| && g == [g[0]] + JoinersFrom(hs, dist, t, g[0], g[0] + 1)
  }

  lemma LaterOfGroup(p: nat, js: seq<nat>)
    ensures Later([p] + js) == set x | x in js
  {
    var g := [p] + js;
    forall x | x in js
      ensures x in Later(g)
    {
      var m :| 0 <= m < |js| && js[m] == x;
      assert g[m + 1] == x;
    }
  }

  lemma CoveredSnoc(acc: seq<seq<nat>>, g: seq<nat>)
    ensures Covered(acc + [g]) == Covered(acc) + Later(g)
  {
    assert (acc + [g])[..|acc|] == acc;
  }

  /** One step of the pivot loop agrees with one step of `PivotGroups`. */
  lemma GreedyStep(hs: seq<string>, dist: (string, string) -> nat, t: int, i: nat)
    requires i < |hs|
    ensures var acc := PivotGroups(hs, dist, t, i);
      Greedy(hs, dist, t, i, Covered(acc), acc) == Greedy(hs, dist, t, i + 1, Covered(PivotGroups(hs, dist, t, i + 1)), PivotGroups(hs, dist, t, i + 1))
  {
    var acc := PivotGroups(hs, dist, t, i);
    if Pivot(hs, i, Covered(acc)) {
      var js := JoinersFrom(hs, dist, t, i, i + 1);
      GreedyPivotStep(hs, dist, t, i, Covered(acc), acc);
      if js != [] {
        GreedyEmitStep(hs, dist, t, i, acc);
      } else {
        JoinersFromMembers(hs, dist, t, i, i + 1);
        assert JoinSet(hs, dist, t, i, i + 1) == {};
        assert Covered(acc) + JoinSet(hs, dist, t, i, i + 1) == Covered(acc);
        assert PivotGroups(hs, dist, t, i + 1) == acc;
      }
    } else {
      assert PivotGroups(hs, dist, t, i + 1) == acc;
    }
  }

  /** At a pivot the loop moves on with the pivot's joiners grouped and visited. */
  lemma GreedyPivotStep(hs: seq<string>, dist: (string, string) -> nat, t: int, i: nat, visited: set<nat>, acc: seq<seq<nat>>)
    requires i < |hs| && Pivot(hs, i, visited)
    ensures var js := JoinersFrom(hs, dist, t, i, i + 1);
      Greedy(hs, dist, t, i, visited, acc) ==
      Greedy(hs, dist, t, i + 1, visited + JoinSet(hs, dist, t, i, i + 1), if js != [] then acc + [[i] + js] else acc)
  {
    CollectIs(hs, dist, t, i, i + 1, [i], visited);
  }

  /** Emitting a group adds exactly its joiners to the covered positions. */
  lemma GreedyEmitStep(hs: seq<string>, dist: (string, string) -> nat, t: int, i: nat, acc: seq<seq<nat>>)
    requires i < |hs|
    ensures Covered(acc + [[i] + JoinersFrom(hs, dist, t, i, i + 1)]) == Covered(acc) + JoinSet(hs, dist, t, i, i + 1)
  {
    var js := JoinersFrom(hs, dist, t, i, i + 1);
    JoinersFromMembers(hs, dist, t, i, i + 1);
    LaterOfGroup(i, js);
    CoveredSnoc(acc, [i] + js);
    assert Later([i] + js) == JoinSet(hs, dist, t, i, i + 1);
  }

  /** From any position on, the pivot loop started in the state
      `PivotGroups` describes ends with `PivotGroups` of the whole bucket. */
  lemma {:induction false} GreedyIsPivotGroups(hs: seq<string>, dist: (string, string) -> nat, t: int, i: nat)
    requires i <= |hs|
    ensures Greedy(hs, dist, t, i, Covered(PivotGroups(hs, dist, t, i)), PivotGroups(hs, dist, t, i)) == PivotGroups(hs, dist, t, |hs|)
    decreases |hs| - i
  {
    if i < |hs| {
      GreedyStep(hs, dist, t, i);
      GreedyIsPivotGroups(hs, dist, t, i + 1);
    }
  }

  /** `PivotGroups` grows by at most one group per position, pivoted there. */
  lemma PivotGroupsSnoc(hs: seq<string>, dist: (string, string) -> nat, t: int, n: nat)
    requires 0 < n <= |hs|
    ensures |PivotGroups(hs, dist, t, n - 1)| <= |PivotGroups(hs, dist, t, n)|
    ensures PivotGroups(hs, dist, t, n)[..|PivotGroups(hs, dist, t, n - 1)|] == PivotGroups(hs, dist, t, n - 1)
    ensures forall k :: |PivotGroups(hs, dist, t, n - 1)| <= k < |PivotGroups(hs, dist, t, n)| ==> |PivotGroups(hs, dist, t, n)[k]| >= 1 && PivotGroups(hs, dist, t, n)[k][0] == n - 1
  {
    var b := PivotGroups(hs, dist, t, n - 1);
    if Starts(hs, dist, t, b, n - 1) {
      assert (b + [[n - 1] + JoinersFrom(hs, dist, t, n - 1, n)])[..|b|] == b;
    }
  }

  /** The groups of the positions before `p` come first among those before
      `n`, and every later group has its pivot at `p` or after. */
  lemma {:induction false} PivotGroupsPrefix(hs: seq<string>, dist: (string, string) -> nat, t: int, p: nat, n: nat)
    requires p <= n <= |hs|
    ensures |PivotGroups(hs, dist, t, p)| <= |PivotGroups(hs, dist, t, n)|
    ensures PivotGroups(hs, dist, t, n)[..|PivotGroups(hs, dist, t, p)|] == PivotGroups(hs, dist, t, p)
    ensures forall k :: |PivotGroups(hs, dist, t, p)| <= k < |PivotGroups(hs, dist, t, n)| ==> |PivotGroups(hs, dist, t, n)[k]| >= 1 && p <= PivotGroups(hs, dist, t, n)[k][0]
    decreases n - p
  {
    if p < n {
      PivotGroupsPrefix(hs, dist, t, p, n - 1);
      PivotGroupsSnoc(hs, dist, t, n);
      var a, b, c := PivotGroups(hs, dist, t, p), PivotGroups(hs, dist, t, n - 1), PivotGroups(hs, dist, t, n);
      forall k | |a| <= k < |c|
        ensures |c[k]| >= 1 && p <= c[k][0]
      {
        if k < |b| {
          assert c[k] == b[k];
        }
      }
      assert c[..|a|] == b[..|a|];
    }
  }

  /** Every group of `PivotGroups` is a `PivotGroup` whose pivot lies below `n`. */
  lemma {:induction false} PivotGroupsShape(hs: seq<string>, dist: (string, string) -> nat, t: int, n: nat)
    requires n <= |hs|
    ensures forall k :: 0 <= k < |PivotGroups(hs, dist, t, n)| ==> PivotGroup(hs, dist, t, PivotGroups(hs, dist, t, n)[k]) && PivotGroups(hs, dist, t, n)[k][0] < n
    decreases n
  {
    if n > 0 {
      PivotGroupsShape(hs, dist, t, n - 1);
      var b, c := PivotGroups(hs, dist, t, n - 1), PivotGroups(hs, dist, t, n);
      if Starts(hs, dist, t, b, n - 1) {
        var js := JoinersFrom(hs, dist, t, n - 1, n);
        var g := [n - 1] + js;
        assert c == b + [g];
        assert g[0] == n - 1 && |js| >= 1;
        assert PivotGroup(hs, dist, t, g);
        forall k | 0 <= k < |c|
          ensures PivotGroup(hs, dist, t, c[k]) && c[k][0] < n
        {
          if k < |b| {
            assert c[k] == b[k];
          }
        }
      } else {
        assert c == b;
      }
    }
  }

  /** Position `p` is the pivot of a group of `PivotGroups` exactly when it
      `Starts` after the groups of the positions before it. */
  lemma PivotGroupsPivot(hs: seq<string>, dist: (string, string) -> nat, t: int, p: nat)
    requires p < |hs|
    ensures IsPivot(PivotGroups(hs, dist, t, |hs|), p) <==> Starts(hs, dist, t, PivotGroups(hs, dist, t, p), p)
  {
    var gs, before, upto := PivotGroups(hs, dist, t, |hs|), PivotGroups(hs, dist, t, p), PivotGroups(hs, dist, t, p + 1);
    PivotGroupsPrefix(hs, dist, t, p + 1, |hs|);
    PivotGroupsShape(hs, dist, t, p);
    if Starts(hs, dist, t, before, p) {
      assert upto == before + [[p] + JoinersFrom(hs, dist, t, p, p + 1)];
      assert gs[|before|] == upto[|before|];
    } else {
      assert upto == before;
      forall k | 0 <= k < |gs| && |gs[k]| >= 1
        ensures gs[k][0] != p
      {
        if k < |before| {
          assert gs[k] == before[k];
        }
      }
    }
  }

  /** Position `p` is a later member of one of the groups `gs` whose pivot comes before it. */
  predicate CoveredEarlier(gs: seq<seq<nat>>, p: nat)
  {
    exists k, m :: 0 <= k < |gs| && 0 < m < |gs[k]| && gs[k][0] < p && gs[k][m] == p
  }

  /** Some position after `p` joins the group of pivot `p`. */
  predicate HasJoiner(hs: seq<string>, dist: (string, string) -> nat, t: int, p: nat)
    requires p < |hs|
  {
    exists m :: p < m < |hs| && Joins(hs, dist, t, p, m)
  }

  /** Position `p` is covered by the groups of the positions before it
      exactly when it is a later member of a group with an earlier pivot. */
  lemma CoveredBefore(hs: seq<string>, dist: (string, string) -> nat, t: int, p: nat)
    requires p <= |hs|
    ensures p in Covered(PivotGroups(hs, dist, t, p)) <==> CoveredEarlier(PivotGroups(hs, dist, t, |hs|), p)
  {
    var gs, before := PivotGroups(hs, dist, t, |hs|), PivotGroups(hs, dist, t, p);
    PivotGroupsPrefix(hs, dist, t, p, |hs|);
    PivotGroupsShape(hs, dist, t, p);
    CoveredMembers(before, p);
    if p in Covered(before) {
      var k, m :| 0 <= k < |before| && 0 < m < |before[k]| && before[k][m] == p;
      assert gs[k] == before[k];
    }
    if CoveredEarlier(gs, p) {
      var k, m :| 0 <= k < |gs| && 0 < m < |gs[k]| && gs[k][0] < p && gs[k][m] == p;
      assert k < |before|;
      assert gs[k] == before[k];
    }
  }

  /** After its pivot, a group of `PivotGroups` holds exactly the positions that join it. */
  lemma PivotGroupsMembers(hs: seq<string>, dist: (string, string) -> nat, t: int)
    ensures var gs := PivotGroups(hs, dist, t, |hs|);
      forall k, m :: 0 <= k < |gs| && |gs[k]| >= 1 && gs[k][0] < m < |hs| ==> (m in gs[k] <==> Joins(hs, dist, t, gs[k][0], m))
  {
    var gs := PivotGroups(hs, dist, t, |hs|);
    PivotGroupsShape(hs, dist, t, |hs|);
    forall k, m | 0 <= k < |gs| && |gs[k]| >= 1 && gs[k][0] < m < |hs|
      ensures m in gs[k] <==> Joins(hs, dist, t, gs[k][0], m)
    {
      JoinersFromMembers(hs, dist, t, gs[k][0], gs[k][0] + 1);
      assert m in gs[k] <==> m in JoinersFrom(hs, dist, t, gs[k][0], gs[k][0] + 1);
    }
  }

  /** Position `p` is a pivot of `PivotGroups` exactly when it has a hash, is
      no later member of a group with an earlier pivot, and a later position joins it. */
  lemma PivotGroupsPivotAt(hs: seq<string>, dist: (string, string) -> nat, t: int, p: nat)
    requires p < |hs|
    ensures IsPivot(PivotGroups(hs, dist, t, |hs|), p) <==>
      hs[p] != "" && !CoveredEarlier(PivotGroups(hs, dist, t, |hs|), p) && HasJoiner(hs, dist, t, p)
  {
    PivotGroupsPivot(hs, dist, t, p);
    CoveredBefore(hs, dist, t, p);
    JoinersFromMembers(hs, dist, t, p, p + 1);
    var js := JoinersFrom(hs, dist, t, p, p + 1);
    if js != [] {
      assert js[0] in js;
    }
  }

  /** What the greedy pass emits, exactly: (1) a group holds, after its pivot,
      every later position that has a hash within `t` of the pivot's and no
      other; (2) a position is a pivot exactly when it has a hash, is no later
      member of a group with an earlier pivot, and some later position joins it. */
  lemma GreedyGroupsExactly(hs: seq<string>, dist: (string, string) -> nat, t: int)
    ensures var gs := GreedyGroups(hs, dist, t);
      forall k :: 0 <= k < |gs| ==> |gs[k]| >= 2 && gs[k][0] < |hs|
    ensures var gs := GreedyGroups(hs, dist, t);
      forall k, m :: 0 <= k < |gs| && |gs[k]| >= 1 && gs[k][0] < m < |hs| ==> (m in gs[k] <==> Joins(hs, dist, t, gs[k][0], m))
    ensures var gs := GreedyGroups(hs, dist, t);
      forall p :: 0 <= p < |hs| ==> (IsPivot(gs, p) <==> hs[p] != "" && !CoveredEarlier(gs, p) && HasJoiner(hs, dist, t, p))
  {
    GreedyIsPivotGroups(hs, dist, t, 0);
    PivotGroupsShape(hs, dist, t, |hs|);
    PivotGroupsMembers(hs, dist, t);
    forall p | 0 <= p < |hs| {
      PivotGroupsPivotAt(hs, dist, t, p);
    }
  }

  /** The perceptual hashes of a bucket's items. */
  function Hashes(items: seq<ResultItem>, ids: seq<nat>): (hs: seq<string>)
    requires IdsBelow(ids, |items|)
    ensures |hs| == |ids|
    ensures forall j :: 0 <= j < |ids| ==> hs[j] == PhashOf(items[ids[j]])
  {
    seq(|ids|, j requires 0 <= j < |ids| => PhashOf(items[ids[j]]))
  }

  /** The item indices at the given bucket positions. */
  function At(ids: seq<nat>, pos: seq<nat>): (r: seq<nat>)
    requires forall j :: 0 <= j < |pos| ==> pos[j] < |ids|
    ensures |r| == |pos|
    ensures forall j :: 0 <= j < |pos| ==> r[j] == ids[pos[j]]
  {
    seq(|pos|, j requires 0 <= j < |pos| => ids[pos[j]])
  }

  function NearRef(b: Bucket, g: seq<nat>): Ref
    requires forall j :: 0 <= j < |g| ==> g[j] < |b.members|
  {
    Ref(NearKind, "pHash " + b.key, At(b.members, g), Some(1.0))
  }

  /** The near groups of one bucket, from its greedy groups `gs`. */
  function RefsOf(b: Bucket, gs: seq<seq<nat>>): (refs: seq<Ref>)
    requires forall k, j :: 0 <= k < |gs| && 0 <= j < |gs[k]| ==> gs[k][j] < |b.members|
    ensures |refs| == |gs|
  {
    seq(|gs|, k requires 0 <= k < |gs| => NearRef(b, gs[k]))
  }

  /** The near groups a bucket contributes: none when it holds fewer than two items. */
  function BucketRefs(items: seq<ResultItem>, b: Bucket, t: int): (refs: seq<Ref>)
    requires IdsBelow(b.members, |items|)
    ensures RefsBelow(refs, |items|)
  {
    if |b.members| < 2 then []
    else
      GreedyInRange(Hashes(items, b.members), Hamming.Distance, t, 0, {}, []);
      RefsOf(b, GreedyGroups(Hashes(items, b.members), Hamming.Distance, t))
  }

  /** The near groups of all buckets, in bucket order. */
  function NearRefs(items: seq<ResultItem>, buckets: seq<Bucket>, t: int): (refs: seq<Ref>)
    requires forall a :: 0 <= a < |buckets| ==> IdsBelow(buckets[a].members, |items|)
    ensures RefsBelow(refs, |items|)
  {
    if buckets == [] then []
    else NearRefs(items, buckets[..|buckets| - 1], t) + BucketRefs(items, buckets[|buckets| - 1], t)
  }

  /** `base + int(k/total*span)`: the share of the `span` points a phase of
      the progress bar covers that `k` of `total` steps stand for. */
  function Percent(base: int, span: nat, k: nat, total: nat): (p: int)
    requires total >= 1
    ensures base <= p
    ensures k <= total ==> p <= base + span
  {
    ShareBound(span, k, total);
    base + k * span / total
  }

  lemma ShareBound(span: nat, k: nat, total: nat)
    requires total >= 1
    ensures 0 <= k * span / total
    ensures k <= total ==> k * span / total <= span
  {
    var q := k * span / total;
    assert q * total + k * span % total == k * span;
    if k <= total {
      assert k * span <= total * span;
    }
  }

  lemma DivMonotone(a: nat, b: nat, d: nat)
    requires a <= b && d >= 1
    ensures a / d <= b / d
  {
    var q1, q2 := a / d, b / d;
    assert q1 * d <= a;
    assert b < q2 * d + d;
    assert q1 * d < (q2 + 1) * d;
  }

  lemma MulMonotone(a: nat, b: nat, s: nat)
    requires a <= b
    ensures a * s <= b * s
  {
  }

  /** More steps never give a smaller share. */
  lemma PercentMonotone(base: int, span: nat, k1: nat, k2: nat, total: nat)
    requires total >= 1 && k1 <= k2
    ensures Percent(base, span, k1, total) <= Percent(base, span, k2, total)
  {
    MulMonotone(k1, k2, span);
    DivMonotone(k1 * span, k2 * span, total);
  }

  /** Progress reported by the bucket loop after `n` buckets (lines 119-121, 139-141):
      a bucket skipped for holding fewer than two items reports nothing. */
  function NearProgress(buckets: seq<Bucket>, totalB: nat, n: nat): seq<int>
    requires totalB >= 1 && n <= |buckets|
  {
    if n == 0 then []
    else
      var report := |buckets[n - 1].members| >= 2 && n % BucketBatch == 0;
      NearProgress(buckets, totalB, n - 1) + (if report then [Percent(55, 35, n, totalB)] else [])
  }

  /** Progress reported by the last loop after `k` groups (lines 143-150). */
  function FinalProgress(k: nat): seq<int>
  {
    if k == 0 then [] else FinalProgress(k - 1) + (if k % BucketBatch == 0 then [95] else [])
  }

  // ---------------------------------------------------------------------------
  // The whole scan

  function Max1(n: nat): nat
  {
    if n < 1 then 1 else n
  }

  /** `dup_groups_map` */
  function ShaMap(items: seq<ResultItem>): (dup: seq<Bucket>)
    ensures forall a :: 0 <= a < |dup| ==> |dup[a].members| > 0 && IdsBelow(dup[a].members, |items|)
  {
    assert Increasing(IdsOf(ShaPairs(items)));
    GroupByBelow(ShaPairs(items), |items|);
    GroupBy(ShaPairs(items))
  }

  function ExactOf(files: seq<Probe>): (refs: seq<Ref>)
    ensures RefsBelow(refs, |Items(files)|)
  {
    ExactRefsBelow(ShaMap(Items(files)), |Items(files)|);
    ExactRefs(ShaMap(Items(files)))
  }

  function AfterExact(files: seq<Probe>): (items: seq<ResultItem>)
    ensures |items| == |Items(files)|
  {
    MarkAll(Items(files), ExactOf(files))
  }

  function UniqueOf(files: seq<Probe>): (ids: seq<nat>)
    ensures IdsBelow(ids, |Items(files)|) && Increasing(ids)
  {
    UniqueIds(AfterExact(files), ExactOf(files), |Items(files)|)
  }

  function AfterPhash(files: seq<Probe>): (items: seq<ResultItem>)
    ensures |items| == |Items(files)|
  {
    WithPhash(AfterExact(files), UniqueOf(files), Measurements(files))
  }

  function BucketsOf(files: seq<Probe>): (buckets: seq<Bucket>)
    ensures forall a :: 0 <= a < |buckets| ==> IdsBelow(buckets[a].members, |Items(files)|)
  {
    var ps := BucketPairs(AfterPhash(files), UniqueOf(files));
    GroupByBelow(ps, |Items(files)|);
    GroupBy(ps)
  }

  function NearOf(files: seq<Probe>, t: int): (refs: seq<Ref>)
    ensures RefsBelow(refs, |Items(files)|)
  {
    NearRefs(AfterPhash(files), BucketsOf(files), t)
  }

  /** The items as the groups finally show them. */
  function FinalItems(files: seq<Probe>, t: int): (items: seq<ResultItem>)
    ensures |items| == |Items(files)|
  {
    MarkAll(AfterPhash(files), NearOf(files, t))
  }

  /** The emitted groups: each holds the (shared) final items its indices name. */
  function Materialize(items: seq<ResultItem>, refs: seq<Ref>): (gs: seq<ResultGroup>)
    requires RefsBelow(refs, |items|)
    ensures |gs| == |refs|
    ensures forall r :: 0 <= r < |refs| ==>
      gs[r].kind == refs[r].kind && gs[r].title == refs[r].title && gs[r].score == refs[r].score &&
      |gs[r].items| == |refs[r].members| &&
      forall j :: 0 <= j < |refs[r].members| ==> gs[r].items[j] == items[refs[r].members[j]]
  {
    seq(|refs|, r requires 0 <= r < |refs| =>
      ResultGroup(refs[r].kind, refs[r].title,
        seq(|refs[r].members|, j requires 0 <= j < |refs[r].members| => items[refs[r].members[j]]),
        refs[r].score))
  }

  /** Everything `run` reports: the groups it finishes with and the progress
      values it emits, in order. No file: no group and no progress. */
  function Scan(files: seq<Probe>, t: int): ScanResult
  {
    if files == [] then ScanResult([], [])
    else
      var refs := ExactOf(files) + NearOf(files, t);
      var unique := UniqueOf(files);
      var buckets := BucketsOf(files);
      ScanResult(
        Materialize(FinalItems(files, t), refs),
        CollectProgress(files, |files|) + PhashProgress(Max1(|unique|), |unique|) +
        NearProgress(buckets, Max1(|buckets|), |buckets|) + FinalProgress(|refs|) + [100])
  }

  // ---------------------------------------------------------------------------
  // Facts the methods rely on

  /** `b` differs from `a` at most in the similarity marks. */
  predicate SameButMarks(a: seq<ResultItem>, b: seq<ResultItem>)
  {
    |a| == |b| && forall k :: 0 <= k < |a| ==> b[k] == a[k].(similarity := b[k].similarity)
  }

  /** Marking changes nothing but similarity marks. */
  lemma {:induction false} MarkAllKeepsFields(items: seq<ResultItem>, refs: seq<Ref>)
    requires RefsBelow(refs, |items|)
    ensures SameButMarks(items, MarkAll(items, refs))
  {
    if refs != [] {
      MarkAllKeepsFields(items, refs[..|refs| - 1]);
    }
  }

  /** Marking with `a` and then with `b` is marking with `a + b`. */
  lemma {:induction false} MarkAllAppend(items: seq<ResultItem>, a: seq<Ref>, b: seq<Ref>)
    requires RefsBelow(a, |items|) && RefsBelow(b, |items|)
    ensures MarkAll(MarkAll(items, a), b) == MarkAll(items, a + b)
    decreases |b|
  {
    if b == [] {
      assert a + b == a;
    } else {
      var n := |b| - 1;
      assert (a + b)[..|a + b| - 1] == a + b[..n];
      assert (a + b)[|a + b| - 1] == b[n];
      MarkAllAppend(items, a, b[..n]);
    }
  }

  lemma BucketPairsStep(items: seq<ResultItem>, ids: seq<nat>, i: nat)
    requires i < |ids| && IdsBelow(ids, |items|)
    ensures PhashOf(items[ids[i]]) == "" ==> BucketPairs(items, ids[..i + 1]) == BucketPairs(items, ids[..i])
    ensures PhashOf(items[ids[i]]) != "" ==>
      BucketPairs(items, ids[..i + 1]) == BucketPairs(items, ids[..i]) + [(Take(PhashOf(items[ids[i]]), 4), ids[i])]
  {
    assert ids[..i + 1][..i] == ids[..i];
    assert BucketPairs(items, ids[..i]) + [] == BucketPairs(items, ids[..i]);
  }

  lemma ExactRefsStep(dup: seq<Bucket>, i: nat)
    requires i < |dup|
    ensures !(dup[i].key != "" && |dup[i].members| > 1) ==> ExactRefs(dup[..i + 1]) == ExactRefs(dup[..i])
    ensures dup[i].key != "" && |dup[i].members| > 1 ==> ExactRefs(dup[..i + 1]) == ExactRefs(dup[..i]) + [ExactRef(dup[i])]
  {
    assert dup[..i + 1][..i] == dup[..i];
    assert ExactRefs(dup[..i]) + [] == ExactRefs(dup[..i]);
  }

  lemma MarkAllStep(items: seq<ResultItem>, refs: seq<Ref>, r: Ref)
    requires RefsBelow(refs, |items|) && |r.members| > 0 && IdsBelow(r.members, |items|)
    ensures RefsBelow(refs + [r], |items|)
    ensures MarkAll(items, refs + [r]) == Mark(MarkAll(items, refs), r.members, KeepOf(MarkAll(items, refs), r.members))
  {
    assert (refs + [r])[..|refs|] == refs;
    assert forall k :: 0 <= k < |refs| ==> refs[k] == (refs + [r])[k];
  }

  /** Marks do not touch the hashes a bucket reads. */
  lemma HashesAfterMarks(items: seq<ResultItem>, refs: seq<Ref>, ids: seq<nat>)
    requires RefsBelow(refs, |items|) && IdsBelow(ids, |items|)
    ensures Hashes(MarkAll(items, refs), ids) == Hashes(items, ids)
  {
    MarkAllKeepsFields(items, refs);
  }

  // ---------------------------------------------------------------------------
  // The loops of `run`

  /** Lines 84-86 and 135-137: choose the kept item of a group and mark every member. */
  method MarkGroup(items: seq<ResultItem>, ids: seq<nat>) returns (out: seq<ResultItem>)
    requires |ids| > 0 && IdsBelow(ids, |items|)
    ensures out == Mark(items, ids, KeepOf(items, ids))
  {
    var keep := KeepOf(items, ids);
    out := items;
    var i := 0;
    while i < |ids|
      invariant 0 <= i <= |ids| && |out| == |items|
      invariant forall k :: 0 <= k < |items| ==>
        out[k] == if k in ids[..i] then items[k].(similarity := MarkOf(k, keep)) else items[k]
    {
      var k := ids[i];
      out := out[k := out[k].(similarity := MarkOf(k, keep))];
      assert ids[..i + 1] == ids[..i] + [k];
      i := i + 1;
    }
    assert ids[..|ids|] == ids;
  }

  /** Mark the members of group `r` and append it to the groups found so far. */
  method AddGroup(ghost items: seq<ResultItem>, out: seq<ResultItem>, refs: seq<Ref>, r: Ref)
    returns (out': seq<ResultItem>, refs': seq<Ref>)
    requires RefsBelow(refs, |items|) && out == MarkAll(items, refs)
    requires |r.members| > 0 && IdsBelow(r.members, |items|)
    ensures refs' == refs + [r] && RefsBelow(refs', |items|)
    ensures out' == MarkAll(items, refs')
  {
    out' := MarkGroup(out, r.members);
    MarkAllStep(items, refs, r);
    refs' := refs + [r];
  }

  /** One more file adds its item, if it has one, and a progress value
      every `FileBatch` files. */
  lemma CollectStep(files: seq<Probe>, i: nat)
    requires i < |files|
    ensures Items(files[..i + 1]) == Items(files[..i]) + (if files[i].Measured? then [ItemOf(files[i])] else [])
    ensures CollectProgress(files, i + 1) ==
      CollectProgress(files, i) + (if files[i].Measured? && (i + 1) % FileBatch == 0 then [(i + 1) * 20 / |files|] else [])
  {
    assert files[..i + 1][..i] == files[..i];
  }

  /** One more item is one more `setdefault(...).append` under its key. */
  lemma ShaStep(items: seq<ResultItem>, it: ResultItem)
    ensures GroupBy(ShaPairs(items + [it])) == Insert(GroupBy(ShaPairs(items)), ShaKey(it), |items|)
  {
    var ps := ShaPairs(items + [it]);
    assert ps[..|items|] == ShaPairs(items);
    assert ps[|items|] == (ShaKey(it), |items|);
  }

  /** The first loop (lines 40-78): build the items of the measured files,
      file them under their SHA-256 digest and report progress. */
  method CollectItems(files: seq<Probe>) returns (items: seq<ResultItem>, dup: seq<Bucket>, progress: seq<int>)
    ensures items == Items(files)
    ensures dup == ShaMap(items)
    ensures progress == CollectProgress(files, |files|)
  {
    items, dup, progress := [], [], [];
    var i := 0;
    while i < |files|
      invariant 0 <= i <= |files|
      invariant items == Items(files[..i])
      invariant dup == GroupBy(ShaPairs(items))
      invariant progress == CollectProgress(files, i)
    {
      var f := files[i];
      CollectStep(files, i);
      if f.Unreadable? {
        i := i + 1;
        continue;
      }
      var it := ItemOf(f);
      ShaStep(items, it);
      dup := Insert(dup, ShaKey(it), |items|);
      items := items + [it];
      if (i + 1) % FileBatch == 0 {
        progress := progress + [(i + 1) * 20 / |files|];
      }
      i := i + 1;
    }
    assert files[..|files|] == files;
  }

  /** The exact-group loop (lines 80-87). */
  method ExactPhase(items: seq<ResultItem>, dup: seq<Bucket>) returns (out: seq<ResultItem>, refs: seq<Ref>)
    requires forall a :: 0 <= a < |dup| ==> |dup[a].members| > 0 && IdsBelow(dup[a].members, |items|)
    ensures RefsBelow(refs, |items|)
    ensures refs == ExactRefs(dup)
    ensures out == MarkAll(items, refs)
  {
    out, refs := items, [];
    var i := 0;
    while i < |dup|
      invariant 0 <= i <= |dup|
      invariant refs == ExactRefs(dup[..i])
      invariant RefsBelow(refs, |items|)
      invariant out == MarkAll(items, refs)
    {
      var b := dup[i];
      ExactRefsStep(dup, i);
      if b.key != "" && |b.members| > 1 {
        out, refs := AddGroup(items, out, refs, ExactRef(b));
      }
      i := i + 1;
    }
    assert dup[..|dup|] == dup;
  }

  /** The perceptual-hash loop (lines 90-109): every unique item receives its hash. */
  method AssignPhashes(items: seq<ResultItem>, unique: seq<nat>, ms: seq<Probe>) returns (out: seq<ResultItem>, progress: seq<int>)
    requires |ms| == |items| && forall k :: 0 <= k < |ms| ==> ms[k].Measured?
    requires IdsBelow(unique, |items|)
    ensures out == WithPhash(items, unique, ms)
    ensures progress == PhashProgress(Max1(|unique|), |unique|)
  {
    var total2 := Max1(|unique|);
    out, progress := items, [];
    var i := 0;
    while i < |unique|
      invariant 0 <= i <= |unique|
      invariant out == WithPhash(items, unique[..i], ms)
      invariant progress == PhashProgress(total2, i)
    {
      var k := unique[i];
      assert unique[..i + 1] == unique[..i] + [k];
      out := out[k := out[k].(phash := Some(ms[k].phash))];
      if (i + 1) % FileBatch == 0 {
        progress := progress + [Percent(20, 35, i + 1, total2)];
      }
      i := i + 1;
    }
    assert unique[..|unique|] == unique;
  }

  /** The bucket loop (lines 111-115). */
  method BucketItems(items: seq<ResultItem>, unique: seq<nat>) returns (buckets: seq<Bucket>)
    requires IdsBelow(unique, |items|)
    ensures buckets == GroupBy(BucketPairs(items, unique))
  {
    buckets := [];
    var i := 0;
    while i < |unique|
      invariant 0 <= i <= |unique|
      invariant buckets == GroupBy(BucketPairs(items, unique[..i]))
    {
      var k := unique[i];
      var ph := PhashOf(items[k]);
      BucketPairsStep(items, unique, i);
      if ph != "" {
        GroupByAppend(BucketPairs(items, unique[..i]), Take(ph, 4), k);
        buckets := Insert(buckets, Take(ph, 4), k);
      }
      i := i + 1;
    }
    assert unique[..|unique|] == unique;
  }

  /** The candidate loop of pivot `i` (lines 128-133): every later position
      with a hash within `t` of the pivot's joins, whether visited or not. */
  method CollectCandidates(hs: seq<string>, t: int, i: nat, visited: set<nat>) returns (grp: seq<nat>, visited': set<nat>)
    requires i < |hs|
    ensures (grp, visited') == Collect(hs, Hamming.Distance, t, i, i + 1, [i], visited)
  {
    grp, visited' := [i], visited;
    var j := i + 1;
    while j < |hs|
      invariant i < j <= |hs|
      invariant Collect(hs, Hamming.Distance, t, i, j, grp, visited') == Collect(hs, Hamming.Distance, t, i, i + 1, [i], visited)
    {
      if Joins(hs, Hamming.Distance, t, i, j) {
        grp := grp + [j];
        visited' := visited' + {j};
      }
      j := j + 1;
    }
  }

  lemma RefsOfStep(b: Bucket, gs: seq<seq<nat>>, g: seq<nat>)
    requires forall k, j :: 0 <= k < |gs| && 0 <= j < |gs[k]| ==> gs[k][j] < |b.members|
    requires forall j :: 0 <= j < |g| ==> g[j] < |b.members|
    ensures RefsOf(b, gs + [g]) == RefsOf(b, gs) + [NearRef(b, g)]
  {
  }

  /** The state of the pivot loop over bucket `b` before position `i`:
      `groups` are the groups emitted so far, as bucket positions, `refs`
      the corresponding near groups and `out` the items they have marked. */
  ghost predicate PivotLoop(items: seq<ResultItem>, b: Bucket, hs: seq<string>, t: int, i: nat,
    visited: set<nat>, groups: seq<seq<nat>>, out: seq<ResultItem>, refs: seq<Ref>)
  {
    i <= |hs| == |b.members| && IdsBelow(b.members, |items|) && InRange(groups, |hs|) &&
    Greedy(hs, Hamming.Distance, t, i, visited, groups) == GreedyGroups(hs, Hamming.Distance, t) &&
    refs == RefsOf(b, groups) && RefsBelow(refs, |items|) && out == MarkAll(items, refs)
  }

  lemma PivotLoopSkip(items: seq<ResultItem>, b: Bucket, hs: seq<string>, t: int, i: nat,
    visited: set<nat>, groups: seq<seq<nat>>, out: seq<ResultItem>, refs: seq<Ref>)
    requires i < |hs| && PivotLoop(items, b, hs, t, i, visited, groups, out, refs)
    requires !Pivot(hs, i, visited)
    ensures PivotLoop(items, b, hs, t, i + 1, visited, groups, out, refs)
  {
  }

  lemma PivotLoopAlone(items: seq<ResultItem>, b: Bucket, hs: seq<string>, t: int, i: nat,
    visited: set<nat>, groups: seq<seq<nat>>, out: seq<ResultItem>, refs: seq<Ref>, grp: seq<nat>, v: set<nat>)
    requires i < |hs| && PivotLoop(items, b, hs, t, i, visited, groups, out, refs)
    requires Pivot(hs, i, visited) && (grp, v) == Collect(hs, Hamming.Distance, t, i, i + 1, [i], visited) && |grp| < 2
    ensures PivotLoop(items, b, hs, t, i + 1, v, groups, out, refs)
  {
  }

  lemma PivotLoopEmit(items: seq<ResultItem>, b: Bucket, hs: seq<string>, t: int, i: nat,
    visited: set<nat>, groups: seq<seq<nat>>, out: seq<ResultItem>, refs: seq<Ref>, grp: seq<nat>, v: set<nat>,
    out': seq<ResultItem>)
    requires i < |hs| && PivotLoop(items, b, hs, t, i, visited, groups, out, refs)
    requires Pivot(hs, i, visited) && (grp, v) == Collect(hs, Hamming.Distance, t, i, i + 1, [i], visited) && |grp| >= 2
    requires forall m :: 0 <= m < |grp| ==> grp[m] < |hs|
    requires RefsBelow(refs + [NearRef(b, grp)], |items|) && out' == MarkAll(items, refs + [NearRef(b, grp)])
    ensures PivotLoop(items, b, hs, t, i + 1, v, groups + [grp], out', refs + [NearRef(b, grp)])
  {
    RefsOfStep(b, groups, grp);
  }

  /** One turn of the pivot loop (lines 124-138). */
  lemma PivotLoopStart(items: seq<ResultItem>, b: Bucket, hs: seq<string>, t: int)
    requires |b.members| >= 2 && IdsBelow(b.members, |items|)
    requires hs == Hashes(items, b.members)
    ensures PivotLoop(items, b, hs, t, 0, {}, [], items, [])
  {
  }

  lemma PivotLoopDone(items: seq<ResultItem>, b: Bucket, hs: seq<string>, t: int,
    visited: set<nat>, groups: seq<seq<nat>>, out: seq<ResultItem>, refs: seq<Ref>)
    requires |b.members| >= 2 && IdsBelow(b.members, |items|) && hs == Hashes(items, b.members)
    requires PivotLoop(items, b, hs, t, |hs|, visited, groups, out, refs)
    ensures refs == BucketRefs(items, b, t)
    ensures out == MarkAll(items, refs)
  {
  }

  method PivotStep(ghost items: seq<ResultItem>, b: Bucket, hs: seq<string>, t: int, i: nat,
    visited: set<nat>, ghost groups: seq<seq<nat>>, out: seq<ResultItem>, refs: seq<Ref>)
    returns (visited': set<nat>, ghost groups': seq<seq<nat>>, out': seq<ResultItem>, refs': seq<Ref>)
    requires i < |hs| && PivotLoop(items, b, hs, t, i, visited, groups, out, refs)
    ensures PivotLoop(items, b, hs, t, i + 1, visited', groups', out', refs')
  {
    visited', groups', out', refs' := visited, groups, out, refs;
    if Pivot(hs, i, visited) {
      var grp, v := CollectCandidates(hs, t, i, visited);
      CollectInRange(hs, Hamming.Distance, t, i, i + 1, [i], visited);
      if |grp| >= 2 {
        out', refs' := AddGroup(items, out, refs, NearRef(b, grp));
        PivotLoopEmit(items, b, hs, t, i, visited, groups, out, refs, grp, v, out');
        groups' := groups + [grp];
      } else {
        PivotLoopAlone(items, b, hs, t, i, visited, groups, out, refs, grp, v);
      }
      visited' := v;
    } else {
      PivotLoopSkip(items, b, hs, t, i, visited, groups, out, refs);
    }
  }

  /** The greedy pass over one bucket of at least two items (lines 122-138). */
  method GreedyBucket(items: seq<ResultItem>, b: Bucket, t: int) returns (out: seq<ResultItem>, refs: seq<Ref>)
    requires |b.members| >= 2 && IdsBelow(b.members, |items|)
    ensures refs == BucketRefs(items, b, t)
    ensures out == MarkAll(items, refs)
  {
    var hs := Hashes(items, b.members);
    PivotLoopStart(items, b, hs, t);
    ghost var groups, visited;
    out, refs, groups, visited := PivotPass(items, b, hs, t);
    PivotLoopDone(items, b, hs, t, visited, groups, out, refs);
  }

  /** The pivot loop itself (line 123): every position in turn. */
  method PivotPass(items: seq<ResultItem>, b: Bucket, hs: seq<string>, t: int)
    returns (out: seq<ResultItem>, refs: seq<Ref>, ghost groups: seq<seq<nat>>, ghost visited: set<nat>)
    requires PivotLoop(items, b, hs, t, 0, {}, [], items, [])
    ensures PivotLoop(items, b, hs, t, |hs|, visited, groups, out, refs)
  {
    var seen: set<nat> := {};
    groups := [];
    out, refs := items, [];
    var i := 0;
    while i < |hs|
      invariant PivotLoop(items, b, hs, t, i, seen, groups, out, refs)
    {
      seen, groups, out, refs := PivotStep(items, b, hs, t, i, seen, groups, out, refs);
      i := i + 1;
    }
    visited := seen;
  }

  /** The state of the bucket loop after `n` buckets. */
  ghost predicate NearLoop(items: seq<ResultItem>, buckets: seq<Bucket>, t: int, totalB: nat, n: nat,
    out: seq<ResultItem>, refs: seq<Ref>, progress: seq<int>)
  {
    n <= |buckets| && totalB >= 1 &&
    (forall a :: 0 <= a < |buckets| ==> IdsBelow(buckets[a].members, |items|)) &&
    refs == NearRefs(items, buckets[..n], t) && RefsBelow(refs, |items|) &&
    out == MarkAll(items, refs) && progress == NearProgress(buckets, totalB, n)
  }

  lemma NearLoopSkip(items: seq<ResultItem>, buckets: seq<Bucket>, t: int, totalB: nat, n: nat,
    out: seq<ResultItem>, refs: seq<Ref>, progress: seq<int>)
    requires n < |buckets| && NearLoop(items, buckets, t, totalB, n, out, refs, progress)
    requires |buckets[n].members| < 2
    ensures NearLoop(items, buckets, t, totalB, n + 1, out, refs, progress)
  {
    assert buckets[..n + 1][..n] == buckets[..n];
  }

  lemma NearLoopBucket(items: seq<ResultItem>, buckets: seq<Bucket>, t: int, totalB: nat, n: nat,
    out: seq<ResultItem>, refs: seq<Ref>, progress: seq<int>, out': seq<ResultItem>, r: seq<Ref>, processed: nat, progress': seq<int>)
    requires n < |buckets| && NearLoop(items, buckets, t, totalB, n, out, refs, progress)
    requires |buckets[n].members| >= 2
    requires r == BucketRefs(out, buckets[n], t) && out' == MarkAll(out, r)
    requires processed == n + 1
    requires processed % BucketBatch != 0 ==> progress' == progress
    requires processed % BucketBatch == 0 ==> progress' == progress + [Percent(55, 35, processed, totalB)]
    ensures NearLoop(items, buckets, t, totalB, n + 1, out', refs + r, progress')
  {
    assert buckets[..n + 1][..n] == buckets[..n];
    assert progress + [] == progress;
    HashesAfterMarks(items, refs, buckets[n].members);
    MarkAllAppend(items, refs, r);
  }

  /** The loop over all buckets (lines 117-141). */
  method NearPhase(items: seq<ResultItem>, buckets: seq<Bucket>, t: int) returns (out: seq<ResultItem>, refs: seq<Ref>, progress: seq<int>)
    requires forall a :: 0 <= a < |buckets| ==> IdsBelow(buckets[a].members, |items|)
    ensures refs == NearRefs(items, buckets, t)
    ensures out == MarkAll(items, refs)
    ensures progress == NearProgress(buckets, Max1(|buckets|), |buckets|)
  {
    var processed := 0;
    var totalB := Max1(|buckets|);
    out, refs, progress := items, [], [];
    var n := 0;
    while n < |buckets|
      invariant processed == n
      invariant NearLoop(items, buckets, t, totalB, n, out, refs, progress)
    {
      var b := buckets[n];
      if |b.members| < 2 {
        NearLoopSkip(items, buckets, t, totalB, n, out, refs, progress);
        processed := processed + 1;
        n := n + 1;
        continue;
      }
      var o, r := GreedyBucket(out, b, t);
      processed := processed + 1;
      var p := progress;
      if processed % BucketBatch == 0 {
        p := progress + [Percent(55, 35, processed, totalB)];
      }
      NearLoopBucket(items, buckets, t, totalB, n, out, refs, progress, o, r, processed, p);
      out, refs, progress := o, refs + r, p;
      n := n + 1;
    }
    assert buckets[..|buckets|] == buckets;
  }

  /** The progress values of the last loop over the `count` finished groups (lines 143-150). */
  method FinalPhase(count: nat) returns (progress: seq<int>)
    ensures progress == FinalProgress(count)
  {
    progress := [];
    var k := 0;
    while k < count
      invariant 0 <= k <= count && progress == FinalProgress(k)
    {
      k := k + 1;
      if k % BucketBatch == 0 {
        progress := progress + [95];
      }
    }
  }

  /** `ScanWorker.run` with threshold `simThresh`: the groups it finishes
      with and every progress value it emits are those `Scan` describes. */
  method Run(files: seq<Probe>, simThresh: int) returns (groups: seq<ResultGroup>, progress: seq<int>)
    ensures ScanResult(groups, progress) == Scan(files, simThresh)
  {
    if |files| == 0 {
      return [], [];
    }
    var items, dup, p1 := CollectItems(files);
    var items1, exact := ExactPhase(items, dup);
    assert exact == ExactOf(files) && items1 == AfterExact(files);
    var unique := UniqueIds(items1, exact, |items1|);
    assert unique == UniqueOf(files);
    var items2, p2 := AssignPhashes(items1, unique, Measurements(files));
    assert items2 == AfterPhash(files);
    var buckets := BucketItems(items2, unique);
    assert buckets == BucketsOf(files);
    var items3, near, p3 := NearPhase(items2, buckets, simThresh);
    assert near == NearOf(files, simThresh) && items3 == FinalItems(files, simThresh);
    var refs := exact + near;
    var p4 := FinalPhase(|refs|);
    groups := Materialize(items3, refs);
    progress := p1 + p2 + p3 + p4 + [100];
  }
}
