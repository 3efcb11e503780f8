/**
 * `GroupBuilder.build_groups` (core/group_builder.py): greedy threshold
 * clustering of (path, hash) pairs. Unlike the scan worker's loop, the
 * `visited` set of paths is consulted for candidates as well as for
 * pivots, so no path lands in two groups.
 *
 * The hash type and the distance `hash_i - hash_j` of the imaging library
 * are parameters: `H` and `dist`.
 */
module GroupBuilder {
  import opened Wrappers
  import opened OrderedGroups
  import Hamming

  /** The default `threshold` of `build_groups`. */
  const DefaultThreshold := 5

  /** One `(path, hash)` input pair; the hash may be `None`. */
  datatype Entry<H> = Entry(path: string, hash: Option<H>)

  /** `valid_hashes`: the pairs whose hash is not `None`, in input order. */
  function Valid<H>(es: seq<Entry<H>>): (vs: seq<(string, H)>)
    ensures |vs| <= |es|
  {
    if es == [] then []
    else
      var e := es[|es| - 1];
      Valid(es[..|es| - 1]) + (if e.hash.Some? then [(e.path, e.hash.value)] else [])
  }

  /** The candidate loop of pivot hash `h` from position `j` on (lines
      34-44): a position whose path is not yet visited and whose hash is
      within `t` joins, and its path becomes visited. */
  function Inner<H>(vs: seq<(string, H)>, dist: (H, H) -> int, t: int, h: H, j: nat,
    visited: set<string>, grp: seq<nat>): (seq<nat>, set<string>)
    decreases |vs| - j
  {
    if j >= |vs| then (grp, visited)
    else if vs[j].0 in visited then Inner(vs, dist, t, h, j + 1, visited, grp)
    else if dist(h, vs[j].1) <= t then Inner(vs, dist, t, h, j + 1, visited + {vs[j].0}, grp + [j])
    else Inner(vs, dist, t, h, j + 1, visited, grp)
  }

  /** The pivot loop from position `i` on (lines 25-47), with the groups
      found so far in `acc`, as positions in `vs`. */
  function Outer<H>(vs: seq<(string, H)>, dist: (H, H) -> int, t: int, i: nat,
    visited: set<string>, acc: seq<seq<nat>>): seq<seq<nat>>
    decreases |vs| - i
  {
    if i >= |vs| then acc
    else if vs[i].0 in visited then Outer(vs, dist, t, i + 1, visited, acc)
    else
      var r := Inner(vs, dist, t, vs[i].1, i + 1, visited + {vs[i].0}, [i]);
      Outer(vs, dist, t, i + 1, r.1, if |r.0| > 1 then acc + [r.0] else acc)
  }

  /** The groups `build_groups` returns, as positions in `valid_hashes`. */
  function Positions<H>(es: seq<Entry<H>>, dist: (H, H) -> int, t: int): seq<seq<nat>>
  {
    Outer(Valid(es), dist, t, 0, {}, [])
  }

  /** Every position of every group lies inside `vs`. */
  predicate Inside<H>(vs: seq<(string, H)>, gs: seq<seq<nat>>)
  {
    forall k, m :: 0 <= k < |gs| && 0 <= m < |gs[k]| ==> gs[k][m] < |vs|
  }

  /** The paths at the positions of a group. */
  function PathsAt<H>(vs: seq<(string, H)>, g: seq<nat>): (out: seq<string>)
    requires forall m :: 0 <= m < |g| ==> g[m] < |vs|
    ensures |out| == |g|
    ensures forall m :: 0 <= m < |g| ==> out[m] == vs[g[m]].0
  {
    seq(|g|, m requires 0 <= m < |g| => vs[g[m]].0)
  }

  /** The paths at the positions of each group. */
  function PathGroups<H>(vs: seq<(string, H)>, gs: seq<seq<nat>>): (out: seq<seq<string>>)
    requires Inside(vs, gs)
    ensures |out| == |gs|
    ensures forall k :: 0 <= k < |gs| ==> out[k] == PathsAt(vs, gs[k])
  {
    seq(|gs|, k requires 0 <= k < |gs| => PathsAt(vs, gs[k]))
  }

  // ---------------------------------------------------------------------------
  // What the loops keep

  /** The paths at the positions of `g` are pairwise different. */
  predicate PathsDistinct<H>(vs: seq<(string, H)>, g: seq<nat>)
    requires forall m :: 0 <= m < |g| ==> g[m] < |vs|
  {
    forall m1, m2 :: 0 <= m1 < m2 < |g| ==> vs[g[m1]].0 != vs[g[m2]].0
  }

  /** The paths at the positions of `g` are all in `visited`. */
  predicate PathsIn<H>(vs: seq<(string, H)>, g: seq<nat>, visited: set<string>)
    requires forall m :: 0 <= m < |g| ==> g[m] < |vs|
  {
    forall m :: 0 <= m < |g| ==> vs[g[m]].0 in visited
  }

  /** A group under construction for pivot `i`: the pivot first, positions
      increasing and inside `vs`, paths different, every other member's
      hash within `t` of the pivot's. */
  predicate Growing<H>(vs: seq<(string, H)>, dist: (H, H) -> int, t: int, i: nat, grp: seq<nat>)
  {
    |grp| >= 1 && grp[0] == i && Increasing(grp) &&
    (forall m :: 0 <= m < |grp| ==> grp[m] < |vs|) &&
    PathsDistinct(vs, grp) &&
    forall m :: 0 < m < |grp| ==> dist(vs[i].1, vs[grp[m]].1) <= t
  }

  /** The candidate loop keeps `Growing`, only adds to `visited` and records
      every path it adds. Which positions it adds is `InnerExact`. */
  lemma {:induction false} InnerGrows<H>(vs: seq<(string, H)>, dist: (H, H) -> int, t: int, i: nat, j: nat,
    visited: set<string>, grp: seq<nat>)
    requires i < j <= |vs| && Growing(vs, dist, t, i, grp) && PathsIn(vs, grp, visited)
    requires forall m :: 0 <= m < |grp| ==> grp[m] < j
    ensures Growing(vs, dist, t, i, Inner(vs, dist, t, vs[i].1, j, visited, grp).0)
    ensures PathsIn(vs, Inner(vs, dist, t, vs[i].1, j, visited, grp).0, Inner(vs, dist, t, vs[i].1, j, visited, grp).1)
    ensures visited <= Inner(vs, dist, t, vs[i].1, j, visited, grp).1
    decreases |vs| - j
  {
    if j < |vs| {
      if vs[j].0 in visited || dist(vs[i].1, vs[j].1) > t {
        InnerGrows(vs, dist, t, i, j + 1, visited, grp);
      } else {
        var g := grp + [j];
        assert Growing(vs, dist, t, i, g) && PathsIn(vs, g, visited + {vs[j].0});
        InnerGrows(vs, dist, t, i, j + 1, visited + {vs[j].0}, g);
      }
    }
  }

  /** The candidate loop only extends the group, and only with positions
      from `j` on whose path was not visited when it started. */
  lemma {:induction false} InnerExtends<H>(vs: seq<(string, H)>, dist: (H, H) -> int, t: int, h: H, j: nat,
    visited: set<string>, grp: seq<nat>)
    requires forall m :: 0 <= m < |grp| ==> grp[m] < |vs|
    ensures var r := Inner(vs, dist, t, h, j, visited, grp);
      |r.0| >= |grp| && r.0[..|grp|] == grp &&
      (forall m :: |grp| <= m < |r.0| ==> j <= r.0[m] < |vs| && vs[r.0[m]].0 !in visited)
    decreases |vs| - j
  {
    if j < |vs| {
      if vs[j].0 in visited || dist(h, vs[j].1) > t {
        InnerExtends(vs, dist, t, h, j + 1, visited, grp);
      } else {
        var g := grp + [j];
        InnerExtends(vs, dist, t, h, j + 1, visited + {vs[j].0}, g);
        var r := Inner(vs, dist, t, h, j + 1, visited + {vs[j].0}, g);
        assert r.0[..|grp|] == r.0[..|g|][..|grp|];
        assert r.0[|grp|] == r.0[..|g|][|grp|] == j;
      }
    } else {
      assert grp[..|grp|] == grp;
    }
  }

  /** No path is in two different groups. */
  predicate Apart<H>(vs: seq<(string, H)>, gs: seq<seq<nat>>)
  {
    forall k1, k2, m1, m2 ::
      0 <= k1 < k2 < |gs| && 0 <= m1 < |gs[k1]| && 0 <= m2 < |gs[k2]| && gs[k1][m1] < |vs| && gs[k2][m2] < |vs| ==>
      vs[gs[k1][m1]].0 != vs[gs[k2][m2]].0
  }

  /** What `build_groups` promises of its groups: each has two or more
      members and is a grown group of its first position (the pivot),
      pivots increase, and no path occurs in two groups. */
  predicate Shaped<H>(vs: seq<(string, H)>, dist: (H, H) -> int, t: int, gs: seq<seq<nat>>)
  {
    (forall k :: 0 <= k < |gs| ==> |gs[k]| >= 2 && Growing(vs, dist, t, gs[k][0], gs[k])) &&
    (forall k1, k2 :: 0 <= k1 < k2 < |gs| ==> gs[k1][0] < gs[k2][0]) &&
    Apart(vs, gs)
  }

  /** The groups emitted with the pivot loop at position `i`: `Shaped`,
      pivots before `i`, every path visited. */
  predicate Done<H>(vs: seq<(string, H)>, dist: (H, H) -> int, t: int, i: nat, visited: set<string>, acc: seq<seq<nat>>)
  {
    Shaped(vs, dist, t, acc) &&
    forall k :: 0 <= k < |acc| ==> acc[k][0] < i && PathsIn(vs, acc[k], visited)
  }

  lemma DoneGrows<H>(vs: seq<(string, H)>, dist: (H, H) -> int, t: int, i: nat,
    visited: set<string>, acc: seq<seq<nat>>, v: set<string>)
    requires Done(vs, dist, t, i, visited, acc) && visited <= v
    ensures Done(vs, dist, t, i + 1, v, acc)
  {
  }

  /** Emitting the group of pivot `i` keeps `Done`. */
  lemma DoneEmit<H>(vs: seq<(string, H)>, dist: (H, H) -> int, t: int, i: nat,
    visited: set<string>, acc: seq<seq<nat>>, g: seq<nat>, v: set<string>)
    requires i < |vs| && vs[i].0 !in visited
    requires Done(vs, dist, t, i, visited, acc) && visited <= v
    requires |g| >= 2 && Growing(vs, dist, t, i, g) && PathsIn(vs, g, v)
    requires forall m :: 1 <= m < |g| ==> vs[g[m]].0 !in visited + {vs[i].0}
    ensures Done(vs, dist, t, i + 1, v, acc + [g])
  {
    var gs := acc + [g];
    forall k | 0 <= k < |gs|
      ensures |gs[k]| >= 2 && Growing(vs, dist, t, gs[k][0], gs[k]) && gs[k][0] < i + 1 && PathsIn(vs, gs[k], v)
    {
      if k < |acc| {
        assert gs[k] == acc[k];
      } else {
        assert gs[k] == g;
      }
    }
    forall k1, k2, m1, m2 | 0 <= k1 < k2 < |gs| && 0 <= m1 < |gs[k1]| && 0 <= m2 < |gs[k2]| &&
      gs[k1][m1] < |vs| && gs[k2][m2] < |vs|
      ensures vs[gs[k1][m1]].0 != vs[gs[k2][m2]].0
    {
      assert gs[k1] == acc[k1];
      if k2 == |acc| {
        assert gs[k2] == g;
        assert vs[gs[k1][m1]].0 in visited;
        if m2 == 0 {
          assert gs[k2][m2] == i;
        }
      } else {
        assert gs[k2] == acc[k2];
      }
    }
  }

  /** The pivot loop ends with `Shaped` groups. */
  lemma {:induction false} OuterFacts<H>(vs: seq<(string, H)>, dist: (H, H) -> int, t: int, i: nat,
    visited: set<string>, acc: seq<seq<nat>>)
    requires i <= |vs| && Done(vs, dist, t, i, visited, acc)
    ensures Shaped(vs, dist, t, Outer(vs, dist, t, i, visited, acc))
    decreases |vs| - i
  {
    if i < |vs| {
      if vs[i].0 in visited {
        DoneGrows(vs, dist, t, i, visited, acc, visited);
        OuterFacts(vs, dist, t, i + 1, visited, acc);
      } else {
        var w := visited + {vs[i].0};
        var r := Inner(vs, dist, t, vs[i].1, i + 1, w, [i]);
        assert Growing(vs, dist, t, i, [i]) && PathsIn(vs, [i], w);
        InnerGrows(vs, dist, t, i, i + 1, w, [i]);
        InnerExtends(vs, dist, t, vs[i].1, i + 1, w, [i]);
        if |r.0| > 1 {
          DoneEmit(vs, dist, t, i, visited, acc, r.0, r.1);
          OuterFacts(vs, dist, t, i + 1, r.1, acc + [r.0]);
        } else {
          DoneGrows(vs, dist, t, i, visited, acc, r.1);
          OuterFacts(vs, dist, t, i + 1, r.1, acc);
        }
      }
    }
  }

  /** The groups of paths `build_groups` returns. */
  function Build<H>(es: seq<Entry<H>>, dist: (H, H) -> int, t: int): seq<seq<string>>
  {
    BuildShaped(es, dist, t);
    PathGroups(Valid(es), Positions(es, dist, t))
  }

  /** The position groups are `Shaped`, and hold exactly the positions
      `BuildExactly` describes. */
  lemma BuildShaped<H>(es: seq<Entry<H>>, dist: (H, H) -> int, t: int)
    ensures Shaped(Valid(es), dist, t, Positions(es, dist, t))
    ensures Inside(Valid(es), Positions(es, dist, t))
    ensures var gs, vs := Positions(es, dist, t), Valid(es);
      forall k, m :: 0 <= k < |gs| && |gs[k]| >= 1 && gs[k][0] < m < |vs| ==>
        (m in gs[k] <==> dist(vs[gs[k][0]].1, vs[m].1) <= t && Fresh(vs, gs, gs[k][0], m) && NewPath(vs, gs[k], gs[k][0] + 1, m))
    ensures var gs, vs := Positions(es, dist, t), Valid(es);
      forall p :: 0 <= p < |vs| ==>
        (IsPivot(gs, p) <==> !SeenAt(vs, gs, p, vs[p].0) && exists m :: p < m < |vs| && dist(vs[p].1, vs[m].1) <= t && Fresh(vs, gs, p, m))
  {
    OuterFacts(Valid(es), dist, t, 0, {}, []);
    BuildExactly(es, dist, t);
  }

  /** `p` is the path and hash of some input pair. */
  ghost predicate FromInput<H>(es: seq<Entry<H>>, p: (string, H))
  {
    exists x :: 0 <= x < |es| && es[x].path == p.0 && es[x].hash == Some(p.1)
  }

  /** Every pair kept comes from an input pair with a hash. */
  lemma {:induction false} ValidFrom<H>(es: seq<Entry<H>>)
    ensures forall q :: 0 <= q < |Valid(es)| ==> FromInput(es, Valid(es)[q])
  {
    if es != [] {
      var n := |es| - 1;
      ValidFrom(es[..n]);
      forall q | 0 <= q < |Valid(es)|
        ensures FromInput(es, Valid(es)[q])
      {
        if q < |Valid(es[..n])| {
          assert Valid(es)[q] == Valid(es[..n])[q];
          assert FromInput(es[..n], Valid(es[..n])[q]);
          var x :| 0 <= x < n && es[..n][x].path == Valid(es)[q].0 && es[..n][x].hash == Some(Valid(es)[q].1);
          assert es[x] == es[..n][x];
        } else {
          assert es[n].path == Valid(es)[q].0 && es[n].hash == Some(Valid(es)[q].1);
        }
      }
    }
  }

  /** The returned groups hold two or more paths each, no path occurs
      twice in the whole result, and every path is that of an input pair
      whose hash is not `None`. */
  lemma BuildPaths<H>(es: seq<Entry<H>>, dist: (H, H) -> int, t: int)
    ensures forall k :: 0 <= k < |Build(es, dist, t)| ==> |Build(es, dist, t)[k]| >= 2
    ensures forall k, m1, m2 :: 0 <= k < |Build(es, dist, t)| && 0 <= m1 < m2 < |Build(es, dist, t)[k]| ==>
      Build(es, dist, t)[k][m1] != Build(es, dist, t)[k][m2]
    ensures forall k1, k2, m1, m2 ::
      0 <= k1 < k2 < |Build(es, dist, t)| && 0 <= m1 < |Build(es, dist, t)[k1]| && 0 <= m2 < |Build(es, dist, t)[k2]| ==>
      Build(es, dist, t)[k1][m1] != Build(es, dist, t)[k2][m2]
    ensures forall k, m :: 0 <= k < |Build(es, dist, t)| && 0 <= m < |Build(es, dist, t)[k]| ==>
      exists x :: 0 <= x < |es| && es[x].path == Build(es, dist, t)[k][m] && es[x].hash.Some?
  {
    var vs := Valid(es);
    var gs := Positions(es, dist, t);
    var out := Build(es, dist, t);
    BuildShaped(es, dist, t);
    ValidFrom(es);
    forall k, m1, m2 | 0 <= k < |out| && 0 <= m1 < m2 < |out[k]|
      ensures out[k][m1] != out[k][m2]
    {
      assert Growing(vs, dist, t, gs[k][0], gs[k]);
    }
    forall k, m | 0 <= k < |out| && 0 <= m < |out[k]|
      ensures exists x :: 0 <= x < |es| && es[x].path == out[k][m] && es[x].hash.Some?
    {
      assert FromInput(es, vs[gs[k][m]]);
      var x :| 0 <= x < |es| && es[x].path == vs[gs[k][m]].0 && es[x].hash == Some(vs[gs[k][m]].1);
    }
  }

  /** Hamming distance between hex strings, as a distance for the builder. */
  function HexDistance(a: string, b: string): int
  {
    Hamming.Distance(a, b)
  }

  /** Three pairs whose hashes are "0", "3" and "1". */
  const SampleEntries := [Entry("a", Some("0")), Entry("b", Some("3")), Entry("c", Some("1"))]
  const SamplePairs := [("a", "0"), ("b", "3"), ("c", "1")]

  lemma SampleValid()
    ensures Valid(SampleEntries) == SamplePairs
  {
    var es := SampleEntries;
    assert es[..0] == [] && es[..1] == [es[0]] && es[..2] == [es[0], es[1]];
  }

  /** Three pairs with distinct paths where the first is close to the third
      but not to the second: one group [0, 2], and the second pivot, left
      with only the visited third position, emits nothing. */
  lemma {:induction false} ThreePairs<H>(vs: seq<(string, H)>, dist: (H, H) -> int, t: int)
    requires |vs| == 3
    requires vs[0].0 != vs[1].0 && vs[0].0 != vs[2].0 && vs[1].0 != vs[2].0
    requires dist(vs[0].1, vs[1].1) > t && dist(vs[0].1, vs[2].1) <= t
    ensures Outer(vs, dist, t, 0, {}, []) == [[0, 2]]
  {
    var a, b, c := vs[0].0, vs[1].0, vs[2].0;
    var h := vs[0].1;
    assert Inner(vs, dist, t, h, 1, {a}, [0]) == Inner(vs, dist, t, h, 2, {a}, [0]);
    assert Inner(vs, dist, t, h, 2, {a}, [0]) == Inner(vs, dist, t, h, 3, {a} + {c}, [0] + [2]);
    var v := {a} + {c};
    assert [0] + [2] == [0, 2];
    assert Inner(vs, dist, t, h, 1, {a}, [0]) == ([0, 2], v);
    var none: set<string> := {};
    var start: seq<seq<nat>> := [];
    assert a !in none && none + {a} == {a} && start + [[0, 2]] == [[0, 2]];
    assert Outer(vs, dist, t, 0, none, start) == Outer(vs, dist, t, 1, v, [[0, 2]]);
    assert b !in v && c in v + {b};
    var w := Inner(vs, dist, t, vs[1].1, 2, v + {b}, [1]);
    assert w == Inner(vs, dist, t, vs[1].1, 3, v + {b}, [1]);
    assert Outer(vs, dist, t, 1, v, [[0, 2]]) == Outer(vs, dist, t, 2, w.1, [[0, 2]]);
    assert c in w.1;
  }

  /** The same three pairs, as the paths `build_groups` returns. */
  lemma BuildThree<H>(es: seq<Entry<H>>, dist: (H, H) -> int, t: int)
    requires |Valid(es)| == 3
    requires Valid(es)[0].0 != Valid(es)[1].0 && Valid(es)[0].0 != Valid(es)[2].0 && Valid(es)[1].0 != Valid(es)[2].0
    requires dist(Valid(es)[0].1, Valid(es)[1].1) > t && dist(Valid(es)[0].1, Valid(es)[2].1) <= t
    ensures Build(es, dist, t) == [[Valid(es)[0].0, Valid(es)[2].0]]
  {
    var vs := Valid(es);
    ThreePairs(vs, dist, t);
    var out := Build(es, dist, t);
    assert |out| == 1 && out[0] == PathsAt(vs, [0, 2]);
    assert PathsAt(vs, [0, 2]) == [vs[0].0, vs[2].0];
  }

  /** Candidates already visited are skipped: with threshold 1 the hashes
      "0", "3", "1" give the one group [a, c], where the scan worker's loop
      puts the third position into two groups. */
  lemma BuilderKeepsGroupsApart()
    ensures Build(SampleEntries, HexDistance, 1) == [["a", "c"]]
  {
    var vs := SamplePairs;
    SampleValid();
    Hamming.SampleDistances();
    assert vs[0] == ("a", "0") && vs[1] == ("b", "3") && vs[2] == ("c", "1");
    assert HexDistance("0", "3") == 2 && HexDistance("0", "1") == 1;
    assert "a" != "b" && "a" != "c" && "b" != "c";
    BuildThree(SampleEntries, HexDistance, 1);
  }

  // ---------------------------------------------------------------------------
  // Which positions the pivot loop groups

  /** No member of `g` from position `j` up to `m` has the path of position `m`. */
  predicate NewPath<H>(vs: seq<(string, H)>, g: seq<nat>, j: nat, m: nat)
    requires m < |vs|
  {
    forall q :: j <= q < m && q in g ==> vs[q].0 != vs[m].0
  }

  /** From `j` on, the candidate loop adds exactly the positions within `t`
      of `h` whose path is neither visited at the start nor that of an
      earlier added position, and `visited` gains exactly their paths. */
  lemma {:induction false} InnerExact<H>(vs: seq<(string, H)>, dist: (H, H) -> int, t: int, h: H, j: nat,
    visited: set<string>, grp: seq<nat>)
    requires forall m :: 0 <= m < |grp| ==> grp[m] < j
    ensures var r := Inner(vs, dist, t, h, j, visited, grp);
      forall m :: j <= m < |vs| ==> (m in r.0 <==> dist(h, vs[m].1) <= t && vs[m].0 !in visited && NewPath(vs, r.0, j, m))
    ensures var r := Inner(vs, dist, t, h, j, visited, grp);
      forall s :: s in r.1 <==> s in visited || exists q :: j <= q < |vs| && q in r.0 && vs[q].0 == s
    decreases |vs| - j
  {
    if j < |vs| {
      var r := Inner(vs, dist, t, h, j, visited, grp);
      if vs[j].0 in visited || dist(h, vs[j].1) > t {
        InnerExact(vs, dist, t, h, j + 1, visited, grp);
        InnerNotAt(vs, dist, t, h, j, visited, grp);
        assert forall m :: j < m < |vs| ==> (NewPath(vs, r.0, j, m) <==> NewPath(vs, r.0, j + 1, m));
      } else {
        var w, g := visited + {vs[j].0}, grp + [j];
        InnerExact(vs, dist, t, h, j + 1, w, g);
        InnerExtends(vs, dist, t, h, j + 1, w, g);
        assert r.0[|grp|] == r.0[..|g|][|grp|];
        assert j in r.0;
        assert forall m :: j < m < |vs| ==> (NewPath(vs, r.0, j, m) <==> NewPath(vs, r.0, j + 1, m) && vs[j].0 != vs[m].0);
      }
    }
  }

  /** A candidate the loop skips is not in the group it ends with. */
  lemma InnerNotAt<H>(vs: seq<(string, H)>, dist: (H, H) -> int, t: int, h: H, j: nat,
    visited: set<string>, grp: seq<nat>)
    requires j < |vs| && (vs[j].0 in visited || dist(h, vs[j].1) > t)
    requires forall m :: 0 <= m < |grp| ==> grp[m] < j
    ensures j !in Inner(vs, dist, t, h, j, visited, grp).0
  {
    InnerExtends(vs, dist, t, h, j + 1, visited, grp);
    var r := Inner(vs, dist, t, h, j + 1, visited, grp);
    forall x | 0 <= x < |r.0|
      ensures r.0[x] != j
    {
      if x < |grp| {
        assert r.0[x] == r.0[..|grp|][x];
      }
    }
  }

  /** The groups and the visited paths once the pivot loop has handled the
      positions before `n`. */
  function Reached<H>(vs: seq<(string, H)>, dist: (H, H) -> int, t: int, n: nat): (seq<seq<nat>>, set<string>)
    requires n <= |vs|
  {
    if n == 0 then ([], {})
    else
      var prev := Reached(vs, dist, t, n - 1);
      var p := n - 1;
      if vs[p].0 in prev.1 then prev
      else
        var r := Inner(vs, dist, t, vs[p].1, p + 1, prev.1 + {vs[p].0}, [p]);
        (if |r.0| > 1 then prev.0 + [r.0] else prev.0, r.1)
  }

  /** The pivot loop, started from the state `Reached` describes, ends with
      the groups of the whole input. */
  lemma {:induction false} OuterReached<H>(vs: seq<(string, H)>, dist: (H, H) -> int, t: int, i: nat)
    requires i <= |vs|
    ensures Outer(vs, dist, t, i, Reached(vs, dist, t, i).1, Reached(vs, dist, t, i).0) == Reached(vs, dist, t, |vs|).0
    decreases |vs| - i
  {
    if i < |vs| {
      OuterReached(vs, dist, t, i + 1);
    }
  }

  /** The group emitted at position `p`, if any, comes after the earlier
      ones and has `p` as its pivot. */
  lemma ReachedSnoc<H>(vs: seq<(string, H)>, dist: (H, H) -> int, t: int, n: nat)
    requires 0 < n <= |vs|
    ensures |Reached(vs, dist, t, n - 1).0| <= |Reached(vs, dist, t, n).0| <= |Reached(vs, dist, t, n - 1).0| + 1
    ensures Reached(vs, dist, t, n).0[..|Reached(vs, dist, t, n - 1).0|] == Reached(vs, dist, t, n - 1).0
    ensures forall k :: |Reached(vs, dist, t, n - 1).0| <= k < |Reached(vs, dist, t, n).0| ==>
      |Reached(vs, dist, t, n).0[k]| >= 2 && Reached(vs, dist, t, n).0[k][0] == n - 1
  {
    var prev, p := Reached(vs, dist, t, n - 1), n - 1;
    if vs[p].0 !in prev.1 {
      var r := Inner(vs, dist, t, vs[p].1, p + 1, prev.1 + {vs[p].0}, [p]);
      InnerExtends(vs, dist, t, vs[p].1, p + 1, prev.1 + {vs[p].0}, [p]);
      assert r.0[0] == r.0[..1][0];
      assert (prev.0 + [r.0])[..|prev.0|] == prev.0;
    }
  }

  /** The groups emitted before `p` come first among those emitted before
      `n`, and every later group has its pivot at `p` or after. */
  lemma {:induction false} ReachedPrefix<H>(vs: seq<(string, H)>, dist: (H, H) -> int, t: int, p: nat, n: nat)
    requires p <= n <= |vs|
    ensures |Reached(vs, dist, t, p).0| <= |Reached(vs, dist, t, n).0|
    ensures Reached(vs, dist, t, n).0[..|Reached(vs, dist, t, p).0|] == Reached(vs, dist, t, p).0
    ensures forall k :: |Reached(vs, dist, t, p).0| <= k < |Reached(vs, dist, t, n).0| ==>
      |Reached(vs, dist, t, n).0[k]| >= 2 && p <= Reached(vs, dist, t, n).0[k][0] < n
    decreases n - p
  {
    if p < n {
      ReachedPrefix(vs, dist, t, p, n - 1);
      ReachedSnoc(vs, dist, t, n);
      var a, b, c := Reached(vs, dist, t, p).0, Reached(vs, dist, t, n - 1).0, Reached(vs, dist, t, n).0;
      forall k | |a| <= k < |c|
        ensures |c[k]| >= 2 && p <= c[k][0] < n
      {
        if k < |b| {
          assert c[k] == b[k];
        }
      }
      assert c[..|a|] == b[..|a|];
    }
  }

  /** Path `s` is visited when the pivot loop reaches position `p`: it is
      the path of an earlier position or of a member of a group whose pivot
      comes before `p`. */
  predicate SeenAt<H>(vs: seq<(string, H)>, gs: seq<seq<nat>>, p: nat, s: string)
  {
    (exists q :: 0 <= q < p && q < |vs| && vs[q].0 == s) ||
    exists k, m :: 0 <= k < |gs| && 0 <= m < |gs[k]| && gs[k][0] < p && gs[k][m] < |vs| && vs[gs[k][m]].0 == s
  }

  /** Moving past position `p` adds its path to what is seen. */
  lemma SeenAtNext<H>(vs: seq<(string, H)>, gs: seq<seq<nat>>, p: nat, s: string)
    requires p < |vs| && forall k :: 0 <= k < |gs| ==> |gs[k]| >= 1 && gs[k][0] < p
    ensures SeenAt(vs, gs, p + 1, s) <==> SeenAt(vs, gs, p, s) || vs[p].0 == s
  {
  }

  /** Adding a group whose pivot is `p` adds the paths of its members. */
  lemma SeenAtEmit<H>(vs: seq<(string, H)>, gs: seq<seq<nat>>, g: seq<nat>, p: nat, s: string)
    requires |g| >= 1 && g[0] == p
    ensures SeenAt(vs, gs + [g], p + 1, s) <==>
      SeenAt(vs, gs, p + 1, s) || exists m :: 0 <= m < |g| && g[m] < |vs| && vs[g[m]].0 == s
  {
    var gs' := gs + [g];
    if exists k, m :: 0 <= k < |gs'| && 0 <= m < |gs'[k]| && gs'[k][0] < p + 1 && gs'[k][m] < |vs| && vs[gs'[k][m]].0 == s {
      var k, m :| 0 <= k < |gs'| && 0 <= m < |gs'[k]| && gs'[k][0] < p + 1 && gs'[k][m] < |vs| && vs[gs'[k][m]].0 == s;
      if k < |gs| {
        assert gs'[k] == gs[k];
      }
    }
    if exists k, m :: 0 <= k < |gs| && 0 <= m < |gs[k]| && gs[k][0] < p + 1 && gs[k][m] < |vs| && vs[gs[k][m]].0 == s {
      var k, m :| 0 <= k < |gs| && 0 <= m < |gs[k]| && gs[k][0] < p + 1 && gs[k][m] < |vs| && vs[gs[k][m]].0 == s;
      assert gs'[k] == gs[k];
    }
    if exists m :: 0 <= m < |g| && g[m] < |vs| && vs[g[m]].0 == s {
      var m :| 0 <= m < |g| && g[m] < |vs| && vs[g[m]].0 == s;
      assert gs'[|gs|] == g;
    }
  }

  /** The visited paths when the pivot loop reaches `n` are exactly those `SeenAt` `n`. */
  lemma {:induction false} ReachedSeen<H>(vs: seq<(string, H)>, dist: (H, H) -> int, t: int, n: nat)
    requires n <= |vs|
    ensures forall s :: s in Reached(vs, dist, t, n).1 <==> SeenAt(vs, Reached(vs, dist, t, n).0, n, s)
    decreases n
  {
    if n > 0 {
      ReachedSeen(vs, dist, t, n - 1);
      ReachedSeenStep(vs, dist, t, n - 1, n);
    }
  }

  /** Handling position `p` keeps visited paths and `SeenAt` in step. */
  lemma ReachedSeenStep<H>(vs: seq<(string, H)>, dist: (H, H) -> int, t: int, p: nat, n: nat)
    requires n == p + 1 <= |vs|
    requires forall s :: s in Reached(vs, dist, t, p).1 <==> SeenAt(vs, Reached(vs, dist, t, p).0, p, s)
    ensures forall s :: s in Reached(vs, dist, t, n).1 <==> SeenAt(vs, Reached(vs, dist, t, n).0, n, s)
  {
    var prev := Reached(vs, dist, t, p);
    ReachedPrefix(vs, dist, t, 0, p);
    if vs[p].0 in prev.1 {
      forall s {
        SeenAtNext(vs, prev.0, p, s);
      }
    } else {
      var w := prev.1 + {vs[p].0};
      var r := Inner(vs, dist, t, vs[p].1, p + 1, w, [p]);
      InnerExact(vs, dist, t, vs[p].1, p + 1, w, [p]);
      InnerExtends(vs, dist, t, vs[p].1, p + 1, w, [p]);
      assert r.0[0] == r.0[..1][0] == p;
      forall s
        ensures s in r.1 <==> SeenAt(vs, Reached(vs, dist, t, n).0, n, s)
      {
        SeenAtNext(vs, prev.0, p, s);
        ReachedStepSeen(vs, prev.0, r.0, p, s);
        if |r.0| > 1 {
          SeenAtEmit(vs, prev.0, r.0, p, s);
        } else {
          assert forall q :: p + 1 <= q < |vs| ==> q !in r.0;
        }
      }
    }
  }

  /** The members of a group pivoted at `p` with later members from `p + 1`
      on have the pivot's path or the path of a later member. */
  lemma ReachedStepSeen<H>(vs: seq<(string, H)>, acc: seq<seq<nat>>, g: seq<nat>, p: nat, s: string)
    requires p < |vs| && |g| >= 1 && g[0] == p && forall m :: 0 < m < |g| ==> p + 1 <= g[m] < |vs|
    ensures (exists m :: 0 <= m < |g| && g[m] < |vs| && vs[g[m]].0 == s) <==>
      vs[p].0 == s || exists q :: p + 1 <= q < |vs| && q in g && vs[q].0 == s
  {
    if exists q :: p + 1 <= q < |vs| && q in g && vs[q].0 == s {
      var q :| p + 1 <= q < |vs| && q in g && vs[q].0 == s;
      var m :| 0 <= m < |g| && g[m] == q;
    }
    if exists m :: 0 <= m < |g| && g[m] < |vs| && vs[g[m]].0 == s {
      var m :| 0 <= m < |g| && g[m] < |vs| && vs[g[m]].0 == s;
      if m > 0 {
        assert g[m] in g;
      }
    }
  }

  /** The path of position `m` is not yet visited while the group of pivot
      `p` is built: it is not the pivot's path and not `SeenAt` `p`. */
  predicate Fresh<H>(vs: seq<(string, H)>, gs: seq<seq<nat>>, p: nat, m: nat)
    requires p < |vs| && m < |vs|
  {
    vs[m].0 != vs[p].0 && !SeenAt(vs, gs, p, vs[m].0)
  }

  /** What is seen at `p` is the same in the groups emitted before `p` and
      in all the groups. */
  lemma SeenFinal<H>(vs: seq<(string, H)>, dist: (H, H) -> int, t: int, p: nat, s: string)
    requires p <= |vs|
    ensures SeenAt(vs, Reached(vs, dist, t, p).0, p, s) <==> SeenAt(vs, Reached(vs, dist, t, |vs|).0, p, s)
  {
    var before, gs := Reached(vs, dist, t, p).0, Reached(vs, dist, t, |vs|).0;
    ReachedPrefix(vs, dist, t, p, |vs|);
    ReachedPrefix(vs, dist, t, 0, p);
    if exists k, m :: 0 <= k < |gs| && 0 <= m < |gs[k]| && gs[k][0] < p && gs[k][m] < |vs| && vs[gs[k][m]].0 == s {
      var k, m :| 0 <= k < |gs| && 0 <= m < |gs[k]| && gs[k][0] < p && gs[k][m] < |vs| && vs[gs[k][m]].0 == s;
      assert k < |before|;
      assert gs[k] == before[k];
    }
    if exists k, m :: 0 <= k < |before| && 0 <= m < |before[k]| && before[k][0] < p && before[k][m] < |vs| && vs[before[k][m]].0 == s {
      var k, m :| 0 <= k < |before| && 0 <= m < |before[k]| && before[k][0] < p && before[k][m] < |vs| && vs[before[k][m]].0 == s;
      assert gs[k] == before[k];
    }
  }

  /** The group of `gs` whose pivot is `p` is the one emitted when the
      pivot loop handled `p`. */
  lemma EmittedAt<H>(vs: seq<(string, H)>, dist: (H, H) -> int, t: int, p: nat)
    requires p < |vs|
    ensures var gs, prev := Reached(vs, dist, t, |vs|).0, Reached(vs, dist, t, p);
      var r := Inner(vs, dist, t, vs[p].1, p + 1, prev.1 + {vs[p].0}, [p]);
      (IsPivot(gs, p) <==> vs[p].0 !in prev.1 && |r.0| > 1) &&
      (IsPivot(gs, p) ==> |prev.0| < |gs| && gs[|prev.0|] == r.0) &&
      forall k :: 0 <= k < |gs| && |gs[k]| >= 1 && gs[k][0] == p ==> k == |prev.0|
  {
    var gs, prev := Reached(vs, dist, t, |vs|).0, Reached(vs, dist, t, p);
    var next := Reached(vs, dist, t, p + 1).0;
    ReachedPrefix(vs, dist, t, p, |vs|);
    ReachedPrefix(vs, dist, t, p + 1, |vs|);
    ReachedPrefix(vs, dist, t, 0, p);
    ReachedSnoc(vs, dist, t, p + 1);
    if IsPivot(gs, p) {
      var k :| 0 <= k < |gs| && |gs[k]| >= 1 && gs[k][0] == p;
      assert gs[k] == next[k];
    }
    var r := Inner(vs, dist, t, vs[p].1, p + 1, prev.1 + {vs[p].0}, [p]);
    if vs[p].0 !in prev.1 && |r.0| > 1 {
      assert next == prev.0 + [r.0];
      assert gs[|prev.0|] == next[|prev.0|];
      InnerExtends(vs, dist, t, vs[p].1, p + 1, prev.1 + {vs[p].0}, [p]);
      assert r.0[0] == r.0[..1][0];
    }
  }

  /** After its pivot `p`, a group holds exactly the positions within `t`
      of the pivot whose path is `Fresh` and not that of an earlier member. */
  lemma ReachedMembers<H>(vs: seq<(string, H)>, dist: (H, H) -> int, t: int, k: nat, m: nat)
    requires var gs := Reached(vs, dist, t, |vs|).0;
      k < |gs| && |gs[k]| >= 1 && gs[k][0] < m < |vs|
    ensures var gs := Reached(vs, dist, t, |vs|).0;
      m in gs[k] <==> dist(vs[gs[k][0]].1, vs[m].1) <= t && Fresh(vs, gs, gs[k][0], m) && NewPath(vs, gs[k], gs[k][0] + 1, m)
  {
    var gs := Reached(vs, dist, t, |vs|).0;
    var p := gs[k][0];
    var prev := Reached(vs, dist, t, p);
    var w := prev.1 + {vs[p].0};
    EmittedAt(vs, dist, t, p);
    assert IsPivot(gs, p);
    InnerExact(vs, dist, t, vs[p].1, p + 1, w, [p]);
    ReachedSeen(vs, dist, t, p);
    SeenFinal(vs, dist, t, p, vs[m].0);
  }

  /** Position `p` is a pivot exactly when its path is not `SeenAt` `p` and
      some later position within `t` of it has a `Fresh` path. */
  lemma ReachedPivot<H>(vs: seq<(string, H)>, dist: (H, H) -> int, t: int, p: nat)
    requires p < |vs|
    ensures var gs := Reached(vs, dist, t, |vs|).0;
      IsPivot(gs, p) <==> !SeenAt(vs, gs, p, vs[p].0) && exists m :: p < m < |vs| && dist(vs[p].1, vs[m].1) <= t && Fresh(vs, gs, p, m)
  {
    var gs := Reached(vs, dist, t, |vs|).0;
    var prev := Reached(vs, dist, t, p);
    EmittedAt(vs, dist, t, p);
    ReachedSeen(vs, dist, t, p);
    SeenFinal(vs, dist, t, p, vs[p].0);
    PivotGrows(vs, dist, t, p);
  }

  /** The group of a pivot whose path is new grows past the pivot exactly
      when some later position within `t` of it has a `Fresh` path. */
  lemma PivotGrows<H>(vs: seq<(string, H)>, dist: (H, H) -> int, t: int, p: nat)
    requires p < |vs|
    ensures var gs, prev := Reached(vs, dist, t, |vs|).0, Reached(vs, dist, t, p);
      |Inner(vs, dist, t, vs[p].1, p + 1, prev.1 + {vs[p].0}, [p]).0| > 1 <==>
      exists m :: p < m < |vs| && dist(vs[p].1, vs[m].1) <= t && Fresh(vs, gs, p, m)
  {
    var gs := Reached(vs, dist, t, |vs|).0;
    var prev := Reached(vs, dist, t, p);
    var w := prev.1 + {vs[p].0};
    InnerGrowsPast(vs, dist, t, vs[p].1, p + 1, w, [p]);
    ReachedSeen(vs, dist, t, p);
    forall m | p < m < |vs|
      ensures vs[m].0 !in w <==> Fresh(vs, gs, p, m)
    {
      SeenFinal(vs, dist, t, p, vs[m].0);
    }
  }

  /** A one-member group grows exactly when some candidate from `j` on is
      within `t` of `h` and has an unvisited path. */
  lemma {:induction false} InnerGrowsPast<H>(vs: seq<(string, H)>, dist: (H, H) -> int, t: int, h: H, j: nat,
    visited: set<string>, grp: seq<nat>)
    requires |grp| == 1 && grp[0] < |vs|
    ensures |Inner(vs, dist, t, h, j, visited, grp).0| > 1 <==>
      exists m :: j <= m < |vs| && dist(h, vs[m].1) <= t && vs[m].0 !in visited
    decreases |vs| - j
  {
    if j < |vs| {
      if vs[j].0 in visited || dist(h, vs[j].1) > t {
        InnerGrowsPast(vs, dist, t, h, j + 1, visited, grp);
      } else {
        InnerExtends(vs, dist, t, h, j + 1, visited + {vs[j].0}, grp + [j]);
      }
    }
  }

  /** Which positions `build_groups` groups, exactly: (1) after its pivot, a
      group holds every later position within `t` of the pivot whose path is
      `Fresh` and not that of an earlier member, and no other; (2) a position
      is a pivot exactly when its path is not yet seen and some later
      position within `t` of it has a `Fresh` path. */
  lemma BuildExactly<H>(es: seq<Entry<H>>, dist: (H, H) -> int, t: int)
    ensures var gs, vs := Positions(es, dist, t), Valid(es);
      forall k, m :: 0 <= k < |gs| && |gs[k]| >= 1 && gs[k][0] < m < |vs| ==>
        (m in gs[k] <==> dist(vs[gs[k][0]].1, vs[m].1) <= t && Fresh(vs, gs, gs[k][0], m) && NewPath(vs, gs[k], gs[k][0] + 1, m))
    ensures var gs, vs := Positions(es, dist, t), Valid(es);
      forall p :: 0 <= p < |vs| ==>
        (IsPivot(gs, p) <==> !SeenAt(vs, gs, p, vs[p].0) && exists m :: p < m < |vs| && dist(vs[p].1, vs[m].1) <= t && Fresh(vs, gs, p, m))
  {
    var vs := Valid(es);
    OuterReached(vs, dist, t, 0);
    forall k, m | 0 <= k < |Positions(es, dist, t)| && |Positions(es, dist, t)[k]| >= 1 && Positions(es, dist, t)[k][0] < m < |vs| {
      ReachedMembers(vs, dist, t, k, m);
    }
    forall p | 0 <= p < |vs| {
      ReachedPivot(vs, dist, t, p);
    }
  }

  // ---------------------------------------------------------------------------
  // The method

  /** `GroupBuilder.build_groups(image_hashes, threshold)`, with `dist(a, b)`
      standing for `a - b` on two hashes. */
  method BuildGroups<H>(imageHashes: seq<Entry<H>>, dist: (H, H) -> int, threshold: int) returns (groups: seq<seq<string>>)
    ensures groups == Build(imageHashes, dist, threshold)
  {
    var valid := Valid(imageHashes);
    groups := [];
    ghost var pos: seq<seq<nat>> := [];
    var visited: set<string> := {};
    var i := 0;
    while i < |valid|
      invariant i <= |valid| && Inside(valid, pos) && groups == PathGroups(valid, pos)
      invariant Outer(valid, dist, threshold, i, visited, pos) == Positions(imageHashes, dist, threshold)
    {
      var (pathI, hashI) := valid[i];
      if pathI in visited {
        i := i + 1;
        continue;
      }
      var currentGroup := [pathI];
      ghost var cur: seq<nat> := [i];
      visited := visited + {pathI};
      ghost var start := visited;
      var j := i + 1;
      while j < |valid|
        invariant i < j <= |valid|
        invariant (forall m :: 0 <= m < |cur| ==> cur[m] < |valid|) && currentGroup == PathsAt(valid, cur)
        invariant Inner(valid, dist, threshold, hashI, j, visited, cur) == Inner(valid, dist, threshold, hashI, i + 1, start, [i])
      {
        var (pathJ, hashJ) := valid[j];
        if pathJ in visited {
          j := j + 1;
          continue;
        }
        var d := dist(hashI, hashJ);
        if d <= threshold {
          currentGroup := currentGroup + [pathJ];
          cur := cur + [j];
          visited := visited + {pathJ};
        }
        j := j + 1;
      }
      if |currentGroup| > 1 {
        groups := groups + [currentGroup];
        pos := pos + [cur];
      }
      i := i + 1;
    }
  }
}
