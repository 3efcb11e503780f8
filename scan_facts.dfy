/**
 * What `ScanWorker.run` promises about the groups it builds
 * (app/workers.py:80-141), proved about the functions of module ScanWorker
 * that its methods are proved against.
 */
module ScanFacts {
  import opened Wrappers
  import opened Models
  import opened OrderedGroups
  import opened ScanWorker
  import Hamming

  // ---------------------------------------------------------------------------
  // Exact-duplicate groups (lines 74, 80-87)

  /** The indices of the items whose SHA-256 key is `h`, in item order. */
  function ShaClass(items: seq<ResultItem>, h: string): seq<nat>
  {
    Select(ShaPairs(items), h)
  }

  /** `ShaClass` holds exactly the items with that key, in increasing order. */
  lemma ShaClassMembers(items: seq<ResultItem>, h: string)
    ensures forall k: nat :: k in ShaClass(items, h) <==> k < |items| && ShaKey(items[k]) == h
    ensures Increasing(ShaClass(items, h))
  {
    var ps := ShaPairs(items);
    SelectMembers(ps, h);
    forall k: nat
      ensures k in ShaClass(items, h) <==> k < |items| && ShaKey(items[k]) == h
    {
      if k < |items| && ShaKey(items[k]) == h {
        assert ps[k] == (h, k);
      }
    }
    assert Increasing(IdsOf(ps));
    SelectIncreasing(ps, h);
  }

  /** `m` lists every item sharing one non-empty SHA-256 key, at least two of them. */
  predicate IsShaClass(items: seq<ResultItem>, m: seq<nat>)
  {
    |m| >= 2 && m[0] < |items| && ShaKey(items[m[0]]) != "" && m == ShaClass(items, ShaKey(items[m[0]]))
  }

  /** An entry of the dictionary that has a non-empty key and more than one item has its group. */
  lemma {:induction false} ExactRefsHas(dup: seq<Bucket>, a: nat)
    requires a < |dup| && dup[a].key != "" && |dup[a].members| > 1
    ensures ExactRef(dup[a]) in ExactRefs(dup)
  {
    var n := |dup| - 1;
    if a < n {
      ExactRefsHas(dup[..n], a);
      assert dup[..n][a] == dup[a];
    }
  }

  /** Groups taken from a dictionary whose lists appear in the order of
      their first index appear in that order too. */
  lemma {:induction false} ExactRefsOrdered(dup: seq<Bucket>)
    requires Ordered(dup)
    ensures forall r :: 0 <= r < |ExactRefs(dup)| ==> |ExactRefs(dup)[r].members| > 1
    ensures forall r1, r2 :: 0 <= r1 < r2 < |ExactRefs(dup)| ==>
      ExactRefs(dup)[r1].members[0] < ExactRefs(dup)[r2].members[0]
  {
    if dup != [] {
      var n := |dup| - 1;
      var prev := ExactRefs(dup[..n]);
      var keep := dup[n].key != "" && |dup[n].members| > 1;
      assert Ordered(dup[..n]) by {
        forall a | 0 <= a < n ensures dup[..n][a] == dup[a] { }
      }
      ExactRefsOrdered(dup[..n]);
      ExactRefsFrom(dup[..n]);
      ExactRefsFrom(dup);
      forall r | 0 <= r < |ExactRefs(dup)|
        ensures |ExactRefs(dup)[r].members| > 1
      {
        assert FromEntry(dup, ExactRefs(dup)[r]);
      }
      assert ExactRefs(dup) == prev + (if keep then [ExactRef(dup[n])] else []);
      if keep {
        forall r | 0 <= r < |prev|
          ensures prev[r].members[0] < dup[n].members[0]
        {
          assert FromEntry(dup[..n], prev[r]);
          var a :| 0 <= a < n && prev[r] == ExactRef(dup[..n][a]) && dup[..n][a].key != "" && |dup[..n][a].members| > 1;
          assert dup[..n][a] == dup[a];
        }
      }
    }
  }

  /** The groups the dictionary yields. */
  function ExactGroupsOf(items: seq<ResultItem>): seq<Ref>
  {
    ExactRefs(ShaMap(items))
  }

  /** Each exact-duplicate group lists every item with one non-empty
      SHA-256 key, at least two of them, in item order. */
  lemma ExactGroupsAreClasses(items: seq<ResultItem>)
    ensures forall r :: 0 <= r < |ExactGroupsOf(items)| ==>
      IsShaClass(items, ExactGroupsOf(items)[r].members) && ExactGroupsOf(items)[r].kind == ExactKind
  {
    var ps := ShaPairs(items);
    var dup := ShaMap(items);
    var refs := ExactRefs(dup);
    GroupByContents(ps);
    ExactRefsFrom(dup);
    forall r | 0 <= r < |refs|
      ensures IsShaClass(items, refs[r].members) && refs[r].kind == ExactKind
    {
      assert FromEntry(dup, refs[r]);
      var a :| 0 <= a < |dup| && refs[r] == ExactRef(dup[a]) && dup[a].key != "" && |dup[a].members| > 1;
      var h := dup[a].key;
      ShaClassMembers(items, h);
      assert refs[r].members == ShaClass(items, h);
      assert refs[r].members[0] in ShaClass(items, h);
    }
  }

  /** Every non-empty SHA-256 key that at least two items share has its group. */
  lemma ExactGroupsComplete(items: seq<ResultItem>, k: nat)
    requires k < |items| && ShaKey(items[k]) != "" && |ShaClass(items, ShaKey(items[k]))| >= 2
    ensures exists r :: 0 <= r < |ExactGroupsOf(items)| && ExactGroupsOf(items)[r].members == ShaClass(items, ShaKey(items[k]))
  {
    var ps := ShaPairs(items);
    var dup := ShaMap(items);
    var h := ShaKey(items[k]);
    GroupByContents(ps);
    assert KeysOf(ps)[k] == h;
    assert h in Keys(dup);
    var a :| 0 <= a < |dup| && Keys(dup)[a] == h;
    assert dup == GroupBy(ps) && dup[a].key == h;
    assert dup[a].members == ShaClass(items, h);
    ExactRefsHas(dup, a);
    var r :| 0 <= r < |ExactRefs(dup)| && ExactRefs(dup)[r] == ExactRef(dup[a]);
    assert ExactGroupsOf(items)[r].members == ShaClass(items, h);
  }

  /** The groups come in the order of their first items, which is the order
      in which their keys first occur. */
  lemma ExactGroupsInOrder(items: seq<ResultItem>)
    ensures forall r :: 0 <= r < |ExactGroupsOf(items)| ==> |ExactGroupsOf(items)[r].members| > 1
    ensures forall r1, r2 :: 0 <= r1 < r2 < |ExactGroupsOf(items)| ==>
      ExactGroupsOf(items)[r1].members[0] < ExactGroupsOf(items)[r2].members[0]
  {
    assert Increasing(IdsOf(ShaPairs(items)));
    GroupByOrder(ShaPairs(items));
    ExactRefsOrdered(ShaMap(items));
  }

  /** An item without a SHA-256 digest is never in an exact group. */
  lemma EmptyShaNeverExact(items: seq<ResultItem>, k: nat)
    requires k < |items| && ShaKey(items[k]) == ""
    ensures forall r, j :: 0 <= r < |ExactGroupsOf(items)| && 0 <= j < |ExactGroupsOf(items)[r].members| ==>
      ExactGroupsOf(items)[r].members[j] != k
  {
    var refs := ExactGroupsOf(items);
    ExactGroupsAreClasses(items);
    forall r, j | 0 <= r < |refs| && 0 <= j < |refs[r].members|
      ensures refs[r].members[j] != k
    {
      var m := refs[r].members;
      assert IsShaClass(items, m);
      ShaClassMembers(items, ShaKey(items[m[0]]));
      assert m[j] in ShaClass(items, ShaKey(items[m[0]]));
    }
  }

  // ---------------------------------------------------------------------------
  // The items outside every exact group (line 89)

  /** No two items share a path, as no two walked files do. */
  predicate DistinctPaths(items: seq<ResultItem>)
  {
    forall a, b :: 0 <= a < |items| && 0 <= b < |items| && a != b ==> items[a].path != items[b].path
  }

  /** Item `k` is a member of one of the groups. */
  predicate Grouped(refs: seq<Ref>, k: nat)
  {
    exists r, j :: 0 <= r < |refs| && 0 <= j < |refs[r].members| && refs[r].members[j] == k
  }

  /** `unique_items` keeps the items not found in any group by `==`. */
  lemma {:induction false} UniqueIdsMembers(items: seq<ResultItem>, refs: seq<Ref>, n: nat)
    requires n <= |items|
    ensures forall k: nat :: k in UniqueIds(items, refs, n) <==> k < n && !InSomeGroup(items, refs, items[k])
  {
    if n > 0 {
      UniqueIdsMembers(items, refs, n - 1);
    }
  }

  /** When paths are distinct, finding an item in a group by `==` is finding its index there. */
  lemma InSomeGroupByIndex(items: seq<ResultItem>, refs: seq<Ref>, k: nat)
    requires DistinctPaths(items) && RefsBelow(refs, |items|) && k < |items|
    ensures InSomeGroup(items, refs, items[k]) <==> Grouped(refs, k)
  {
    if InSomeGroup(items, refs, items[k]) {
      var r, j :| 0 <= r < |refs| && 0 <= j < |refs[r].members| &&
        refs[r].members[j] < |items| && items[refs[r].members[j]] == items[k];
      assert refs[r].members[j] == k;
    }
    if Grouped(refs, k) {
      var r, j :| 0 <= r < |refs| && 0 <= j < |refs[r].members| && refs[r].members[j] == k;
      assert items[refs[r].members[j]] == items[k];
    }
  }

  /** An item is in an exact group exactly when its SHA-256 key is non-empty
      and shared with another item. */
  lemma GroupedExactly(items: seq<ResultItem>, k: nat)
    requires k < |items|
    ensures Grouped(ExactGroupsOf(items), k) <==>
      ShaKey(items[k]) != "" && |ShaClass(items, ShaKey(items[k]))| >= 2
  {
    var refs := ExactGroupsOf(items);
    var h := ShaKey(items[k]);
    ShaClassMembers(items, h);
    if Grouped(refs, k) {
      var r, j :| 0 <= r < |refs| && 0 <= j < |refs[r].members| && refs[r].members[j] == k;
      ExactGroupsAreClasses(items);
      var m := refs[r].members;
      assert IsShaClass(items, m);
      ShaClassMembers(items, ShaKey(items[m[0]]));
      assert m[j] in ShaClass(items, ShaKey(items[m[0]]));
    }
    if h != "" && |ShaClass(items, h)| >= 2 {
      ExactGroupsComplete(items, k);
      var r :| 0 <= r < |refs| && refs[r].members == ShaClass(items, h);
      assert k in refs[r].members;
      var j :| 0 <= j < |refs[r].members| && refs[r].members[j] == k;
    }
  }

  /** The near-duplicate candidates: with distinct paths, an item stays
      outside every exact group exactly when it has no SHA-256 key or no
      other item shares its key. */
  lemma UniqueExactly(files: seq<Probe>)
    requires DistinctPaths(Items(files))
    ensures forall k: nat :: k in UniqueOf(files) <==>
      k < |Items(files)| && (ShaKey(Items(files)[k]) == "" || |ShaClass(Items(files), ShaKey(Items(files)[k]))| < 2)
  {
    var items := Items(files);
    var refs := ExactOf(files);
    var after := AfterExact(files);
    assert refs == ExactGroupsOf(items);
    MarkAllKeepsFields(items, refs);
    assert DistinctPaths(after) by {
      forall a, b | 0 <= a < |after| && 0 <= b < |after| && a != b
        ensures after[a].path != after[b].path
      {
        assert after[a].path == items[a].path && after[b].path == items[b].path;
      }
    }
    UniqueIdsMembers(after, refs, |items|);
    forall k: nat
      ensures k in UniqueOf(files) <==>
        k < |items| && (ShaKey(items[k]) == "" || |ShaClass(items, ShaKey(items[k]))| < 2)
    {
      if k < |items| {
        InSomeGroupByIndex(after, refs, k);
        GroupedExactly(items, k);
      }
    }
  }

  // ---------------------------------------------------------------------------
  // Prefix buckets (lines 111-115)

  /** The pairs filed are the items of `ids` with a non-empty hash, under the hash's first four characters. */
  lemma {:induction false} BucketPairsMembers(items: seq<ResultItem>, ids: seq<nat>, key: string, id: nat)
    requires IdsBelow(ids, |items|)
    ensures (key, id) in BucketPairs(items, ids) <==>
      id in ids && PhashOf(items[id]) != "" && key == Take(PhashOf(items[id]), 4)
  {
    if ids != [] {
      var n := |ids| - 1;
      assert IdsBelow(ids[..n], |items|);
      BucketPairsMembers(items, ids[..n], key, id);
      assert ids == ids[..n] + [ids[n]];
    }
  }

  /** Item `id` of `ids` belongs under `key`: it has a non-empty hash starting with `key`. */
  predicate FiledUnder(items: seq<ResultItem>, ids: seq<nat>, key: string, id: nat)
  {
    id in ids && id < |items| && PhashOf(items[id]) != "" && Take(PhashOf(items[id]), 4) == key
  }

  /** Under each key of the dictionary `buckets` stand exactly the items filed under it. */
  lemma BucketsOfIdsMembers(items: seq<ResultItem>, ids: seq<nat>, a: nat, id: nat)
    requires IdsBelow(ids, |items|) && a < |GroupBy(BucketPairs(items, ids))|
    ensures id in GroupBy(BucketPairs(items, ids))[a].members <==>
      FiledUnder(items, ids, GroupBy(BucketPairs(items, ids))[a].key, id)
  {
    var ps := BucketPairs(items, ids);
    var b := GroupBy(ps);
    GroupByContents(ps);
    SelectMembers(ps, b[a].key);
    BucketPairsMembers(items, ids, b[a].key, id);
  }

  /** Every item filed under a key finds that key in the dictionary. */
  lemma BucketsOfIdsKeys(items: seq<ResultItem>, ids: seq<nat>, key: string, id: nat)
    requires IdsBelow(ids, |items|) && FiledUnder(items, ids, key, id)
    ensures key in Keys(GroupBy(BucketPairs(items, ids)))
  {
    var ps := BucketPairs(items, ids);
    BucketPairsMembers(items, ids, key, id);
    var i :| 0 <= i < |ps| && ps[i] == (key, id);
    assert KeysOf(ps)[i] == key;
    GroupByContents(ps);
  }

  /** Unique item `id` has a non-empty measured hash starting with `key`. */
  predicate Candidate(files: seq<Probe>, key: string, id: nat)
  {
    id in UniqueOf(files) && id < |Measurements(files)| && Measurements(files)[id].phash != "" &&
    Take(Measurements(files)[id].phash, 4) == key
  }

  lemma CandidateFiled(files: seq<Probe>, key: string, id: nat)
    ensures FiledUnder(AfterPhash(files), UniqueOf(files), key, id) <==> Candidate(files, key, id)
  {
    if id in UniqueOf(files) {
      assert id < |Measurements(files)| && PhashOf(AfterPhash(files)[id]) == Measurements(files)[id].phash;
    }
  }

  /** The buckets hold exactly the unique items that have a non-empty
      perceptual hash, each under the first four characters of that hash
      taken as they are (no case folding), every key once, and members in
      item order; every such item has its bucket. */
  lemma BucketsExactly(files: seq<Probe>)
    ensures NoDup(Keys(BucketsOf(files)))
    ensures forall a :: 0 <= a < |BucketsOf(files)| ==> Increasing(BucketsOf(files)[a].members)
    ensures forall a: nat, id: nat :: a < |BucketsOf(files)| ==>
      (id in BucketsOf(files)[a].members <==> Candidate(files, BucketsOf(files)[a].key, id))
    ensures forall key, id: nat :: Candidate(files, key, id) ==> key in Keys(BucketsOf(files))
  {
    var items := AfterPhash(files);
    var unique := UniqueOf(files);
    var ps := BucketPairs(items, unique);
    var b := BucketsOf(files);
    assert b == GroupBy(ps);
    GroupByContents(ps);
    GroupByOrder(ps);
    forall a: nat, id: nat | a < |b|
      ensures id in b[a].members <==> Candidate(files, b[a].key, id)
    {
      BucketsOfIdsMembers(items, unique, a, id);
      CandidateFiled(files, b[a].key, id);
    }
    forall key, id: nat | Candidate(files, key, id)
      ensures key in Keys(b)
    {
      CandidateFiled(files, key, id);
      BucketsOfIdsKeys(items, unique, key, id);
    }
  }

  // ---------------------------------------------------------------------------
  // Near-duplicate groups (lines 117-138)

  /** A near group of bucket `b`: at least two of its items, in bucket
      order; the first (the pivot) has a perceptual hash and every other
      member has one within `t` of the pivot's. Members need not be within
      `t` of each other. */
  predicate NearOk(items: seq<ResultItem>, b: Bucket, t: int, m: seq<nat>)
    requires IdsBelow(b.members, |items|)
  {
    |m| >= 2 && (forall j :: 0 <= j < |m| ==> m[j] in b.members) &&
    (Increasing(b.members) ==> Increasing(m)) &&
    PhashOf(items[m[0]]) != "" &&
    forall j :: 0 < j < |m| ==>
      PhashOf(items[m[j]]) != "" && Hamming.Distance(PhashOf(items[m[0]]), PhashOf(items[m[j]])) <= t
  }

  lemma NearRefOk(items: seq<ResultItem>, b: Bucket, t: int, g: seq<nat>)
    requires IdsBelow(b.members, |items|)
    requires GroupOk(Hashes(items, b.members), Hamming.Distance, t, g)
    ensures NearOk(items, b, t, NearRef(b, g).members)
  {
    var m := NearRef(b, g).members;
    assert forall j :: 0 <= j < |m| ==> m[j] == b.members[g[j]];
    if Increasing(b.members) {
      assert forall j1, j2 :: 0 <= j1 < j2 < |m| ==> g[j1] < g[j2];
    }
  }

  /** The near groups of one bucket: each is `NearOk` and carries the
      bucket's label and score 1.0; the pivots increase, and no pivot is
      a non-pivot member of an earlier group. Completeness as in
      `NearGroupsExactly`: a group holds every later item `Close` to its
      pivot, and every item that could start a group does. */
  lemma NearGroupsShape(items: seq<ResultItem>, b: Bucket, t: int)
    requires |b.members| >= 2 && IdsBelow(b.members, |items|) && Increasing(b.members)
    ensures forall r :: 0 <= r < |BucketRefs(items, b, t)| ==>
      NearOk(items, b, t, BucketRefs(items, b, t)[r].members) &&
      BucketRefs(items, b, t)[r].kind == NearKind &&
      BucketRefs(items, b, t)[r].title == "pHash " + b.key &&
      BucketRefs(items, b, t)[r].score == Some(1.0)
    ensures forall r1, r2 :: 0 <= r1 < r2 < |BucketRefs(items, b, t)| ==>
      BucketRefs(items, b, t)[r1].members[0] < BucketRefs(items, b, t)[r2].members[0]
    ensures forall r1, r2, j :: 0 <= r1 < r2 < |BucketRefs(items, b, t)| && 0 < j < |BucketRefs(items, b, t)[r1].members| ==>
      BucketRefs(items, b, t)[r1].members[j] != BucketRefs(items, b, t)[r2].members[0]
    ensures var refs, ms := BucketRefs(items, b, t), b.members;
      forall r, y :: 0 <= r < |refs| && |refs[r].members| >= 1 && 0 <= y < |ms| && refs[r].members[0] < ms[y] ==>
        (ms[y] in refs[r].members <==> Close(items, t, refs[r].members[0], ms[y]))
    ensures var refs, ms := BucketRefs(items, b, t), b.members;
      forall y :: 0 <= y < |ms| ==>
        (NearPivot(refs, ms[y]) <==> PhashOf(items[ms[y]]) != "" && !NearCovered(refs, ms[y]) && NearPartner(items, b, t, y))
  {
    NearGroupsExactly(items, b, t);
    var hs := Hashes(items, b.members);
    var gs := GreedyGroups(hs, Hamming.Distance, t);
    var refs := BucketRefs(items, b, t);
    GreedyGroupsEmitted(hs, Hamming.Distance, t);
    assert refs == RefsOf(b, gs);
    forall r | 0 <= r < |refs|
      ensures NearOk(items, b, t, refs[r].members)
    {
      assert GroupOk(hs, Hamming.Distance, t, gs[r]);
      NearRefOk(items, b, t, gs[r]);
    }
    forall r1, r2 | 0 <= r1 < r2 < |refs|
      ensures refs[r1].members[0] < refs[r2].members[0]
    {
      assert GroupOk(hs, Hamming.Distance, t, gs[r1]) && GroupOk(hs, Hamming.Distance, t, gs[r2]);
      assert gs[r1][0] < gs[r2][0];
    }
    forall r1, r2, j | 0 <= r1 < r2 < |refs| && 0 < j < |refs[r1].members|
      ensures refs[r1].members[j] != refs[r2].members[0]
    {
      assert GroupOk(hs, Hamming.Distance, t, gs[r1]) && GroupOk(hs, Hamming.Distance, t, gs[r2]);
      assert gs[r1][j] != gs[r2][0];
      assert refs[r1].members[j] == b.members[gs[r1][j]];
      assert refs[r2].members[0] == b.members[gs[r2][0]];
    }
  }

  /** Item `z` has a perceptual hash within `t` of item `x`'s. */
  predicate Close(items: seq<ResultItem>, t: int, x: nat, z: nat)
    requires x < |items| && z < |items|
  {
    PhashOf(items[z]) != "" && Hamming.Distance(PhashOf(items[x]), PhashOf(items[z])) <= t
  }

  /** Item `x` is the pivot of one of the groups `refs`. */
  predicate NearPivot(refs: seq<Ref>, x: nat)
  {
    exists r :: 0 <= r < |refs| && |refs[r].members| >= 1 && refs[r].members[0] == x
  }

  /** Item `x` is a later member of one of the groups `refs` whose pivot comes before it. */
  predicate NearCovered(refs: seq<Ref>, x: nat)
  {
    exists r, j :: 0 <= r < |refs| && 0 < j < |refs[r].members| && refs[r].members[0] < x && refs[r].members[j] == x
  }

  /** Some item after position `y` of the bucket is `Close` to the item at `y`. */
  predicate NearPartner(items: seq<ResultItem>, b: Bucket, t: int, y: nat)
    requires IdsBelow(b.members, |items|) && y < |b.members|
  {
    exists z :: y < z < |b.members| && Close(items, t, b.members[y], b.members[z])
  }

  /** The near groups of a bucket are its greedy groups, read as item indices. */
  lemma BucketRefsAt(items: seq<ResultItem>, b: Bucket, t: int)
    requires |b.members| >= 2 && IdsBelow(b.members, |items|)
    ensures var gs := GreedyGroups(Hashes(items, b.members), Hamming.Distance, t);
      InRange(gs, |b.members|) && |BucketRefs(items, b, t)| == |gs| &&
      forall r :: 0 <= r < |gs| ==> BucketRefs(items, b, t)[r].members == At(b.members, gs[r])
  {
    GreedyInRange(Hashes(items, b.members), Hamming.Distance, t, 0, {}, []);
  }

  /** Which items a bucket's near groups hold, exactly: (1) after its pivot,
      a group holds every later item of the bucket that is `Close` to the
      pivot, and no other; (2) an item of the bucket is a pivot exactly when
      it has a perceptual hash, is no later member of a group with an earlier
      pivot, and some later item of the bucket is `Close` to it. */
  lemma NearGroupsExactly(items: seq<ResultItem>, b: Bucket, t: int)
    requires |b.members| >= 2 && IdsBelow(b.members, |items|) && Increasing(b.members)
    ensures var refs := BucketRefs(items, b, t);
      forall r :: 0 <= r < |refs| ==> |refs[r].members| >= 2
    ensures var refs, ms := BucketRefs(items, b, t), b.members;
      forall r, y :: 0 <= r < |refs| && |refs[r].members| >= 1 && 0 <= y < |ms| && refs[r].members[0] < ms[y] ==>
        (ms[y] in refs[r].members <==> Close(items, t, refs[r].members[0], ms[y]))
    ensures var refs, ms := BucketRefs(items, b, t), b.members;
      forall y :: 0 <= y < |ms| ==>
        (NearPivot(refs, ms[y]) <==> PhashOf(items[ms[y]]) != "" && !NearCovered(refs, ms[y]) && NearPartner(items, b, t, y))
  {
    var refs := BucketRefs(items, b, t);
    BucketRefsAt(items, b, t);
    forall r, y | 0 <= r < |refs| && |refs[r].members| >= 1 && 0 <= y < |b.members| && refs[r].members[0] < b.members[y]
      ensures b.members[y] in refs[r].members <==> Close(items, t, refs[r].members[0], b.members[y])
    {
      NearMemberAt(items, b, t, r, y);
    }
    forall y | 0 <= y < |b.members|
      ensures NearPivot(refs, b.members[y]) <==> PhashOf(items[b.members[y]]) != "" && !NearCovered(refs, b.members[y]) && NearPartner(items, b, t, y)
    {
      var hs := Hashes(items, b.members);
      GreedyGroupsExactly(hs, Hamming.Distance, t);
      NearPivotIs(items, b, t, y);
      NearCoveredIs(items, b, t, y);
      NearPartnerIs(items, b, t, y);
    }
  }

  /** Item `ms[y]` after the pivot of group `r` belongs to it exactly when
      bucket position `y` belongs to the matching greedy group. */
  lemma NearMemberAt(items: seq<ResultItem>, b: Bucket, t: int, r: nat, y: nat)
    requires |b.members| >= 2 && IdsBelow(b.members, |items|) && Increasing(b.members) && y < |b.members|
    requires r < |BucketRefs(items, b, t)| && |BucketRefs(items, b, t)[r].members| >= 1
    requires BucketRefs(items, b, t)[r].members[0] < b.members[y]
    ensures b.members[y] in BucketRefs(items, b, t)[r].members <==> Close(items, t, BucketRefs(items, b, t)[r].members[0], b.members[y])
  {
    var hs := Hashes(items, b.members);
    var gs := GreedyGroups(hs, Hamming.Distance, t);
    BucketRefsAt(items, b, t);
    GreedyGroupsExactly(hs, Hamming.Distance, t);
    var g := gs[r];
    IncreasingAt(b.members, g[0], y);
    AtHas(b.members, g, y);
  }

  lemma NearPivotIs(items: seq<ResultItem>, b: Bucket, t: int, y: nat)
    requires |b.members| >= 2 && IdsBelow(b.members, |items|) && Increasing(b.members) && y < |b.members|
    ensures NearPivot(BucketRefs(items, b, t), b.members[y]) <==> IsPivot(GreedyGroups(Hashes(items, b.members), Hamming.Distance, t), y)
  {
    var refs, gs := BucketRefs(items, b, t), GreedyGroups(Hashes(items, b.members), Hamming.Distance, t);
    BucketRefsAt(items, b, t);
    if NearPivot(refs, b.members[y]) {
      var r :| 0 <= r < |refs| && |refs[r].members| >= 1 && refs[r].members[0] == b.members[y];
      IncreasingAt(b.members, gs[r][0], y);
    }
    if IsPivot(gs, y) {
      var k :| 0 <= k < |gs| && |gs[k]| >= 1 && gs[k][0] == y;
      assert refs[k].members[0] == b.members[y];
    }
  }

  lemma NearCoveredIs(items: seq<ResultItem>, b: Bucket, t: int, y: nat)
    requires |b.members| >= 2 && IdsBelow(b.members, |items|) && Increasing(b.members) && y < |b.members|
    ensures NearCovered(BucketRefs(items, b, t), b.members[y]) <==> CoveredEarlier(GreedyGroups(Hashes(items, b.members), Hamming.Distance, t), y)
  {
    var refs, gs := BucketRefs(items, b, t), GreedyGroups(Hashes(items, b.members), Hamming.Distance, t);
    BucketRefsAt(items, b, t);
    if NearCovered(refs, b.members[y]) {
      var r, j :| 0 <= r < |refs| && 0 < j < |refs[r].members| && refs[r].members[0] < b.members[y] && refs[r].members[j] == b.members[y];
      IncreasingAt(b.members, gs[r][0], y);
      IncreasingAt(b.members, gs[r][j], y);
    }
    if CoveredEarlier(gs, y) {
      var k, m :| 0 <= k < |gs| && 0 < m < |gs[k]| && gs[k][0] < y && gs[k][m] == y;
      IncreasingAt(b.members, gs[k][0], y);
      assert refs[k].members[m] == b.members[y];
    }
  }

  lemma NearPartnerIs(items: seq<ResultItem>, b: Bucket, t: int, y: nat)
    requires |b.members| >= 2 && IdsBelow(b.members, |items|) && y < |b.members|
    ensures NearPartner(items, b, t, y) <==> HasJoiner(Hashes(items, b.members), Hamming.Distance, t, y)
  {
    var hs := Hashes(items, b.members);
    if NearPartner(items, b, t, y) {
      var z :| y < z < |b.members| && Close(items, t, b.members[y], b.members[z]);
      assert Joins(hs, Hamming.Distance, t, y, z);
    }
    if HasJoiner(hs, Hamming.Distance, t, y) {
      var m :| y < m < |hs| && Joins(hs, Hamming.Distance, t, y, m);
      assert Close(items, t, b.members[y], b.members[m]);
    }
  }

  /** In an increasing sequence, order and equality of entries follow the
      order and equality of their positions. */
  lemma IncreasingAt(s: seq<nat>, a: nat, c: nat)
    requires Increasing(s) && a < |s| && c < |s|
    ensures s[a] < s[c] <==> a < c
    ensures s[a] == s[c] <==> a == c
  {
  }

  /** An entry of an increasing sequence is among those at positions `g`
      exactly when its position is in `g`. */
  lemma AtHas(ids: seq<nat>, g: seq<nat>, y: nat)
    requires Increasing(ids) && y < |ids| && forall j :: 0 <= j < |g| ==> g[j] < |ids|
    ensures ids[y] in At(ids, g) <==> y in g
  {
    var r := At(ids, g);
    if ids[y] in r {
      var j :| 0 <= j < |r| && r[j] == ids[y];
      IncreasingAt(ids, g[j], y);
    }
    if y in g {
      var j :| 0 <= j < |g| && g[j] == y;
      assert r[j] == ids[y];
    }
  }

  /** Three hashes where the second is too far from the first but both are
      close to the third: the groups [0, 2] and [1, 2]. */
  lemma {:induction false} ThreeHashes(hs: seq<string>, t: int)
    requires |hs| == 3
    requires hs[0] != "" && hs[1] != ""
    requires !Joins(hs, Hamming.Distance, t, 0, 1) && Joins(hs, Hamming.Distance, t, 0, 2) && Joins(hs, Hamming.Distance, t, 1, 2)
    ensures GreedyGroups(hs, Hamming.Distance, t) == [[0, 2], [1, 2]]
  {
    assert Collect(hs, Hamming.Distance, t, 0, 3, [0, 2], {2}) == ([0, 2], {2});
    assert [0] + [2] == [0, 2] && {} + {2} == {2};
    assert Collect(hs, Hamming.Distance, t, 0, 2, [0], {}) == ([0, 2], {2});
    assert Collect(hs, Hamming.Distance, t, 0, 1, [0], {}) == ([0, 2], {2});
    assert Collect(hs, Hamming.Distance, t, 1, 3, [1, 2], {2}) == ([1, 2], {2});
    assert [1] + [2] == [1, 2] && {2} + {2} == {2};
    assert Collect(hs, Hamming.Distance, t, 1, 2, [1], {2}) == ([1, 2], {2});
    assert Greedy(hs, Hamming.Distance, t, 2, {2}, [[0, 2], [1, 2]]) == [[0, 2], [1, 2]];
    assert [[0, 2]] + [[1, 2]] == [[0, 2], [1, 2]];
    assert Greedy(hs, Hamming.Distance, t, 1, {2}, [[0, 2]]) == Greedy(hs, Hamming.Distance, t, 2, {2}, [[0, 2], [1, 2]]);
    var none: set<nat> := {};
    var start: seq<seq<nat>> := [];
    assert start + [[0, 2]] == [[0, 2]];
    assert Greedy(hs, Hamming.Distance, t, 0, none, start) == Greedy(hs, Hamming.Distance, t, 1, {2}, [[0, 2]]);
  }

  /** Visited positions still join later groups: with threshold 1 the
      hashes "0", "3", "1" give the groups [0, 2] and [1, 2], and position
      2 is in both (line 133 records it in `visited`, but line 128 never
      consults `visited`). */
  lemma NearGroupsMayOverlap()
    ensures GreedyGroups(["0", "3", "1"], Hamming.Distance, 1) == [[0, 2], [1, 2]]
  {
    var hs := ["0", "3", "1"];
    Hamming.SampleDistances();
    assert hs[0] == "0" && hs[1] == "3" && hs[2] == "1";
    ThreeHashes(hs, 1);
  }

  // ---------------------------------------------------------------------------
  // Keep choice and similarity marks (lines 84-86, 135-137)

  /** The last group holding item `k`, or -1 when none does. */
  function LastGroupOf(refs: seq<Ref>, k: nat): (r: int)
    ensures -1 <= r < |refs|
    ensures r >= 0 ==> k in refs[r].members
    ensures forall r' :: r < r' < |refs| ==> k !in refs[r'].members
  {
    if refs == [] then -1
    else if k in refs[|refs| - 1].members then |refs| - 1
    else LastGroupOf(refs[..|refs| - 1], k)
  }

  /** Marks never change what the keep choice looks at. */
  lemma KeepOfIgnoresMarks(a: seq<ResultItem>, b: seq<ResultItem>, ids: seq<nat>)
    requires SameButMarks(a, b) && |ids| > 0 && IdsBelow(ids, |a|)
    ensures KeepOf(a, ids) == KeepOf(b, ids)
  {
    assert RankKeys(a, ids) == RankKeys(b, ids);
  }

  /** After every group has marked its members, an item's similarity is the
      one the last group holding it gave it: None when it is that group's
      keep item, 1.0 otherwise; an item in no group keeps its own. The keep
      item is the one `max` picks over the unmarked items. */
  lemma {:induction false} MarkAllSimilarity(items: seq<ResultItem>, refs: seq<Ref>, k: nat)
    requires RefsBelow(refs, |items|) && k < |items|
    ensures LastGroupOf(refs, k) < 0 ==> MarkAll(items, refs)[k].similarity == items[k].similarity
    ensures LastGroupOf(refs, k) >= 0 ==>
      MarkAll(items, refs)[k].similarity == MarkOf(k, KeepOf(items, refs[LastGroupOf(refs, k)].members))
  {
    if refs != [] {
      var n := |refs| - 1;
      var prev := refs[..n];
      assert RefsBelow(prev, |items|);
      var before := MarkAll(items, prev);
      MarkAllKeepsFields(items, prev);
      MarkAllSimilarity(items, prev, k);
      if k in refs[n].members {
        KeepOfIgnoresMarks(items, before, refs[n].members);
      } else {
        assert LastGroupOf(refs, k) == LastGroupOf(prev, k);
        if LastGroupOf(prev, k) >= 0 {
          assert prev[LastGroupOf(prev, k)] == refs[LastGroupOf(refs, k)];
        }
      }
    }
  }

  /** An item in exactly one group ends with that group's mark: None when
      it is the first item with the greatest (pixels, size), 1.0 otherwise. */
  lemma SingleGroupMark(items: seq<ResultItem>, refs: seq<Ref>, k: nat, r: nat)
    requires RefsBelow(refs, |items|) && k < |items| && r < |refs| && k in refs[r].members
    requires forall r' :: 0 <= r' < |refs| && r' != r ==> k !in refs[r'].members
    ensures MarkAll(items, refs)[k].similarity == if k == KeepOf(items, refs[r].members) then None else Some(1.0)
  {
    MarkAllSimilarity(items, refs, k);
  }

  // ---------------------------------------------------------------------------
  // Progress (lines 78, 109, 141, 150, 153)

  predicate NonDecreasing(s: seq<int>)
  {
    forall i, j :: 0 <= i < j < |s| ==> s[i] <= s[j]
  }

  predicate Within(s: seq<int>, lo: int, hi: int)
  {
    forall i :: 0 <= i < |s| ==> lo <= s[i] <= hi
  }

  lemma ConcatSorted(a: seq<int>, b: seq<int>, lo: int, mid: int, hi: int)
    requires lo <= mid <= hi
    requires NonDecreasing(a) && NonDecreasing(b) && Within(a, lo, mid) && Within(b, mid, hi)
    ensures NonDecreasing(a + b) && Within(a + b, lo, hi)
  {
    forall i, j | 0 <= i < j < |a + b|
      ensures (a + b)[i] <= (a + b)[j]
    {
      if j >= |a| && i < |a| {
        assert (a + b)[i] == a[i] <= mid <= b[j - |a|] == (a + b)[j];
      }
    }
  }

  /** The first loop reports non-decreasing values in [0, 20]. */
  lemma {:induction false} CollectProgressBand(files: seq<Probe>, n: nat)
    requires 0 < |files| && n <= |files|
    ensures NonDecreasing(CollectProgress(files, n)) && Within(CollectProgress(files, n), 0, Percent(0, 20, n, |files|))
  {
    if n > 0 {
      CollectProgressBand(files, n - 1);
      PercentMonotone(0, 20, n - 1, n, |files|);
    }
  }

  /** The hash loop reports non-decreasing values in [20, 55]. */
  lemma {:induction false} PhashProgressBand(total2: nat, n: nat)
    requires 1 <= total2 && n <= total2
    ensures NonDecreasing(PhashProgress(total2, n)) && Within(PhashProgress(total2, n), 20, Percent(20, 35, n, total2))
  {
    if n > 0 {
      PhashProgressBand(total2, n - 1);
      PercentMonotone(20, 35, n - 1, n, total2);
    }
  }

  /** The bucket loop reports non-decreasing values in [55, 90]. */
  lemma {:induction false} NearProgressBand(buckets: seq<Bucket>, totalB: nat, n: nat)
    requires 1 <= totalB && n <= |buckets| && n <= totalB
    ensures NonDecreasing(NearProgress(buckets, totalB, n)) && Within(NearProgress(buckets, totalB, n), 55, Percent(55, 35, n, totalB))
  {
    if n > 0 {
      NearProgressBand(buckets, totalB, n - 1);
      PercentMonotone(55, 35, n - 1, n, totalB);
    }
  }

  lemma {:induction false} FinalProgressBand(k: nat)
    ensures Within(FinalProgress(k), 95, 95)
  {
    if k > 0 {
      FinalProgressBand(k - 1);
    }
  }

  /** The progress values of a scan never decrease, stay within [0, 100],
      and end with 100 whenever there was a file. */
  lemma ScanProgress(files: seq<Probe>, t: int)
    ensures NonDecreasing(Scan(files, t).progress) && Within(Scan(files, t).progress, 0, 100)
    ensures files != [] ==> Scan(files, t).progress[|Scan(files, t).progress| - 1] == 100
  {
    if files != [] {
      var unique := UniqueOf(files);
      var buckets := BucketsOf(files);
      var refs := ExactOf(files) + NearOf(files, t);
      var p1 := CollectProgress(files, |files|);
      var p2 := PhashProgress(Max1(|unique|), |unique|);
      var p3 := NearProgress(buckets, Max1(|buckets|), |buckets|);
      var p4 := FinalProgress(|refs|);
      assert Scan(files, t).progress == p1 + p2 + p3 + p4 + [100];
      CollectProgressBand(files, |files|);
      PhashProgressBand(Max1(|unique|), |unique|);
      NearProgressBand(buckets, Max1(|buckets|), |buckets|);
      FinalProgressBand(|refs|);
      ConcatSorted(p1, p2, 0, 20, 55);
      ConcatSorted(p1 + p2, p3, 0, 55, 90);
      ConcatSorted(p1 + p2 + p3, p4, 0, 95, 95);
      ConcatSorted(p1 + p2 + p3 + p4, [100], 0, 100, 100);
    }
  }
}
