/**
 * A Python dictionary of lists filled with `d.setdefault(key, []).append(x)`
 * (or `defaultdict(list)`): keys keep the order of their first insertion and
 * each list keeps the order of its appends. Entries are item indices.
 */
module OrderedGroups {

  /** One dictionary entry: a key and the indices appended under it. */
  datatype Bucket = Bucket(key: string, members: seq<nat>)

  /** The keys of the dictionary, in iteration order. */
  function Keys(m: seq<Bucket>): (ks: seq<string>)
    ensures |ks| == |m|
    ensures forall i :: 0 <= i < |m| ==> ks[i] == m[i].key
  {
    if m == [] then [] else [m[0].key] + Keys(m[1..])
  }

  /** The list stored under `key`, or [] when the key is absent. */
  function Find(m: seq<Bucket>, key: string): seq<nat>
  {
    if m == [] then [] else if m[0].key == key then m[0].members else Find(m[1..], key)
  }

  /** `d.setdefault(key, []).append(id)` */
  function Insert(m: seq<Bucket>, key: string, id: nat): (m': seq<Bucket>)
    ensures |m'| >= |m|
  {
    if m == [] then [Bucket(key, [id])]
    else if m[0].key == key then [m[0].(members := m[0].members + [id])] + m[1..]
    else [m[0]] + Insert(m[1..], key, id)
  }

  /** No key occurs twice. */
  predicate NoDup(s: seq<string>)
  {
    forall i, j :: 0 <= i < j < |s| ==> s[i] != s[j]
  }

  /** The keys of a sequence of (key, index) pairs, in order. */
  function KeysOf(ps: seq<(string, nat)>): (ks: seq<string>)
    ensures |ks| == |ps|
    ensures forall i :: 0 <= i < |ps| ==> ks[i] == ps[i].0
  {
    if ps == [] then [] else KeysOf(ps[..|ps| - 1]) + [ps[|ps| - 1].0]
  }

  /** The distinct elements of `s`, in order of first occurrence. */
  function Distinct(s: seq<string>): seq<string>
  {
    if s == [] then []
    else
      var d := Distinct(s[..|s| - 1]);
      if s[|s| - 1] in d then d else d + [s[|s| - 1]]
  }

  /** The indices filed under `key`, in order. */
  function Select(ps: seq<(string, nat)>, key: string): seq<nat>
  {
    if ps == [] then []
    else Select(ps[..|ps| - 1], key) + (if ps[|ps| - 1].0 == key then [ps[|ps| - 1].1] else [])
  }

  /** The dictionary that appending every pair in turn builds. */
  function GroupBy(ps: seq<(string, nat)>): seq<Bucket>
  {
    if ps == [] then [] else Insert(GroupBy(ps[..|ps| - 1]), ps[|ps| - 1].0, ps[|ps| - 1].1)
  }

  lemma {:induction false} InsertKeys(m: seq<Bucket>, key: string, id: nat)
    ensures Keys(Insert(m, key, id)) == if key in Keys(m) then Keys(m) else Keys(m) + [key]
  {
    if m != [] && m[0].key != key {
      InsertKeys(m[1..], key, id);
      assert Keys(m) == [m[0].key] + Keys(m[1..]);
      assert key in Keys(m) <==> key in Keys(m[1..]);
    }
  }

  lemma {:induction false} InsertFind(m: seq<Bucket>, key: string, id: nat, k: string)
    ensures Find(Insert(m, key, id), k) == if k == key then Find(m, k) + [id] else Find(m, k)
  {
    if m != [] && m[0].key != key {
      InsertFind(m[1..], key, id, k);
    }
  }

  lemma {:induction false} FindAt(m: seq<Bucket>, i: nat)
    requires i < |m| && NoDup(Keys(m))
    ensures m[i].members == Find(m, m[i].key)
  {
    if i > 0 {
      assert Keys(m)[0] != Keys(m)[i];
      assert forall a :: 0 <= a < |m| - 1 ==> Keys(m[1..])[a] == Keys(m)[a + 1];
      FindAt(m[1..], i - 1);
    }
  }

  lemma {:induction false} DistinctFacts(s: seq<string>)
    ensures NoDup(Distinct(s))
    ensures forall x :: x in Distinct(s) <==> x in s
  {
    if s != [] {
      DistinctFacts(s[..|s| - 1]);
      assert s == s[..|s| - 1] + [s[|s| - 1]];
    }
  }

  lemma {:induction false} GroupByKeys(ps: seq<(string, nat)>)
    ensures Keys(GroupBy(ps)) == Distinct(KeysOf(ps))
  {
    if ps != [] {
      var n := |ps| - 1;
      GroupByKeys(ps[..n]);
      InsertKeys(GroupBy(ps[..n]), ps[n].0, ps[n].1);
      assert KeysOf(ps)[..n] == KeysOf(ps[..n]);
    }
  }

  lemma {:induction false} GroupByFind(ps: seq<(string, nat)>, key: string)
    ensures Find(GroupBy(ps), key) == Select(ps, key)
  {
    if ps != [] {
      var n := |ps| - 1;
      GroupByFind(ps[..n], key);
      InsertFind(GroupBy(ps[..n]), ps[n].0, ps[n].1, key);
    }
  }

  /** The indices a key selects are exactly the positions carrying that
      key, and a key selects some index exactly when it occurs. */
  lemma SelectMembers(ps: seq<(string, nat)>, key: string)
    ensures forall id :: id in Select(ps, key) <==> exists i :: 0 <= i < |ps| && ps[i] == (key, id)
    ensures Select(ps, key) != [] <==> key in KeysOf(ps)
  {
    forall id
      ensures id in Select(ps, key) <==> exists i :: 0 <= i < |ps| && ps[i] == (key, id)
    {
      if id in Select(ps, key) {
        SelectHas(ps, key, id);
      }
      if exists i :: 0 <= i < |ps| && ps[i] == (key, id) {
        var i :| 0 <= i < |ps| && ps[i] == (key, id);
        SelectGets(ps, key, id, i);
      }
    }
    if Select(ps, key) != [] {
      SelectHas(ps, key, Select(ps, key)[0]);
      var i :| 0 <= i < |ps| && ps[i] == (key, Select(ps, key)[0]);
      assert KeysOf(ps)[i] == key;
    }
    if key in KeysOf(ps) {
      var i :| 0 <= i < |ps| && KeysOf(ps)[i] == key;
      SelectGets(ps, key, ps[i].1, i);
    }
  }

  /** Every selected index was filed under the key at some position. */
  lemma {:induction false} SelectHas(ps: seq<(string, nat)>, key: string, id: nat)
    requires id in Select(ps, key)
    ensures exists i :: 0 <= i < |ps| && ps[i] == (key, id)
  {
    var n := |ps| - 1;
    if id in Select(ps[..n], key) {
      SelectHas(ps[..n], key, id);
      var i :| 0 <= i < n && ps[..n][i] == (key, id);
      assert ps[i] == (key, id);
    } else {
      assert ps[n] == (key, id);
    }
  }

  /** Every index filed under the key is selected. */
  lemma {:induction false} SelectGets(ps: seq<(string, nat)>, key: string, id: nat, i: nat)
    requires i < |ps| && ps[i] == (key, id)
    ensures id in Select(ps, key)
  {
    var n := |ps| - 1;
    if i < n {
      assert ps[..n][i] == ps[i];
      SelectGets(ps[..n], key, id, i);
    }
  }

  /** What the dictionary holds: its keys are the distinct keys in order of
      first insertion, and under each key stand exactly the indices filed
      under it, in insertion order. */
  lemma GroupByContents(ps: seq<(string, nat)>)
    ensures Keys(GroupBy(ps)) == Distinct(KeysOf(ps))
    ensures NoDup(Keys(GroupBy(ps)))
    ensures forall k :: k in Keys(GroupBy(ps)) <==> k in KeysOf(ps)
    ensures forall i :: 0 <= i < |GroupBy(ps)| ==> GroupBy(ps)[i].members == Select(ps, GroupBy(ps)[i].key)
  {
    GroupByKeys(ps);
    DistinctFacts(KeysOf(ps));
    forall i | 0 <= i < |GroupBy(ps)|
      ensures GroupBy(ps)[i].members == Select(ps, GroupBy(ps)[i].key)
    {
      FindAt(GroupBy(ps), i);
      GroupByFind(ps, GroupBy(ps)[i].key);
    }
  }

  /** Strictly increasing indices. */
  predicate Increasing(s: seq<nat>)
  {
    forall a, b :: 0 <= a < b < |s| ==> s[a] < s[b]
  }

  /** Position `p` is the pivot (first member) of one of the groups `gs`. */
  predicate IsPivot(gs: seq<seq<nat>>, p: nat)
  {
    exists k :: 0 <= k < |gs| && |gs[k]| >= 1 && gs[k][0] == p
  }

  /** The indices of a sequence of (key, index) pairs, in order. */
  function IdsOf(ps: seq<(string, nat)>): (ids: seq<nat>)
    ensures |ids| == |ps|
    ensures forall i :: 0 <= i < |ps| ==> ids[i] == ps[i].1
  {
    if ps == [] then [] else IdsOf(ps[..|ps| - 1]) + [ps[|ps| - 1].1]
  }

  /** How one append changes the dictionary: the list of an existing key
      grows by one index at its end, a new key is added last. */
  lemma {:induction false} InsertShape(m: seq<Bucket>, key: string, id: nat)
    requires NoDup(Keys(m))
    ensures key !in Keys(m) ==> Insert(m, key, id) == m + [Bucket(key, [id])]
    ensures key in Keys(m) ==> |Insert(m, key, id)| == |m|
    ensures key in Keys(m) ==> forall a :: 0 <= a < |m| ==>
      Insert(m, key, id)[a] == (if m[a].key == key then m[a].(members := m[a].members + [id]) else m[a])
  {
    if m != [] {
      assert Keys(m) == [m[0].key] + Keys(m[1..]);
      assert NoDup(Keys(m[1..])) by {
        assert forall a :: 0 <= a < |m| - 1 ==> Keys(m[1..])[a] == Keys(m)[a + 1];
      }
      InsertShape(m[1..], key, id);
      if m[0].key == key {
        assert key !in Keys(m[1..]) by {
          forall a | 0 <= a < |m| - 1
            ensures Keys(m[1..])[a] != key
          {
            assert Keys(m)[0] != Keys(m)[a + 1];
          }
        }
      }
    }
  }

  /** Every list is non-empty and increasing, and the lists appear in the order of their first index. */
  predicate Ordered(m: seq<Bucket>)
  {
    (forall a :: 0 <= a < |m| ==> |m[a].members| > 0 && Increasing(m[a].members)) &&
    (forall a, b :: 0 <= a < b < |m| ==> m[a].members[0] < m[b].members[0])
  }

  /** Every index in the dictionary is an element of `ids`. */
  predicate MembersIn(m: seq<Bucket>, ids: seq<nat>)
  {
    forall a, j :: 0 <= a < |m| && 0 <= j < |m[a].members| ==> m[a].members[j] in ids
  }

  lemma InsertOrdered(m: seq<Bucket>, key: string, id: nat)
    requires NoDup(Keys(m)) && Ordered(m)
    requires forall a, j :: 0 <= a < |m| && 0 <= j < |m[a].members| ==> m[a].members[j] < id
    ensures Ordered(Insert(m, key, id))
  {
    InsertShape(m, key, id);
    if key in Keys(m) {
      InsertOrderedOld(m, key, id);
    } else {
      var g := Insert(m, key, id);
      assert forall a :: 0 <= a < |m| ==> g[a] == m[a];
      assert g[|m|].members == [id];
      forall a, b | 0 <= a < b < |g|
        ensures g[a].members[0] < g[b].members[0]
      {
        if b == |m| {
          assert m[a].members[0] < id;
        }
      }
    }
  }

  /** Appending to the list of a key already present keeps the dictionary
      `Ordered`: the list's head stays, and the new index is the largest. */
  lemma InsertOrderedOld(m: seq<Bucket>, key: string, id: nat)
    requires NoDup(Keys(m)) && Ordered(m) && key in Keys(m)
    requires forall a, j :: 0 <= a < |m| && 0 <= j < |m[a].members| ==> m[a].members[j] < id
    requires |Insert(m, key, id)| == |m|
    requires forall a :: 0 <= a < |m| ==>
      Insert(m, key, id)[a] == (if m[a].key == key then m[a].(members := m[a].members + [id]) else m[a])
    ensures Ordered(Insert(m, key, id))
  {
    var g := Insert(m, key, id);
    forall a | 0 <= a < |g|
      ensures |g[a].members| > 0 && Increasing(g[a].members)
      ensures g[a].members[0] == m[a].members[0]
    {
      if m[a].key == key {
        AppendIncreasing(m[a].members, id);
      }
    }
  }

  /** An increasing list stays increasing when an index above all of its
      elements is appended. */
  lemma AppendIncreasing(s: seq<nat>, id: nat)
    requires Increasing(s) && forall j :: 0 <= j < |s| ==> s[j] < id
    ensures Increasing(s + [id])
  {
  }

  lemma InsertMembersIn(m: seq<Bucket>, key: string, id: nat, ids: seq<nat>)
    requires NoDup(Keys(m)) && MembersIn(m, ids) && id in ids
    ensures MembersIn(Insert(m, key, id), ids)
  {
    InsertShape(m, key, id);
    var g := Insert(m, key, id);
    forall a, j | 0 <= a < |g| && 0 <= j < |g[a].members|
      ensures g[a].members[j] in ids
    {
      if a < |m| && j < |m[a].members| {
        assert g[a].members[j] == m[a].members[j];
      }
    }
  }

  /** When the pairs carry increasing indices, the dictionary is `Ordered`
      and holds only those indices. */
  lemma {:induction false} GroupByOrder(ps: seq<(string, nat)>)
    requires Increasing(IdsOf(ps))
    ensures Ordered(GroupBy(ps))
    ensures MembersIn(GroupBy(ps), IdsOf(ps))
  {
    if ps != [] {
      var n := |ps| - 1;
      var m := GroupBy(ps[..n]);
      var key, id := ps[n].0, ps[n].1;
      var ids := IdsOf(ps);
      assert ids == IdsOf(ps[..n]) + [id];
      assert Increasing(IdsOf(ps[..n])) by {
        assert forall i :: 0 <= i < n ==> IdsOf(ps[..n])[i] == ids[i];
      }
      GroupByOrder(ps[..n]);
      GroupByContents(ps[..n]);
      assert MembersIn(m, ids);
      forall a, j | 0 <= a < |m| && 0 <= j < |m[a].members|
        ensures m[a].members[j] < id
      {
        var i :| 0 <= i < n && IdsOf(ps[..n])[i] == m[a].members[j];
        assert ids[i] == m[a].members[j];
      }
      InsertOrdered(m, key, id);
      InsertMembersIn(m, key, id, ids);
    }
  }

  /** Every index in the dictionary comes from some pair below `n`. */
  lemma GroupByBelow(ps: seq<(string, nat)>, n: nat)
    requires Increasing(IdsOf(ps))
    requires forall i :: 0 <= i < |ps| ==> ps[i].1 < n
    ensures forall a :: 0 <= a < |GroupBy(ps)| ==>
      |GroupBy(ps)[a].members| > 0 && forall j :: 0 <= j < |GroupBy(ps)[a].members| ==> GroupBy(ps)[a].members[j] < n
  {
    GroupByOrder(ps);
  }

  /** Appending one more pair is one more `Insert`. */
  lemma GroupByAppend(ps: seq<(string, nat)>, key: string, id: nat)
    ensures GroupBy(ps + [(key, id)]) == Insert(GroupBy(ps), key, id)
  {
    assert (ps + [(key, id)])[..|ps|] == ps;
  }

  /** Over increasing indices, the indices a key selects increase too. */
  lemma {:induction false} SelectIncreasing(ps: seq<(string, nat)>, key: string)
    requires Increasing(IdsOf(ps))
    ensures Increasing(Select(ps, key))
  {
    if ps != [] {
      var n := |ps| - 1;
      var prev := Select(ps[..n], key);
      assert Increasing(IdsOf(ps[..n])) by {
        forall a, b | 0 <= a < b < n
          ensures IdsOf(ps[..n])[a] < IdsOf(ps[..n])[b]
        {
          assert IdsOf(ps)[a] < IdsOf(ps)[b];
        }
      }
      SelectIncreasing(ps[..n], key);
      forall j | 0 <= j < |prev|
        ensures prev[j] < ps[n].1
      {
        assert prev[j] in prev;
        SelectHas(ps[..n], key, prev[j]);
        var i :| 0 <= i < n && ps[..n][i] == (key, prev[j]);
        assert IdsOf(ps)[i] < IdsOf(ps)[n];
      }
    }
  }
}
