/**
 * The order `images.sort()` puts paths in (main.py:71). Paths compare the
 * way `pathlib` compares them: split at '/' into components, which are
 * compared as Python lists of strings, component by component by
 * character code, a list that runs out first coming first. The sort is
 * an insertion sort proved to give a sorted permutation of its input.
 */
module PathOrder {
  // ---------------------------------------------------------------------------
  // One component: strings by character code

  /** `a <= b` on strings: `a` is a prefix of `b` or the first character
      where they differ is smaller in `a`. */
  predicate NameLe(a: string, b: string)
    decreases |a|
  {
    a == [] || (b != [] && (a[0] < b[0] || (a[0] == b[0] && NameLe(a[1..], b[1..]))))
  }

  /** `a < b` on strings. */
  predicate NameLt(a: string, b: string)
  {
    NameLe(a, b) && a != b
  }

  /** Any two strings are ordered one way or the other. */
  lemma {:induction false} NameLeTotal(a: string, b: string)
    ensures NameLe(a, b) || NameLe(b, a)
    decreases |a|
  {
    if a != [] && b != [] && a[0] == b[0] {
      NameLeTotal(a[1..], b[1..]);
    }
  }

  /** Two strings ordered both ways are equal. */
  lemma {:induction false} NameLeAntisymmetric(a: string, b: string)
    requires NameLe(a, b) && NameLe(b, a)
    ensures a == b
    decreases |a|
  {
    if a != [] {
      NameLeAntisymmetric(a[1..], b[1..]);
      assert a == [a[0]] + a[1..] && b == [b[0]] + b[1..];
    }
  }

  /** The string order is transitive. */
  lemma {:induction false} NameLeTransitive(a: string, b: string, c: string)
    requires NameLe(a, b) && NameLe(b, c)
    ensures NameLe(a, c)
    decreases |a|
  {
    if a != [] && a[0] == b[0] && b[0] == c[0] {
      NameLeTransitive(a[1..], b[1..], c[1..]);
    }
  }

  lemma {:induction false} NameLeReflexive(a: string)
    ensures NameLe(a, a)
    decreases |a|
  {
    if a != [] {
      NameLeReflexive(a[1..]);
    }
  }

  // ---------------------------------------------------------------------------
  // Components of a path

  /** `str(p).split('/')`: the pieces between the separators, one more
      than there are separators. */
  function Parts(s: string): (r: seq<string>)
    ensures |r| >= 1
    ensures forall i :: 0 <= i < |r| ==> '/' !in r[i]
  {
    if s == [] then [""]
    else
      var p := Parts(s[..|s| - 1]);
      var c := s[|s| - 1];
      if c == '/' then p + [""]
      else
        var last := p[|p| - 1] + [c];
        assert '/' !in last;
        p[..|p| - 1] + [last]
  }

  /** One more character: a separator opens an empty component, any other
      character extends the last one. */
  lemma PartsSnoc(s: string, c: char)
    ensures c == '/' ==> Parts(s + [c]) == Parts(s) + [""]
    ensures c != '/' ==> Parts(s + [c]) == Parts(s)[..|Parts(s)| - 1] + [Parts(s)[|Parts(s)| - 1] + [c]]
  {
    assert (s + [c])[..|s|] == s;
  }

  /** `'/'.join(r)`. */
  function JoinParts(r: seq<string>): string
    requires |r| >= 1
  {
    if |r| == 1 then r[0] else JoinParts(r[..|r| - 1]) + "/" + r[|r| - 1]
  }

  /** Joining the components at '/' gives the path back. */
  lemma {:induction false} JoinPartsRoundTrip(s: string)
    ensures JoinParts(Parts(s)) == s
  {
    if s != [] {
      var t := s[..|s| - 1];
      var c := s[|s| - 1];
      assert s == t + [c];
      JoinPartsRoundTrip(t);
      JoinSnoc(t, c);
    }
  }

  /** Joining after one more character gives the joined prefix and that
      character. */
  lemma JoinSnoc(t: string, c: char)
    ensures JoinParts(Parts(t + [c])) == JoinParts(Parts(t)) + [c]
  {
    var p := Parts(t);
    PartsSnoc(t, c);
    if c == '/' {
      assert (p + [""])[..|p|] == p;
    } else {
      var q := p[..|p| - 1];
      var last := p[|p| - 1];
      JoinLastGrows(q, last, c);
      assert q + [last] == p;
    }
  }

  /** Growing the last component grows the joined string at its end. */
  lemma JoinLastGrows(q: seq<string>, last: string, c: char)
    ensures JoinParts(q + [last + [c]]) == JoinParts(q + [last]) + [c]
  {
    if q != [] {
      assert (q + [last + [c]])[..|q|] == q;
      assert (q + [last])[..|q|] == q;
    }
  }

  /** Different paths have different components. */
  lemma PartsInjective(a: string, b: string)
    requires Parts(a) == Parts(b)
    ensures a == b
  {
    JoinPartsRoundTrip(a);
    JoinPartsRoundTrip(b);
  }

  // ---------------------------------------------------------------------------
  // Lists of components: Python's list comparison

  /** `p <= q` on lists of strings: the first differing component decides,
      and a list that is a prefix of the other comes first. */
  predicate PartsLe(p: seq<string>, q: seq<string>)
    decreases |p|
  {
    p == [] || (q != [] && (NameLt(p[0], q[0]) || (p[0] == q[0] && PartsLe(p[1..], q[1..]))))
  }

  lemma {:induction false} PartsLeTotal(p: seq<string>, q: seq<string>)
    ensures PartsLe(p, q) || PartsLe(q, p)
    decreases |p|
  {
    if p != [] && q != [] {
      if p[0] == q[0] {
        PartsLeTotal(p[1..], q[1..]);
      } else {
        NameLeTotal(p[0], q[0]);
      }
    }
  }

  lemma {:induction false} PartsLeAntisymmetric(p: seq<string>, q: seq<string>)
    requires PartsLe(p, q) && PartsLe(q, p)
    ensures p == q
    decreases |p|
  {
    if p != [] {
      if p[0] != q[0] {
        NameLeAntisymmetric(p[0], q[0]);
      }
      PartsLeAntisymmetric(p[1..], q[1..]);
      assert p == [p[0]] + p[1..] && q == [q[0]] + q[1..];
    }
  }

  lemma {:induction false} PartsLeTransitive(p: seq<string>, q: seq<string>, r: seq<string>)
    requires PartsLe(p, q) && PartsLe(q, r)
    ensures PartsLe(p, r)
    decreases |p|
  {
    if p != [] {
      if p[0] == q[0] && q[0] == r[0] {
        PartsLeTransitive(p[1..], q[1..], r[1..]);
      } else if p[0] == q[0] {
        assert NameLt(p[0], r[0]);
      } else if q[0] == r[0] {
        assert NameLt(p[0], r[0]);
      } else {
        NameLeTransitive(p[0], q[0], r[0]);
        if p[0] == r[0] {
          NameLeAntisymmetric(p[0], q[0]);
        }
      }
    }
  }

  lemma {:induction false} PartsLeReflexive(p: seq<string>)
    ensures PartsLe(p, p)
    decreases |p|
  {
    if p != [] {
      PartsLeReflexive(p[1..]);
    }
  }

  // ---------------------------------------------------------------------------
  // Paths

  /** `a <= b` on paths: their components compared as lists. */
  predicate PathLe(a: string, b: string)
  {
    PartsLe(Parts(a), Parts(b))
  }

  /** Any two paths are ordered one way or the other. */
  lemma PathLeTotal(a: string, b: string)
    ensures PathLe(a, b) || PathLe(b, a)
  {
    PartsLeTotal(Parts(a), Parts(b));
  }

  /** Two paths ordered both ways are equal. */
  lemma PathLeAntisymmetric(a: string, b: string)
    requires PathLe(a, b) && PathLe(b, a)
    ensures a == b
  {
    PartsLeAntisymmetric(Parts(a), Parts(b));
    PartsInjective(a, b);
  }

  /** The path order is transitive. */
  lemma PathLeTransitive(a: string, b: string, c: string)
    requires PathLe(a, b) && PathLe(b, c)
    ensures PathLe(a, c)
  {
    PartsLeTransitive(Parts(a), Parts(b), Parts(c));
  }

  lemma PathLeReflexive(a: string)
    ensures PathLe(a, a)
  {
    PartsLeReflexive(Parts(a));
  }

  /** The components of the two sample paths. */
  lemma SamplePaths()
    ensures Parts("d/a/b") == ["d", "a", "b"]
    ensures Parts("d/a-b") == ["d", "a-b"]
  {
    assert Parts("") == [""];
    PartsSnoc("", 'd');
    assert [] + ['d'] == "d";
    assert Parts("d") == ["d"];
    PartsSnoc("d", '/');
    assert "d" + ['/'] == "d/";
    assert Parts("d/") == ["d", ""];
    PartsSnoc("d/", 'a');
    assert "d/" + ['a'] == "d/a";
    assert [] + ['a'] == "a";
    assert ["d", ""][..1] == ["d"];
    assert Parts("d/a") == ["d", "a"];
    PartsSlashTail("d/a", 'b', ["d", "a"]);
    assert "d/a" + ['/', 'b'] == "d/a/b";
    assert ["d", "a"] + [['b']] == ["d", "a", "b"];
    PartsDashTail("d/a", ["d"], "a");
    assert "d/a" + ['-', 'b'] == "d/a-b";
    assert "a" + "-b" == "a-b";
    assert ["d"] + ["a-b"] == ["d", "a-b"];
  }

  lemma PartsSlashTail(s: string, c: char, p: seq<string>)
    requires Parts(s) == p && c != '/'
    ensures Parts(s + ['/', c]) == p + [[c]]
  {
    PartsSnoc(s, '/');
    PartsSnoc(s + ['/'], c);
    assert s + ['/'] + [c] == s + ['/', c];
    assert (p + [""])[..|p|] == p;
    assert [] + [c] == [c];
  }

  lemma PartsDashTail(s: string, p: seq<string>, last: string)
    requires Parts(s) == p + [last]
    ensures Parts(s + ['-', 'b']) == p + [last + "-b"]
  {
    PartsSnoc(s, '-');
    PartsSnoc(s + ['-'], 'b');
    assert s + ['-'] + ['b'] == s + ['-', 'b'];
    assert last + ['-'] + ['b'] == last + "-b";
    assert (p + [last])[..|p|] == p;
    assert (p + [last + ['-']])[..|p|] == p;
  }

  /** The component order differs from the order of the whole strings:
      "d/a/b" comes before "d/a-b" although '-' is below '/'. */
  lemma SeparatorSortsFirst()
    ensures PathLe("d/a/b", "d/a-b") && !PathLe("d/a-b", "d/a/b")
    ensures NameLe("d/a-b", "d/a/b") && !NameLe("d/a/b", "d/a-b")
  {
    SamplePaths();
    var p: seq<string> := ["d", "a", "b"];
    var q: seq<string> := ["d", "a-b"];
    assert NameLt("a", "a-b") by {
      assert "a-b"[1..] == "-b";
      assert NameLe("", "-b");
    }
    assert PartsLe(p[1..], q[1..]);
    assert !NameLe("a-b", "a") by {
      assert "a-b"[1..] == "-b";
      assert !NameLe("-b", "");
    }
    assert !PartsLe(q[1..], p[1..]);
    assert "d/a-b"[1..] == "/a-b" && "d/a/b"[1..] == "/a/b";
    assert "/a-b"[1..] == "a-b" && "/a/b"[1..] == "a/b";
    assert "a-b"[1..] == "-b" && "a/b"[1..] == "/b";
    assert NameLe("-b", "/b") && !NameLe("/b", "-b");
  }

  // ---------------------------------------------------------------------------
  // The sort

  /** Each path is no later than the next one. */
  predicate Sorted(s: seq<string>)
  {
    forall i :: 0 <= i < |s| - 1 ==> PathLe(s[i], s[i + 1])
  }

  /** `x` placed before the first element it is no later than. */
  function Insert(x: string, s: seq<string>): (r: seq<string>)
    ensures |r| == |s| + 1
    ensures multiset(r) == multiset(s) + multiset{x}
    ensures r[0] == x || (s != [] && r[0] == s[0])
  {
    if s == [] || PathLe(x, s[0]) then [x] + s
    else
      assert s == [s[0]] + s[1..];
      [s[0]] + Insert(x, s[1..])
  }

  /** Inserting into a sorted sequence keeps it sorted. */
  lemma {:induction false} InsertSorted(x: string, s: seq<string>)
    requires Sorted(s)
    ensures Sorted(Insert(x, s))
  {
    if s != [] && !PathLe(x, s[0]) {
      PathLeTotal(x, s[0]);
      var t := s[1..];
      SortedTail(s);
      InsertSorted(x, t);
      var r := Insert(x, s);
      var q := Insert(x, t);
      assert r == [s[0]] + q;
      assert PathLe(s[0], q[0]) by {
        if q[0] != x {
          assert q[0] == s[1];
        }
      }
      forall i | 0 <= i < |r| - 1
        ensures PathLe(r[i], r[i + 1])
      {
        if i > 0 {
          assert r[i] == q[i - 1] && r[i + 1] == q[i];
        }
      }
    }
  }

  /** The paths in non-decreasing order: an insertion sort. */
  function SortPaths(s: seq<string>): (r: seq<string>)
    ensures |r| == |s|
    ensures multiset(r) == multiset(s)
  {
    if s == [] then []
    else
      var n := |s| - 1;
      assert s == s[..n] + [s[n]];
      Insert(s[n], SortPaths(s[..n]))
  }

  /** The sort gives a sorted sequence. */
  lemma {:induction false} SortPathsSorted(s: seq<string>)
    ensures Sorted(SortPaths(s))
  {
    if s != [] {
      var n := |s| - 1;
      SortPathsSorted(s[..n]);
      InsertSorted(s[n], SortPaths(s[..n]));
    }
  }

  /** Dropping the head of a sorted sequence leaves it sorted. */
  lemma SortedTail(s: seq<string>)
    requires Sorted(s) && s != []
    ensures Sorted(s[1..])
  {
    var t := s[1..];
    forall i | 0 <= i < |t| - 1
      ensures PathLe(t[i], t[i + 1])
    {
      assert t[i] == s[i + 1] && t[i + 1] == s[i + 2];
    }
  }

  /** Equal multisets with equal heads have equal tails. */
  lemma TailMultiset(a: seq<string>, b: seq<string>)
    requires a != [] && b != [] && a[0] == b[0] && multiset(a) == multiset(b)
    ensures multiset(a[1..]) == multiset(b[1..])
  {
    assert a == [a[0]] + a[1..] && b == [b[0]] + b[1..];
    assert multiset(a[1..]) == multiset(a) - multiset{a[0]};
    assert multiset(b[1..]) == multiset(b) - multiset{b[0]};
  }

  /** A sorted permutation is unique: whatever the input order, the same
      paths always come out in the same order. */
  lemma {:induction false} SortedUnique(a: seq<string>, b: seq<string>)
    requires Sorted(a) && Sorted(b) && multiset(a) == multiset(b)
    ensures a == b
    decreases |a|
  {
    if a != [] {
      assert |b| == |multiset(b)| == |a|;
      assert a[0] in multiset(b);
      assert b[0] in multiset(a);
      SortedHeadLeast(a, b[0]);
      SortedHeadLeast(b, a[0]);
      PathLeAntisymmetric(a[0], b[0]);
      TailMultiset(a, b);
      SortedTail(a);
      SortedTail(b);
      SortedUnique(a[1..], b[1..]);
      assert a == [a[0]] + a[1..] && b == [b[0]] + b[1..];
    }
  }

  /** The head of a sorted sequence is no later than any of its elements. */
  lemma {:induction false} SortedHeadLeast(s: seq<string>, x: string)
    requires Sorted(s) && x in multiset(s)
    ensures PathLe(s[0], x)
    decreases |s|
  {
    if s[0] != x {
      var t := s[1..];
      assert s == [s[0]] + t;
      assert multiset(s) == multiset{s[0]} + multiset(t);
      assert x in multiset(t);
      SortedTail(s);
      SortedHeadLeast(t, x);
      assert PathLe(s[0], t[0]);
      PathLeTransitive(s[0], t[0], x);
    } else {
      PathLeReflexive(x);
    }
  }
}
