/** Sequence and map helpers shared by the graph model: the positional lists of the
    graph are sequences without repetitions, and the adjacency maps lose entries by value
    when edges are removed. */
module Collections {

  /** No element occurs twice. */
  predicate Distinct<T(==)>(s: seq<T>) {
    forall i, j :: 0 <= i < j < |s| ==> s[i] != s[j]
  }

  /** The elements of `s` that are not in `d`, in their original order. */
  function Filter<T(==,!new)>(s: seq<T>, d: set<T>): (r: seq<T>)
    ensures forall x :: x in r <==> x in s && x !in d
    ensures |r| <= |s|
  {
    if s == [] then []
    else if s[0] in d then Filter(s[1..], d)
    else [s[0]] + Filter(s[1..], d)
  }

  /** Filtering a concatenation filters each part, keeping the parts in order. */
  lemma {:induction false} FilterAppend<T(!new)>(a: seq<T>, b: seq<T>, d: set<T>)
    ensures Filter(a + b, d) == Filter(a, d) + Filter(b, d)
  {
    if a == [] {
      assert a + b == b;
    } else {
      assert (a + b)[0] == a[0] && (a + b)[1..] == a[1..] + b;
      FilterAppend(a[1..], b, d);
    }
  }

  /** One element is kept exactly when it is not removed. */
  lemma FilterSingle<T(!new)>(x: T, d: set<T>)
    ensures Filter([x], d) == if x in d then [] else [x]
  {
    assert [x][1..] == [];
  }

  lemma {:induction false} FilterDistinct<T(!new)>(s: seq<T>, d: set<T>)
    requires Distinct(s)
    ensures Distinct(Filter(s, d))
  {
    if s != [] {
      FilterDistinct(s[1..], d);
      if s[0] !in d {
        var r := Filter(s[1..], d);
        assert s[0] !in r;
        forall i, j | 0 <= i < j < |[s[0]] + r| ensures ([s[0]] + r)[i] != ([s[0]] + r)[j] {
          if i == 0 {
            assert ([s[0]] + r)[j] in r;
          }
        }
      }
    }
  }

  lemma {:induction false} FilterTwice<T(!new)>(s: seq<T>, a: set<T>, b: set<T>)
    ensures Filter(Filter(s, a), b) == Filter(s, a + b)
  {
    if s != [] {
      FilterTwice(s[1..], a, b);
      if s[0] !in a {
        assert Filter(s, a) == [s[0]] + Filter(s[1..], a);
        assert ([s[0]] + Filter(s[1..], a))[1..] == Filter(s[1..], a);
      }
    }
  }

  /** Removing one element that occurs exactly once shortens the sequence by one. */
  lemma {:induction false} FilterOne<T(!new)>(s: seq<T>, x: T)
    requires Distinct(s) && x in s
    ensures |Filter(s, {x})| == |s| - 1
  {
    if s[0] == x {
      FilterUntouched(s[1..], {x});
    } else {
      assert Distinct(s[1..]) by {
        forall i, j | 0 <= i < j < |s[1..]| ensures s[1..][i] != s[1..][j] {
          assert s[1..][i] == s[i + 1] && s[1..][j] == s[j + 1];
        }
      }
      FilterOne(s[1..], x);
    }
  }

  lemma {:induction false} FilterUntouched<T(!new)>(s: seq<T>, d: set<T>)
    requires forall x :: x in s ==> x !in d
    ensures Filter(s, d) == s
  {
    if s != [] {
      FilterUntouched(s[1..], d);
      assert [s[0]] + s[1..] == s;
    }
  }

  /** The entries of `m` whose value is not in `d`. */
  function Drop<K, W>(m: map<K, W>, d: set<W>): map<K, W> {
    map k | k in m && m[k] !in d :: m[k]
  }

  /** `Drop` applied to every inner map. */
  function DropAll<I, K, W>(adj: map<I, map<K, W>>, d: set<W>): map<I, map<K, W>> {
    map i | i in adj :: Drop(adj[i], d)
  }

  lemma DropAllTwice<I, K, W>(adj: map<I, map<K, W>>, a: set<W>, b: set<W>)
    ensures DropAll(DropAll(adj, a), b) == DropAll(adj, a + b)
  {
    forall i | i in adj ensures Drop(Drop(adj[i], a), b) == Drop(adj[i], a + b) {
    }
  }

  lemma DropAllNothing<I, K, W>(adj: map<I, map<K, W>>)
    ensures DropAll(adj, {}) == adj
  {
    forall i | i in adj ensures Drop(adj[i], {}) == adj[i] {
    }
  }

  /** A map that never sends two keys to the same value has as many values as keys. */
  lemma {:induction false} InjectiveValues<K, W>(m: map<K, W>)
    requires forall a, b :: a in m && b in m && m[a] == m[b] ==> a == b
    ensures |m.Values| == |m|
  {
    if m != map[] {
      var k :| k in m;
      var rest := map a | a in m && a != k :: m[a];
      assert rest.Keys == m.Keys - {k};
      forall w | w in m.Values ensures w in rest.Values + {m[k]} {
        var a :| a in m && m[a] == w;
        if a != k { assert rest[a] == w; }
      }
      assert m.Values == rest.Values + {m[k]};
      assert m[k] !in rest.Values;
      InjectiveValues(rest);
    }
  }

  /** A sequence without repetitions that holds exactly the members of a set is as long
      as the set has members. */
  lemma {:induction false} LiveCount<T>(s: seq<T>, live: set<T>)
    requires Distinct(s) && forall x :: x in s <==> x in live
    ensures |s| == |live|
  {
    if s != [] {
      assert Distinct(s[1..]) by {
        forall i, j | 0 <= i < j < |s[1..]| ensures s[1..][i] != s[1..][j] {
          assert s[1..][i] == s[i + 1] && s[1..][j] == s[j + 1];
        }
      }
      assert s[0] !in s[1..] by {
        forall i | 0 <= i < |s[1..]| ensures s[1..][i] != s[0] {
          assert s[1..][i] == s[i + 1];
        }
      }
      forall x ensures x in s[1..] <==> x in live - {s[0]} {
        assert x in s <==> x == s[0] || x in s[1..];
      }
      LiveCount(s[1..], live - {s[0]});
    }
  }

  /** Appending a new element keeps a sequence free of repetitions. */
  lemma DistinctAppend<T>(s: seq<T>, x: T)
    requires Distinct(s) && x !in s
    ensures Distinct(s + [x])
  {
  }
}
