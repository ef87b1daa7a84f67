/** Rust's `BTreeMap` as the program uses it: a map whose iteration order is
    the key order. Modelled as an association list kept strictly sorted by a
    caller-supplied strict total order, so that "the n-th entry" (`iter().nth(n)`,
    `values().nth(n)`) is plain sequence indexing. */
module SortedMap {
  import opened Strings

  ghost predicate StrictTotalOrder<K(!new)>(less: (K, K) -> bool) {
    (forall a :: !less(a, a)) &&
    (forall a, b, c :: less(a, b) && less(b, c) ==> less(a, c)) &&
    (forall a, b :: a != b ==> less(a, b) || less(b, a))
  }

  predicate Sorted<K, V>(m: seq<(K, V)>, less: (K, K) -> bool) {
    forall i, j :: 0 <= i < j < |m| ==> less(m[i].0, m[j].0)
  }

  function Keys<K, V>(m: seq<(K, V)>): set<K> {
    set i | 0 <= i < |m| :: m[i].0
  }

  /** `BTreeMap::get` */
  function Lookup<K(==), V>(m: seq<(K, V)>, k: K): (r: Option<V>)
    ensures r.Some? <==> k in Keys(m)
  {
    if m == [] then None
    else if m[0].0 == k then Some(m[0].1)
    else
      assert Keys(m) == {m[0].0} + Keys(m[1..]);
      Lookup(m[1..], k)
  }

  /** `BTreeMap::insert`: replaces the value of an existing key, otherwise adds
      the entry at its place in key order. */
  function Insert<K(==), V>(m: seq<(K, V)>, k: K, v: V, less: (K, K) -> bool): seq<(K, V)> {
    if m == [] then [(k, v)]
    else if m[0].0 == k then [(k, v)] + m[1..]
    else if less(k, m[0].0) then [(k, v)] + m
    else [m[0]] + Insert(m[1..], k, v, less)
  }

  lemma KeysCons<K, V>(x: (K, V), m: seq<(K, V)>)
    ensures Keys([x] + m) == {x.0} + Keys(m)
  {
    var l := [x] + m;
    forall k | k in Keys(l) ensures k in {x.0} + Keys(m) {
      var i :| 0 <= i < |l| && l[i].0 == k;
      if i > 0 { assert m[i - 1].0 == k; }
    }
    forall k | k in Keys(m) ensures k in Keys(l) {
      var i :| 0 <= i < |m| && m[i].0 == k;
      assert l[i + 1].0 == k;
    }
    assert l[0].0 == x.0;
  }

  /** What inserting `k` with `v` into `m` must give: sorted entries, the
      keys of `m` and `k`, `v` under `k`, every other key unchanged. */
  ghost predicate InsertOk<K(!new), V>(m: seq<(K, V)>, k: K, v: V, less: (K, K) -> bool, r: seq<(K, V)>) {
    && Sorted(r, less)
    && Keys(r) == Keys(m) + {k}
    && Lookup(r, k) == Some(v)
    && (forall k' :: k' != k ==> Lookup(r, k') == Lookup(m, k'))
    && |r| == if k in Keys(m) then |m| else |m| + 1
  }

  lemma SortedTail<K, V>(m: seq<(K, V)>, less: (K, K) -> bool)
    requires Sorted(m, less) && m != []
    ensures Sorted(m[1..], less)
  {
    var t := m[1..];
    forall i, j | 0 <= i < j < |t| ensures less(t[i].0, t[j].0) {
      assert t[i] == m[i + 1] && t[j] == m[j + 1];
    }
  }

  /** Inserting keeps the entries sorted, adds `k` to the keys and changes
      only the value stored under `k`. */
  lemma {:induction false} InsertSpec<K(!new), V>(m: seq<(K, V)>, k: K, v: V, less: (K, K) -> bool)
    requires StrictTotalOrder(less) && Sorted(m, less)
    ensures Sorted(Insert(m, k, v, less), less)
    ensures Keys(Insert(m, k, v, less)) == Keys(m) + {k}
    ensures Lookup(Insert(m, k, v, less), k) == Some(v)
    ensures forall k' :: k' != k ==> Lookup(Insert(m, k, v, less), k') == Lookup(m, k')
    ensures |Insert(m, k, v, less)| == if k in Keys(m) then |m| else |m| + 1
  {
    if m == [] {
      KeysCons((k, v), []);
      assert InsertOk(m, k, v, less, Insert(m, k, v, less));
    } else if m[0].0 == k {
      InsertReplacesHead(m, k, v, less);
    } else if less(k, m[0].0) {
      InsertBeforeHead(m, k, v, less);
    } else {
      SortedTail(m, less);
      InsertSpec(m[1..], k, v, less);
      InsertBehindHead(m, k, v, less);
    }
  }

  lemma InsertReplacesHead<K(!new), V>(m: seq<(K, V)>, k: K, v: V, less: (K, K) -> bool)
    requires StrictTotalOrder(less) && Sorted(m, less) && m != [] && m[0].0 == k
    ensures InsertOk(m, k, v, less, Insert(m, k, v, less))
  {
    var r := Insert(m, k, v, less);
    assert r == [(k, v)] + m[1..];
    assert Sorted(r, less) by {
      forall i, j | 0 <= i < j < |r| ensures less(r[i].0, r[j].0) {
        assert r[i].0 == m[i].0 && r[j].0 == m[j].0;
      }
    }
    assert Keys(r) == Keys(m) + {k} by {
      KeysCons((k, v), m[1..]);
      KeysCons(m[0], m[1..]);
      assert m == [m[0]] + m[1..];
    }
    assert forall k' :: k' != k ==> Lookup(r, k') == Lookup(m, k') by {
      assert r[1..] == m[1..];
    }
    assert |r| == |m| && k in Keys(m) by {
      assert m[0].0 in Keys(m);
    }
  }

  lemma InsertBeforeHead<K(!new), V>(m: seq<(K, V)>, k: K, v: V, less: (K, K) -> bool)
    requires StrictTotalOrder(less) && Sorted(m, less) && m != [] && less(k, m[0].0)
    ensures InsertOk(m, k, v, less, Insert(m, k, v, less))
  {
    var r := Insert(m, k, v, less);
    assert r == [(k, v)] + m;
    assert Sorted(r, less) by {
      forall i, j | 0 <= i < j < |r| ensures less(r[i].0, r[j].0) {
        if i == 0 {
          assert r[j].0 == m[j - 1].0;
          if j > 1 { assert less(m[0].0, m[j - 1].0); }
        } else {
          assert r[i].0 == m[i - 1].0 && r[j].0 == m[j - 1].0;
        }
      }
    }
    assert k !in Keys(m) by {
      forall i | 0 <= i < |m| ensures m[i].0 != k {
        if i > 0 { assert less(m[0].0, m[i].0); }
      }
    }
    assert Keys(r) == Keys(m) + {k} by {
      KeysCons((k, v), m);
    }
    assert r[1..] == m;
  }

  lemma InsertBehindHead<K(!new), V>(m: seq<(K, V)>, k: K, v: V, less: (K, K) -> bool)
    requires StrictTotalOrder(less) && Sorted(m, less) && m != []
    requires m[0].0 != k && !less(k, m[0].0)
    requires InsertOk(m[1..], k, v, less, Insert(m[1..], k, v, less))
    ensures InsertOk(m, k, v, less, Insert(m, k, v, less))
  {
    var t := m[1..];
    var r := Insert(m, k, v, less);
    var rt := Insert(t, k, v, less);
    assert r == [m[0]] + rt;
    assert m == [m[0]] + t;
    assert less(m[0].0, k);
    ConsSorted(m, k, rt, less);
    assert Keys(r) == Keys(m) + {k} by {
      KeysCons(m[0], rt);
      KeysCons(m[0], t);
    }
    assert Lookup(r, k) == Some(v) by {
      assert r[1..] == rt;
    }
    assert forall k' :: k' != k ==> Lookup(r, k') == Lookup(m, k') by {
      assert r[1..] == rt;
    }
    assert |r| == if k in Keys(m) then |m| else |m| + 1 by {
      KeysCons(m[0], t);
      assert (k in Keys(m)) == (k in Keys(t));
    }
  }

  /** The head of a sorted map, put in front of a sorted map over its other
      keys and a greater key, keeps the result sorted. */
  lemma ConsSorted<K, V>(m: seq<(K, V)>, k: K, rt: seq<(K, V)>, less: (K, K) -> bool)
    requires Sorted(m, less) && m != [] && less(m[0].0, k)
    requires Sorted(rt, less) && Keys(rt) == Keys(m[1..]) + {k}
    ensures Sorted([m[0]] + rt, less)
  {
    var r := [m[0]] + rt;
    forall j | 0 < j < |r| ensures less(m[0].0, r[j].0) {
      assert r[j] == rt[j - 1];
      assert rt[j - 1].0 in Keys(rt);
      if rt[j - 1].0 != k {
        var p :| 0 <= p < |m[1..]| && m[1..][p].0 == rt[j - 1].0;
        assert m[1..][p] == m[p + 1];
      }
    }
    forall i, j | 0 < i < j < |r| ensures less(r[i].0, r[j].0) {
      assert r[i] == rt[i - 1] && r[j] == rt[j - 1];
    }
  }

  /** Inserting a key that is not there adds exactly one entry. */
  lemma {:induction false} InsertFresh<K(!new), V>(m: seq<(K, V)>, k: K, v: V, less: (K, K) -> bool)
    requires StrictTotalOrder(less) && Sorted(m, less) && k !in Keys(m)
    ensures forall e :: e in Insert(m, k, v, less) <==> e in m || e == (k, v)
  {
    if m != [] {
      assert m[0].0 in Keys(m);
      if !less(k, m[0].0) {
        var t := m[1..];
        SortedTail(m, less);
        assert k !in Keys(t) by { KeysCons(m[0], t); assert m == [m[0]] + t; }
        InsertFresh(t, k, v, less);
        assert Insert(m, k, v, less) == [m[0]] + Insert(t, k, v, less);
        assert m == [m[0]] + t;
      }
    }
  }

  /** Entries of a sorted map have pairwise distinct keys. */
  lemma SortedDistinct<K(!new), V>(m: seq<(K, V)>, less: (K, K) -> bool, i: nat, j: nat)
    requires StrictTotalOrder(less) && Sorted(m, less)
    requires i < |m| && j < |m| && i != j
    ensures m[i].0 != m[j].0
  {
    if i < j { assert less(m[i].0, m[j].0); } else { assert less(m[j].0, m[i].0); }
  }

  /** In a sorted map, `Lookup` finds the entry at its position. */
  lemma {:induction false} LookupAt<K(!new), V>(m: seq<(K, V)>, less: (K, K) -> bool, i: nat)
    requires StrictTotalOrder(less) && Sorted(m, less) && i < |m|
    ensures Lookup(m, m[i].0) == Some(m[i].1)
  {
    if i > 0 {
      SortedDistinct(m, less, 0, i);
      var t := m[1..];
      SortedTail(m, less);
      LookupAt(t, less, i - 1);
    }
  }

  /** The entries satisfying `p`, in their original order (`iter().filter(..)`). */
  function Filter<K, V>(m: seq<(K, V)>, p: ((K, V)) -> bool): (r: seq<(K, V)>)
    ensures |r| <= |m|
  {
    if m == [] then [] else (if p(m[0]) then [m[0]] else []) + Filter(m[1..], p)
  }

  /** `Filter` keeps exactly the entries that satisfy `p`. */
  lemma {:induction false} FilterMembers<K, V>(m: seq<(K, V)>, p: ((K, V)) -> bool)
    ensures forall e :: e in Filter(m, p) <==> e in m && p(e)
  {
    if m != [] {
      FilterMembers(m[1..], p);
      assert m == [m[0]] + m[1..];
    }
  }

  /** Every entry `Filter` keeps comes from the filtered map. */
  lemma {:induction false} FilterFrom<K, V>(m: seq<(K, V)>, p: ((K, V)) -> bool, i: nat)
    requires i < |Filter(m, p)|
    ensures exists j :: 0 <= j < |m| && m[j] == Filter(m, p)[i]
  {
    var r := Filter(m, p);
    if p(m[0]) && i == 0 {
      assert m[0] == r[0];
    } else {
      var k := if p(m[0]) then i - 1 else i;
      assert r[i] == Filter(m[1..], p)[k];
      FilterFrom(m[1..], p, k);
      var j :| 0 <= j < |m[1..]| && m[1..][j] == Filter(m[1..], p)[k];
      assert m[j + 1] == r[i];
    }
  }

  /** Filtering a sorted map leaves it sorted. */
  lemma {:induction false} FilterSorted<K, V>(m: seq<(K, V)>, p: ((K, V)) -> bool, less: (K, K) -> bool)
    requires Sorted(m, less)
    ensures Sorted(Filter(m, p), less)
  {
    if m != [] {
      var t := m[1..];
      SortedTail(m, less);
      FilterSorted(t, p, less);
      FilterMembers(t, p);
      var r := Filter(m, p);
      var rt := Filter(t, p);
      if p(m[0]) {
        assert r == [m[0]] + rt;
        forall a, b | 0 <= a < b < |r| ensures less(r[a].0, r[b].0) {
          if a == 0 {
            assert r[b] == rt[b - 1];
            FilterFrom(t, p, b - 1);
            var q :| 0 <= q < |t| && t[q] == r[b];
            assert m[q + 1] == r[b];
          } else {
            assert r[a] == rt[a - 1] && r[b] == rt[b - 1];
          }
        }
      } else {
        assert r == rt;
      }
    }
  }
}
