/**
 * Grouping a list by a key, stable sorting, and what neither of them can change: generic facts
 * behind the two-level grouping of duplicate certificates.
 */
module Grouping {
  import opened Sequences

  // ----- Grouping by a key -----

  /** The keys of the elements, each once, in order of first appearance. */
  function Keys<T, K(==)>(s: seq<T>, key: T -> K): seq<K> {
    if s == [] then []
    else
      var ks := Keys(Front(s), key);
      if key(Last(s)) in ks then ks else ks + [key(Last(s))]
  }

  /** The elements with a given key, in order. */
  function WithKey<T, K(==)>(s: seq<T>, key: T -> K, k: K): seq<T> {
    if s == [] then []
    else WithKey(Front(s), key, k) + if key(Last(s)) == k then [Last(s)] else []
  }

  lemma KeysSnoc<T, K>(s: seq<T>, x: T, key: T -> K)
    ensures Keys(s + [x], key) == if key(x) in Keys(s, key) then Keys(s, key) else Keys(s, key) + [key(x)]
  {
    assert Front(s + [x]) == s;
  }

  lemma WithKeySnoc<T, K>(s: seq<T>, x: T, key: T -> K, k: K)
    ensures WithKey(s + [x], key, k) == WithKey(s, key, k) + if key(x) == k then [x] else []
  {
    assert Front(s + [x]) == s;
  }

  lemma {:induction false} KeysAreKeys<T, K(!new)>(s: seq<T>, key: T -> K)
    ensures NoDup(Keys(s, key))
    ensures forall i :: 0 <= i < |s| ==> key(s[i]) in Keys(s, key)
    ensures forall k :: k in Keys(s, key) ==> exists i :: 0 <= i < |s| && key(s[i]) == k
    decreases |s|
  {
    if s != [] {
      hide NoDup;
      var x := key(Last(s));
      KeysAreKeys(Front(s), key);
      NoDupSnoc(Keys(Front(s), key), x);
      forall k | k in Keys(s, key)
        ensures exists i :: 0 <= i < |s| && key(s[i]) == k
      {
        if k in Keys(Front(s), key) {
          var i :| 0 <= i < |Front(s)| && key(Front(s)[i]) == k;
          assert key(s[i]) == k;
        } else {
          assert key(s[|s| - 1]) == k;
        }
      }
    }
  }

  lemma {:induction false} WithKeyIs<T, K>(s: seq<T>, key: T -> K, k: K)
    ensures forall x :: x in WithKey(s, key, k) ==> x in s && key(x) == k
    decreases |s|
  {
    if s != [] {
      WithKeyIs(Front(s), key, k);
    }
  }

  lemma {:induction false} WithAbsentKey<T, K>(s: seq<T>, key: T -> K, k: K)
    requires k !in Keys(s, key)
    ensures WithKey(s, key, k) == []
    decreases |s|
  {
    if s != [] {
      WithAbsentKey(Front(s), key, k);
    }
  }

  function HasKey<T, K(==)>(key: T -> K, k: K): T -> bool {
    (x: T) => key(x) == k
  }

  /** The elements with a key are exactly those, in the order of the list. */
  lemma {:induction false} WithKeyFilters<T, K>(s: seq<T>, key: T -> K, k: K)
    ensures IsFiltered(s, HasKey(key, k), WithKey(s, key, k))
    decreases |s|
  {
    hide IsFiltered;
    if s == [] {
      NothingIsFiltered(HasKey(key, k));
    } else {
      var init, x := Front(s), Last(s);
      WithKeyFilters(init, key, k);
      FilteredSnoc(init, x, HasKey(key, k), WithKey(init, key, k));
      assert s == init + [x];
    }
  }

  /** Of any two keys there is a moment at which the first has appeared and the second has not. */
  lemma {:induction false} KeysInOrder<T, K(!new)>(s: seq<T>, key: T -> K, i: nat, j: nat) returns (n: nat)
    requires i < j < |Keys(s, key)|
    ensures n <= |s| && Keys(s, key)[i] in Keys(s[..n], key) && Keys(s, key)[j] !in Keys(s[..n], key)
    decreases |s|
  {
    var init := Front(s);
    if j < |Keys(init, key)| {
      n := KeysInOrder(init, key, i, j);
      assert init[..n] == s[..n];
    } else {
      n := |init|;
      assert s[..n] == init;
    }
  }

  // ----- Adding up what the elements hold -----

  function Gather<T, E>(s: seq<T>, held: T -> multiset<E>): multiset<E> {
    if s == [] then multiset{} else Gather(Front(s), held) + held(Last(s))
  }

  lemma GatherSnoc<T, E>(s: seq<T>, x: T, held: T -> multiset<E>)
    ensures Gather(s + [x], held) == Gather(s, held) + held(x)
  {
    assert Front(s + [x]) == s;
  }

  /** What the elements under the given keys hold, key by key. */
  function GatherByKey<T, K(==), E>(s: seq<T>, key: T -> K, held: T -> multiset<E>, ks: seq<K>): multiset<E> {
    if ks == [] then multiset{}
    else GatherByKey(s, key, held, Front(ks)) + Gather(WithKey(s, key, Last(ks)), held)
  }

  lemma GroupSnoc<T, K, E>(s: seq<T>, x: T, key: T -> K, held: T -> multiset<E>, k: K)
    ensures Gather(WithKey(s + [x], key, k), held)
      == Gather(WithKey(s, key, k), held) + if key(x) == k then held(x) else multiset{}
  {
    var group := WithKey(s, key, k);
    assert Front(s + [x]) == s;
    assert group + [] == group;
    assert Front(group + [x]) == group;
  }

  lemma {:induction false} GatherByKeySnoc<T, K(!new), E>(s: seq<T>, x: T, key: T -> K, held: T -> multiset<E>,
                                                          ks: seq<K>)
    requires NoDup(ks)
    ensures GatherByKey(s + [x], key, held, ks)
      == GatherByKey(s, key, held, ks) + if key(x) in ks then held(x) else multiset{}
    decreases |ks|
  {
    hide WithKey, Gather;
    if ks != [] {
      GatherByKeySnoc(s, x, key, held, Front(ks));
      var k := Last(ks);
      GroupSnoc(s, x, key, held, k);
      assert ks == Front(ks) + [k];
      if key(x) == k {
        assert k !in Front(ks);
      }
    }
  }

  /** Grouping neither loses nor copies anything. */
  lemma {:induction false} GroupingConserves<T, K(!new), E>(s: seq<T>, key: T -> K, held: T -> multiset<E>)
    ensures GatherByKey(s, key, held, Keys(s, key)) == Gather(s, held)
    decreases |s|
  {
    if s != [] {
      var init, x := Front(s), Last(s);
      assert s == init + [x];
      var ks, k := Keys(init, key), key(x);
      GroupingConserves(init, key, held);
      KeysAreKeys(init, key);
      GatherByKeySnoc(init, x, key, held, ks);
      if k !in ks {
        WithAbsentKey(init, key, k);
        assert Front(ks + [k]) == ks;
        assert WithKey(s, key, k) == [x];
        assert Gather([x], held) == held(x) by {
          assert Front([x]) == [];
        }
      }
    }
  }

  // ----- Stable sorting -----

  ghost predicate TotalPreorder<T(!new)>(le: (T, T) -> bool) {
    && (forall x, y :: le(x, y) || le(y, x))
    && (forall x, y, z :: le(x, y) && le(y, z) ==> le(x, z))
  }

  ghost predicate Sorted<T>(s: seq<T>, le: (T, T) -> bool) {
    forall i, j :: 0 <= i < j < |s| ==> le(s[i], s[j])
  }

  /** Puts `x` behind every element that is not greater. */
  function Insert<T>(s: seq<T>, x: T, le: (T, T) -> bool): (r: seq<T>)
    ensures |r| == |s| + 1
  {
    if s == [] || le(Last(s), x) then s + [x] else Insert(Front(s), x, le) + [Last(s)]
  }

  /** `sort`, which is stable: elements that compare equal keep their order. */
  function SortBy<T>(s: seq<T>, le: (T, T) -> bool): (r: seq<T>)
    ensures |r| == |s|
  {
    if s == [] then [] else Insert(SortBy(Front(s), le), Last(s), le)
  }

  lemma {:induction false} InsertHolds<T>(s: seq<T>, x: T, le: (T, T) -> bool)
    ensures multiset(Insert(s, x, le)) == multiset(s) + multiset{x}
    decreases |s|
  {
    if s != [] && !le(Last(s), x) {
      InsertHolds(Front(s), x, le);
      assert s == Front(s) + [Last(s)];
    }
  }

  lemma {:induction false} InsertSorts<T(!new)>(s: seq<T>, x: T, le: (T, T) -> bool)
    requires TotalPreorder(le) && Sorted(s, le)
    ensures Sorted(Insert(s, x, le), le)
    decreases |s|
  {
    if s != [] {
      if le(Last(s), x) {
        forall i | 0 <= i < |s|
          ensures le(s[i], x)
        {
          assert i < |s| - 1 ==> le(s[i], Last(s));
        }
      } else {
        var l, r := Last(s), Insert(Front(s), x, le);
        InsertSorts(Front(s), x, le);
        InsertHolds(Front(s), x, le);
        forall i | 0 <= i < |r|
          ensures le(r[i], l)
        {
          assert r[i] in multiset(r);
          if r[i] != x {
            assert r[i] in Front(s);
            var j :| 0 <= j < |Front(s)| && Front(s)[j] == r[i];
            assert le(s[j], s[|s| - 1]);
          }
        }
      }
    }
  }

  lemma {:induction false} SortBySorts<T(!new)>(s: seq<T>, le: (T, T) -> bool)
    requires TotalPreorder(le)
    ensures Sorted(SortBy(s, le), le)
    ensures multiset(SortBy(s, le)) == multiset(s)
    decreases |s|
  {
    if s != [] {
      SortBySorts(Front(s), le);
      InsertSorts(SortBy(Front(s), le), Last(s), le);
      InsertHolds(SortBy(Front(s), le), Last(s), le);
      assert s == Front(s) + [Last(s)];
    }
  }

  /** The elements that compare equal to `v`, in order. */
  function EqualTo<T>(s: seq<T>, v: T, le: (T, T) -> bool): seq<T> {
    if s == [] then []
    else EqualTo(Front(s), v, le) + if le(Last(s), v) && le(v, Last(s)) then [Last(s)] else []
  }

  lemma EqualToSnoc<T>(a: seq<T>, x: T, v: T, le: (T, T) -> bool)
    ensures EqualTo(a + [x], v, le) == EqualTo(a, v, le) + if le(x, v) && le(v, x) then [x] else []
  {
    assert Front(a + [x]) == a;
  }

  lemma {:induction false} InsertIsStable<T(!new)>(s: seq<T>, x: T, v: T, le: (T, T) -> bool)
    requires TotalPreorder(le)
    ensures EqualTo(Insert(s, x, le), v, le) == EqualTo(s + [x], v, le)
    decreases |s|
  {
    if s != [] && !le(Last(s), x) {
      hide EqualTo, TotalPreorder;
      var init, l := Front(s), Last(s);
      assert s == init + [l];
      InsertIsStable(init, x, v, le);
      EqualToSnoc(Insert(init, x, le), l, v, le);
      EqualToSnoc(init, x, v, le);
      EqualToSnoc(init, l, v, le);
      EqualToSnoc(s, x, v, le);
      NotBothEqual(x, l, v, le);
    }
  }

  lemma NotBothEqual<T(!new)>(x: T, l: T, v: T, le: (T, T) -> bool)
    requires TotalPreorder(le) && !le(l, x)
    ensures !(le(x, v) && le(v, x)) || !(le(l, v) && le(v, l))
  {
  }

  lemma {:induction false} SortByIsStable<T(!new)>(s: seq<T>, v: T, le: (T, T) -> bool)
    requires TotalPreorder(le)
    ensures EqualTo(SortBy(s, le), v, le) == EqualTo(s, v, le)
    decreases |s|
  {
    hide EqualTo, Insert, TotalPreorder;
    if s != [] {
      var init, x := Front(s), Last(s);
      SortByIsStable(init, v, le);
      InsertIsStable(SortBy(init, le), x, v, le);
      EqualToSnoc(SortBy(init, le), x, v, le);
      EqualToSnoc(init, x, v, le);
      assert s == init + [x];
    }
  }

  lemma {:induction false} GatherInsert<T, E>(s: seq<T>, x: T, le: (T, T) -> bool, held: T -> multiset<E>)
    ensures Gather(Insert(s, x, le), held) == Gather(s, held) + held(x)
    decreases |s|
  {
    if s == [] || le(Last(s), x) {
      assert Front(s + [x]) == s;
    } else {
      GatherInsert(Front(s), x, le, held);
      assert Front(Insert(Front(s), x, le) + [Last(s)]) == Insert(Front(s), x, le);
    }
  }

  /** Sorting neither loses nor copies anything. */
  lemma {:induction false} SortingConserves<T, E>(s: seq<T>, le: (T, T) -> bool, held: T -> multiset<E>)
    ensures Gather(SortBy(s, le), held) == Gather(s, held)
    decreases |s|
  {
    if s != [] {
      SortingConserves(Front(s), le, held);
      GatherInsert(SortBy(Front(s), le), Last(s), le, held);
    }
  }
}
