/**
 * A trie over paths of keys, seen as a map from paths to nodes: which nodes and which child keys a
 * list of paths calls for, and how one step of a walk changes them.
 */
module Tries {
  import opened Sequences

  /** `p` is the root or a prefix of one of the paths. */
  predicate IsNode<K(==)>(ps: seq<seq<K>>, p: seq<K>) {
    p == [] || (ps != [] && (p <= Last(ps) || IsNode(Front(ps), p)))
  }

  /** The keys that follow `p` in the paths, in order of first appearance. */
  function ChildKeys<K(==)>(ps: seq<seq<K>>, p: seq<K>): seq<K> {
    if ps == [] then []
    else
      var keys := ChildKeys(Front(ps), p);
      if p < Last(ps) && Last(ps)[|p|] !in keys then keys + [Last(ps)[|p|]] else keys
  }

  /** Something with a path it belongs to. */
  datatype Item<K, E> = Item(path: seq<K>, entry: E)

  function PathsOf<K, E>(items: seq<Item<K, E>>): seq<seq<K>> {
    if items == [] then [] else PathsOf(Front(items)) + [Last(items).path]
  }

  /** The entries whose path is `p`, in input order. */
  function EntriesAt<K(==), E>(items: seq<Item<K, E>>, p: seq<K>): seq<E> {
    if items == [] then []
    else EntriesAt(Front(items), p) + (if Last(items).path == p then [Last(items).entry] else [])
  }

  lemma ItemsSnoc<K, E>(items: seq<Item<K, E>>, x: Item<K, E>, p: seq<K>)
    ensures PathsOf(items + [x]) == PathsOf(items) + [x.path]
    ensures EntriesAt(items + [x], p) == EntriesAt(items, p) + if x.path == p then [x.entry] else []
  {
    assert Front(items + [x]) == items;
  }

  function HasPath<K(==), E>(p: seq<K>): Item<K, E> -> bool {
    (x: Item<K, E>) => x.path == p
  }

  function EntriesOf<K, E>(items: seq<Item<K, E>>): (r: seq<E>)
    ensures |r| == |items| && forall i :: 0 <= i < |items| ==> r[i] == items[i].entry
  {
    seq(|items|, i requires 0 <= i < |items| => items[i].entry)
  }

  /** The entries at `p` are those of exactly the items with that path, in input order. */
  lemma {:induction false} EntriesAtAre<K, E>(items: seq<Item<K, E>>, p: seq<K>) returns (r: seq<Item<K, E>>)
    ensures IsFiltered(items, HasPath(p), r) && EntriesAt(items, p) == EntriesOf(r)
    decreases |items|
  {
    hide IsFiltered;
    if items == [] {
      r := [];
      NothingIsFiltered(HasPath<K, E>(p));
    } else {
      var init, x := Front(items), Last(items);
      var before := EntriesAtAre(init, p);
      r := before + if HasPath(p)(x) then [x] else [];
      FilteredSnoc(init, x, HasPath(p), before);
      assert items == init + [x];
    }
  }

  lemma {:induction false} NoEntriesOffTheTree<K, E>(items: seq<Item<K, E>>, p: seq<K>)
    requires !IsNode(PathsOf(items), p)
    ensures EntriesAt(items, p) == []
    decreases |items|
  {
    if items != [] {
      assert Front(PathsOf(items)) == PathsOf(Front(items));
      NoEntriesOffTheTree(Front(items), p);
    }
  }

  lemma IsNodeSnoc<K>(ps: seq<seq<K>>, c: seq<K>, p: seq<K>)
    ensures IsNode(ps + [c], p) <==> IsNode(ps, p) || p <= c
  {
    assert Front(ps + [c]) == ps;
  }

  lemma ChildKeysSnoc<K>(ps: seq<seq<K>>, c: seq<K>, p: seq<K>)
    ensures ChildKeys(ps + [c], p) ==
      var keys := ChildKeys(ps, p);
      if p < c && c[|p|] !in keys then keys + [c[|p|]] else keys
  {
    assert Front(ps + [c]) == ps;
  }

  /** Being a node means being a prefix of some path. */
  lemma {:induction false} IsNodeMeansPrefix<K>(ps: seq<seq<K>>, p: seq<K>)
    ensures IsNode(ps, p) <==> p == [] || exists i :: 0 <= i < |ps| && p <= ps[i]
    decreases |ps|
  {
    if ps != [] {
      IsNodeMeansPrefix(Front(ps), p);
      assert forall i :: 0 <= i < |ps| - 1 ==> Front(ps)[i] == ps[i];
    }
  }

  /** The nodes are closed under prefixes. */
  lemma {:induction false} PrefixOfNode<K>(ps: seq<seq<K>>, p: seq<K>, q: seq<K>)
    requires IsNode(ps, q) && p <= q
    ensures IsNode(ps, p)
    decreases |ps|
  {
    if q == [] {
    } else if q <= Last(ps) {
      assert p <= Last(ps);
    } else {
      PrefixOfNode(Front(ps), p, q);
    }
  }

  /** The child keys of `p` are exactly the keys that lead to a node, each listed once. */
  lemma {:induction false} ChildKeysAreNodes<K(!new)>(ps: seq<seq<K>>, p: seq<K>)
    ensures forall k :: k in ChildKeys(ps, p) <==> IsNode(ps, p + [k])
    ensures NoDup(ChildKeys(ps, p))
    decreases |ps|
  {
    if ps != [] {
      var c := Last(ps);
      assert ps == Front(ps) + [c];
      ChildKeysAreNodes(Front(ps), p);
      forall k
        ensures k in ChildKeys(ps, p) <==> IsNode(ps, p + [k])
      {
        IsNodeSnoc(Front(ps), c, p + [k]);
        assert p + [k] <= c <==> p < c && c[|p|] == k;
      }
    }
  }

  /**
   * The child keys are in the order in which the paths bring them: of any two, there is a moment at
   * which the first is there and the second is not.
   */
  lemma {:induction false} ChildKeysInOrder<K(!new)>(ps: seq<seq<K>>, p: seq<K>, i: nat, j: nat) returns (n: nat)
    requires i < j < |ChildKeys(ps, p)|
    ensures n <= |ps|
    ensures IsNode(ps[..n], p + [ChildKeys(ps, p)[i]]) && !IsNode(ps[..n], p + [ChildKeys(ps, p)[j]])
    decreases |ps|
  {
    var init := Front(ps);
    ChildKeysAreNodes(init, p);
    if j < |ChildKeys(init, p)| {
      n := ChildKeysInOrder(init, p, i, j);
      assert init[..n] == ps[..n];
    } else {
      n := |init|;
      assert ps[..n] == init;
    }
  }

  lemma NoChildrenOffTheTree<K(!new)>(ps: seq<seq<K>>, p: seq<K>)
    requires !IsNode(ps, p)
    ensures ChildKeys(ps, p) == []
  {
    ChildKeysAreNodes(ps, p);
    if ChildKeys(ps, p) != [] {
      PrefixOfNode(ps, p, p + [ChildKeys(ps, p)[0]]);
    }
  }

  // ----- Walking along a path -----

  /** Walking one key further adds at most one node, and changes the child keys of the current node only. */
  lemma WalkStep<K>(ps: seq<seq<K>>, c: seq<K>, i: nat, p: seq<K>)
    requires i < |c|
    ensures IsNode(ps + [c[..i + 1]], p) <==> IsNode(ps + [c[..i]], p) || p == c[..i + 1]
    ensures p != c[..i] ==> ChildKeys(ps + [c[..i + 1]], p) == ChildKeys(ps + [c[..i]], p)
    ensures ChildKeys(ps + [c[..i]], c[..i]) == ChildKeys(ps, c[..i])
    ensures ChildKeys(ps + [c[..i + 1]], c[..i]) ==
      var keys := ChildKeys(ps, c[..i]); if c[i] in keys then keys else keys + [c[i]]
  {
    hide IsNode, ChildKeys;
    var lo, hi := c[..i], c[..i + 1];
    IsNodeSnoc(ps, lo, p);
    IsNodeSnoc(ps, hi, p);
    ChildKeysSnoc(ps, lo, p);
    ChildKeysSnoc(ps, hi, p);
    ChildKeysSnoc(ps, lo, lo);
    ChildKeysSnoc(ps, hi, lo);
    assert hi == lo + [c[i]];
    if p <= hi && p != hi {
      assert p == hi[..|p|] == lo[..|p|];
    }
    if p < hi && p != lo {
      assert p < lo && lo[|p|] == hi[|p|];
    }
  }

  lemma KeyIffNode<K(!new)>(ps: seq<seq<K>>, c: seq<K>, i: nat)
    requires i < |c|
    ensures c[i] in ChildKeys(ps, c[..i]) <==> IsNode(ps + [c[..i]], c[..i + 1])
  {
    ChildKeysAreNodes(ps, c[..i]);
    IsNodeSnoc(ps, c[..i], c[..i + 1]);
    assert c[..i] + [c[i]] == c[..i + 1];
  }

  // ----- Maps from paths to nodes -----

  /**
   * `kids` and `keys` are the child maps of the nodes: the bindings, and the keys in the order of
   * insertion. The node at `p` has the children that the paths `ps` call for.
   */
  ghost predicate ChildrenFit<K(!new), N>(nodes: map<seq<K>, N>, children: map<K, N>, childKeys: seq<K>,
                                          ps: seq<seq<K>>, p: seq<K>) {
    && childKeys == ChildKeys(ps, p)
    && (forall k :: k in children <==> k in childKeys)
    && (forall k {:trigger children[k]} :: k in children ==> p + [k] in nodes && children[k] == nodes[p + [k]])
  }

  ghost predicate Distinct<K(!new), N>(nodes: map<seq<K>, N>) {
    forall p, q :: p in nodes && q in nodes && p != q ==> nodes[p] != nodes[q]
  }

  /** A trie with a node for exactly the prefixes of `ps`, and no node at two paths. */
  ghost predicate Shape<K(!new), N>(nodes: map<seq<K>, N>, kids: map<seq<K>, map<K, N>>,
                                    keys: map<seq<K>, seq<K>>, ps: seq<seq<K>>) {
    && nodes.Keys == kids.Keys == keys.Keys
    && (forall p {:trigger IsNode(ps, p)} :: p in nodes <==> IsNode(ps, p))
    && Distinct(nodes)
    && forall p {:trigger kids[p]} {:trigger keys[p]} :: p in nodes ==>
         ChildrenFit(nodes, kids[p], keys[p], ps, p)
  }

  /** A walk of no steps adds nothing. */
  lemma EmptyWalk<K(!new), N>(nodes: map<seq<K>, N>, kids: map<seq<K>, map<K, N>>,
                              keys: map<seq<K>, seq<K>>, ps: seq<seq<K>>)
    requires Shape(nodes, kids, keys, ps)
    ensures Shape(nodes, kids, keys, ps + [[]])
  {
    forall p: seq<K> {:trigger IsNode(ps + [[]], p)}
      ensures IsNode(ps + [[]], p) <==> p in nodes
    {
      IsNodeSnoc(ps, [], p);
      assert IsNode(ps, p) <==> p in nodes;
    }
    forall p | p in nodes
      ensures ChildrenFit(nodes, kids[p], keys[p], ps + [[]], p)
    {
      ChildKeysSnoc(ps, [], p);
    }
  }

  lemma NodesAfterStep<K(!new), N>(nodes: map<seq<K>, N>, ps: seq<seq<K>>, c: seq<K>, i: nat, n: N)
    requires i < |c|
    requires forall p {:trigger IsNode(ps + [c[..i]], p)} :: p in nodes <==> IsNode(ps + [c[..i]], p)
    ensures forall p {:trigger IsNode(ps + [c[..i + 1]], p)} ::
      p in nodes[c[..i + 1] := n] <==> IsNode(ps + [c[..i + 1]], p)
  {
    forall p: seq<K> {:trigger IsNode(ps + [c[..i + 1]], p)}
      ensures p in nodes[c[..i + 1] := n] <==> IsNode(ps + [c[..i + 1]], p)
    {
      WalkStep(ps, c, i, p);
    }
  }

  /** A new leaf, bound in the current node, takes the walk one key further. */
  lemma ChildAdded<K(!new), N>(nodes: map<seq<K>, N>, kids: map<seq<K>, map<K, N>>, keys: map<seq<K>, seq<K>>,
                               ps: seq<seq<K>>, c: seq<K>, i: nat, n: N)
    requires i < |c| && c[..i] in nodes && Shape(nodes, kids, keys, ps + [c[..i]])
    requires c[i] !in kids[c[..i]]
    requires forall p :: p in nodes ==> nodes[p] != n
    ensures c[..i + 1] !in nodes && c[..i] != c[..i + 1]
    ensures Shape(nodes[c[..i + 1] := n],
                  kids[c[..i] := kids[c[..i]][c[i] := n]][c[..i + 1] := map[]],
                  keys[c[..i] := keys[c[..i]] + [c[i]]][c[..i + 1] := []],
                  ps + [c[..i + 1]])
  {
    var lo, hi := c[..i], c[..i + 1];
    WalkStep(ps, c, i, lo);
    KeyIffNode(ps, c, i);
    var nodes' := nodes[hi := n];
    var kids' := kids[lo := kids[lo][c[i] := n]][hi := map[]];
    var keys' := keys[lo := keys[lo] + [c[i]]][hi := []];
    forall p | p in nodes'
      ensures ChildrenFit(nodes', kids'[p], keys'[p], ps + [hi], p)
    {
      ChildrenAfterStep(nodes, kids, keys, ps, c, i, n, p);
    }
    NodesAfterStep(nodes, ps, c, i, n);
  }

  lemma ChildrenAfterStep<K(!new), N>(nodes: map<seq<K>, N>, kids: map<seq<K>, map<K, N>>,
                                      keys: map<seq<K>, seq<K>>, ps: seq<seq<K>>,
                                      c: seq<K>, i: nat, n: N, p: seq<K>)
    requires i < |c| && c[..i + 1] !in nodes && !IsNode(ps + [c[..i]], c[..i + 1])
    requires p != c[..i + 1] ==>
      p in kids && p in keys && ChildrenFit(nodes, kids[p], keys[p], ps + [c[..i]], p)
    requires c[..i] in kids && c[..i] in keys && c[i] !in ChildKeys(ps, c[..i])
    ensures
      var kids' := kids[c[..i] := kids[c[..i]][c[i] := n]][c[..i + 1] := map[]];
      var keys' := keys[c[..i] := keys[c[..i]] + [c[i]]][c[..i + 1] := []];
      ChildrenFit(nodes[c[..i + 1] := n], kids'[p], keys'[p], ps + [c[..i + 1]], p)
  {
    hide IsNode, ChildKeys;
    assert c[..i + 1] == c[..i] + [c[i]];
    WalkStep(ps, c, i, p);
    if p == c[..i + 1] {
      NoChildrenOffTheTree(ps + [c[..i]], p);
    }
  }

  /** Walking onto an existing child changes nothing. */
  lemma WalkOnto<K(!new), N>(nodes: map<seq<K>, N>, kids: map<seq<K>, map<K, N>>, keys: map<seq<K>, seq<K>>,
                             ps: seq<seq<K>>, c: seq<K>, i: nat)
    requires i < |c| && c[..i] in nodes && Shape(nodes, kids, keys, ps + [c[..i]])
    requires c[i] in kids[c[..i]]
    ensures Shape(nodes, kids, keys, ps + [c[..i + 1]])
    ensures c[..i + 1] in nodes && kids[c[..i]][c[i]] == nodes[c[..i + 1]]
  {
    var lo, hi := c[..i], c[..i + 1];
    assert hi == lo + [c[i]];
    WalkStep(ps, c, i, lo);
    forall p | p in nodes
      ensures ChildrenFit(nodes, kids[p], keys[p], ps + [hi], p)
    {
      WalkStep(ps, c, i, p);
    }
    assert nodes[hi := nodes[hi]] == nodes;
    NodesAfterStep(nodes, ps, c, i, nodes[hi]);
  }
}
