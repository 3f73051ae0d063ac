/**
 * The tree of LDIF entries: a heap trie of nodes with insertion-ordered child maps, built one entry
 * at a time, and the list functions it refines.
 */
module DnTrie {
  import opened Sequences
  import opened DnSyntax
  import opened DnPaths
  import opened Tries

  datatype LdifAttribute = LdifAttribute(name: string, value: string, isBinary: bool)
  datatype LdifEntry =
    LdifEntry(dn: string, objectClass: string, attributes: seq<LdifAttribute>, lineNumber: nat)

  type Located = Item<string, LdifEntry>

  /** The entries, each with the path of its name: what the tree must hold. */
  function Locate(es: seq<LdifEntry>): (items: seq<Located>)
    ensures |items| == |es|
  {
    if es == [] then [] else Locate(Front(es)) + [Item(PathOf(Last(es).dn), Last(es))]
  }

  lemma {:induction false} LocateAt(es: seq<LdifEntry>, i: nat)
    requires i < |es|
    ensures Locate(es)[i] == Item(PathOf(es[i].dn), es[i])
    decreases |es|
  {
    if i < |es| - 1 {
      LocateAt(Front(es), i);
    }
  }

  lemma LocateNothing()
    ensures Locate([]) == []
  {
  }

  // ----- The heap -----

  class DnTreeNode {
    const rdn: string
    const fullDn: string
    const level: nat
    /** A `Map`: the bindings, and the keys in the order of insertion. */
    var children: map<string, DnTreeNode>
    var childKeys: seq<string>
    var entries: seq<LdifEntry>

    constructor (rdn: string, fullDn: string, level: nat)
      ensures this.rdn == rdn && this.fullDn == fullDn && this.level == level
      ensures children == map[] && childKeys == [] && entries == []
    {
      this.rdn := rdn;
      this.fullDn := fullDn;
      this.level := level;
      children := map[];
      childKeys := [];
      entries := [];
    }
  }

  /**
   * What the proofs know of a heap tree: its nodes, each under its path, the child maps they have,
   * and the set of node objects.
   */
  datatype Trie = Trie(nodes: map<Path, DnTreeNode>, kids: map<Path, map<string, DnTreeNode>>,
                       keys: map<Path, seq<string>>, repr: set<DnTreeNode>)

  /** The object at `p` has the child maps of `t`, the labels of its path, and the entries with its path. */
  ghost predicate NodeFits(t: Trie, items: seq<Located>, p: Path)
    reads t.repr
  {
    && p in t.nodes && p in t.kids && p in t.keys
    && var n := t.nodes[p];
    && n in t.repr
    && n.children == t.kids[p] && n.childKeys == t.keys[p]
    && n.rdn == (if p == [] then "ROOT" else Last(p)) && n.fullDn == FullDn(p) && n.level == |p|
    && n.entries == EntriesAt(items, p)
  }

  /** `t` is the trie of the paths `ps` below `root`, and holds the items. */
  ghost predicate Holds(root: DnTreeNode, t: Trie, ps: seq<Path>, items: seq<Located>)
    reads t.repr
  {
    && [] in t.nodes && t.nodes[[]] == root
    && Shape(t.nodes, t.kids, t.keys, ps)
    && forall p {:trigger NodeFits(t, items, p)} :: p in t.nodes ==> NodeFits(t, items, p)
  }

  /** The tree refines the list of items. */
  ghost predicate IsTrie(root: DnTreeNode, t: Trie, items: seq<Located>)
    reads t.repr
  {
    Holds(root, t, PathsOf(items), items)
  }

  // ----- Building the tree -----

  /** One step of the walk along `c`: get or create the child for the component `c[index]`. */
  method Descend(root: DnTreeNode, ghost t: Trie, ghost items: seq<Located>, ghost c: Path,
                 current: DnTreeNode, rdn: string, fullDnPath: string, index: nat)
    returns (next: DnTreeNode, ghost t': Trie)
    requires index < |c| && Holds(root, t, PathsOf(items) + [c[..index]], items)
    requires c[..index] in t.nodes && current == t.nodes[c[..index]]
    requires rdn == c[index] && fullDnPath == FullDn(c[..index + 1])
    modifies current
    ensures Holds(root, t', PathsOf(items) + [c[..index + 1]], items)
    ensures c[..index + 1] in t'.nodes && next == t'.nodes[c[..index + 1]]
    ensures t.repr <= t'.repr && fresh(t'.repr - t.repr)
  {
    hide IsNode, ChildKeys, PathsOf, EntriesAt, FullDn, ChildrenFit;
    ghost var ps, lo, hi := PathsOf(items), c[..index], c[..index + 1];
    t' := t;
    assert NodeFits(t, items, lo);
    if rdn !in current.children {
      var n := new DnTreeNode(rdn, fullDnPath, index + 1);
      forall p | p in t.nodes
        ensures t.nodes[p] != n
      {
        assert NodeFits(t, items, p);
      }
      ChildAdded(t.nodes, t.kids, t.keys, ps, c, index, n);
      t' := Trie(t.nodes[hi := n], t.kids[lo := t.kids[lo][rdn := n]][hi := map[]],
                 t.keys[lo := t.keys[lo] + [rdn]][hi := []], t.repr + {n});
      IsNodeSnoc(ps, lo, hi);
      NoEntriesOffTheTree(items, hi);
      assert Last(hi) == rdn;
      label Before:
      current.children := current.children[rdn := n];
      current.childKeys := current.childKeys + [rdn];
      forall p | p in t'.nodes
        ensures NodeFits(t', items, p)
      {
        assert p != hi ==> old@Before(NodeFits(t, items, p));
      }
      next := n;
    } else {
      WalkOnto(t.nodes, t.kids, t.keys, ps, c, index);
      next := current.children[rdn];
    }
  }

  /** The loop body of `buildDnTree`: walk to the entry's node and append the entry. */
  method InsertEntry(root: DnTreeNode, ghost t: Trie, ghost es: seq<LdifEntry>, entry: LdifEntry)
    returns (ghost t': Trie)
    requires IsTrie(root, t, Locate(es))
    modifies t.repr
    ensures IsTrie(root, t', Locate(es + [entry]))
    ensures t.repr <= t'.repr && fresh(t'.repr - t.repr)
  {
    hide IsTrie;
    var split := SplitDn(entry.dn);
    var components := RemoveBaseDn(Reverse(split));
    t' := WalkAndAppend(root, t, Locate(es), components, entry);
    assert Front(es + [entry]) == es;
  }

  method WalkAndAppend(root: DnTreeNode, ghost t: Trie, ghost items: seq<Located>, components: Path, entry: LdifEntry)
    returns (ghost t': Trie)
    requires IsTrie(root, t, items)
    modifies t.repr
    ensures IsTrie(root, t', items + [Item(components, entry)])
    ensures t.repr <= t'.repr && fresh(t'.repr - t.repr)
  {
    ghost var c := components;
    t' := t;
    var currentNode := root;
    var fullDnPath := "";
    EmptyWalk(t.nodes, t.kids, t.keys, PathsOf(items));
    assert c[..0] == [];
    for index := 0 to |components|
      invariant Holds(root, t', PathsOf(items) + [c[..index]], items)
      invariant c[..index] in t'.nodes && currentNode == t'.nodes[c[..index]]
      invariant fullDnPath == FullDn(c[..index])
      invariant t.repr <= t'.repr && fresh(t'.repr - t.repr)
    {
      var rdn := components[index];
      assert Front(c[..index + 1]) == c[..index];
      fullDnPath := if fullDnPath != "" then rdn + "," + fullDnPath else rdn;
      assert NodeFits(t', items, c[..index]);
      currentNode, t' := Descend(root, t', items, c, currentNode, rdn, fullDnPath, index);
    }
    assert c[..|c|] == c;
    assert NodeFits(t', items, c);
    Append(root, t', items, c, currentNode, entry);
  }

  /** The entry ends up in the node at its path, and in no other. */
  method Append(ghost root: DnTreeNode, ghost t: Trie, ghost items: seq<Located>, ghost c: Path,
                currentNode: DnTreeNode, entry: LdifEntry)
    requires Holds(root, t, PathsOf(items) + [c], items)
    requires c in t.nodes && currentNode == t.nodes[c]
    modifies currentNode
    ensures IsTrie(root, t, items + [Item(c, entry)])
  {
    ghost var x := Item(c, entry);
    assert NodeFits(t, items, c);
    currentNode.entries := currentNode.entries + [entry];
    forall p | p in t.nodes
      ensures NodeFits(t, items + [x], p)
    {
      ItemsSnoc(items, x, p);
      assert old(NodeFits(t, items, p));
    }
    ItemsSnoc(items, x, c);
  }

  method NewTree() returns (root: DnTreeNode, ghost t: Trie)
    ensures IsTrie(root, t, [])
    ensures fresh(t.repr)
  {
    root := new DnTreeNode("ROOT", "", 0);
    t := Trie(map[[] := root], map[[] := map[]], map[[] := []], {root});
    assert NodeFits(t, [], []);
  }

  /** The heap tree holds, at each prefix of an entry's path, exactly the entries with that path. */
  method BuildDnTree(entries: seq<LdifEntry>) returns (root: DnTreeNode, ghost t: Trie)
    ensures IsTrie(root, t, Locate(entries))
    ensures fresh(t.repr)
  {
    hide IsTrie, Locate;
    root, t := NewTree();
    LocateNothing();
    assert entries[..0] == [];
    for i := 0 to |entries|
      invariant IsTrie(root, t, Locate(entries[..i]))
      invariant fresh(t.repr)
    {
      assert entries[..i] + [entries[i]] == entries[..i + 1];
      t := InsertEntry(root, t, entries[..i], entries[i]);
    }
    assert entries[..|entries|] == entries;
  }
}
