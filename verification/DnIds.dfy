/**
 * What the rendered tree of LDIF entries shows: every node, entry and attribute exactly once, and
 * when the ids tell them apart.
 */
module DnIds {
  import opened Sequences
  import opened DnSyntax
  import opened DnPaths
  import opened Tries
  import opened DnTrie
  import opened DnRender
  import opened TreeViewer

  // ----- Facts about the tree -----

  /** A node below the root without children holds an entry. */
  lemma {:induction false} LeavesHoldEntries(items: seq<Located>, p: Path)
    requires IsNode(PathsOf(items), p) && p != []
    requires ChildKeys(PathsOf(items), p) == []
    ensures EntriesAt(items, p) != []
    decreases |items|
  {
    var ps := PathsOf(items);
    var x := Last(items);
    assert Front(ps) == PathsOf(Front(items)) && Last(ps) == x.path;
    if !(p <= x.path) {
      LeavesHoldEntries(Front(items), p);
    }
  }

  lemma {:induction false} PathsAreParsed(es: seq<LdifEntry>, p: Path)
    requires IsNode(PathsOf(Locate(es)), p)
    ensures forall c :: c in p ==> IsComponent(c)
    decreases |es|
  {
    if es != [] && p != [] {
      var items := Locate(es);
      var q := PathOf(Last(es).dn);
      assert PathsOf(items) == PathsOf(Locate(Front(es))) + [q] by {
        assert Front(items) == Locate(Front(es));
      }
      IsNodeSnoc(PathsOf(Locate(Front(es))), q, p);
      if p <= q {
        PathsHoldComponents(Last(es).dn);
        forall c | c in p
          ensures c in q
        {
          var i :| 0 <= i < |p| && p[i] == c;
          assert q[i] == c;
        }
      } else {
        PathsAreParsed(Front(es), p);
      }
    }
  }

  /**
   * Every node of the tree: it is bound in its parent under its own name, its level is the length
   * of its path, and the name it displays parses back to its path exactly when the topmost
   * component is not empty and no lower one ends inside an escape.
   */
  lemma NodesShowTheirPath(root: DnTreeNode, t: Trie, es: seq<LdifEntry>, p: Path)
    requires IsTrie(root, t, Locate(es)) && p in t.nodes
    ensures t.nodes[p].level == |p|
    ensures p != [] ==>
      Front(p) in t.nodes && t.nodes[p].rdn == Last(p) && Last(p) in t.nodes[Front(p)].children
      && t.nodes[Front(p)].children[Last(p)] == t.nodes[p]
    ensures Reverse(Components(t.nodes[p].fullDn)) == p <==>
      (p != [] ==> p[0] != "") && forall i :: 1 <= i < |p| ==> Closed(p[i])
  {
    hide IsComponent, Components, FullDn, Closed, ChildKeys, EntriesAt;
    var items := Locate(es);
    NodeIsListed(root, t, items, p);
    PathsAreParsed(es, p);
    FullDnReparses(p);
    if p != [] {
      var q, k := Front(p), Last(p);
      assert p == q + [k];
      PrefixOfNode(PathsOf(items), q, p);
      NodeIsListed(root, t, items, q);
      ChildKeysAreNodes(PathsOf(items), q);
      ChildIsListed(root, t, items, q, k);
    }
  }

  // ----- What is rendered -----

  /** A thing the output shows: a tree node, an entry of a node, or an attribute of such an entry. */
  datatype Address = DnAddr(path: Path) | EntryAddr(path: Path, i: nat) | AttrAddr(path: Path, i: nat, j: nat)

  predicate Exists(items: seq<Located>, a: Address) {
    && IsNode(PathsOf(items), a.path)
    && (!a.DnAddr? ==> a.i < |EntriesAt(items, a.path)|)
    && (a.AttrAddr? ==> a.j < |EntriesAt(items, a.path)[a.i].attributes|)
  }

  function PathId(p: Path): string {
    if p == [] then "root" else ChildId(PathId(Front(p)), Last(p))
  }

  function IdOf(a: Address): string {
    match a
    case DnAddr(p) => PathId(p)
    case EntryAddr(p, i) => EntryId(PathId(p), i)
    case AttrAddr(p, i, j) => AttrId(PathId(p), i, j)
  }

  function IdsOf(s: seq<Address>): (r: seq<string>)
    ensures |r| == |s|
  {
    if s == [] then [] else IdsOf(Front(s)) + [IdOf(Last(s))]
  }

  function AttrAddresses(p: Path, i: nat, n: nat): (r: seq<Address>)
    ensures |r| == n
  {
    if n == 0 then [] else AttrAddresses(p, i, n - 1) + [AttrAddr(p, i, n - 1)]
  }

  function EntryAddresses(p: Path, es: seq<LdifEntry>): seq<Address> {
    if es == [] then []
    else
      EntryAddresses(p, Front(es))
      + [EntryAddr(p, |es| - 1)] + AttrAddresses(p, |es| - 1, |Last(es).attributes|)
  }

  /** What the output for the node at `p` shows, in the order of the output. */
  function Addresses(items: seq<Located>, p: Path): seq<Address>
    requires IsNode(PathsOf(items), p)
    decreases Depth(PathsOf(items)) - |p|, 1, 0
  {
    NodeDepth(PathsOf(items), p);
    ChildKeysAreNodes(PathsOf(items), p);
    [DnAddr(p)]
    + KidAddresses(items, p, ChildKeys(PathsOf(items), p)) + EntryAddresses(p, EntriesAt(items, p))
  }

  function KidAddresses(items: seq<Located>, p: Path, keys: seq<string>): seq<Address>
    requires AreKids(PathsOf(items), p, keys)
    decreases Depth(PathsOf(items)) - |p|, 0, |keys|
  {
    if keys == [] then []
    else
      assert Last(keys) in keys;
      NodeDepth(PathsOf(items), p + [Last(keys)]);
      KidAddresses(items, p, Front(keys)) + Addresses(items, p + [Last(keys)])
  }

  // ----- The ids shown are those of the addresses, in order -----

  lemma IdsOfSnoc(a: seq<Address>, x: Address)
    ensures IdsOf(a + [x]) == IdsOf(a) + [IdOf(x)]
  {
    assert Front(a + [x]) == a;
  }

  lemma {:induction false} IdsOfConcat(a: seq<Address>, b: seq<Address>)
    ensures IdsOf(a + b) == IdsOf(a) + IdsOf(b)
    decreases |b|
  {
    if b == [] {
      assert a + b == a;
    } else {
      hide IdsOf;
      var init, x := Front(b), Last(b);
      assert b == init + [x] && a + b == a + init + [x];
      IdsOfConcat(a, init);
      IdsOfSnoc(a + init, x);
      IdsOfSnoc(init, x);
    }
  }

  lemma {:induction false} AttributeIds(p: Path, i: nat, attrs: seq<LdifAttribute>)
    ensures IdsAll(RenderAttributes(PathId(p), i, attrs)) == IdsOf(AttrAddresses(p, i, |attrs|))
    decreases |attrs|
  {
    hide PathId, AttrId;
    if attrs != [] {
      AttributeIds(p, i, Front(attrs));
      var r := RenderAttributes(PathId(p), i, attrs);
      assert Front(r) == RenderAttributes(PathId(p), i, Front(attrs));
      assert Ids(Last(r)) == [AttrId(PathId(p), i, |attrs| - 1)];
      var s := AttrAddresses(p, i, |attrs|);
      assert Front(s) == AttrAddresses(p, i, |attrs| - 1);
    }
  }

  lemma {:induction false} EntryIds(p: Path, es: seq<LdifEntry>)
    ensures IdsAll(RenderEntries(PathId(p), es)) == IdsOf(EntryAddresses(p, es))
    decreases |es|
  {
    hide PathId, EntryId, RenderAttributes, AttrAddresses, TruncateRdn;
    if es != [] {
      var i, e := |es| - 1, Last(es);
      EntryIds(p, Front(es));
      AttributeIds(p, i, e.attributes);
      var r := RenderEntries(PathId(p), es);
      assert Front(r) == RenderEntries(PathId(p), Front(es));
      assert Ids(Last(r)) == [EntryId(PathId(p), i)] + IdsAll(RenderAttributes(PathId(p), i, e.attributes));
      IdsOfConcat(EntryAddresses(p, Front(es)) + [EntryAddr(p, i)], AttrAddresses(p, i, |e.attributes|));
      IdsOfConcat(EntryAddresses(p, Front(es)), [EntryAddr(p, i)]);
      assert IdsOf([EntryAddr(p, i)]) == [EntryId(PathId(p), i)];
    }
  }

  lemma IdsOfAssembled(nodeId: string, rdn: string, es: seq<LdifEntry>, children: seq<TreeNode>)
    ensures Ids(Assemble(nodeId, rdn, es, children)) == [nodeId] + IdsAll(children)
  {
    hide TruncateRdn;
  }

  lemma IdsOfOne(a: Address)
    ensures IdsOf([a]) == [IdOf(a)]
  {
    assert IdsOf(Front([a])) == [];
  }

  /** The output shows exactly the addresses below `p`, under their ids. */
  lemma {:induction false} RenderedIds(items: seq<Located>, p: Path)
    requires IsNode(PathsOf(items), p)
    ensures Ids(Render(items, p, PathId(p))) == IdsOf(Addresses(items, p))
    decreases Depth(PathsOf(items)) - |p|, 1, 0
  {
    hide PathId, EntriesAt, PathsOf, Depth, IsNode, ChildKeys, RenderEntries, RenderKids, KidAddresses,
      EntryAddresses, Assemble, Ids, IdsAll, IdsOf;
    var ps := PathsOf(items);
    NodeDepth(ps, p);
    ChildKeysAreNodes(ps, p);
    var keys, es := ChildKeys(ps, p), EntriesAt(items, p);
    KidIds(items, p, keys);
    EntryIds(p, es);
    var kids, entries := RenderKids(items, p, keys, PathId(p)), RenderEntries(PathId(p), es);
    IdsAllConcat(kids, entries);
    IdsOfAssembled(PathId(p), RdnOf(p), es, kids + entries);
    var below := KidAddresses(items, p, keys);
    IdsOfConcat([DnAddr(p)] + below, EntryAddresses(p, es));
    IdsOfConcat([DnAddr(p)], below);
    IdsOfOne(DnAddr(p));
  }

  lemma {:induction false} KidIds(items: seq<Located>, p: Path, keys: seq<string>)
    requires AreKids(PathsOf(items), p, keys)
    ensures IdsAll(RenderKids(items, p, keys, PathId(p))) == IdsOf(KidAddresses(items, p, keys))
    decreases Depth(PathsOf(items)) - |p|, 0, |keys|
  {
    hide EntriesAt, PathsOf, Depth, IsNode, ChildKeys, Render, Addresses, ChildId;
    if keys != [] {
      var k := Last(keys);
      assert k in keys;
      NodeDepth(PathsOf(items), p + [k]);
      IdsOfConcat(KidAddresses(items, p, Front(keys)), Addresses(items, p + [k]));
      KidIds(items, p, Front(keys));
      RenderedIds(items, p + [k]);
      assert Front(p + [k]) == p;
      var r := RenderKids(items, p, keys, PathId(p));
      assert Front(r) == RenderKids(items, p, Front(keys), PathId(p));
    }
  }

  // ----- Every address is shown once -----

  lemma {:induction false} AttrAddressesAre(p: Path, i: nat, n: nat)
    ensures forall a :: a in AttrAddresses(p, i, n) <==> a.AttrAddr? && a.path == p && a.i == i && a.j < n
    ensures NoDup(AttrAddresses(p, i, n))
  {
    if n > 0 {
      AttrAddressesAre(p, i, n - 1);
    }
  }

  predicate IsEntryAddress(p: Path, es: seq<LdifEntry>, a: Address) {
    !a.DnAddr? && a.path == p && a.i < |es| && (a.AttrAddr? ==> a.j < |es[a.i].attributes|)
  }

  lemma {:induction false} EntryAddressesAre(p: Path, es: seq<LdifEntry>)
    ensures forall a :: a in EntryAddresses(p, es) <==> IsEntryAddress(p, es, a)
    ensures NoDup(EntryAddresses(p, es))
    decreases |es|
  {
    if es != [] {
      var i := |es| - 1;
      EntryAddressesAre(p, Front(es));
      AttrAddressesAre(p, i, |Last(es).attributes|);
      var before, own := EntryAddresses(p, Front(es)), [EntryAddr(p, i)];
      var attrs := AttrAddresses(p, i, |Last(es).attributes|);
      NoDupConcat(before, own);
      NoDupConcat(before + own, attrs);
    }
  }

  predicate IsKidAddress(items: seq<Located>, p: Path, keys: seq<string>, a: Address) {
    p < a.path && a.path[|p|] in keys && Exists(items, a)
  }

  /** The output below `p` shows exactly the existing things at and below `p`, each once. */
  lemma {:induction false} EachShownOnce(items: seq<Located>, p: Path)
    requires IsNode(PathsOf(items), p)
    ensures forall a :: a in Addresses(items, p) <==> p <= a.path && Exists(items, a)
    ensures NoDup(Addresses(items, p))
    decreases Depth(PathsOf(items)) - |p|, 1, 0
  {
    hide PathsOf, Depth, IsNode, ChildKeys, EntriesAt, EntryAddresses, KidAddresses;
    var ps := PathsOf(items);
    NodeDepth(ps, p);
    ChildKeysAreNodes(ps, p);
    var keys, es := ChildKeys(ps, p), EntriesAt(items, p);
    KidsShownOnce(items, p, keys);
    EntryAddressesAre(p, es);
    var own, below, here := [DnAddr(p)], KidAddresses(items, p, keys), EntryAddresses(p, es);
    NoDupConcat(own, below);
    NoDupConcat(own + below, here);
    forall a
      ensures a in Addresses(items, p) <==> p <= a.path && Exists(items, a)
    {
      assert a in Addresses(items, p) <==> a in own || a in below || a in here;
      assert a.path == p ==> (Exists(items, a) <==> a in own || a in here);
      if p < a.path && Exists(items, a) {
        assert p + [a.path[|p|]] <= a.path;
        PrefixOfNode(ps, p + [a.path[|p|]], a.path);
        assert IsKidAddress(items, p, keys, a);
      }
    }
  }

  lemma {:induction false} KidsShownOnce(items: seq<Located>, p: Path, keys: seq<string>)
    requires AreKids(PathsOf(items), p, keys) && NoDup(keys)
    ensures forall a :: a in KidAddresses(items, p, keys) <==> IsKidAddress(items, p, keys, a)
    ensures NoDup(KidAddresses(items, p, keys))
    decreases Depth(PathsOf(items)) - |p|, 0, |keys|
  {
    hide PathsOf, Depth, IsNode, Exists, Addresses;
    if keys != [] {
      var k := Last(keys);
      assert k in keys;
      NodeDepth(PathsOf(items), p + [k]);
      KidsShownOnce(items, p, Front(keys));
      EachShownOnce(items, p + [k]);
      assert forall a: Address :: p + [k] <= a.path <==> p < a.path && a.path[|p|] == k;
      NoDupConcat(KidAddresses(items, p, Front(keys)), Addresses(items, p + [k]));
    }
  }

  // ----- Conservation -----

  /** What one entry contributes to the output: itself and its attributes. */
  function Weight(e: LdifEntry): nat {
    1 + |e.attributes|
  }

  function TotalWeight(es: seq<LdifEntry>): nat {
    if es == [] then 0 else TotalWeight(Front(es)) + Weight(Last(es))
  }

  function WeightBelow(items: seq<Located>, p: Path): nat {
    if items == [] then 0
    else WeightBelow(Front(items), p) + (if p <= Last(items).path then Weight(Last(items).entry) else 0)
  }

  function WeightOfKids(items: seq<Located>, p: Path, keys: seq<string>): nat {
    if keys == [] then 0 else WeightOfKids(items, p, Front(keys)) + WeightBelow(items, p + [Last(keys)])
  }

  lemma {:induction false} NoWeightOffTheTree(items: seq<Located>, p: Path)
    requires !IsNode(PathsOf(items), p)
    ensures WeightBelow(items, p) == 0
    decreases |items|
  {
    if items != [] {
      assert Front(PathsOf(items)) == PathsOf(Front(items));
      NoWeightOffTheTree(Front(items), p);
    }
  }

  lemma {:induction false} WeightOfKidsSnoc(items: seq<Located>, x: Located, p: Path, keys: seq<string>)
    requires NoDup(keys)
    ensures WeightOfKids(items + [x], p, keys) ==
      WeightOfKids(items, p, keys) + if p < x.path && x.path[|p|] in keys then Weight(x.entry) else 0
    decreases |keys|
  {
    if keys != [] {
      var k := Last(keys);
      WeightOfKidsSnoc(items, x, p, Front(keys));
      assert Front(items + [x]) == items;
      assert p + [k] <= x.path <==> p < x.path && x.path[|p|] == k;
    }
  }

  lemma WeightBelowSnoc(items: seq<Located>, x: Located, p: Path)
    ensures WeightBelow(items + [x], p) == WeightBelow(items, p) + if p <= x.path then Weight(x.entry) else 0
  {
    assert Front(items + [x]) == items;
  }

  lemma KeySnoc(items: seq<Located>, p: Path, keys: seq<string>, k: string)
    ensures WeightOfKids(items, p, keys + [k]) == WeightOfKids(items, p, keys) + WeightBelow(items, p + [k])
  {
    assert Front(keys + [k]) == keys;
  }

  lemma NewKeyWeight(items: seq<Located>, x: Located, p: Path, keys: seq<string>)
    requires NoDup(keys) && p < x.path && x.path[|p|] !in keys
    requires WeightBelow(items, p + [x.path[|p|]]) == 0
    ensures WeightOfKids(items + [x], p, keys + [x.path[|p|]])
      == WeightOfKids(items, p, keys) + Weight(x.entry)
  {
    hide NoDup, Weight, WeightOfKids, WeightBelow;
    var k := x.path[|p|];
    KeySnoc(items + [x], p, keys, k);
    WeightOfKidsSnoc(items, x, p, keys);
    WeightBelowSnoc(items, x, p + [k]);
    assert p + [k] <= x.path;
  }

  lemma EmptyTree(p: Path)
    ensures EntriesAt<string, LdifEntry>([], p) == []
    ensures ChildKeys(PathsOf<string, LdifEntry>([]), p) == []
  {
  }

  /** The entries below `p` are those at `p` and those below its children. */
  lemma {:induction false} WeightSplits(items: seq<Located>, p: Path)
    ensures WeightBelow(items, p)
      == TotalWeight(EntriesAt(items, p)) + WeightOfKids(items, p, ChildKeys(PathsOf(items), p))
    decreases |items|
  {
    hide ChildKeys, IsNode, PathsOf, EntriesAt;
    if items == [] {
      EmptyTree(p);
    } else {
      assert items == Front(items) + [Last(items)];
      WeightSplits(Front(items), p);
      WeightSplitsSnoc(Front(items), Last(items), p);
    }
  }

  lemma WeightSplitsSnoc(items: seq<Located>, x: Located, p: Path)
    requires WeightBelow(items, p)
      == TotalWeight(EntriesAt(items, p)) + WeightOfKids(items, p, ChildKeys(PathsOf(items), p))
    ensures WeightBelow(items + [x], p)
      == TotalWeight(EntriesAt(items + [x], p)) + WeightOfKids(items + [x], p, ChildKeys(PathsOf(items + [x]), p))
  {
    hide ChildKeys, IsNode, PathsOf, EntriesAt, WeightBelow, WeightOfKids, TotalWeight, Weight, NoDup;
    var ps, es := PathsOf(items), EntriesAt(items, p);
    var keys := ChildKeys(ps, p);
    WeightBelowSnoc(items, x, p);
    TotalWeightSnoc(es, x.entry);
    ItemsSnoc(items, x, p);
    ChildKeysSnoc(ps, x.path, p);
    ChildKeysAreNodes(ps, p);
    assert es + [] == es;
    if p < x.path && x.path[|p|] !in keys {
      NoWeightOffTheTree(items, p + [x.path[|p|]]);
      NewKeyWeight(items, x, p, keys);
    } else {
      WeightOfKidsSnoc(items, x, p, keys);
    }
  }

  lemma TotalWeightSnoc(es: seq<LdifEntry>, e: LdifEntry)
    ensures TotalWeight(es + [e]) == TotalWeight(es) + Weight(e)
  {
    assert Front(es + [e]) == es;
  }

  function OtherCount(s: seq<Address>): nat {
    if s == [] then 0 else OtherCount(Front(s)) + (if Last(s).DnAddr? then 0 else 1)
  }

  function NodesIn(s: seq<Address>): set<Path> {
    if s == [] then {} else NodesIn(Front(s)) + (if Last(s).DnAddr? then {Last(s).path} else {})
  }

  lemma OtherCountSnoc(a: seq<Address>, x: Address)
    ensures OtherCount(a + [x]) == OtherCount(a) + if x.DnAddr? then 0 else 1
  {
    assert Front(a + [x]) == a;
  }

  lemma {:induction false} OtherCountConcat(a: seq<Address>, b: seq<Address>)
    ensures OtherCount(a + b) == OtherCount(a) + OtherCount(b)
    decreases |b|
  {
    if b == [] {
      assert a + b == a;
    } else {
      hide OtherCount;
      var init, x := Front(b), Last(b);
      assert b == init + [x] && a + b == a + init + [x];
      OtherCountConcat(a, init);
      OtherCountSnoc(a + init, x);
      OtherCountSnoc(init, x);
    }
  }

  lemma {:induction false} NodesInAre(s: seq<Address>)
    ensures forall p :: p in NodesIn(s) <==> DnAddr(p) in s
    decreases |s|
  {
    if s != [] {
      NodesInAre(Front(s));
      assert s == Front(s) + [Last(s)];
    }
  }

  lemma {:induction false} CountSplits(s: seq<Address>)
    requires NoDup(s)
    ensures |s| == |NodesIn(s)| + OtherCount(s)
    decreases |s|
  {
    if s != [] {
      CountSplits(Front(s));
      if Last(s).DnAddr? {
        NodesInAre(Front(s));
        assert Last(s) !in Front(s);
        assert Last(s).path !in NodesIn(Front(s));
      }
    }
  }

  lemma {:induction false} EntryAddressCount(p: Path, es: seq<LdifEntry>)
    ensures OtherCount(EntryAddresses(p, es)) == TotalWeight(es)
    decreases |es|
  {
    if es != [] {
      var i, n := |es| - 1, |Last(es).attributes|;
      EntryAddressCount(p, Front(es));
      AttrAddressCount(p, i, n);
      OtherCountConcat(EntryAddresses(p, Front(es)) + [EntryAddr(p, i)], AttrAddresses(p, i, n));
      OtherCountConcat(EntryAddresses(p, Front(es)), [EntryAddr(p, i)]);
      assert OtherCount([EntryAddr(p, i)]) == 1;
    }
  }

  lemma {:induction false} AttrAddressCount(p: Path, i: nat, n: nat)
    ensures OtherCount(AttrAddresses(p, i, n)) == n
  {
    if n > 0 {
      AttrAddressCount(p, i, n - 1);
      assert Front(AttrAddresses(p, i, n)) == AttrAddresses(p, i, n - 1);
    }
  }

  lemma {:induction false} EntriesShown(items: seq<Located>, p: Path)
    requires IsNode(PathsOf(items), p)
    ensures OtherCount(Addresses(items, p)) == WeightBelow(items, p)
    decreases Depth(PathsOf(items)) - |p|, 1, 0
  {
    hide PathsOf, Depth, IsNode, ChildKeys, EntriesAt, EntryAddresses, KidAddresses;
    var ps := PathsOf(items);
    NodeDepth(ps, p);
    ChildKeysAreNodes(ps, p);
    var keys, es := ChildKeys(ps, p), EntriesAt(items, p);
    KidEntriesShown(items, p, keys);
    EntryAddressCount(p, es);
    WeightSplits(items, p);
    OtherCountConcat([DnAddr(p)] + KidAddresses(items, p, keys), EntryAddresses(p, es));
    OtherCountConcat([DnAddr(p)], KidAddresses(items, p, keys));
    assert OtherCount([DnAddr(p)]) == 0;
  }

  lemma {:induction false} KidEntriesShown(items: seq<Located>, p: Path, keys: seq<string>)
    requires AreKids(PathsOf(items), p, keys)
    ensures OtherCount(KidAddresses(items, p, keys)) == WeightOfKids(items, p, keys)
    decreases Depth(PathsOf(items)) - |p|, 0, |keys|
  {
    hide PathsOf, Depth, IsNode, Addresses;
    if keys != [] {
      var k := Last(keys);
      assert k in keys;
      NodeDepth(PathsOf(items), p + [k]);
      KidEntriesShown(items, p, Front(keys));
      EntriesShown(items, p + [k]);
      OtherCountConcat(KidAddresses(items, p, Front(keys)), Addresses(items, p + [k]));
    }
  }

  lemma {:induction false} AllWeightIsBelowTheRoot(es: seq<LdifEntry>)
    ensures WeightBelow(Locate(es), []) == TotalWeight(es)
    decreases |es|
  {
    if es != [] {
      AllWeightIsBelowTheRoot(Front(es));
      assert Front(Locate(es)) == Locate(Front(es));
    }
  }

  lemma NodesAreNodes(root: DnTreeNode, t: Trie, items: seq<Located>)
    requires IsTrie(root, t, items)
    ensures forall p :: p in t.nodes <==> IsNode(PathsOf(items), p)
    ensures IsNode(PathsOf(items), [])
  {
    NodeIsListed(root, t, items, []);
  }

  lemma NodeExists(items: seq<Located>, p: Path)
    ensures Exists(items, DnAddr(p)) <==> IsNode(PathsOf(items), p)
  {
  }

  lemma RootPathId()
    ensures PathId([]) == "root"
  {
  }

  /** The output has one node for every tree node, entry and attribute. */
  lemma RenderingConserves(root: DnTreeNode, t: Trie, es: seq<LdifEntry>)
    requires IsTrie(root, t, Locate(es))
    ensures |Ids(Render(Locate(es), [], "root"))| == |t.nodes| + TotalWeight(es)
  {
    hide Addresses, Render, PathsOf, IsNode, Ids, IdsOf, PathId, Locate, WeightBelow, OtherCount, NodesIn, TotalWeight,
      IsTrie, Exists;
    var items := Locate(es);
    NodesAreNodes(root, t, items);
    var s := Addresses(items, []);
    RenderedIds(items, []);
    RootPathId();
    EachShownOnce(items, []);
    EntriesShown(items, []);
    AllWeightIsBelowTheRoot(es);
    CountSplits(s);
    NodesInAre(s);
    forall p
      ensures p in NodesIn(s) <==> p in t.nodes
    {
      assert DnAddr(p) in s <==> Exists(items, DnAddr(p));
      NodeExists(items, p);
    }
    assert NodesIn(s) == t.nodes.Keys;
  }
}
