/**
 * Rendering the tree of LDIF entries: one output node for every tree node, entry and attribute, and
 * the ids they get.
 */
module DnRender {
  import opened Sequences
  import opened JsText
  import opened DnSyntax
  import opened DnPaths
  import opened Tries
  import opened DnTrie
  import opened TreeViewer

  // ----- What is rendered, as a function of the items -----

  function TruncateRdn(rdn: string, maxLength: nat): string {
    var unescaped := UnescapeRdn(rdn);
    if |unescaped| <= maxLength then unescaped else unescaped[..maxLength] + "..."
  }

  function EntryId(nodeId: string, i: nat): string {
    nodeId + "-entry-" + Decimal(i)
  }

  function AttrId(nodeId: string, i: nat, j: nat): string {
    EntryId(nodeId, i) + "-attr-" + Decimal(j)
  }

  function ChildId(nodeId: string, rdn: string): string {
    nodeId + "-dn-" + rdn
  }

  function RenderAttributes(nodeId: string, i: nat, attrs: seq<LdifAttribute>): (r: seq<TreeNode>)
    ensures |r| == |attrs|
  {
    if attrs == [] then []
    else
      var a := Last(attrs);
      RenderAttributes(nodeId, i, Front(attrs)) + [
        TreeNode(AttrId(nodeId, i, |attrs| - 1), a.name,
                 Some(if a.isBinary then "[Binary: " + a.value + "]" else a.value),
                 if a.isBinary then "file-text" else "hash", Absent)]
  }

  function RenderEntries(nodeId: string, es: seq<LdifEntry>): (r: seq<TreeNode>)
    ensures |r| == |es|
  {
    if es == [] then []
    else
      var i, e := |es| - 1, Last(es);
      RenderEntries(nodeId, Front(es)) + [
        TreeNode(EntryId(nodeId, i), e.objectClass + " (Line " + Decimal(e.lineNumber) + ")",
                 Some(TruncateRdn(e.dn, 80)), "file-text", Nodes(RenderAttributes(nodeId, i, e.attributes)))]
  }

  /** The length of the longest path. */
  function Depth(ps: seq<Path>): nat {
    if ps == [] then 0 else if Depth(Front(ps)) < |Last(ps)| then |Last(ps)| else Depth(Front(ps))
  }

  lemma {:induction false} NodeDepth(ps: seq<Path>, p: Path)
    requires IsNode(ps, p)
    ensures |p| <= Depth(ps)
    decreases |ps|
  {
    if p != [] && !(p <= Last(ps)) {
      NodeDepth(Front(ps), p);
    }
  }

  predicate AreKids(ps: seq<Path>, p: Path, keys: seq<string>) {
    forall k :: k in keys ==> IsNode(ps, p + [k])
  }

  function RdnOf(p: Path): string {
    if p == [] then "ROOT" else Last(p)
  }

  /** The output node for a tree node with the given name, entries and rendered children. */
  function Assemble(nodeId: string, rdn: string, es: seq<LdifEntry>, children: seq<TreeNode>): TreeNode {
    var isRoot := rdn == "ROOT";
    TreeNode(nodeId,
             if isRoot then "dc=download,dc=pkd,dc=icao,dc=int" else TruncateRdn(rdn, 60),
             if es != [] then Some(Decimal(|es|) + "개 엔트리") else None,
             if isRoot then "shield" else "key",
             if children != [] then Nodes(children) else Absent)
  }

  /** The output for the tree node at `p`: its child nodes, then its entries. */
  function Render(items: seq<Located>, p: Path, nodeId: string): TreeNode
    requires IsNode(PathsOf(items), p)
    decreases Depth(PathsOf(items)) - |p|, 1, 0
  {
    NodeDepth(PathsOf(items), p);
    ChildKeysAreNodes(PathsOf(items), p);
    var es := EntriesAt(items, p);
    Assemble(nodeId, RdnOf(p), es,
             RenderKids(items, p, ChildKeys(PathsOf(items), p), nodeId) + RenderEntries(nodeId, es))
  }

  function RenderKids(items: seq<Located>, p: Path, keys: seq<string>, nodeId: string): (r: seq<TreeNode>)
    requires AreKids(PathsOf(items), p, keys)
    ensures |r| == |keys|
    decreases Depth(PathsOf(items)) - |p|, 0, |keys|
  {
    if keys == [] then []
    else
      assert Last(keys) in keys;
      NodeDepth(PathsOf(items), p + [Last(keys)]);
      RenderKids(items, p, Front(keys), nodeId)
      + [Render(items, p + [Last(keys)], ChildId(nodeId, Last(keys)))]
  }

  // ----- The recursion over the heap -----

  method ConvertEntries(nodeId: string, es: seq<LdifEntry>) returns (children: seq<TreeNode>)
    ensures children == RenderEntries(nodeId, es)
  {
    children := [];
    for entryIdx := 0 to |es|
      invariant children == RenderEntries(nodeId, es[..entryIdx])
    {
      var entry := es[entryIdx];
      var attributeNodes: seq<TreeNode> := [];
      for attrIdx := 0 to |entry.attributes|
        invariant attributeNodes == RenderAttributes(nodeId, entryIdx, entry.attributes[..attrIdx])
      {
        var attr := entry.attributes[attrIdx];
        attributeNodes := attributeNodes + [
          TreeNode(AttrId(nodeId, entryIdx, attrIdx), attr.name,
                   Some(if attr.isBinary then "[Binary: " + attr.value + "]" else attr.value),
                   if attr.isBinary then "file-text" else "hash", Absent)];
        assert Front(entry.attributes[..attrIdx + 1]) == entry.attributes[..attrIdx];
      }
      assert entry.attributes[..|entry.attributes|] == entry.attributes;
      children := children + [
        TreeNode(EntryId(nodeId, entryIdx), entry.objectClass + " (Line " + Decimal(entry.lineNumber) + ")",
                 Some(TruncateRdn(entry.dn, 80)), "file-text", Nodes(attributeNodes))];
      assert Front(es[..entryIdx + 1]) == es[..entryIdx];
    }
    assert es[..|es|] == es;
  }

  /** The recursive conversion of the heap tree ends, and computes `Render`. */
  method ConvertDnTreeToTreeNode(ghost root: DnTreeNode, ghost t: Trie, ghost items: seq<Located>, ghost p: Path,
                                 dnNode: DnTreeNode, nodeId: string)
    returns (node: TreeNode)
    requires IsTrie(root, t, items) && p in t.nodes && dnNode == t.nodes[p]
    ensures IsNode(PathsOf(items), p) && node == Render(items, p, nodeId)
    decreases Depth(PathsOf(items)) - |p|, 1
  {
    hide IsTrie, NodeFits, EntriesAt, ChildKeys, IsNode, Depth, Assemble, PathsOf;
    NodeIsListed(root, t, items, p);
    var children := ConvertChildren(root, t, items, p, dnNode, nodeId);
    var entryNodes := ConvertEntries(nodeId, dnNode.entries);
    node := Assemble(nodeId, dnNode.rdn, dnNode.entries, children + entryNodes);
  }

  method ConvertChildren(ghost root: DnTreeNode, ghost t: Trie, ghost items: seq<Located>, ghost p: Path,
                         dnNode: DnTreeNode, nodeId: string)
    returns (children: seq<TreeNode>)
    requires IsTrie(root, t, items) && p in t.nodes && dnNode == t.nodes[p]
    ensures AreKids(PathsOf(items), p, dnNode.childKeys)
    ensures children == RenderKids(items, p, dnNode.childKeys, nodeId)
    decreases Depth(PathsOf(items)) - |p|, 0
  {
    hide IsTrie, NodeFits, EntriesAt, ChildKeys, IsNode, Depth, PathsOf, Render;
    ghost var ps := PathsOf(items);
    NodeIsListed(root, t, items, p);
    NodeDepth(ps, p);
    ChildKeysAreNodes(ps, p);
    var keys := dnNode.childKeys;
    children := [];
    for i := 0 to |keys|
      invariant AreKids(ps, p, keys[..i])
      invariant children == RenderKids(items, p, keys[..i], nodeId)
    {
      var rdn := keys[i];
      assert rdn in keys && Front(keys[..i + 1]) == keys[..i];
      ChildIsListed(root, t, items, p, rdn);
      NodeDepth(ps, p + [rdn]);
      var child := ConvertDnTreeToTreeNode(root, t, items, p + [rdn], dnNode.children[rdn], ChildId(nodeId, rdn));
      children := children + [child];
    }
    assert keys[..|keys|] == keys;
  }

  lemma NodeIsListed(root: DnTreeNode, t: Trie, items: seq<Located>, p: Path)
    requires IsTrie(root, t, items) && p in t.nodes
    ensures IsNode(PathsOf(items), p) && NodeFits(t, items, p)
    ensures var n := t.nodes[p];
      n.childKeys == ChildKeys(PathsOf(items), p) && n.entries == EntriesAt(items, p) && n.rdn == RdnOf(p)
  {
    assert t.keys[p] == ChildKeys(PathsOf(items), p);
  }

  lemma ChildIsListed(root: DnTreeNode, t: Trie, items: seq<Located>, p: Path, k: string)
    requires IsTrie(root, t, items) && p in t.nodes && k in t.nodes[p].childKeys
    ensures k in t.nodes[p].children && p + [k] in t.nodes && t.nodes[p].children[k] == t.nodes[p + [k]]
  {
    NodeIsListed(root, t, items, p);
    assert ChildrenFit(t.nodes, t.kids[p], t.keys[p], PathsOf(items), p);
  }

  /** Building the tree and rendering it from the root. */
  method TreeData(entries: seq<LdifEntry>) returns (node: TreeNode)
    ensures IsNode(PathsOf(Locate(entries)), []) && node == Render(Locate(entries), [], "root")
  {
    var root, t := BuildDnTree(entries);
    node := ConvertDnTreeToTreeNode(root, t, Locate(entries), [], root, "root");
  }
}
