/**
 * What the rendered tree of LDIF entries shows at each position: the names, values and icons that
 * belong to the RDN, the entry or the attribute there.
 */
module DnOutput {
  import opened Sequences
  import opened JsText
  import opened DnSyntax
  import opened DnPaths
  import opened Tries
  import opened DnTrie
  import opened DnRender
  import opened DnIds
  import opened TreeViewer

  // ----- Positions -----

  function ChildAt(t: TreeNode, i: nat): Option<TreeNode> {
    match t.children
    case Absent => None
    case Nodes(ts) => if i < |ts| then Some(ts[i]) else None
  }

  /** The node reached from `t` by child indices. */
  function Reach(t: TreeNode, at: seq<nat>): Option<TreeNode> {
    if at == [] then Some(t)
    else match Reach(t, Front(at))
      case None => None
      case Some(n) => ChildAt(n, Last(at))
  }

  function IndexOf<T(==)>(s: seq<T>, x: T): (i: nat)
    requires x in s
    ensures i < |s| && s[i] == x
  {
    if Last(s) == x then |s| - 1 else IndexOf(Front(s), x)
  }

  lemma NodeHasParent(items: seq<Located>, p: Path)
    requires IsNode(PathsOf(items), p) && p != []
    ensures IsNode(PathsOf(items), Front(p)) && Last(p) in ChildKeys(PathsOf(items), Front(p))
  {
    hide IsNode, ChildKeys, PathsOf;
    assert p == Front(p) + [Last(p)];
    PrefixOfNode(PathsOf(items), Front(p), p);
    ChildKeysAreNodes(PathsOf(items), Front(p));
  }

  /** Where the output shows a tree node: its siblings come in the order of the child keys. */
  function NodePosition(items: seq<Located>, p: Path): seq<nat>
    requires IsNode(PathsOf(items), p)
    decreases |p|
  {
    if p == [] then []
    else
      NodeHasParent(items, p);
      NodePosition(items, Front(p)) + [IndexOf(ChildKeys(PathsOf(items), Front(p)), Last(p))]
  }

  /** Entries come behind the child nodes, attributes below their entry. */
  function PositionOf(items: seq<Located>, a: Address): seq<nat>
    requires Exists(items, a)
  {
    var node := NodePosition(items, a.path);
    match a
    case DnAddr(_) => node
    case EntryAddr(p, i) => node + [|ChildKeys(PathsOf(items), p)| + i]
    case AttrAddr(p, i, j) => node + [|ChildKeys(PathsOf(items), p)| + i] + [j]
  }

  // ----- What should be shown -----

  /** `s` is the text, cut after `max` characters with an ellipsis if it is longer. */
  predicate IsShortened(s: string, text: string, max: nat) {
    if |text| <= max then s == text else |s| == max + 3 && s[..max] == text[..max] && s[max..] == "..."
  }

  predicate HasChildren(t: TreeNode, n: nat) {
    match t.children case Absent => n == 0 case Nodes(ts) => |ts| == n
  }

  ghost predicate ShowsNode(items: seq<Located>, p: Path, t: TreeNode) {
    var entries, isRoot := EntriesAt(items, p), p == [] || Last(p) == "ROOT";
    && (if isRoot then t.name == "dc=download,dc=pkd,dc=icao,dc=int" else IsShortened(t.name, UnescapeRdn(Last(p)), 60))
    && t.value == (if entries == [] then None else Some(Decimal(|entries|) + "개 엔트리"))
    && t.icon == (if isRoot then "shield" else "key")
    && t.id == (if p == [] then "root" else PathId(Front(p)) + "-dn-" + Last(p))
    && HasChildren(t, |ChildKeys(PathsOf(items), p)| + |entries|)
  }

  ghost predicate ShowsEntry(nodeId: string, i: nat, e: LdifEntry, t: TreeNode) {
    && t.name == e.objectClass + " (Line " + Decimal(e.lineNumber) + ")"
    && t.value.Some? && IsShortened(t.value.value, UnescapeRdn(e.dn), 80)
    && t.icon == "file-text"
    && t.id == nodeId + "-entry-" + Decimal(i)
    && t.children.Nodes? && HasChildren(t, |e.attributes|)
  }

  ghost predicate ShowsAttribute(nodeId: string, i: nat, j: nat, x: LdifAttribute, t: TreeNode) {
    && t.name == x.name
    && t.value == Some(if x.isBinary then "[Binary: " + x.value + "]" else x.value)
    && t.icon == (if x.isBinary then "file-text" else "hash")
    && t.id == nodeId + "-entry-" + Decimal(i) + "-attr-" + Decimal(j)
    && t.children == Absent
  }

  ghost predicate Shows(items: seq<Located>, a: Address, t: TreeNode)
    requires Exists(items, a)
  {
    match a
    case DnAddr(p) => ShowsNode(items, p, t)
    case EntryAddr(p, i) => ShowsEntry(PathId(p), i, EntriesAt(items, p)[i], t)
    case AttrAddr(p, i, j) => ShowsAttribute(PathId(p), i, j, EntriesAt(items, p)[i].attributes[j], t)
  }

  // ----- What is shown -----

  lemma {:induction false} AttributeAt(nodeId: string, i: nat, attrs: seq<LdifAttribute>, j: nat)
    requires j < |attrs|
    ensures ShowsAttribute(nodeId, i, j, attrs[j], RenderAttributes(nodeId, i, attrs)[j])
    decreases |attrs|
  {
    hide Decimal;
    if j < |attrs| - 1 {
      AttributeAt(nodeId, i, Front(attrs), j);
    }
  }

  lemma Shortens(text: string, max: nat)
    ensures IsShortened(TruncateRdn(text, max), UnescapeRdn(text), max)
  {
    hide UnescapeRdn;
  }

  lemma {:induction false} EntryAt(nodeId: string, es: seq<LdifEntry>, i: nat)
    requires i < |es|
    ensures ShowsEntry(nodeId, i, es[i], RenderEntries(nodeId, es)[i])
    ensures RenderEntries(nodeId, es)[i].children == Nodes(RenderAttributes(nodeId, i, es[i].attributes))
    decreases |es|
  {
    hide Decimal, TruncateRdn, IsShortened, RenderAttributes;
    if i < |es| - 1 {
      EntryAt(nodeId, Front(es), i);
    } else {
      Shortens(es[i].dn, 80);
    }
  }

  lemma {:induction false} KidAt(items: seq<Located>, p: Path, keys: seq<string>, nodeId: string, i: nat)
    requires AreKids(PathsOf(items), p, keys) && i < |keys|
    ensures IsNode(PathsOf(items), p + [keys[i]])
    ensures RenderKids(items, p, keys, nodeId)[i] == Render(items, p + [keys[i]], ChildId(nodeId, keys[i]))
    decreases |keys|
  {
    hide PathsOf, IsNode, Depth, Render, ChildId;
    assert keys[i] in keys;
    NodeDepth(PathsOf(items), p + [Last(keys)]);
    if i < |keys| - 1 {
      KidAt(items, p, Front(keys), nodeId, i);
    }
  }

  lemma RenderedNode(items: seq<Located>, p: Path)
    requires IsNode(PathsOf(items), p)
    ensures ShowsNode(items, p, Render(items, p, PathId(p)))
  {
    hide PathsOf, IsNode, EntriesAt, ChildKeys, Decimal, TruncateRdn, IsShortened, RenderKids, RenderEntries;
    ChildKeysAreNodes(PathsOf(items), p);
    if p != [] {
      Shortens(Last(p), 60);
    }
  }

  /** The children of a rendered node: the nodes for the child keys, then the entries. */
  lemma RenderedChild(items: seq<Located>, p: Path, i: nat)
    requires IsNode(PathsOf(items), p)
    requires i < |ChildKeys(PathsOf(items), p)| + |EntriesAt(items, p)|
    ensures var keys, es := ChildKeys(PathsOf(items), p), EntriesAt(items, p);
      ChildAt(Render(items, p, PathId(p)), i) == Some(
        if i < |keys| then
          KidIsNode(items, p, i);
          Render(items, p + [keys[i]], PathId(p + [keys[i]]))
        else RenderEntries(PathId(p), es)[i - |keys|])
  {
    hide PathsOf, IsNode, EntriesAt, ChildKeys, RenderKids, RenderEntries;
    ChildKeysAreNodes(PathsOf(items), p);
    var keys := ChildKeys(PathsOf(items), p);
    if i < |keys| {
      KidAt(items, p, keys, PathId(p), i);
      assert Front(p + [keys[i]]) == p;
    }
  }

  lemma KidIsNode(items: seq<Located>, p: Path, i: nat)
    requires i < |ChildKeys(PathsOf(items), p)|
    ensures IsNode(PathsOf(items), p + [ChildKeys(PathsOf(items), p)[i]])
  {
    ChildKeysAreNodes(PathsOf(items), p);
  }

  lemma ReachSnoc(t: TreeNode, at: seq<nat>, i: nat)
    ensures Reach(t, at + [i]) == match Reach(t, at) case None => None case Some(n) => ChildAt(n, i)
  {
    assert Front(at + [i]) == at;
  }

  lemma {:induction false} NodeReached(items: seq<Located>, p: Path)
    requires IsNode(PathsOf(items), p) && IsNode(PathsOf(items), [])
    ensures Reach(Render(items, [], "root"), NodePosition(items, p)) == Some(Render(items, p, PathId(p)))
    decreases |p|
  {
    hide PathsOf, IsNode, EntriesAt, ChildKeys, Render, PathId, ChildAt;
    if p == [] {
      RootPathId();
    } else {
      var q, keys := Front(p), ChildKeys(PathsOf(items), Front(p));
      NodeHasParent(items, p);
      NodeReached(items, q);
      var i := IndexOf(keys, Last(p));
      RenderedChild(items, q, i);
      assert q + [keys[i]] == p;
      ReachSnoc(Render(items, [], "root"), NodePosition(items, q), i);
    }
  }

  lemma EntryReached(items: seq<Located>, p: Path, i: nat)
    requires Exists(items, EntryAddr(p, i)) && IsNode(PathsOf(items), [])
    ensures Reach(Render(items, [], "root"), PositionOf(items, EntryAddr(p, i)))
      == Some(RenderEntries(PathId(p), EntriesAt(items, p))[i])
  {
    hide PathsOf, IsNode, EntriesAt, ChildKeys, Render, PathId, ChildAt, NodePosition, RenderEntries;
    var n := |ChildKeys(PathsOf(items), p)| + i;
    NodeReached(items, p);
    RenderedChild(items, p, n);
    ReachSnoc(Render(items, [], "root"), NodePosition(items, p), n);
  }

  /**
   * The output at the position of any existing node, entry or attribute shows that node, entry or
   * attribute.
   */
  lemma OutputShows(items: seq<Located>, a: Address)
    requires Exists(items, a) && IsNode(PathsOf(items), [])
    ensures match Reach(Render(items, [], "root"), PositionOf(items, a))
      case None => false
      case Some(t) => Shows(items, a, t)
  {
    hide PathsOf, IsNode, EntriesAt, ChildKeys, Render, PathId, NodePosition, RenderEntries, RenderAttributes,
      ShowsNode, ShowsEntry, ShowsAttribute;
    var root := Render(items, [], "root");
    match a {
      case DnAddr(p) =>
        NodeReached(items, p);
        RenderedNode(items, p);
      case EntryAddr(p, i) =>
        EntryReached(items, p, i);
        EntryAt(PathId(p), EntriesAt(items, p), i);
      case AttrAddr(p, i, j) =>
        var e := EntriesAt(items, p)[i];
        EntryReached(items, p, i);
        EntryAt(PathId(p), EntriesAt(items, p), i);
        ReachSnoc(root, PositionOf(items, EntryAddr(p, i)), j);
        AttributeAt(PathId(p), i, e.attributes, j);
    }
  }

  lemma {:induction false} IndexOfAt<T(!new)>(s: seq<T>, i: nat)
    requires NoDup(s) && i < |s|
    ensures IndexOf(s, s[i]) == i
  {
    var j := IndexOf(s, s[i]);
    assert s[j] == s[i];
  }

  /** Nothing else is shown: every position of the output belongs to such a thing. */
  lemma {:induction false} EveryPositionShows(items: seq<Located>, at: seq<nat>) returns (a: Address)
    requires IsNode(PathsOf(items), [])
    requires Reach(Render(items, [], "root"), at).Some?
    ensures Exists(items, a) && PositionOf(items, a) == at
    decreases |at|
  {
    hide PathsOf, IsNode, EntriesAt, ChildKeys, Render, PathId, RenderEntries, RenderAttributes, Exists, PositionOf;
    if at == [] {
      a := DnAddr([]);
      RootPosition(items);
    } else {
      var above := EveryPositionShows(items, Front(at));
      var i := Last(at);
      OutputShows(items, above);
      a := ChildAddress(items, above, i);
      assert at == Front(at) + [i];
    }
  }

  lemma RootPosition(items: seq<Located>)
    requires IsNode(PathsOf(items), [])
    ensures Exists(items, DnAddr([])) && PositionOf(items, DnAddr([])) == []
  {
  }

  lemma ChildAddress(items: seq<Located>, above: Address, i: nat) returns (a: Address)
    requires Exists(items, above) && IsNode(PathsOf(items), [])
    requires match Reach(Render(items, [], "root"), PositionOf(items, above))
      case None => false
      case Some(t) => Shows(items, above, t) && ChildAt(t, i).Some?
    ensures Exists(items, a) && PositionOf(items, a) == PositionOf(items, above) + [i]
  {
    hide PathsOf, IsNode, EntriesAt, ChildKeys, Render, PathId, Reach, IsShortened, Decimal, UnescapeRdn;
    var ps, p := PathsOf(items), above.path;
    var keys := ChildKeys(ps, p);
    match above {
      case DnAddr(_) =>
        if i < |keys| {
          ChildKeysAreNodes(ps, p);
          a := DnAddr(p + [keys[i]]);
          assert keys[i] in keys && Front(p + [keys[i]]) == p;
          IndexOfAt(keys, i);
        } else {
          a := EntryAddr(p, i - |keys|);
        }
      case EntryAddr(_, k) =>
        a := AttrAddr(p, k, i);
      case AttrAddr(_, _, _) =>
    }
  }
}
