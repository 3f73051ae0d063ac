/** The tree that the viewer component displays. */
module TreeViewer {
  import opened Sequences
  import opened JsText

  datatype TreeNode =
    TreeNode(id: string, name: string, value: Option<string>, icon: string, children: Children)

  /** The optional list of children. */
  datatype Children = Absent | Nodes(nodes: seq<TreeNode>)

  /** The ids of a tree, top down and left to right. */
  function Ids(t: TreeNode): seq<string>
    decreases t, 1
  {
    [t.id] + match t.children { case Absent => [] case Nodes(ts) => IdsAll(ts) }
  }

  function IdsAll(ts: seq<TreeNode>): seq<string>
    decreases ts, 0
  {
    if ts == [] then [] else IdsAll(Front(ts)) + Ids(Last(ts))
  }

  lemma IdsAllSnoc(a: seq<TreeNode>, x: TreeNode)
    ensures IdsAll(a + [x]) == IdsAll(a) + Ids(x)
  {
    hide Ids;
    assert Front(a + [x]) == a;
  }

  lemma {:induction false} IdsAllConcat(a: seq<TreeNode>, b: seq<TreeNode>)
    ensures IdsAll(a + b) == IdsAll(a) + IdsAll(b)
    decreases |b|
  {
    if b == [] {
      assert a + b == a;
    } else {
      hide IdsAll;
      var init, x := Front(b), Last(b);
      assert b == init + [x] && a + b == a + init + [x];
      IdsAllConcat(a, init);
      IdsAllSnoc(a + init, x);
      IdsAllSnoc(init, x);
    }
  }
}
