/** The ASN.1 structure of a master list as a tree, with index paths as ids. */
module Asn1Tree {
  import opened Sequences
  import opened JsText
  import opened TreeViewer

  datatype Asn1Node = Asn1Node(
    offset: nat, length: nat, tag: string, isConstructed: bool, value: Option<string>, children: Asn1Children)

  /** The list of children may be missing. */
  datatype Asn1Children = NoChildren | Asn1Children(nodes: seq<Asn1Node>)

  // ----- The conversion -----

  function NodeValue(node: Asn1Node): string {
    var tlvInfo := "T:" + node.tag + " L:" + Decimal(node.length);
    if node.value.Some? && node.value.value != "" then tlvInfo + " : " + node.value.value else tlvInfo
  }

  function ConvertAsn1ToTreeNode(node: Asn1Node, path: string): TreeNode
    decreases node, 1
  {
    TreeNode(path, Decimal(node.offset), Some(NodeValue(node)), if node.isConstructed then "shield" else "key",
             match node.children
             case NoChildren => Absent
             case Asn1Children(nodes) => Nodes(ConvertAll(nodes, path + "-")))
  }

  /** The nodes under one parent: the text before the index is the parent's id and a hyphen. */
  function ConvertAll(nodes: seq<Asn1Node>, prefix: string): (r: seq<TreeNode>)
    ensures |r| == |nodes|
    decreases nodes, 0
  {
    if nodes == [] then []
    else
      ConvertAll(Front(nodes), prefix)
      + [ConvertAsn1ToTreeNode(Last(nodes), prefix + Decimal(|nodes| - 1))]
  }

  function TreeData(forest: seq<Asn1Node>): seq<TreeNode> {
    ConvertAll(forest, "")
  }

  // ----- Positions -----

  /** The node reached by an index path, starting from the roots. */
  function NodeAt(forest: seq<Asn1Node>, at: seq<nat>): Option<Asn1Node>
    decreases |at|
  {
    if at == [] || at[0] >= |forest| then None
    else if |at| == 1 then Some(forest[at[0]])
    else match forest[at[0]].children
      case NoChildren => None
      case Asn1Children(nodes) => NodeAt(nodes, at[1..])
  }

  function OutputAt(trees: seq<TreeNode>, at: seq<nat>): Option<TreeNode>
    decreases |at|
  {
    if at == [] || at[0] >= |trees| then None
    else if |at| == 1 then Some(trees[at[0]])
    else match trees[at[0]].children
      case Absent => None
      case Nodes(nodes) => OutputAt(nodes, at[1..])
  }

  /** The decimal indices, joined with hyphens. */
  function PathText(at: seq<nat>): string
    decreases |at|, 0
  {
    if at == [] then "" else Decimal(at[0]) + PathRest(at[1..])
  }

  function PathRest(at: seq<nat>): (r: string)
    ensures r == "" || r[0] == '-'
    ensures at == [] <==> r == ""
    decreases |at|, 1
  {
    if at == [] then "" else "-" + PathText(at)
  }

  lemma {:induction false} ConvertAllAt(nodes: seq<Asn1Node>, prefix: string, i: nat)
    requires i < |nodes|
    ensures ConvertAll(nodes, prefix)[i] == ConvertAsn1ToTreeNode(nodes[i], prefix + Decimal(i))
    decreases |nodes|
  {
    if i < |nodes| - 1 {
      ConvertAllAt(Front(nodes), prefix, i);
    }
  }

  /** Position by position: an output node for every input node and no other, with the id of its position. */
  lemma {:induction false} ConversionMatches(nodes: seq<Asn1Node>, prefix: string, at: seq<nat>)
    ensures var output := OutputAt(ConvertAll(nodes, prefix), at);
      match NodeAt(nodes, at)
      case None => output == None
      case Some(node) => output == Some(ConvertAsn1ToTreeNode(node, prefix + PathText(at)))
    decreases |at|
  {
    hide Decimal, NodeValue;
    if at != [] && at[0] < |nodes| {
      ConvertAllAt(nodes, prefix, at[0]);
      var here := prefix + Decimal(at[0]);
      if |at| == 1 {
        assert at[1..] == [];
        assert Decimal(at[0]) + "" == Decimal(at[0]);
      } else if nodes[at[0]].children.Asn1Children? {
        ConversionMatches(nodes[at[0]].children.nodes, here + "-", at[1..]);
        var rest := PathText(at[1..]);
        assert PathRest(at[1..]) == "-" + rest;
        assert here + "-" + rest == prefix + (Decimal(at[0]) + ("-" + rest));
      }
    }
  }

  lemma {:induction false} PathTextInjective(a: seq<nat>, b: seq<nat>)
    requires a != [] && b != [] && PathText(a) == PathText(b)
    ensures a == b
    decreases |a|
  {
    hide Decimal;
    var x, y := PathRest(a[1..]), PathRest(b[1..]);
    NumberBeforeHyphen(a[0], x, b[0], y);
    if a[1..] != [] {
      assert x[1..] == PathText(a[1..]) && y[1..] == PathText(b[1..]);
      PathTextInjective(a[1..], b[1..]);
    }
    assert a == [a[0]] + a[1..] && b == [b[0]] + b[1..];
  }

  /** No two nodes of the whole forest share an id. */
  lemma IdsAreDistinct(forest: seq<Asn1Node>, a: seq<nat>, b: seq<nat>)
    requires OutputAt(TreeData(forest), a).Some? && OutputAt(TreeData(forest), b).Some?
    requires OutputAt(TreeData(forest), a).value.id == OutputAt(TreeData(forest), b).value.id
    ensures a == b
  {
    ConversionMatches(forest, "", a);
    ConversionMatches(forest, "", b);
    assert "" + PathText(a) == PathText(a) && "" + PathText(b) == PathText(b);
    PathTextInjective(a, b);
  }

  /** Shape, order and content: the output at a position shows the node at that position. */
  lemma OutputShowsNode(forest: seq<Asn1Node>, at: seq<nat>)
    ensures NodeAt(forest, at).Some? <==> OutputAt(TreeData(forest), at).Some?
    ensures NodeAt(forest, at).Some? ==>
      var node, output := NodeAt(forest, at).value, OutputAt(TreeData(forest), at).value;
      && output.id == PathText(at)
      && output.name == Decimal(node.offset)
      && output.value == Some("T:" + node.tag + " L:" + Decimal(node.length)
                              + if node.value == None || node.value == Some("") then "" else " : " + node.value.value)
      && output.icon == (if node.isConstructed then "shield" else "key")
      && (output.children == Absent <==> node.children == NoChildren)
      && (node.children.Asn1Children? ==> |output.children.nodes| == |node.children.nodes|)
  {
    ConversionMatches(forest, "", at);
    assert "" + PathText(at) == PathText(at);
    if NodeAt(forest, at).Some? {
      NodeText(NodeAt(forest, at).value);
    }
  }

  lemma NodeText(node: Asn1Node)
    ensures NodeValue(node) == "T:" + node.tag + " L:" + Decimal(node.length)
      + if node.value == None || node.value == Some("") then "" else " : " + node.value.value
  {
    hide Decimal;
    var info := "T:" + node.tag + " L:" + Decimal(node.length);
    assert info + "" == info;
  }

  /** The id of a node is that of its parent, a hyphen and its index; the roots have their index. */
  lemma {:induction false} IdExtendsParent(at: seq<nat>, i: nat)
    ensures PathText([i]) == Decimal(i)
    ensures at != [] ==> PathText(at + [i]) == PathText(at) + "-" + Decimal(i)
    decreases |at|
  {
    hide Decimal;
    assert [i][1..] == [];
    assert Decimal(i) + "" == Decimal(i);
    if at != [] {
      var first, rest := at[0], at[1..];
      assert (at + [i])[1..] == rest + [i];
      IdExtendsParent(rest, i);
      assert Decimal(first) + "" == Decimal(first);
    }
  }
}
