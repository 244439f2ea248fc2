/** Cluster nodes of src/BinaryTree/BinaryTree.rs: a node holds its ordered
    member labels and optional handles of its parent and its two children. */
module Nodes {
  import opened Util

  /** An item label (the source's `Arc<&str>`). */
  type Label = string

  /** A handle into the arena (`NodeIndex`). */
  type NodeIndex = nat

  datatype Node = Node(data: seq<Label>, parent: Option<NodeIndex>, left: Option<NodeIndex>, right: Option<NodeIndex>)

  /** `data.iter().eq(other.data.iter())`: walks both sequences in step and
      is true exactly when they have the same labels in the same order. */
  function ElementsEq(a: seq<Label>, b: seq<Label>): (r: bool)
    ensures r <==> a == b
  {
    if |a| == 0 || |b| == 0 then
      |a| == 0 && |b| == 0
    else
      var rest := ElementsEq(a[1..], b[1..]);
      assert a == [a[0]] + a[1..] && b == [b[0]] + b[1..];
      a[0] == b[0] && rest
  }

  /** `PartialEq::eq` and `is_equal`: two nodes are equal exactly when their
      member sequences are; `parent`, `left` and `right` play no part. */
  predicate NodeEq(n1: Node, n2: Node): (r: bool)
    ensures r <==> n1.data == n2.data
  {
    ElementsEq(n1.data, n2.data)
  }

  /** The reverse map is keyed by this: `Hash` feeds only the members. */
  lemma NodeEqIgnoresLinks(n: Node, p: Option<NodeIndex>, l: Option<NodeIndex>, r: Option<NodeIndex>)
    ensures NodeEq(n, n.(parent := p, left := l, right := r))
  {
  }

  /** `new_from_str`: a singleton leaf with no parent and no children. */
  function NewFromStr(i: Label): (r: Node)
    ensures r.data == [i] && r.parent.None? && r.left.None? && r.right.None?
  {
    Node([i], None, None, None)
  }

  /** `new_empty`: a node with no members and no links. */
  function NewEmpty(): (r: Node)
    ensures r.data == [] && r.parent.None? && r.left.None? && r.right.None?
  {
    Node([], None, None, None)
  }

  /** `add_inner`: pushes each input label onto the back of the node's
      members, one at a time; nothing else about the node changes. */
  method AddInner(node: Node, inputs: seq<Label>) returns (r: Node)
    ensures r.data == node.data + inputs
    ensures r.parent == node.parent && r.left == node.left && r.right == node.right
  {
    r := node;
    var k := 0;
    while k < |inputs|
      invariant 0 <= k <= |inputs|
      invariant r == node.(data := node.data + inputs[..k])
    {
      r := r.(data := r.data + [inputs[k]]);
      assert inputs[..k + 1] == inputs[..k] + [inputs[k]];
      k := k + 1;
    }
    assert inputs[..k] == inputs;
  }

  /** `clone`: copies the members into an empty node, then copies the three
      links, so the copy equals the original in every field. */
  method Clone(node: Node) returns (r: Node)
    ensures r == node
  {
    r := AddInner(NewEmpty(), node.data);
    r := r.(right := node.right);
    r := r.(left := node.left);
    r := r.(parent := node.parent);
  }

  /** `get_left_str`: the last member (popped off a copy of the members);
      the source calls it on singletons only, where it is the one label.
      `unwrap` panics on a node without members. */
  function GetLeftStr(node: Node): (r: Label)
    requires |node.data| > 0
    ensures r == node.data[|node.data| - 1]
    ensures |node.data| == 1 ==> node.data == [r]
  {
    var v := node.data;
    v[|v| - 1]
  }
}
