/** The immutable tree returned by a subtree read, with its two derived
    metrics. */
module EdgeNodes {

  datatype EdgeNode = EdgeNode(id: int, children: seq<EdgeNode>)

  /** `countNodes`: this node plus the counts of all its children. */
  function CountNodes(n: EdgeNode): (r: nat)
    ensures r >= 1
    ensures n.children == [] ==> r == 1
    decreases n
  {
    1 + SumCounts(n.children)
  }

  /** The `sumOf` over a child list. */
  function SumCounts(cs: seq<EdgeNode>): nat
    decreases cs
  {
    if cs == [] then 0 else CountNodes(cs[0]) + SumCounts(cs[1..])
  }

  /** `calculateDepth`: 0 for a leaf, otherwise one more than the deepest child. */
  function CalculateDepth(n: EdgeNode): (r: nat)
    ensures r == 0 <==> n.children == []
    decreases n
  {
    if n.children == [] then 0 else 1 + MaxDepth(n.children)
  }

  /** The `maxOf` over a child list (only used on a non-empty list). */
  function MaxDepth(cs: seq<EdgeNode>): nat
    decreases cs
  {
    if cs == [] then 0
    else
      var d := CalculateDepth(cs[0]);
      var rest := MaxDepth(cs[1..]);
      if d >= rest then d else rest
  }

  /** The ids of the tree in pre-order: an independent account of what
      `countNodes` counts. */
  function Preorder(n: EdgeNode): seq<int>
    decreases n
  {
    [n.id] + PreorderAll(n.children)
  }

  function PreorderAll(cs: seq<EdgeNode>): seq<int>
    decreases cs
  {
    if cs == [] then [] else Preorder(cs[0]) + PreorderAll(cs[1..])
  }

  /** `countNodes` is one more than the sum of the children's counts, and
      that is the number of nodes listed by a pre-order walk. */
  lemma {:induction false} CountIsTreeSize(n: EdgeNode)
    ensures CountNodes(n) == 1 + SumCounts(n.children)
    ensures CountNodes(n) == |Preorder(n)|
    decreases n, 1
  {
    CountAllIsSize(n.children);
  }

  lemma {:induction false} CountAllIsSize(cs: seq<EdgeNode>)
    ensures SumCounts(cs) == |PreorderAll(cs)|
    decreases cs, 0
  {
    if cs != [] {
      CountIsTreeSize(cs[0]);
      CountAllIsSize(cs[1..]);
    }
  }

  /** `maxOf` is an upper bound of the child depths and is reached by one of them. */
  lemma {:induction false} MaxDepthIsMaximum(cs: seq<EdgeNode>)
    ensures forall i :: 0 <= i < |cs| ==> CalculateDepth(cs[i]) <= MaxDepth(cs)
    ensures cs != [] ==> exists i :: 0 <= i < |cs| && CalculateDepth(cs[i]) == MaxDepth(cs)
    decreases cs
  {
    if cs != [] {
      MaxDepthIsMaximum(cs[1..]);
      assert forall i :: 1 <= i < |cs| ==> cs[i] == cs[1..][i - 1];
      if CalculateDepth(cs[0]) < MaxDepth(cs[1..]) {
        var j :| 0 <= j < |cs[1..]| && CalculateDepth(cs[1..][j]) == MaxDepth(cs[1..]);
        assert CalculateDepth(cs[j + 1]) == MaxDepth(cs);
      }
    }
  }

  /** For a non-leaf, the depth is one more than the depth of its deepest
      child; hence every child is strictly shallower than its parent. */
  lemma ChildrenAreShallower(n: EdgeNode)
    ensures forall i :: 0 <= i < |n.children| ==> CalculateDepth(n.children[i]) < CalculateDepth(n)
    ensures n.children != [] ==>
      exists i :: 0 <= i < |n.children| && CalculateDepth(n) == 1 + CalculateDepth(n.children[i])
  {
    MaxDepthIsMaximum(n.children);
  }

  /** A bound on every child depth bounds the node's depth. */
  lemma DepthBoundedByChildren(n: EdgeNode, k: nat)
    requires forall i :: 0 <= i < |n.children| ==> CalculateDepth(n.children[i]) <= k
    ensures CalculateDepth(n) <= k + 1
  {
    ChildrenAreShallower(n);
  }

  /** The depth of a tree is less than the number of its nodes. */
  lemma {:induction false} DepthBelowCount(n: EdgeNode)
    ensures CalculateDepth(n) <= CountNodes(n) - 1
    decreases n, 1
  {
    if n.children != [] {
      MaxDepthBelowSum(n.children);
    }
  }

  lemma {:induction false} MaxDepthBelowSum(cs: seq<EdgeNode>)
    requires cs != []
    ensures MaxDepth(cs) < SumCounts(cs)
    decreases cs, 0
  {
    DepthBelowCount(cs[0]);
    if cs[1..] != [] {
      MaxDepthBelowSum(cs[1..]);
    }
  }
}
