/** Concrete tables and the answers the repository gives on them. */
module Examples {
  import opened EdgeStore
  import opened EdgeNodes
  import opened CycleCheck
  import opened TreeRead
  import opened Repository

  /** The chain 1 -> 2 -> 3. */
  const Chain: seq<Edge> := [(1, 2), (2, 3)]

  /** The tree with root 1, children 2 and 3, and grandchild 4 under 2. */
  const SmallTree: seq<Edge> := [(1, 2), (1, 3), (2, 4)]

  /** A table in which node 3 has two parents, 1 and 2. */
  const TwoParents: seq<Edge> := [(1, 2), (2, 3), (1, 3), (3, 4)]

  /** Its full read, and its read of depth one. */
  const FullRead: EdgeNode := EdgeNode(1, [EdgeNode(2, [EdgeNode(4, [])]), EdgeNode(3, [])])
  const ShallowRead: EdgeNode := EdgeNode(1, [EdgeNode(2, []), EdgeNode(3, [])])

  /** The read of node 1 in TwoParents with limit 2. */
  const TwoParentsTree: EdgeNode := EdgeNode(1, [EdgeNode(2, [EdgeNode(3, [EdgeNode(4, [])])]), EdgeNode(3, [EdgeNode(4, [])])])

  lemma ChainLevels()
    ensures Level(Chain, 1, 1) == {2}
    ensures Level(Chain, 1, 2) == {3}
    ensures Level(Chain, 1, 3) == {}
  {
    assert Level(Chain, 1, 1) == ChildrenOf(Chain, {1});
    assert (1, 2) in Chain;
    assert Level(Chain, 1, 2) == ChildrenOf(Chain, {2});
    assert (2, 3) in Chain;
    assert Level(Chain, 1, 3) == ChildrenOf(Chain, {3});
  }

  /** Closing the chain into a loop is detected once the limit leaves room
      below the deepest node. */
  lemma ChainCycleDetected(maxDepth: int)
    requires maxDepth >= 3
    ensures CreateEdgeOutcome(Chain, 3, 1, maxDepth) == Failed(CycleDetected(3, 1))
    ensures CreatedStore(Chain, 3, 1, maxDepth) == Chain
  {
    ChainLevels();
    CreateEdgeOutcomes(Chain, 3, 1, maxDepth);
    assert !HasParent(Chain, 1);
    EmptyLevelStaysEmpty(Chain, 1, 3, maxDepth);
    forall n ensures !PathOfLength(Chain, 1, n, maxDepth) {
      LevelIffPath(Chain, 1, n, maxDepth);
    }
    LevelIffPath(Chain, 1, 3, 2);
  }

  /** With a limit of one or two the deepest node sits exactly at the limit,
      so the check gives up even though the loop is visible at depth two. */
  lemma ChainCycleUndecidable(maxDepth: int)
    requires maxDepth == 1 || maxDepth == 2
    ensures CreateEdgeOutcome(Chain, 3, 1, maxDepth) == Failed(CycleUndecidable(3, 1, maxDepth))
    ensures CreatedStore(Chain, 3, 1, maxDepth) == Chain
  {
    ChainLevels();
    CreateEdgeOutcomes(Chain, 3, 1, maxDepth);
    assert !HasParent(Chain, 1);
    if maxDepth == 1 {
      LevelIffPath(Chain, 1, 2, 1);
    } else {
      LevelIffPath(Chain, 1, 3, 2);
    }
  }

  /** Rows that only go from a smaller to a larger id form an acyclic table. */
  lemma {:induction false} IncreasingIsAcyclic(edges: seq<Edge>)
    requires forall e :: e in edges ==> e.0 < e.1
    ensures Acyclic(edges)
  {
    forall p | IsPath(edges, p) && |p| >= 2
      ensures p[0] != p[|p| - 1]
    {
      IncreasingPath(edges, p, |p| - 1);
    }
  }

  lemma {:induction false} IncreasingPath(edges: seq<Edge>, p: seq<int>, k: nat)
    requires forall e :: e in edges ==> e.0 < e.1
    requires IsPath(edges, p) && 1 <= k < |p|
    ensures p[0] < p[k]
    decreases k
  {
    assert (p[k - 1], p[k]) in edges;
    if k > 1 {
      IncreasingPath(edges, p, k - 1);
    }
  }

  lemma SmallTreeIsForest()
    ensures Forest(SmallTree)
  {
    IncreasingIsAcyclic(SmallTree);
  }

  lemma SmallTreeChildren()
    ensures ChildrenList(SmallTree, 1) == [2, 3]
    ensures ChildrenList(SmallTree, 2) == [4]
    ensures ChildrenList(SmallTree, 3) == []
    ensures ChildrenList(SmallTree, 4) == []
  {
    var two: seq<Edge> := [(1, 2), (1, 3)];
    var one: seq<Edge> := [(1, 2)];
    assert SmallTree[..2] == two;
    assert two[..1] == one;
    assert one[..0] == [];
  }

  /** The intended trees of the small tree at the two read depths. */
  lemma SmallSubtrees(edges: seq<Edge>)
    requires ChildrenList(edges, 1) == [2, 3] && ChildrenList(edges, 2) == [4]
    requires ChildrenList(edges, 3) == [] && ChildrenList(edges, 4) == []
    ensures Subtree(edges, 1, 99) == FullRead
    ensures Subtree(edges, 1, 1) == ShallowRead
  {
    assert [2, 3][1..] == [3];
    assert [4][1..] == [];
    assert [3][1..] == [];
    assert Subtree(edges, 4, 97) == EdgeNode(4, []);
    assert Subtree(edges, 2, 98) == EdgeNode(2, [EdgeNode(4, [])]);
    assert Subtree(edges, 3, 98) == EdgeNode(3, []);
  }

  /** The metrics of the two reads. */
  lemma ReadMetrics()
    ensures CountNodes(FullRead) == 4 && CalculateDepth(FullRead) == 2
    ensures CountNodes(ShallowRead) == 3 && CalculateDepth(ShallowRead) == 1
  {
  }

  /** The two-parent read has six nodes, node 3 and node 4 twice each, and depth 3. */
  lemma TwoParentsMetrics()
    ensures CountNodes(TwoParentsTree) == 6 && CalculateDepth(TwoParentsTree) == 3
  {
  }

  /** The full read of the small tree has four nodes and depth two. */
  lemma SmallTreeFullRead(edges: seq<Edge>)
    requires edges == SmallTree
    ensures GetEdgeNode(edges, 1, 99) ==
      Success(FullRead)
    ensures CountNodes(GetEdgeNode(edges, 1, 99).value) == 4
    ensures CalculateDepth(GetEdgeNode(edges, 1, 99).value) == 2
  {
    SmallTreeIsForest();
    SmallTreeChildren();
    assert (1, 2) in edges;
    GetEdgeNodeFound(edges, 1, 99);
    GetEdgeNodeCorrect(edges, 1, 99);
    SmallSubtrees(edges);
    ReadMetrics();
  }

  /** A read of depth one renders the children as leaves. */
  lemma SmallTreeShallowRead(edges: seq<Edge>)
    requires edges == SmallTree
    ensures GetEdgeNode(edges, 1, 1) == Success(ShallowRead)
    ensures CountNodes(GetEdgeNode(edges, 1, 1).value) == 3
    ensures CalculateDepth(GetEdgeNode(edges, 1, 1).value) == 1
  {
    SmallTreeIsForest();
    SmallTreeChildren();
    assert (1, 2) in edges;
    GetEdgeNodeFound(edges, 1, 1);
    GetEdgeNodeCorrect(edges, 1, 1);
    SmallSubtrees(edges);
    ReadMetrics();
  }

  /** A node in no row is not found, whatever the limit. */
  lemma SmallTreeMissingNode(edges: seq<Edge>, n: int, maxDepth: int)
    requires edges == SmallTree && (n < 1 || n > 4)
    ensures GetEdgeNode(edges, n, maxDepth) == Failure(NodeNotFound(n))
  {
    assert forall e :: e in edges ==> e == (1, 2) || e == (1, 3) || e == (2, 4);
    GetEdgeNodeFound(edges, n, maxDepth);
  }

  lemma TwoParentsLevels(edges: seq<Edge>)
    requires edges == TwoParents
    ensures Reached(edges, 1, Cutoff(2)) == {1, 2, 3}
  {
    assert Level(edges, 1, 1) == ChildrenOf(edges, {1});
    assert (1, 2) in edges && (1, 3) in edges;
    assert Reached(edges, 1, 2) == Reached(edges, 1, 1) + Level(edges, 1, 1);
  }

  lemma TwoParentsChildren()
    ensures ChildrenList(TwoParents, 1) == [2, 3]
    ensures ChildrenList(TwoParents, 2) == [3]
    ensures ChildrenList(TwoParents, 3) == [4]
  {
    var three: seq<Edge> := [(1, 2), (2, 3), (1, 3)];
    var two: seq<Edge> := [(1, 2), (2, 3)];
    var one: seq<Edge> := [(1, 2)];
    assert TwoParents[..3] == three;
    assert three[..2] == two;
    assert two[..1] == one;
    assert one[..0] == [];
  }

  /** The edge map of a read of node 1 with limit 2: node 4 is at the
      cutoff and is not expanded. */
  lemma TwoParentsMap(edges: seq<Edge>)
    requires edges == TwoParents
    ensures ChildIds(BuildEdgeMap(edges, 1, 2), 1) == [2, 3]
    ensures ChildIds(BuildEdgeMap(edges, 1, 2), 2) == [3]
    ensures ChildIds(BuildEdgeMap(edges, 1, 2), 3) == [4]
    ensures ChildIds(BuildEdgeMap(edges, 1, 2), 4) == []
  {
    TwoParentsLevels(edges);
    TwoParentsChildren();
    BuildEdgeMapEntries(edges, 1, 2, 1);
    BuildEdgeMapEntries(edges, 1, 2, 2);
    BuildEdgeMapEntries(edges, 1, 2, 3);
    BuildEdgeMapEntries(edges, 1, 2, 4);
  }

  /** Building from that edge map renders node 3 under both of its parents,
      each time with its child 4. */
  lemma TwoParentsBuild(m: map<int, seq<int>>)
    requires ChildIds(m, 1) == [2, 3] && ChildIds(m, 2) == [3]
    requires ChildIds(m, 3) == [4] && ChildIds(m, 4) == []
    ensures BuildEdgeNode(1, m, 6) ==
      TwoParentsTree
  {
    assert [2, 3][1..] == [3];
    assert [3][1..] == [];
    assert [4][1..] == [];
    assert BuildEdgeNode(4, m, 2) == EdgeNode(4, []);
    assert BuildEdgeNode(4, m, 3) == EdgeNode(4, []);
    assert BuildEdgeNode(3, m, 3) == EdgeNode(3, [EdgeNode(4, [])]);
    assert BuildEdgeNode(3, m, 4) == EdgeNode(3, [EdgeNode(4, [])]);
    assert BuildEdgeNode(2, m, 4) == EdgeNode(2, [EdgeNode(3, [EdgeNode(4, [])])]);
  }

  /** On a table where a node has two parents, the read is as deep as the
      unbounded recursion makes it: depth 3 for a limit of 2. */
  lemma TwoParentsRead(edges: seq<Edge>)
    requires edges == TwoParents
    ensures GetEdgeNode(edges, 1, 2) ==
      Success(TwoParentsTree)
    ensures CalculateDepth(GetEdgeNode(edges, 1, 2).value) == 3
  {
    assert (1, 2) in edges;
    GetEdgeNodeFound(edges, 1, 2);
    TwoParentsMap(edges);
    TwoParentsBuild(BuildEdgeMap(edges, 1, 2));
    TwoParentsMetrics();
  }
}
