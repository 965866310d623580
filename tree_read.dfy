/** The subtree read: the node-existence count, the recursive "edge_map"
    query grouped by source, and the recursive construction of the tree. */
module TreeRead {
  import opened EdgeStore
  import opened EdgeNodes
  import CycleCheck

  /** The row count of `edgeNodeExists`: rows in which the node is the
      source or the target. */
  function IncidentCount(edges: seq<Edge>, nodeId: int): (r: nat)
    ensures r <= |edges|
    ensures r > 0 <==> exists e :: e in edges && (e.0 == nodeId || e.1 == nodeId)
    decreases |edges|
  {
    if edges == [] then 0
    else
      var last := edges[|edges| - 1];
      IncidentCount(edges[..|edges| - 1], nodeId) + (if last.0 == nodeId || last.1 == nodeId then 1 else 0)
  }

  /** `edgeNodeExists`: a node exists only through the rows it is part of. */
  predicate EdgeNodeExists(edges: seq<Edge>, nodeId: int)
  {
    IncidentCount(edges, nodeId) > 0
  }

  /** The targets of the rows leaving `n`, in table order. */
  function ChildrenList(edges: seq<Edge>, n: int): seq<int>
    decreases |edges|
  {
    if edges == [] then []
    else
      var last := edges[|edges| - 1];
      ChildrenList(edges[..|edges| - 1], n) + (if last.0 == n then [last.1] else [])
  }

  /** The listed children of `n` are exactly the targets of its rows. */
  lemma {:induction false} ChildrenListMembers(edges: seq<Edge>, n: int)
    ensures forall c :: c in ChildrenList(edges, n) <==> (n, c) in edges
    decreases |edges|
  {
    if edges != [] {
      var init := edges[..|edges| - 1];
      ChildrenListMembers(init, n);
      assert edges == init + [edges[|edges| - 1]];
    }
  }

  /** The nodes on levels 0 to k - 1 below `root`: those whose rows the
      recursive query still expands when its cutoff is k. */
  function Reached(edges: seq<Edge>, root: int, k: nat): set<int>
    decreases k
  {
    if k == 0 then {} else Reached(edges, root, k - 1) + Level(edges, root, k - 1)
  }

  /** The rows of the table whose source is in `sources`, in table order. */
  function RowsFrom(edges: seq<Edge>, sources: set<int>): seq<Edge>
    decreases |edges|
  {
    if edges == [] then []
    else
      var last := edges[|edges| - 1];
      RowsFrom(edges[..|edges| - 1], sources) + (if last.0 in sources then [last] else [])
  }

  /** A row is kept exactly when it leaves one of the sources. */
  lemma {:induction false} RowsFromMembers(edges: seq<Edge>, sources: set<int>)
    ensures forall e :: e in RowsFrom(edges, sources) <==> e in edges && e.0 in sources
    decreases |edges|
  {
    if edges != [] {
      var init := edges[..|edges| - 1];
      RowsFromMembers(init, sources);
      assert edges == init + [edges[|edges| - 1]];
    }
  }

  /** The (from_id, to_id) rows of the "edge_map" query: a row at depth d
      leaves a node of level d - 1, for d from 1 to the cutoff. On a forest
      every such row is produced once; the model keeps them in table order. */
  function EdgeMapRows(edges: seq<Edge>, nodeId: int, maxDepth: int): seq<Edge>
  {
    RowsFrom(edges, Reached(edges, nodeId, CycleCheck.Cutoff(maxDepth)))
  }

  /** `groupBy` on the source: each source seen maps to its targets in row order. */
  function GroupBy(rows: seq<Edge>): (m: map<int, seq<int>>)
    decreases |rows|
  {
    if rows == [] then map[]
    else
      var m := GroupBy(rows[..|rows| - 1]);
      var last := rows[|rows| - 1];
      m[last.0 := (if last.0 in m then m[last.0] else []) + [last.1]]
  }

  /** `groupBy` keeps every source seen, and only those, and lists the targets
      of each in row order. */
  lemma {:induction false} GroupByGroups(rows: seq<Edge>)
    ensures forall k :: k in GroupBy(rows) <==> exists e :: e in rows && e.0 == k
    ensures forall k :: k in GroupBy(rows) ==> GroupBy(rows)[k] == ChildrenList(rows, k)
    decreases |rows|
  {
    if rows != [] {
      var init := rows[..|rows| - 1];
      var last := rows[|rows| - 1];
      assert rows == init + [last];
      GroupByGroups(init);
      var m := GroupBy(init);
      forall k ensures k in GroupBy(rows) <==> exists e :: e in rows && e.0 == k {
        if k in m {
          var e :| e in init && e.0 == k;
          assert e in rows;
        }
      }
      forall k | k in GroupBy(rows) ensures GroupBy(rows)[k] == ChildrenList(rows, k) {
        if k != last.0 {
          assert GroupBy(rows)[k] == m[k];
        } else if k !in m {
          NoRowsNoChildren(init, k);
        }
      }
    }
  }

  /** `edgeMap[nodeId] ?: emptyList()`. */
  function ChildIds(edgeMap: map<int, seq<int>>, nodeId: int): seq<int>
  {
    if nodeId in edgeMap then edgeMap[nodeId] else []
  }

  /** `buildEdgeMapRecursiveCTE`: the rows of the bounded query grouped by
      their source. */
  function BuildEdgeMap(edges: seq<Edge>, nodeId: int, maxDepth: int): map<int, seq<int>>
  {
    GroupBy(EdgeMapRows(edges, nodeId, maxDepth))
  }

  /** In the edge map a node on a level above the cutoff has its children
      in table order; every other node has none. */
  lemma BuildEdgeMapEntries(edges: seq<Edge>, nodeId: int, maxDepth: int, n: int)
    ensures ChildIds(BuildEdgeMap(edges, nodeId, maxDepth), n) ==
      if n in Reached(edges, nodeId, CycleCheck.Cutoff(maxDepth)) then ChildrenList(edges, n) else []
  {
    var reached := Reached(edges, nodeId, CycleCheck.Cutoff(maxDepth));
    var rows := RowsFrom(edges, reached);
    GroupByGroups(rows);
    if n !in GroupBy(rows) {
      NoRowsNoChildren(rows, n);
    }
    ChildrenOfRowsFrom(edges, reached, n);
  }

  /** `buildEdgeNode`, with a fuel bound in place of the source's unbounded
      recursion (see BuildIsSubtree for why the bound is never hit). */
  function BuildEdgeNode(nodeId: int, edgeMap: map<int, seq<int>>, fuel: nat): EdgeNode
    decreases fuel, 0
  {
    if fuel == 0 then EdgeNode(nodeId, [])
    else EdgeNode(nodeId, BuildChildren(ChildIds(edgeMap, nodeId), edgeMap, fuel - 1))
  }

  /** The `map` over the child ids in `buildEdgeNode`. */
  function BuildChildren(ids: seq<int>, edgeMap: map<int, seq<int>>, fuel: nat): seq<EdgeNode>
    decreases fuel, 1, |ids|
  {
    if ids == [] then [] else [BuildEdgeNode(ids[0], edgeMap, fuel)] + BuildChildren(ids[1..], edgeMap, fuel)
  }

  /** The intended tree: `budget` more levels of the table below `n`; a node
      with budget left has exactly its table children, in table order, and a
      node without is a leaf. */
  function Subtree(edges: seq<Edge>, n: int, budget: nat): EdgeNode
    decreases budget, 0
  {
    if budget == 0 then EdgeNode(n, [])
    else EdgeNode(n, SubtreeChildren(edges, ChildrenList(edges, n), budget - 1))
  }

  function SubtreeChildren(edges: seq<Edge>, ids: seq<int>, budget: nat): seq<EdgeNode>
    decreases budget, 1, |ids|
  {
    if ids == [] then [] else [Subtree(edges, ids[0], budget)] + SubtreeChildren(edges, ids[1..], budget)
  }

  /** The intended tree is rooted at `n`; with budget left its children are
      the subtrees of the table children of `n`, in table order; without, it
      is a leaf; and it is never deeper than its budget. */
  lemma {:induction false} SubtreeShape(edges: seq<Edge>, n: int, budget: nat)
    ensures Subtree(edges, n, budget).id == n
    ensures budget == 0 ==> Subtree(edges, n, budget).children == []
    ensures budget > 0 ==>
      |Subtree(edges, n, budget).children| == |ChildrenList(edges, n)| &&
      forall i :: 0 <= i < |ChildrenList(edges, n)| ==> Subtree(edges, n, budget).children[i].id == ChildrenList(edges, n)[i]
    ensures CalculateDepth(Subtree(edges, n, budget)) <= budget
    decreases budget, 0
  {
    if budget > 0 {
      SubtreeChildrenShape(edges, ChildrenList(edges, n), budget - 1);
      DepthBoundedByChildren(Subtree(edges, n, budget), budget - 1);
    }
  }

  lemma {:induction false} SubtreeChildrenShape(edges: seq<Edge>, ids: seq<int>, budget: nat)
    ensures |SubtreeChildren(edges, ids, budget)| == |ids|
    ensures forall i :: 0 <= i < |ids| ==>
      SubtreeChildren(edges, ids, budget)[i].id == ids[i] && CalculateDepth(SubtreeChildren(edges, ids, budget)[i]) <= budget
    decreases budget, 1, |ids|
  {
    if ids != [] {
      SubtreeShape(edges, ids[0], budget);
      SubtreeChildrenShape(edges, ids[1..], budget);
      var cs := SubtreeChildren(edges, ids, budget);
      assert forall i :: 1 <= i < |ids| ==> cs[i] == SubtreeChildren(edges, ids[1..], budget)[i - 1];
    }
  }

  lemma {:induction false} NoRowsNoChildren(rows: seq<Edge>, n: int)
    requires forall e :: e in rows ==> e.0 != n
    ensures ChildrenList(rows, n) == []
    decreases |rows|
  {
    if rows != [] {
      NoRowsNoChildren(rows[..|rows| - 1], n);
    }
  }

  /** Keeping only the rows that leave `sources` keeps the children of a
      source and drops those of any other node. */
  lemma {:induction false} ChildrenOfRowsFrom(edges: seq<Edge>, sources: set<int>, n: int)
    ensures ChildrenList(RowsFrom(edges, sources), n) == if n in sources then ChildrenList(edges, n) else []
    decreases |edges|
  {
    if edges != [] {
      var init := edges[..|edges| - 1];
      var last := edges[|edges| - 1];
      ChildrenOfRowsFrom(init, sources, n);
      var rows := RowsFrom(init, sources) + (if last.0 in sources then [last] else []);
      assert RowsFrom(edges, sources) == rows;
      if last.0 in sources {
        assert rows[..|rows| - 1] == RowsFrom(init, sources);
      } else {
        assert rows == RowsFrom(init, sources);
      }
    }
  }

  lemma {:induction false} LevelInReached(edges: seq<Edge>, root: int, d: nat, k: nat)
    requires d < k
    ensures Level(edges, root, d) <= Reached(edges, root, k)
    decreases k
  {
    if d < k - 1 {
      LevelInReached(edges, root, d, k - 1);
    }
  }

  lemma {:induction false} ReachedHasLevel(edges: seq<Edge>, root: int, k: nat, n: int) returns (d: nat)
    requires n in Reached(edges, root, k)
    ensures d < k && n in Level(edges, root, d)
    decreases k
  {
    if n in Level(edges, root, k - 1) {
      d := k - 1;
    } else {
      d := ReachedHasLevel(edges, root, k - 1, n);
    }
  }

  /** On a forest the fuel bound of BuildEdgeNode is never what stops it:
      started on a node of level k with fuel at least the `budget` of levels
      left before the cutoff, it builds the intended tree, because a node on
      the cutoff level is on no earlier level and so has no entry in the
      edge map. */
  lemma {:induction false} BuildIsSubtree(edges: seq<Edge>, root: int, maxDepth: int, n: int, k: nat, budget: nat, fuel: nat)
    requires SingleParent(edges) && Acyclic(edges)
    requires n in Level(edges, root, k) && k + budget == CycleCheck.Cutoff(maxDepth) && fuel >= budget
    ensures BuildEdgeNode(n, BuildEdgeMap(edges, root, maxDepth), fuel) == Subtree(edges, n, budget)
    decreases fuel, 0
  {
    var cutoff := CycleCheck.Cutoff(maxDepth);
    var m := BuildEdgeMap(edges, root, maxDepth);
    BuildEdgeMapEntries(edges, root, maxDepth, n);
    if budget > 0 {
      LevelInReached(edges, root, k, cutoff);
      var ids := ChildrenList(edges, n);
      ChildrenOneLevelDown(edges, root, n, k);
      BuildChildrenIsSubtrees(edges, root, maxDepth, ids, k + 1, budget - 1, fuel - 1);
      assert BuildEdgeNode(n, m, fuel) == EdgeNode(n, BuildChildren(ids, m, fuel - 1));
    } else {
      NotReachedAtCutoff(edges, root, n, cutoff);
      assert ChildIds(m, n) == [];
      if fuel > 0 {
        assert BuildChildren([], m, fuel - 1) == [];
      }
    }
  }

  lemma {:induction false} BuildChildrenIsSubtrees(edges: seq<Edge>, root: int, maxDepth: int, ids: seq<int>, k: nat, budget: nat, fuel: nat)
    requires SingleParent(edges) && Acyclic(edges)
    requires AllOnLevel(edges, root, ids, k)
    requires k + budget == CycleCheck.Cutoff(maxDepth) && fuel >= budget
    ensures BuildChildren(ids, BuildEdgeMap(edges, root, maxDepth), fuel) == SubtreeChildren(edges, ids, budget)
    decreases fuel, 1, |ids|
  {
    if ids != [] {
      BuildIsSubtree(edges, root, maxDepth, ids[0], k, budget, fuel);
      BuildChildrenIsSubtrees(edges, root, maxDepth, ids[1..], k, budget, fuel);
    }
  }

  /** Every id of the list is on level `k` below `root`. */
  ghost predicate AllOnLevel(edges: seq<Edge>, root: int, ids: seq<int>, k: nat)
    decreases |ids|
  {
    ids == [] || (ids[0] in Level(edges, root, k) && AllOnLevel(edges, root, ids[1..], k))
  }

  /** The children of a node of level k are on level k + 1. */
  lemma ChildrenOneLevelDown(edges: seq<Edge>, root: int, n: int, k: nat)
    requires n in Level(edges, root, k)
    ensures AllOnLevel(edges, root, ChildrenList(edges, n), k + 1)
  {
    ChildrenListMembers(edges, n);
    AllChildrenOnLevel(edges, root, n, k, ChildrenList(edges, n));
  }

  lemma {:induction false} AllChildrenOnLevel(edges: seq<Edge>, root: int, n: int, k: nat, ids: seq<int>)
    requires n in Level(edges, root, k)
    requires forall c :: c in ids ==> (n, c) in edges
    ensures AllOnLevel(edges, root, ids, k + 1)
    decreases |ids|
  {
    if ids != [] {
      ChildOnNextLevel(edges, root, n, ids[0], k);
      AllChildrenOnLevel(edges, root, n, k, ids[1..]);
    }
  }

  /** In a forest a node on the cutoff level is on no earlier level. */
  lemma NotReachedAtCutoff(edges: seq<Edge>, root: int, n: int, cutoff: nat)
    requires SingleParent(edges) && Acyclic(edges)
    requires n in Level(edges, root, cutoff)
    ensures n !in Reached(edges, root, cutoff)
  {
    if n in Reached(edges, root, cutoff) {
      var d := ReachedHasLevel(edges, root, cutoff, n);
      UniqueLevel(edges, root, n, d, cutoff);
    }
  }

}
