/** The edge repository: the guarded insert, the delete and the subtree read
    over the EDGE table, the errors they raise, and the forest invariant the
    guards keep. */
module Repository {
  import opened EdgeStore
  import opened EdgeNodes
  import opened EdgeRequests
  import opened CycleCheck
  import opened TreeRead

  /** The exceptions the repository throws, one constructor each. */
  datatype EdgeError =
    | EdgeAlreadyExists(fromId: int, toId: int)
    | NodeAlreadyHasParent(fromId: int, toId: int)
    | CycleDetected(fromId: int, toId: int)
    | CycleUndecidable(fromId: int, toId: int, maxDepth: int)
    | EdgeNotFound(fromId: int, toId: int)
    | NodeNotFound(nodeId: int)

  /** The outcome of an operation that returns nothing or throws. */
  datatype Outcome = Done | Failed(error: EdgeError)

  /** The outcome of an operation that returns a value or throws. */
  datatype Result<T> = Success(value: T) | Failure(error: EdgeError)

  /** The configured default of the cycle-check limit. */
  const DefaultMaxCycleDepth: int := 50

  /** What `createEdge` decides for the pair: the duplicate probe, then the
      parent probe, then the cycle check (whose undecidable answer is thrown
      from inside it), and otherwise the insert. */
  function CreateEdgeOutcome(edges: seq<Edge>, fromId: int, toId: int, maxDepth: int): Outcome
  {
    if EdgeExists(edges, fromId, toId) then Failed(EdgeAlreadyExists(fromId, toId))
    else if HasParent(edges, toId) then Failed(NodeAlreadyHasParent(fromId, toId))
    else
      match WouldCreateCycle(edges, fromId, toId, maxDepth)
      case Undecidable => Failed(CycleUndecidable(fromId, toId, maxDepth))
      case Cycle => Failed(CycleDetected(fromId, toId))
      case NoCycle => Done
  }

  /** The table after `createEdge`: one more row on success, untouched otherwise. */
  function CreatedStore(edges: seq<Edge>, fromId: int, toId: int, maxDepth: int): seq<Edge>
  {
    if CreateEdgeOutcome(edges, fromId, toId, maxDepth) == Done then edges + [(fromId, toId)] else edges
  }

  /** The table after `deleteFrom ... where from_id = fromId and to_id = toId`:
      every row equal to `e` is gone and the others keep their order. */
  function Without(edges: seq<Edge>, e: Edge): (r: seq<Edge>)
    ensures multiset(r) == multiset(edges)[e := 0]
    ensures forall x :: x in r <==> x in edges && x != e
    ensures e !in edges ==> r == edges
    decreases |edges|
  {
    if edges == [] then []
    else
      var init := edges[..|edges| - 1];
      var last := edges[|edges| - 1];
      assert edges == init + [last];
      Without(init, e) + (if last == e then [] else [last])
  }

  /** What `deleteEdge` decides: a delete that removed no row throws. */
  function DeleteEdgeOutcome(edges: seq<Edge>, fromId: int, toId: int): Outcome
  {
    if multiset(edges)[(fromId, toId)] == 0 then Failed(EdgeNotFound(fromId, toId)) else Done
  }

  /** The fuel the model gives `buildEdgeNode`: the cutoff plus the number of
      rows. Each recursive call follows one row of the table, and a walk of
      an acyclic table uses each row at most once, so where the unbounded
      recursion ends this fuel is not used up. */
  function ReadFuel(edges: seq<Edge>, maxDepth: int): nat
  {
    Cutoff(maxDepth) + |edges|
  }

  /** `getEdgeNodeByNodeId`: a node that is in no row is not found; otherwise
      the tree is built from the edge map of the bounded query. */
  function GetEdgeNode(edges: seq<Edge>, nodeId: int, maxDepth: int): Result<EdgeNode>
  {
    if !EdgeNodeExists(edges, nodeId) then Failure(NodeNotFound(nodeId))
    else Success(BuildEdgeNode(nodeId, BuildEdgeMap(edges, nodeId, maxDepth), ReadFuel(edges, maxDepth)))
  }

  /** Every id in the table is positive. */
  ghost predicate PositiveIds(edges: seq<Edge>)
  {
    forall e :: e in edges ==> e.0 > 0 && e.1 > 0
  }

  /** The guards of `createEdge`, each stated on the table and walks in it,
      in the order they are tried: a duplicate is reported as such even
      though its target also has a parent, and an exhausted budget is
      reported as undecidable even when `fromId` was found. */
  lemma CreateEdgeOutcomes(edges: seq<Edge>, fromId: int, toId: int, maxDepth: int)
    ensures CreateEdgeOutcome(edges, fromId, toId, maxDepth) == Failed(EdgeAlreadyExists(fromId, toId)) <==>
      (fromId, toId) in edges
    ensures CreateEdgeOutcome(edges, fromId, toId, maxDepth) == Failed(NodeAlreadyHasParent(fromId, toId)) <==>
      (fromId, toId) !in edges && HasParent(edges, toId)
    ensures CreateEdgeOutcome(edges, fromId, toId, maxDepth) == Failed(CycleUndecidable(fromId, toId, maxDepth)) <==>
      !HasParent(edges, toId) && BudgetExhausted(edges, toId, maxDepth)
    ensures CreateEdgeOutcome(edges, fromId, toId, maxDepth) == Failed(CycleDetected(fromId, toId)) <==>
      !HasParent(edges, toId) && !BudgetExhausted(edges, toId, maxDepth) &&
      ReachableWithin(edges, toId, fromId, Cutoff(maxDepth))
    ensures CreateEdgeOutcome(edges, fromId, toId, maxDepth) == Done <==>
      !HasParent(edges, toId) && !BudgetExhausted(edges, toId, maxDepth) &&
      !ReachableWithin(edges, toId, fromId, Cutoff(maxDepth))
  {
    WouldCreateCycleSpec(edges, fromId, toId, maxDepth);
    if (fromId, toId) in edges {
      assert HasParent(edges, toId);
    }
  }

  /** A walk of the extended table that leaves `toId` uses only old rows
      when no old walk leads from `toId` to `fromId` and the two differ. */
  lemma {:induction false} WalkFromTargetIsOld(edges: seq<Edge>, fromId: int, toId: int, q: seq<int>)
    requires fromId != toId
    requires forall p {:trigger IsPath(edges, p)} :: IsPath(edges, p) && |p| >= 2 && p[0] == toId ==> p[|p| - 1] != fromId
    requires IsPath(edges + [(fromId, toId)], q) && q[0] == toId
    ensures IsPath(edges, q)
    decreases |q|
  {
    if |q| > 1 {
      var init := q[..|q| - 1];
      assert IsPath(edges + [(fromId, toId)], init) by {
        assert forall i :: 0 <= i < |init| ==> init[i] == q[i];
      }
      WalkFromTargetIsOld(edges, fromId, toId, init);
      var n := |q|;
      assert (q[n - 2], q[n - 1]) in edges + [(fromId, toId)];
      assert (q[n - 2], q[n - 1]) in edges;
      assert IsPath(edges, q) by {
        forall i | 0 <= i < |q| - 1 ensures (q[i], q[i + 1]) in edges {
          if i < n - 2 {
            assert (init[i], init[i + 1]) in edges;
          }
        }
      }
    }
  }

  /** Two walks that meet form one walk. */
  lemma JoinWalks(edges: seq<Edge>, a: seq<int>, b: seq<int>)
    requires IsPath(edges, a) && IsPath(edges, b) && a[|a| - 1] == b[0]
    ensures IsPath(edges, a + b[1..]) && |a + b[1..]| == |a| + |b| - 1
  {
    var c := a + b[1..];
    forall i | 0 <= i < |c| - 1 ensures (c[i], c[i + 1]) in edges {
      if i < |a| - 1 {
        assert c[i] == a[i] && c[i + 1] == a[i + 1];
      } else {
        var j := i - (|a| - 1);
        assert c[i] == b[j] && c[i + 1] == b[j + 1];
      }
    }
  }

  /** Adding a row from `fromId` to `toId` keeps an acyclic table acyclic
      when no old walk leads from `toId` back to `fromId` and the two differ:
      a closed walk through the new row would, cut open after that row,
      be an old walk from `toId` to `fromId`. */
  lemma AddKeepsAcyclic(edges: seq<Edge>, fromId: int, toId: int)
    requires Acyclic(edges) && fromId != toId
    requires forall p {:trigger IsPath(edges, p)} :: IsPath(edges, p) && |p| >= 2 && p[0] == toId ==> p[|p| - 1] != fromId
    ensures Acyclic(edges + [(fromId, toId)])
  {
    var grown := edges + [(fromId, toId)];
    forall p | IsPath(grown, p) && |p| >= 2
      ensures p[0] != p[|p| - 1]
    {
      if p[0] == p[|p| - 1] {
        if forall i :: 0 <= i < |p| - 1 ==> (p[i], p[i + 1]) in edges {
          assert IsPath(edges, p);
        } else {
          var i :| 0 <= i < |p| - 1 && (p[i], p[i + 1]) !in edges;
          assert p[i] == fromId && p[i + 1] == toId;
          var tail := p[i + 1..];
          var head := p[..i + 1];
          assert IsPath(grown, tail) by {
            forall j | 0 <= j < |tail| - 1 ensures (tail[j], tail[j + 1]) in grown {
              assert tail[j] == p[i + 1 + j] && tail[j + 1] == p[i + 2 + j];
            }
          }
          assert IsPath(grown, head) by {
            forall j | 0 <= j < |head| - 1 ensures (head[j], head[j + 1]) in grown {
              assert head[j] == p[j] && head[j + 1] == p[j + 1];
            }
          }
          JoinWalks(grown, tail, head);
          var round := tail + head[1..];
          assert round[0] == toId;
          assert round[|round| - 1] == fromId;
          WalkFromTargetIsOld(edges, fromId, toId, round);
        }
      }
    }
  }

  /** A successful `createEdge` with distinct ids and a positive limit keeps
      the table a forest. */
  lemma CreateKeepsForest(edges: seq<Edge>, fromId: int, toId: int, maxDepth: int)
    requires Forest(edges) && fromId != toId && maxDepth >= 1
    requires CreateEdgeOutcome(edges, fromId, toId, maxDepth) == Done
    ensures Forest(edges + [(fromId, toId)])
  {
    var grown := edges + [(fromId, toId)];
    assert WouldCreateCycle(edges, fromId, toId, maxDepth) == NoCycle;
    NoCycleIsSound(edges, fromId, toId, maxDepth);
    AddKeepsAcyclic(edges, fromId, toId);
    assert multiset(grown) == multiset(edges) + multiset{(fromId, toId)};
    assert !HasParent(edges, toId);
    assert SingleParent(grown);
  }

  /** The constraints of a request bring the self-loop condition of
      CreateKeepsForest, and a create reached through a valid request keeps
      every id positive as well. */
  lemma ValidatedCreateKeepsForest(edges: seq<Edge>, r: EdgeRequest, maxDepth: int)
    requires Forest(edges) && PositiveIds(edges) && IsValid(r) && maxDepth >= 1
    ensures Forest(CreatedStore(edges, r.fromId, r.toId, maxDepth))
    ensures PositiveIds(CreatedStore(edges, r.fromId, r.toId, maxDepth))
  {
    ValidRequest(r);
    if CreateEdgeOutcome(edges, r.fromId, r.toId, maxDepth) == Done {
      CreateKeepsForest(edges, r.fromId, r.toId, maxDepth);
    }
  }

  /** Without the request constraints the repository itself accepts a
      self-loop on a node that has no parent, and the table is then no
      longer a forest. */
  lemma SelfLoopReachesRepository()
    ensures CreateEdgeOutcome([], 7, 7, DefaultMaxCycleDepth) == Done
    ensures !Forest(CreatedStore([], 7, 7, DefaultMaxCycleDepth))
  {
    var edges: seq<Edge> := [];
    WouldCreateCycleSpec(edges, 7, 7, DefaultMaxCycleDepth);
    assert Level(edges, 7, 1) == {};
    forall d: nat, n | 1 <= d <= DefaultMaxCycleDepth
      ensures !PathOfLength(edges, 7, n, d)
    {
      EmptyLevelStaysEmpty(edges, 7, 1, d);
      LevelIffPath(edges, 7, n, d);
    }
    assert (7, 7) in CreatedStore([], 7, 7, DefaultMaxCycleDepth);
  }

  /** Creating the same pair again fails as a duplicate, and a second parent
      for the same target is refused. */
  lemma CreateThenCreate(edges: seq<Edge>, fromId: int, toId: int, otherId: int, maxDepth: int)
    requires CreateEdgeOutcome(edges, fromId, toId, maxDepth) == Done
    ensures CreateEdgeOutcome(edges + [(fromId, toId)], fromId, toId, maxDepth) == Failed(EdgeAlreadyExists(fromId, toId))
    ensures otherId != fromId ==>
      CreateEdgeOutcome(edges + [(fromId, toId)], otherId, toId, maxDepth) == Failed(NodeAlreadyHasParent(otherId, toId))
  {
    var grown := edges + [(fromId, toId)];
    assert (fromId, toId) in grown;
    assert !HasParent(edges, toId);
    if otherId != fromId {
      assert (otherId, toId) !in grown;
    }
  }

  /** Removing rows keeps a forest a forest. */
  lemma DeleteKeepsForest(edges: seq<Edge>, e: Edge)
    requires Forest(edges)
    ensures Forest(Without(edges, e))
  {
    var r := Without(edges, e);
    SubsetKeepsAcyclic(edges, r);
    forall x | x in r ensures multiset(r)[x] == 1 {
      assert multiset(r)[x] == multiset(edges)[x];
    }
  }

  /** Deleting the pair a successful create has just added gives back the
      table as it was. */
  lemma {:induction false} DeleteUndoesCreate(edges: seq<Edge>, fromId: int, toId: int, maxDepth: int)
    requires CreateEdgeOutcome(edges, fromId, toId, maxDepth) == Done
    ensures DeleteEdgeOutcome(CreatedStore(edges, fromId, toId, maxDepth), fromId, toId) == Done
    ensures Without(CreatedStore(edges, fromId, toId, maxDepth), (fromId, toId)) == edges
  {
    var grown := edges + [(fromId, toId)];
    assert grown[..|grown| - 1] == edges;
    assert multiset(grown)[(fromId, toId)] > 0 by {
      assert grown[|grown| - 1] == (fromId, toId);
    }
  }

  /** A delete fails exactly when the pair is absent, and then changes
      nothing; otherwise it removes that pair and only that pair. */
  lemma DeleteOutcomes(edges: seq<Edge>, fromId: int, toId: int)
    ensures DeleteEdgeOutcome(edges, fromId, toId) == Failed(EdgeNotFound(fromId, toId)) <==> (fromId, toId) !in edges
    ensures (fromId, toId) !in edges ==> Without(edges, (fromId, toId)) == edges
    ensures Forest(edges) && (fromId, toId) in edges ==>
      multiset(Without(edges, (fromId, toId))) == multiset(edges) - multiset{(fromId, toId)}
  {
    if Forest(edges) && (fromId, toId) in edges {
      var r := Without(edges, (fromId, toId));
      assert multiset(edges)[(fromId, toId)] == 1;
      assert multiset(r) == multiset(edges) - multiset{(fromId, toId)};
    }
  }

  /** The subtree read fails exactly when the node is in no row, and
      otherwise returns a tree rooted at the node. */
  lemma GetEdgeNodeFound(edges: seq<Edge>, nodeId: int, maxDepth: int)
    ensures GetEdgeNode(edges, nodeId, maxDepth) == Failure(NodeNotFound(nodeId)) <==>
      forall e :: e in edges ==> e.0 != nodeId && e.1 != nodeId
    ensures GetEdgeNode(edges, nodeId, maxDepth).Success? ==> GetEdgeNode(edges, nodeId, maxDepth).value.id == nodeId
  {
  }

  /** On a forest a successful subtree read returns the intended tree:
      each node above the cutoff has its table children in table order and
      the nodes at the cutoff are leaves; so it is never deeper than the
      cutoff. */
  lemma GetEdgeNodeCorrect(edges: seq<Edge>, nodeId: int, maxDepth: int)
    requires SingleParent(edges) && Acyclic(edges)
    requires GetEdgeNode(edges, nodeId, maxDepth).Success?
    ensures GetEdgeNode(edges, nodeId, maxDepth).value == Subtree(edges, nodeId, Cutoff(maxDepth))
    ensures CalculateDepth(GetEdgeNode(edges, nodeId, maxDepth).value) <= Cutoff(maxDepth)
    ensures maxDepth >= 1 ==> CalculateDepth(GetEdgeNode(edges, nodeId, maxDepth).value) <= maxDepth
  {
    BuildIsSubtree(edges, nodeId, maxDepth, nodeId, 0, Cutoff(maxDepth), ReadFuel(edges, maxDepth));
    SubtreeShape(edges, nodeId, Cutoff(maxDepth));
  }

  /** The repository over the EDGE table, with the configured cycle-check
      limit. */
  class EdgeRepository {
    var edges: seq<Edge>
    const maxCycleDepth: int

    constructor (store: seq<Edge>, maxCycleDepth: int)
      ensures edges == store && this.maxCycleDepth == maxCycleDepth
    {
      edges := store;
      this.maxCycleDepth := maxCycleDepth;
    }

    /** The table is a forest. */
    ghost predicate Valid()
      reads this
    {
      Forest(edges)
    }

    /** `createEdge`: the guards in order, then the insert. */
    method CreateEdge(fromId: int, toId: int) returns (o: Outcome)
      modifies this
      ensures o == CreateEdgeOutcome(old(edges), fromId, toId, maxCycleDepth)
      ensures edges == CreatedStore(old(edges), fromId, toId, maxCycleDepth)
      ensures o != Done ==> edges == old(edges)
      ensures o == Done ==> edges == old(edges) + [(fromId, toId)]
      ensures old(Valid()) && fromId != toId && maxCycleDepth >= 1 ==> Valid()
    {
      if EdgeExists(edges, fromId, toId) {
        return Failed(EdgeAlreadyExists(fromId, toId));
      }
      if HasParent(edges, toId) {
        return Failed(NodeAlreadyHasParent(fromId, toId));
      }
      var decision := WouldCreateCycle(edges, fromId, toId, maxCycleDepth);
      if decision == Undecidable {
        return Failed(CycleUndecidable(fromId, toId, maxCycleDepth));
      }
      if decision == Cycle {
        return Failed(CycleDetected(fromId, toId));
      }
      if Valid() && fromId != toId && maxCycleDepth >= 1 {
        CreateKeepsForest(edges, fromId, toId, maxCycleDepth);
      }
      edges := edges + [(fromId, toId)];
      o := Done;
    }

    /** `deleteEdge`: delete every matching row and fail when none was. */
    method DeleteEdge(fromId: int, toId: int) returns (o: Outcome)
      modifies this
      ensures o == DeleteEdgeOutcome(old(edges), fromId, toId)
      ensures edges == Without(old(edges), (fromId, toId))
      ensures o != Done ==> edges == old(edges)
      ensures old(Valid()) ==> Valid()
    {
      if Valid() {
        DeleteKeepsForest(edges, (fromId, toId));
      }
      DeleteOutcomes(edges, fromId, toId);
      var removed := multiset(edges)[(fromId, toId)];
      edges := Without(edges, (fromId, toId));
      if removed == 0 {
        return Failed(EdgeNotFound(fromId, toId));
      }
      o := Done;
    }

    /** `getEdgeNodeByNodeId`: the existence test, the edge map and the tree. */
    method GetEdgeNodeByNodeId(nodeId: int, maxDepth: int) returns (r: Result<EdgeNode>)
      ensures r == GetEdgeNode(edges, nodeId, maxDepth)
      ensures r.Failure? <==> r == Failure(NodeNotFound(nodeId))
      ensures r.Failure? <==> forall e :: e in edges ==> e.0 != nodeId && e.1 != nodeId
      ensures Valid() && r.Success? ==> r.value == Subtree(edges, nodeId, Cutoff(maxDepth))
    {
      GetEdgeNodeFound(edges, nodeId, maxDepth);
      if !EdgeNodeExists(edges, nodeId) {
        return Failure(NodeNotFound(nodeId));
      }
      if Valid() {
        GetEdgeNodeCorrect(edges, nodeId, maxDepth);
      }
      var edgeMap := BuildEdgeMap(edges, nodeId, maxDepth);
      r := Success(BuildEdgeNode(nodeId, edgeMap, ReadFuel(edges, maxDepth)));
    }
  }
}
