# Edge forest repository

This project models the core of a small service that stores a forest as
rows `(from_id, to_id)` of one EDGE table. Its repository has three
operations:

* `createEdge`. It inserts a row only after three guards pass, in this order:
  1. the pair is not already present;
  2. the target has no parent yet;
  3. a bounded cycle check does not object.

  The cycle check is a recursive query that lists the descendants of the
  target, each tagged with its depth, up to the configured limit
  `maxCycleDepth` (default 50). It answers *undecidable* whenever some
  descendant sits exactly at the limit. Otherwise it answers *cycle*
  exactly when the source is among the descendants.
* `deleteEdge`. It deletes the matching rows and fails when there were none.
* `getEdgeNodeByNodeId`. It fails for a node that appears in no row.
  Otherwise it runs a second bounded recursive query (the "edge map"),
  groups its rows by source, and builds the nested `EdgeNode` tree from
  the result. Nodes at the limit become leaves.

The `EdgeNode` value carries the two metrics `countNodes` and
`calculateDepth`. The request body `EdgeRequest` carries two `@Positive`
ids and an `@AssertTrue` self-loop check.

The Dafny modules follow that structure:

| module | file | models |
|---|---|---|
| `EdgeRequests` | `edge_request.dfy` | the request body and the messages its validator reports |
| `EdgeNodes` | `edge_node.dfy` | the tree value, its count and its depth |
| `EdgeStore` | `edge_store.dfy` | the table, breadth-first levels, walks, and the forest invariant |
| `CycleCheck` | `cycle_check.dfy` | the descendants query and `wouldCreateCycle` |
| `TreeRead` | `tree_read.dfy` | `edgeNodeExists`, the edge-map query, `groupBy`, `buildEdgeNode` |
| `Repository` | `edge_repository.dfy` | the errors, the decision of each operation, and the class `EdgeRepository` |
| `Examples` | `edge_examples.dfy` | concrete tables and the answers the repository gives on them |

The table is a `seq<(int, int)>`. The order of the sequence is the order
in which the table enumerates its rows. The class `EdgeRepository` holds
it as a mutable field, and its methods change that field as the SQL
statements change the table.

The recursive queries are modelled by breadth-first levels:
* `Level(edges, root, d)` is the set of nodes at the end of a walk of
  exactly `d` rows from `root` (`EdgeStore.LevelIffPath`).
* A query with limit `maxDepth` produces its rows at depths
  `1 .. Cutoff(maxDepth)`.
* `Cutoff(maxDepth)` is `maxDepth` when that is at least 1. Otherwise it
  is 1, because the start rows are produced even when no row may be
  expanded.

What is proved, in brief:

* **Cycle check.**
  * *Undecidable* is answered exactly when a walk of `maxDepth` rows
    leaves the target, whatever the source is. This check takes
    precedence over a *cycle* answer.
  * A *cycle* answer is never a false alarm.
  * A *no cycle* answer with a positive limit means no walk leads from
    the target back to the source.
  * A limit below one is unsound, and a concrete table shows it.
* **Create.**
  * The five outcomes hold under the conditions that each of them
    states, in guard order.
  * A successful create with distinct ids and a limit of at least one
    keeps the table a forest: no self-loops, no duplicates, a single
    parent per node, and no cycles.
  * A request that passes validation supplies the distinct ids.
  * Without validation, the repository alone accepts a self-loop.
* **Delete.**
  * A delete fails exactly when the pair is absent.
  * It removes exactly the matching rows and keeps a forest a forest.
  * It undoes a create.
* **Read.**
  * A read fails exactly when the node is in no row.
  * On a forest it returns the intended subtree: the table children in
    table order, down to the cutoff. Hence its depth is at most the
    limit when the limit is positive, and at most 1 otherwise.
  * The fuel bound that the model gives to `buildEdgeNode` (the cutoff
    plus the number of rows) is never what stops it on a forest. On the
    table of `Examples.TwoParentsRead`, where node 3 has two parents, a
    read with limit 2 reaches depth 3, as the unbounded recursion does.
* **Metrics and validation.**
  * `countNodes` is the size of the tree.
  * `calculateDepth` is 0 exactly for a leaf, exceeds the depth of every
    child, and is below the count.
  * The validator reports exactly the violated constraints.

## Model

| member | source | states |
|---|---|---|
| EdgeRequests.Violations | src/main/kotlin/com/prewave/edgetree/dto/EdgeRequest.kt:9-17 | the fromId message is reported iff fromId is not positive; the toId message iff toId is not positive; the self-loop message iff the ids are equal; and no other message |
| EdgeRequests.ValidRequest | src/main/kotlin/com/prewave/edgetree/dto/EdgeRequest.kt:9-17 | a request is valid iff both ids are positive and they differ; isNotSelfLoop is fromId != toId |
| EdgeNodes.CountNodes | src/main/kotlin/com/prewave/edgetree/dto/EdgeNode.kt:8-10 | the count is at least one, and exactly one for a leaf |
| EdgeNodes.CalculateDepth | src/main/kotlin/com/prewave/edgetree/dto/EdgeNode.kt:12-15 | the depth is zero exactly when the node has no children |
| EdgeNodes.CountIsTreeSize | src/main/kotlin/com/prewave/edgetree/dto/EdgeNode.kt:8-10 | countNodes is one plus the children's counts, and equals the number of ids listed by a pre-order walk |
| EdgeNodes.CountAllIsSize | src/main/kotlin/com/prewave/edgetree/dto/EdgeNode.kt:9 | the sum of the children's counts is the length of their pre-order listing |
| EdgeNodes.MaxDepthIsMaximum | src/main/kotlin/com/prewave/edgetree/dto/EdgeNode.kt:14 | maxOf over the children bounds every child depth and equals one of them |
| EdgeNodes.ChildrenAreShallower | src/main/kotlin/com/prewave/edgetree/dto/EdgeNode.kt:12-15 | every child is strictly shallower than its parent, and a non-leaf is exactly one deeper than some child |
| EdgeNodes.DepthBoundedByChildren | src/main/kotlin/com/prewave/edgetree/dto/EdgeNode.kt:12-15 | if every child has depth at most k, the node has depth at most k + 1 |
| EdgeNodes.DepthBelowCount | src/main/kotlin/com/prewave/edgetree/dto/EdgeNode.kt:8-15 | the depth of a tree is less than its node count |
| EdgeNodes.MaxDepthBelowSum | src/main/kotlin/com/prewave/edgetree/dto/EdgeNode.kt:8-15 | for a non-empty child list, the largest child depth is below the sum of the child counts |
| EdgeStore.LevelIffPath | src/main/kotlin/com/prewave/edgetree/repository/EdgeRepository.kt:75-87 | a node is produced at expansion step d of the recursive query exactly when a walk of d rows leads to it |
| EdgeStore.UniqueLevel | src/main/kotlin/com/prewave/edgetree/repository/EdgeRepository.kt:148-164 | on a single-parent acyclic table a node is reached from a given root at one depth only |
| EdgeStore.SubsetKeepsAcyclic | src/main/kotlin/com/prewave/edgetree/repository/EdgeRepository.kt:108-113 | removing rows keeps an acyclic table acyclic |
| CycleCheck.DescendantRowsAt | src/main/kotlin/com/prewave/edgetree/repository/EdgeRepository.kt:75-92 | a row (n, d) is in the descendants query with cutoff k exactly when 1 <= d <= k and n is at level d |
| CycleCheck.DescendantsArePaths | src/main/kotlin/com/prewave/edgetree/repository/EdgeRepository.kt:75-92 | every depth lies between 1 and maxDepth (exactly 1 when maxDepth < 1), and (n, d) is a row exactly when a walk of d rows leads from toId to n |
| CycleCheck.WouldCreateCycleSpec | src/main/kotlin/com/prewave/edgetree/repository/EdgeRepository.kt:94-105 | the answer is undecidable iff a walk of maxDepth rows leaves toId, whatever fromId is; it is a cycle iff that does not hold and fromId is reached within the cutoff |
| CycleCheck.NoCycleIsSound | src/main/kotlin/com/prewave/edgetree/repository/EdgeRepository.kt:68-106 | for maxDepth >= 1 a no-cycle answer means that no walk of one or more rows leads from toId to fromId |
| CycleCheck.CycleIsReal | src/main/kotlin/com/prewave/edgetree/repository/EdgeRepository.kt:54-58 | a cycle answer means that adding the row would make the table cyclic |
| CycleCheck.DegenerateBudget | src/main/kotlin/com/prewave/edgetree/repository/EdgeRepository.kt:85-102 | with maxDepth < 1 the answer is never undecidable, and it is a cycle iff toId has fromId as a direct child |
| CycleCheck.DegenerateBudgetMissesCycle | src/main/kotlin/com/prewave/edgetree/repository/EdgeRepository.kt:85-102 | with limit 0 the check approves 3 -> 1 over 1 -> 2 -> 3, and the resulting table is cyclic |
| TreeRead.IncidentCount | src/main/kotlin/com/prewave/edgetree/repository/EdgeRepository.kt:136-141 | the count is at most the number of rows, and positive iff some row has the node as source or target |
| TreeRead.RowsFromMembers | src/main/kotlin/com/prewave/edgetree/repository/EdgeRepository.kt:148-162 | the rows kept are exactly the table rows whose source is one of the expanded nodes |
| TreeRead.GroupByGroups | src/main/kotlin/com/prewave/edgetree/repository/EdgeRepository.kt:176-179 | the grouped map has a key exactly for each source that occurs, and lists that source's targets in row order |
| TreeRead.BuildEdgeMapEntries | src/main/kotlin/com/prewave/edgetree/repository/EdgeRepository.kt:143-180 | in the edge map a node on a level above the cutoff has its table children in table order, and any other node has none |
| TreeRead.SubtreeShape | src/main/kotlin/com/prewave/edgetree/repository/EdgeRepository.kt:182-191 | the intended tree is rooted at the node; with budget left its children carry the node's table children in order; without budget it is a leaf; its depth never exceeds the budget |
| TreeRead.SubtreeChildrenShape | src/main/kotlin/com/prewave/edgetree/repository/EdgeRepository.kt:186-188 | the mapped child list has one tree per id, in order, each rooted at its id and no deeper than the budget |
| TreeRead.ChildrenOfRowsFrom | src/main/kotlin/com/prewave/edgetree/repository/EdgeRepository.kt:148-162 | filtering the rows by expanded sources keeps the children of an expanded node and drops all others |
| TreeRead.BuildIsSubtree | src/main/kotlin/com/prewave/edgetree/repository/EdgeRepository.kt:182-191 | on a forest, for a node k levels below the root, buildEdgeNode over the edge map builds the intended tree with the remaining levels, so the fuel bound is never reached |
| TreeRead.BuildChildrenIsSubtrees | src/main/kotlin/com/prewave/edgetree/repository/EdgeRepository.kt:186-188 | the same for the mapped list of children of one level |
| TreeRead.NotReachedAtCutoff | src/main/kotlin/com/prewave/edgetree/repository/EdgeRepository.kt:155-162 | on a forest a node at the cutoff level is not expanded, so it is rendered as a leaf |
| Repository.Without | src/main/kotlin/com/prewave/edgetree/repository/EdgeRepository.kt:110-113 | the delete drops every copy of the pair and keeps the multiplicity of every other row; it is a no-op when the pair is absent |
| Repository.CreateEdgeOutcomes | src/main/kotlin/com/prewave/edgetree/repository/EdgeRepository.kt:33-66 | all five outcomes of createEdge, each iff its condition on the table: duplicate first, then existing parent, then undecidable (over cycle), then cycle, else the insert |
| Repository.AddKeepsAcyclic | src/main/kotlin/com/prewave/edgetree/repository/EdgeRepository.kt:60-63 | adding fromId -> toId keeps an acyclic table acyclic when no walk leads from toId to fromId and the ids differ |
| Repository.CreateKeepsForest | src/main/kotlin/com/prewave/edgetree/repository/EdgeRepository.kt:33-66 | a successful create with distinct ids and a positive limit keeps the table a forest |
| Repository.ValidatedCreateKeepsForest | src/main/kotlin/com/prewave/edgetree/dto/EdgeRequest.kt:9-17 | a create from a valid request keeps a forest with positive ids a forest with positive ids, whatever its outcome |
| Repository.SelfLoopReachesRepository | src/main/kotlin/com/prewave/edgetree/repository/EdgeRepository.kt:33-66 | the repository alone accepts 7 -> 7 on an empty table, after which the table is no forest |
| Repository.CreateThenCreate | src/main/kotlin/com/prewave/edgetree/repository/EdgeRepository.kt:36-52 | after a create, the same pair fails as a duplicate and another parent for the same target is refused |
| Repository.DeleteKeepsForest | src/main/kotlin/com/prewave/edgetree/repository/EdgeRepository.kt:108-120 | a delete keeps a forest a forest |
| Repository.DeleteUndoesCreate | src/main/kotlin/com/prewave/edgetree/repository/EdgeRepository.kt:108-120 | deleting the pair a create has just added succeeds and restores the table |
| Repository.DeleteOutcomes | src/main/kotlin/com/prewave/edgetree/repository/EdgeRepository.kt:108-120 | a delete fails iff the pair is absent, and then changes nothing; on a forest it removes exactly one row |
| Repository.GetEdgeNodeFound | src/main/kotlin/com/prewave/edgetree/repository/EdgeRepository.kt:122-141 | the read fails with NodeNotFound iff no row has the node as source or target; a success is rooted at the node |
| Repository.GetEdgeNodeCorrect | src/main/kotlin/com/prewave/edgetree/repository/EdgeRepository.kt:122-191 | on a forest a successful read is the intended subtree down to the cutoff, and its depth is at most the cutoff (at most maxDepth when that is positive) |
| Repository.EdgeRepository.constructor | src/main/kotlin/com/prewave/edgetree/repository/EdgeRepository.kt:24-28 | the repository starts on the given table with the given limit |
| Repository.EdgeRepository.CreateEdge | src/main/kotlin/com/prewave/edgetree/repository/EdgeRepository.kt:33-66 | returns the decided outcome; the table gains the row on success and is unchanged otherwise; the forest invariant is kept for distinct ids and a positive limit |
| Repository.EdgeRepository.DeleteEdge | src/main/kotlin/com/prewave/edgetree/repository/EdgeRepository.kt:108-120 | returns EdgeNotFound exactly when no row matched; the table loses every matching row and nothing else; the forest invariant is kept |
| Repository.EdgeRepository.GetEdgeNodeByNodeId | src/main/kotlin/com/prewave/edgetree/repository/EdgeRepository.kt:122-134 | fails only with NodeNotFound, and exactly when the node is in no row; on a forest a success is the intended subtree; the table is not changed |
| Examples.ChainLevels | src/main/kotlin/com/prewave/edgetree/repository/EdgeRepository.kt:75-87 | over 1 -> 2 -> 3 the levels below 1 are {2}, {3}, then empty |
| Examples.ChainCycleDetected | src/main/kotlin/com/prewave/edgetree/repository/EdgeRepository.kt:54-58 | over 1 -> 2 -> 3, creating 3 -> 1 with a limit of 3 or more fails with CycleDetected and stores nothing |
| Examples.ChainCycleUndecidable | src/main/kotlin/com/prewave/edgetree/repository/EdgeRepository.kt:94-100 | over 1 -> 2 -> 3, creating 3 -> 1 with a limit of 1 or 2 fails with CycleUndecidable and stores nothing |
| Examples.SmallTreeIsForest | src/main/kotlin/com/prewave/edgetree/repository/EdgeRepository.kt:33-66 | the table 1 -> 2, 1 -> 3, 2 -> 4 is a forest |
| Examples.SmallTreeChildren | src/main/kotlin/com/prewave/edgetree/repository/EdgeRepository.kt:176-179 | the children of 1, 2, 3 and 4 in that table, in row order |
| Examples.SmallSubtrees | src/main/kotlin/com/prewave/edgetree/repository/EdgeRepository.kt:182-191 | the intended trees of node 1 with budgets 99 and 1 |
| Examples.ReadMetrics | src/main/kotlin/com/prewave/edgetree/dto/EdgeNode.kt:8-15 | the full read has 4 nodes and depth 2; the read of depth one has 3 nodes and depth 1 |
| Examples.SmallTreeFullRead | src/main/kotlin/com/prewave/edgetree/repository/EdgeRepository.kt:122-134 | reading node 1 with limit 99 gives 1(2(4), 3), with 4 nodes and depth 2 |
| Examples.SmallTreeShallowRead | src/main/kotlin/com/prewave/edgetree/repository/EdgeRepository.kt:155-162 | reading node 1 with limit 1 renders 2 and 3 as leaves: 3 nodes, depth 1 |
| Examples.SmallTreeMissingNode | src/main/kotlin/com/prewave/edgetree/repository/EdgeRepository.kt:125-127 | reading any node outside 1..4, which is in no row, fails with NodeNotFound whatever the limit |
| Examples.TwoParentsLevels | src/main/kotlin/com/prewave/edgetree/repository/EdgeRepository.kt:148-162 | over 1 -> 2, 2 -> 3, 1 -> 3, 3 -> 4 with limit 2, the expanded nodes are 1, 2 and 3 |
| Examples.TwoParentsChildren | src/main/kotlin/com/prewave/edgetree/repository/EdgeRepository.kt:176-179 | the children of 1, 2 and 3 in that table, in row order |
| Examples.TwoParentsMap | src/main/kotlin/com/prewave/edgetree/repository/EdgeRepository.kt:143-180 | the edge map of that read is 1: [2, 3], 2: [3], 3: [4], and 4 has no entry |
| Examples.TwoParentsBuild | src/main/kotlin/com/prewave/edgetree/repository/EdgeRepository.kt:182-191 | building node 1 from that map gives 1(2(3(4)), 3(4)): node 3 appears under both parents |
| Examples.TwoParentsMetrics | src/main/kotlin/com/prewave/edgetree/dto/EdgeNode.kt:8-15 | that tree has 6 nodes and depth 3 |
| Examples.TwoParentsRead | src/main/kotlin/com/prewave/edgetree/repository/EdgeRepository.kt:122-134 | reading node 1 of that table with limit 2 gives 1(2(3(4)), 3(4)), of depth 3, deeper than the limit |

## Left out

- SQL, jOOQ and the database: each query is modelled by its result on the table, and the table is a sequence of pairs.
- Transactions and concurrency: each operation is modelled as one atomic step. Two concurrent creates that both pass the guards are not modelled.
- Logging: it has no effect on results.
- Spring configuration: `maxCycleDepth` is a constructor argument, and its configured default is the constant `DefaultMaxCycleDepth` (50).
- The controller, the service layer and the exception handler are not part of this model. The request constraints are modelled as a predicate (`EdgeRequests.IsValid`) and are assumed to be checked before the repository is called.
- Repository.EdgeRepository.GetEdgeNodeByNodeId: the Kotlin default argument `maxDepth = 99` is not modelled, so the caller always passes the limit.
- 32-bit `Int`: ids and depths are unbounded integers. Ids take part in no arithmetic. A depth never exceeds the limit, so the `depth + 1` of the queries cannot wrap.
- Row order: the model takes the table's enumeration order as the row order of both recursive queries. A database may return the rows of a recursive query in another order. That order changes only the order of children in a read, and no error or membership result.
- `UNION ALL` multiplicities: the descendants query is modelled as a set, which changes neither `any` nor `in`. The edge-map query is modelled as the table rows leaving an expanded node, each once. On a table with two walks to one node, or with a repeated row, the real query repeats rows and the read repeats children: over 1 -> 2, 1 -> 2, 2 -> 3 the real read of node 1 is 1(2(3, 3), 2(3, 3)) and the model's is 1(2(3), 2(3)). `Repository.GetEdgeNodeCorrect` requires a single parent and no cycle and so admits such a repeated row; there it states the model's read, not the real one. On a forest there are no such duplicates (`EdgeStore.UniqueLevel`, and no repeated rows).
- TreeRead.BuildEdgeNode: the recursion is given a fuel bound, the cutoff plus the number of rows (`Repository.ReadFuel`). Each recursive call follows one row of the table, and a walk through an acyclic table uses each row at most once, so the bound cuts a branch only where the table has a cycle and the Kotlin function recurses without bound. This argument is not itself a lemma. On a forest the bound is proved never to be hit (`TreeRead.BuildIsSubtree`). The constructor accepts any table, and unmodelled concurrent creates can give a node two parents; `Examples.TwoParentsRead` shows such a read.
- Repository.EdgeRepository.CreateEdge: forest preservation is stated only for distinct ids and a positive limit. The repository itself accepts a self-loop on a node without a parent (`Repository.SelfLoopReachesRepository`), and only the request validator excludes it (`Repository.ValidatedCreateKeepsForest`). A limit below one lets a cycle through (`CycleCheck.DegenerateBudgetMissesCycle`).
- Expected behaviour vs code: for rows 1 -> 2 and 2 -> 3 one might expect creating 3 -> 1 with a cycle limit of 2 or more to fail with CycleDetected, since 3 is visible at depth 2. The code reports CycleUndecidable at a limit of exactly 2, because node 3 is produced at depth 2, which equals the limit. The model follows the code (`Examples.ChainCycleUndecidable`, `Examples.ChainCycleDetected`).
