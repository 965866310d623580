/** The bounded cycle check run before an edge is inserted: the recursive
    "descendants" query over the EDGE table, rows (to_id, depth), followed by
    the depth test and the membership test on its result. */
module CycleCheck {
  import opened EdgeStore

  datatype CycleDecision = NoCycle | Cycle | Undecidable

  /** The deepest level a recursive query with limit `maxDepth` produces:
      the start rows sit at depth 1 and a row at depth d is expanded only
      while d < maxDepth, so a limit below one still yields depth 1. */
  function Cutoff(maxDepth: int): nat
  {
    if maxDepth >= 1 then maxDepth else 1
  }

  /** The rows at one depth: every node of that level, tagged with it. */
  function LevelRows(edges: seq<Edge>, root: int, d: nat): set<(int, int)>
  {
    set n | n in Level(edges, root, d) :: (n, d)
  }

  /** The union of the rows at depths 1 to `k`. */
  function DescendantRows(edges: seq<Edge>, root: int, k: nat): set<(int, int)>
    decreases k
  {
    if k == 0 then {} else DescendantRows(edges, root, k - 1) + LevelRows(edges, root, k)
  }

  /** The result of the "descendants" query started from `toId`. */
  function Descendants(edges: seq<Edge>, toId: int, maxDepth: int): set<(int, int)>
  {
    DescendantRows(edges, toId, Cutoff(maxDepth))
  }

  /** `wouldCreateCycle`: a row at depth exactly `maxDepth` is tested first
      and makes the answer undecidable; otherwise the answer is whether
      `fromId` is among the descendants of `toId`. */
  function WouldCreateCycle(edges: seq<Edge>, fromId: int, toId: int, maxDepth: int): CycleDecision
  {
    var rows := Descendants(edges, toId, maxDepth);
    var maxDepthReached := exists row :: row in rows && row.1 == maxDepth;
    var allDescendants := set row | row in rows :: row.0;
    if maxDepthReached then Undecidable
    else if fromId in allDescendants then Cycle
    else NoCycle
  }

  /** Some walk of exactly `maxDepth` rows leaves `toId`: the search budget
      is used up before the descendant set is known to be complete. */
  ghost predicate BudgetExhausted(edges: seq<Edge>, toId: int, maxDepth: int)
  {
    maxDepth >= 1 && exists n :: PathOfLength(edges, toId, n, maxDepth)
  }

  /** `b` is reached from `a` by a walk of between 1 and `k` rows. */
  ghost predicate ReachableWithin(edges: seq<Edge>, a: int, b: int, k: nat)
  {
    exists d :: 1 <= d <= k && PathOfLength(edges, a, b, d)
  }

  /** A row (n, d) is produced exactly when d is between 1 and `k` and n is
      at level d. */
  lemma {:induction false} DescendantRowsAt(edges: seq<Edge>, root: int, k: nat, n: int, d: int)
    ensures (n, d) in DescendantRows(edges, root, k) <==> 1 <= d <= k && n in Level(edges, root, d)
    decreases k
  {
    if k > 0 {
      DescendantRowsAt(edges, root, k - 1, n, d);
      if d == k && n in Level(edges, root, d) {
        assert (n, d) in LevelRows(edges, root, k);
      }
    }
  }

  /** Every row of the query has a depth from 1 to the cutoff (from 1 to
      `maxDepth` when `maxDepth` is positive), and (n, d) is a row exactly
      when a walk of d rows leads from `toId` to n. */
  lemma DescendantsArePaths(edges: seq<Edge>, toId: int, maxDepth: int, n: int, d: int)
    ensures (n, d) in Descendants(edges, toId, maxDepth) ==>
      1 <= d && (maxDepth >= 1 ==> d <= maxDepth) && (maxDepth < 1 ==> d == 1)
    ensures (n, d) in Descendants(edges, toId, maxDepth) <==>
      1 <= d <= Cutoff(maxDepth) && PathOfLength(edges, toId, n, d)
  {
    DescendantRowsAt(edges, toId, Cutoff(maxDepth), n, d);
    if 1 <= d {
      LevelIffPath(edges, toId, n, d);
    }
  }

  /** The two negative answers, stated on walks: undecidable exactly when
      a walk of `maxDepth` rows exists, whatever `fromId` is; a cycle
      exactly when the budget is not exhausted and `fromId` is reached
      within the cutoff. */
  lemma WouldCreateCycleSpec(edges: seq<Edge>, fromId: int, toId: int, maxDepth: int)
    ensures WouldCreateCycle(edges, fromId, toId, maxDepth) == Undecidable <==>
      BudgetExhausted(edges, toId, maxDepth)
    ensures WouldCreateCycle(edges, fromId, toId, maxDepth) == Cycle <==>
      !BudgetExhausted(edges, toId, maxDepth) && ReachableWithin(edges, toId, fromId, Cutoff(maxDepth))
  {
    var rows := Descendants(edges, toId, maxDepth);
    if exists row :: row in rows && row.1 == maxDepth {
      var row :| row in rows && row.1 == maxDepth;
      DescendantsArePaths(edges, toId, maxDepth, row.0, row.1);
      assert BudgetExhausted(edges, toId, maxDepth);
    }
    if BudgetExhausted(edges, toId, maxDepth) {
      var n :| PathOfLength(edges, toId, n, maxDepth);
      DescendantsArePaths(edges, toId, maxDepth, n, maxDepth);
      assert (n, maxDepth) in rows;
    }
    if fromId in (set row | row in rows :: row.0) {
      var row :| row in rows && row.0 == fromId;
      DescendantsArePaths(edges, toId, maxDepth, row.0, row.1);
      assert ReachableWithin(edges, toId, fromId, Cutoff(maxDepth));
    }
    if ReachableWithin(edges, toId, fromId, Cutoff(maxDepth)) {
      var d :| 1 <= d <= Cutoff(maxDepth) && PathOfLength(edges, toId, fromId, d);
      DescendantsArePaths(edges, toId, maxDepth, fromId, d);
      assert (fromId, d) in rows;
    }
  }

  /** Soundness of a "no cycle" answer for a positive budget: no walk of one
      or more rows leads from `toId` to `fromId`. */
  lemma NoCycleIsSound(edges: seq<Edge>, fromId: int, toId: int, maxDepth: int)
    requires maxDepth >= 1
    requires WouldCreateCycle(edges, fromId, toId, maxDepth) == NoCycle
    ensures forall p {:trigger IsPath(edges, p)} :: IsPath(edges, p) && |p| >= 2 && p[0] == toId ==> p[|p| - 1] != fromId
  {
    WouldCreateCycleSpec(edges, fromId, toId, maxDepth);
    forall p | IsPath(edges, p) && |p| >= 2 && p[0] == toId
      ensures p[|p| - 1] != fromId
    {
      var k := |p| - 1;
      if k >= maxDepth {
        PrefixIsPath(edges, p, maxDepth);
      } else {
        PrefixIsPath(edges, p, k);
      }
    }
  }

  /** A "cycle" answer is never a false alarm: adding the edge from `fromId`
      to `toId` would close a walk back to `toId`. */
  lemma CycleIsReal(edges: seq<Edge>, fromId: int, toId: int, maxDepth: int)
    requires WouldCreateCycle(edges, fromId, toId, maxDepth) == Cycle
    ensures !Acyclic(edges + [(fromId, toId)])
  {
    WouldCreateCycleSpec(edges, fromId, toId, maxDepth);
    var d :| 1 <= d <= Cutoff(maxDepth) && PathOfLength(edges, toId, fromId, d);
    var p :| IsPath(edges, p) && |p| == d + 1 && p[0] == toId && p[d] == fromId;
    var q := p + [toId];
    assert IsPath(edges + [(fromId, toId)], q) by {
      forall i | 0 <= i < |q| - 1
        ensures (q[i], q[i + 1]) in edges + [(fromId, toId)]
      {
        if i < |q| - 2 {
          assert (p[i], p[i + 1]) in edges;
        }
      }
    }
    assert q[0] == q[|q| - 1];
  }

  /** With a limit below one only the direct children of `toId` are looked
      at and the answer is never undecidable. */
  lemma DegenerateBudget(edges: seq<Edge>, fromId: int, toId: int, maxDepth: int)
    requires maxDepth < 1
    ensures WouldCreateCycle(edges, fromId, toId, maxDepth) != Undecidable
    ensures WouldCreateCycle(edges, fromId, toId, maxDepth) == Cycle <==> (toId, fromId) in edges
  {
    var rows := Descendants(edges, toId, maxDepth);
    if (toId, fromId) in edges {
      assert fromId in Level(edges, toId, 1);
      DescendantRowsAt(edges, toId, 1, fromId, 1);
    }
    if fromId in (set row | row in rows :: row.0) {
      var row :| row in rows && row.0 == fromId;
      DescendantRowsAt(edges, toId, 1, row.0, row.1);
    }
  }

  /** The limit below one lets a cycle through: with rows 1 -> 2 and 2 -> 3
      the check approves 3 -> 1, which closes 1 -> 2 -> 3 -> 1. */
  lemma DegenerateBudgetMissesCycle()
    ensures WouldCreateCycle([(1, 2), (2, 3)], 3, 1, 0) == NoCycle
    ensures !Acyclic([(1, 2), (2, 3), (3, 1)])
  {
    var edges := [(1, 2), (2, 3)];
    DegenerateBudget(edges, 3, 1, 0);
    var p := [1, 2, 3, 1];
    assert IsPath([(1, 2), (2, 3), (3, 1)], p);
  }
}
