/** The EDGE table, seen through the queries the repository runs on it, and
    the forest property the repository is meant to keep. A row is a pair
    (from_id, to_id); the sequence order is the table's enumeration order. */
module EdgeStore {

  type Edge = (int, int)

  /** The duplicate probe of `createEdge`: a row with both ids. */
  predicate EdgeExists(edges: seq<Edge>, fromId: int, toId: int)
  {
    (fromId, toId) in edges
  }

  /** The parent probe of `createEdge`: some row targets `toId`. */
  predicate HasParent(edges: seq<Edge>, toId: int)
  {
    exists e :: e in edges && e.1 == toId
  }

  /** One expansion step of a recursive query: the targets of all rows whose
      source is in `frontier`. */
  function ChildrenOf(edges: seq<Edge>, frontier: set<int>): set<int>
  {
    set e | e in edges && e.0 in frontier :: e.1
  }

  /** The nodes reached from `root` after exactly `d` expansion steps. */
  function Level(edges: seq<Edge>, root: int, d: nat): set<int>
    decreases d
  {
    if d == 0 then {root} else ChildrenOf(edges, Level(edges, root, d - 1))
  }

  /** A walk along rows of the table, given by its nodes. */
  ghost predicate IsPath(edges: seq<Edge>, p: seq<int>)
  {
    |p| >= 1 && forall i :: 0 <= i < |p| - 1 ==> (p[i], p[i + 1]) in edges
  }

  /** There is a walk of exactly `d` rows from `a` to `b`. */
  ghost predicate PathOfLength(edges: seq<Edge>, a: int, b: int, d: nat)
  {
    exists p {:trigger IsPath(edges, p)} :: IsPath(edges, p) && |p| == d + 1 && p[0] == a && p[d] == b
  }

  ghost predicate NoSelfLoops(edges: seq<Edge>)
  {
    forall e :: e in edges ==> e.0 != e.1
  }

  ghost predicate NoDuplicates(edges: seq<Edge>)
  {
    forall e :: e in edges ==> multiset(edges)[e] == 1
  }

  ghost predicate SingleParent(edges: seq<Edge>)
  {
    forall e1, e2 :: e1 in edges && e2 in edges && e1.1 == e2.1 ==> e1 == e2
  }

  /** No walk of one or more rows returns to where it started. */
  ghost predicate Acyclic(edges: seq<Edge>)
  {
    forall p {:trigger IsPath(edges, p)} :: IsPath(edges, p) && |p| >= 2 ==> p[0] != p[|p| - 1]
  }

  /** The invariant the repository is meant to keep: a disjoint union of
      rooted trees. */
  ghost predicate Forest(edges: seq<Edge>)
  {
    NoSelfLoops(edges) && NoDuplicates(edges) && SingleParent(edges) && Acyclic(edges)
  }

  /** A child of a node of level `d` is on level `d + 1`. */
  lemma ChildOnNextLevel(edges: seq<Edge>, root: int, p: int, c: int, d: nat)
    requires p in Level(edges, root, d) && (p, c) in edges
    ensures c in Level(edges, root, d + 1)
  {
    assert Level(edges, root, d + 1) == ChildrenOf(edges, Level(edges, root, d));
  }

  /** A node of a positive level has a parent on the level before. */
  lemma ParentOnLevel(edges: seq<Edge>, root: int, c: int, d: nat) returns (p: int)
    requires d > 0 && c in Level(edges, root, d)
    ensures p in Level(edges, root, d - 1) && (p, c) in edges
  {
    var frontier := Level(edges, root, d - 1);
    assert c in ChildrenOf(edges, frontier);
    var e :| e in edges && e.0 in frontier && e.1 == c;
    p := e.0;
  }

  /** Every node at level `d` is the end of a walk of `d` rows from the root. */
  lemma {:induction false} LevelToPath(edges: seq<Edge>, a: int, b: int, d: nat) returns (p: seq<int>)
    requires b in Level(edges, a, d)
    ensures IsPath(edges, p) && |p| == d + 1 && p[0] == a && p[d] == b
    decreases d
  {
    if d == 0 {
      p := [a];
    } else {
      var m := ParentOnLevel(edges, a, b, d);
      var q := LevelToPath(edges, a, m, d - 1);
      p := q + [b];
      assert forall i :: 0 <= i < |q| ==> p[i] == q[i];
    }
  }

  /** The end of a walk of `k` rows is at level `k` from its start. */
  lemma {:induction false} PathToLevel(edges: seq<Edge>, p: seq<int>)
    requires IsPath(edges, p)
    ensures p[|p| - 1] in Level(edges, p[0], |p| - 1)
    decreases |p|
  {
    if |p| > 1 {
      var q := p[..|p| - 1];
      assert IsPath(edges, q) by {
        assert forall i :: 0 <= i < |q| ==> q[i] == p[i];
      }
      PathToLevel(edges, q);
      ChildOnNextLevel(edges, p[0], p[|p| - 2], p[|p| - 1], |p| - 2);
    }
  }

  /** The first `d` rows of a walk are a walk of `d` rows. */
  lemma PrefixIsPath(edges: seq<Edge>, p: seq<int>, d: nat)
    requires IsPath(edges, p) && d < |p|
    ensures PathOfLength(edges, p[0], p[d], d)
  {
    var q := p[..d + 1];
    assert forall i :: 0 <= i < |q| ==> q[i] == p[i];
    assert IsPath(edges, q);
  }

  /** A node is at level `d` exactly when a walk of `d` rows leads to it. */
  lemma LevelIffPath(edges: seq<Edge>, a: int, b: int, d: nat)
    ensures b in Level(edges, a, d) <==> PathOfLength(edges, a, b, d)
  {
    if b in Level(edges, a, d) {
      var p := LevelToPath(edges, a, b, d);
    }
    if PathOfLength(edges, a, b, d) {
      var p :| IsPath(edges, p) && |p| == d + 1 && p[0] == a && p[d] == b;
      PathToLevel(edges, p);
    }
  }

  /** Once a level is empty, every later level is empty. */
  lemma {:induction false} EmptyLevelStaysEmpty(edges: seq<Edge>, a: int, d: nat, k: nat)
    requires Level(edges, a, d) == {} && d <= k
    ensures Level(edges, a, k) == {}
    decreases k - d
  {
    if d < k {
      assert Level(edges, a, d + 1) == ChildrenOf(edges, {});
      EmptyLevelStaysEmpty(edges, a, d + 1, k);
    }
  }

  /** Under the single-parent invariant, a node reached at two levels makes
      the root reach itself in the difference of the two. */
  lemma {:induction false} LevelShift(edges: seq<Edge>, root: int, n: int, d1: nat, d2: nat)
    requires SingleParent(edges)
    requires n in Level(edges, root, d1) && n in Level(edges, root, d2) && d1 <= d2
    ensures root in Level(edges, root, d2 - d1)
    decreases d1
  {
    if d1 > 0 {
      var p1 := ParentOnLevel(edges, root, n, d1);
      var p2 := ParentOnLevel(edges, root, n, d2);
      assert (p1, n) == (p2, n);
      LevelShift(edges, root, p1, d1 - 1, d2 - 1);
    }
  }

  /** In an acyclic table no node is reached from itself by one or more rows. */
  lemma RootNotAtPositiveLevel(edges: seq<Edge>, root: int, k: nat)
    requires Acyclic(edges) && k >= 1
    ensures root !in Level(edges, root, k)
  {
    if root in Level(edges, root, k) {
      var p := LevelToPath(edges, root, root, k);
      assert false;
    }
  }

  /** In a forest every node hangs at one level below a given root. */
  lemma UniqueLevel(edges: seq<Edge>, root: int, n: int, d1: nat, d2: nat)
    requires SingleParent(edges) && Acyclic(edges)
    requires n in Level(edges, root, d1) && n in Level(edges, root, d2)
    ensures d1 == d2
  {
    if d1 != d2 {
      var lo, hi := if d1 < d2 then d1 else d2, if d1 < d2 then d2 else d1;
      LevelShift(edges, root, n, lo, hi);
      RootNotAtPositiveLevel(edges, root, hi - lo);
    }
  }

  /** A walk over a subset of the rows is a walk over all of them; so
      removing rows keeps a table acyclic. */
  lemma SubsetKeepsAcyclic(edges: seq<Edge>, sub: seq<Edge>)
    requires forall e :: e in sub ==> e in edges
    requires Acyclic(edges)
    ensures Acyclic(sub)
  {
    forall p | IsPath(sub, p) && |p| >= 2
      ensures p[0] != p[|p| - 1]
    {
      assert IsPath(edges, p);
    }
  }
}
