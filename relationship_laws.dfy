/**
 * Laws of the relationship table of task2/task.py: the column totals, the
 * pairing of columns 2 and 3, the bounds of every cell, and the symmetry of
 * the sibling count.  The tables of small example graphs are in
 * RelationshipScenarios.
 */
module RelationshipLaws {
  import opened Graph
  import opened Traversal
  import opened Relationships

  /** The total of column c over the first k rows. */
  ghost function ColumnUpTo(rows: seq<seq<int>>, c: nat, k: int): int
    requires k <= |rows|
    decreases k
  {
    if k <= 0 then 0 else ColumnUpTo(rows, c, k - 1) + (if c < |rows[k - 1]| then rows[k - 1][c] else 0)
  }

  ghost function ColumnSum(rows: seq<seq<int>>, c: nat): int {
    ColumnUpTo(rows, c, |rows|)
  }

  // ---------------------------------------------------------------------
  // Columns 0 and 1: every edge is counted once at its parent and once at
  // its child.
  // ---------------------------------------------------------------------

  /** The out-degrees of nodes 1..k added up. */
  ghost function OutSum(edges: seq<Edge>, k: int): nat
    decreases k
  {
    if k <= 0 then 0 else OutSum(edges, k - 1) + |ChildrenOf(edges, k)|
  }

  /** The in-degrees of nodes 1..k added up. */
  ghost function InSum(edges: seq<Edge>, k: int): nat
    decreases k
  {
    if k <= 0 then 0 else InSum(edges, k - 1) + |ParentsOf(edges, k)|
  }

  lemma {:induction false} OutSumAppend(edges: seq<Edge>, e: Edge, k: int)
    ensures OutSum(edges + [e], k) == OutSum(edges, k) + (if 1 <= e.0 <= k then 1 else 0)
    decreases k
  {
    if k > 0 {
      OutSumAppend(edges, e, k - 1);
      assert (edges + [e])[..|edges|] == edges;
      var tail: seq<int> := if e.0 == k then [e.1] else [];
      assert ChildrenOf(edges + [e], k) == ChildrenOf(edges, k) + tail;
    }
  }

  lemma {:induction false} InSumAppend(edges: seq<Edge>, e: Edge, k: int)
    ensures InSum(edges + [e], k) == InSum(edges, k) + (if 1 <= e.1 <= k then 1 else 0)
    decreases k
  {
    if k > 0 {
      InSumAppend(edges, e, k - 1);
      assert (edges + [e])[..|edges|] == edges;
      var tail: seq<int> := if e.1 == k then [e.0] else [];
      assert ParentsOf(edges + [e], k) == ParentsOf(edges, k) + tail;
    }
  }

  lemma {:induction false} DegreeSumsAreEdgeCount(edges: seq<Edge>, n: int)
    requires ValidEdges(edges, n)
    ensures OutSum(edges, n) == |edges| && InSum(edges, n) == |edges|
  {
    if |edges| == 0 {
      EmptySums(n);
    } else {
      var init, e := edges[..|edges| - 1], edges[|edges| - 1];
      assert edges == init + [e];
      assert ValidEdges(init, n) by {
        forall i | 0 <= i < |init| ensures 1 <= init[i].0 <= n && 1 <= init[i].1 <= n {
          assert init[i] == edges[i];
        }
      }
      DegreeSumsAreEdgeCount(init, n);
      OutSumAppend(init, e, n);
      InSumAppend(init, e, n);
    }
  }

  lemma {:induction false} EmptySums(k: int)
    ensures OutSum([], k) == 0 && InSum([], k) == 0
    decreases k
  {
    if k > 0 {
      EmptySums(k - 1);
    }
  }

  lemma {:induction false} DegreeColumnsUpTo(edges: seq<Edge>, n: nat, k: int)
    requires k <= n
    ensures ColumnUpTo(ExpectedTable(edges, n), 0, k) == OutSum(edges, k)
    ensures ColumnUpTo(ExpectedTable(edges, n), 1, k) == InSum(edges, k)
    decreases k
  {
    if k > 0 {
      DegreeColumnsUpTo(edges, n, k - 1);
    }
  }

  /**
   * Columns 0 and 1 each add up to the number of edges, repeated edges and
   * self-loops included.
   */
  lemma DegreeColumnsTotal(edges: seq<Edge>, n: nat)
    requires ValidEdges(edges, n)
    ensures ColumnSum(ExpectedTable(edges, n), 0) == |edges|
    ensures ColumnSum(ExpectedTable(edges, n), 1) == |edges|
  {
    DegreeColumnsUpTo(edges, n, n);
    DegreeSumsAreEdgeCount(edges, n);
  }

  // ---------------------------------------------------------------------
  // Columns 2 and 3: both count the pairs (s, v) with v extended from s,
  // once by start and once by end.
  // ---------------------------------------------------------------------

  ghost function Ind(edges: seq<Edge>, s: int, v: int): nat {
    if Extended(edges, s, v) then 1 else 0
  }

  /** How many of the ends 1..b are extended from s. */
  ghost function RowCount(edges: seq<Edge>, s: int, b: int): nat
    decreases b
  {
    if b <= 0 then 0 else RowCount(edges, s, b - 1) + Ind(edges, s, b)
  }

  /** From how many of the starts 1..a v is extended. */
  ghost function ColCount(edges: seq<Edge>, v: int, a: int): nat
    decreases a
  {
    if a <= 0 then 0 else ColCount(edges, v, a - 1) + Ind(edges, a, v)
  }

  /** The extended pairs among starts 1..a and ends 1..b, counted start by start. */
  ghost function ByStarts(edges: seq<Edge>, a: int, b: int): nat
    decreases a
  {
    if a <= 0 then 0 else ByStarts(edges, a - 1, b) + RowCount(edges, a, b)
  }

  /** The same pairs counted end by end. */
  ghost function ByEnds(edges: seq<Edge>, a: int, b: int): nat
    decreases b
  {
    if b <= 0 then 0 else ByEnds(edges, a, b - 1) + ColCount(edges, b, a)
  }

  lemma {:induction false} ByEndsEmpty(edges: seq<Edge>, b: int)
    ensures ByEnds(edges, 0, b) == 0
    decreases b
  {
    if b > 0 {
      ByEndsEmpty(edges, b - 1);
    }
  }

  /** One more start adds its row to the count by ends. */
  lemma {:induction false} ByEndsStep(edges: seq<Edge>, a: int, b: int)
    requires a >= 1
    ensures ByEnds(edges, a, b) == ByEnds(edges, a - 1, b) + RowCount(edges, a, b)
    decreases b
  {
    if b > 0 {
      ByEndsStep(edges, a, b - 1);
    }
  }

  /** Counting by starts and counting by ends agree. */
  lemma {:induction false} StartsEqualEnds(edges: seq<Edge>, a: int, b: int)
    ensures ByStarts(edges, a, b) == ByEnds(edges, a, b)
    decreases a
  {
    if a <= 0 {
      ByEndsEmpty(edges, b);
      assert ByEnds(edges, a, b) == ByEnds(edges, 0, b) by {
        ByEndsNonPositive(edges, a, b);
      }
    } else {
      StartsEqualEnds(edges, a - 1, b);
      ByEndsStep(edges, a, b);
    }
  }

  lemma {:induction false} ByEndsNonPositive(edges: seq<Edge>, a: int, b: int)
    requires a <= 0
    ensures ByEnds(edges, a, b) == ByEnds(edges, 0, b)
    decreases b
  {
    if b > 0 {
      ByEndsNonPositive(edges, a, b - 1);
    }
  }

  /** Column 2 of s counts its row. */
  lemma {:induction false} ExtendedFromCount(edges: seq<Edge>, s: int, b: int)
    ensures |set v | 1 <= v <= b && Extended(edges, s, v)| == RowCount(edges, s, b)
    decreases b
  {
    if b > 0 {
      ExtendedFromCount(edges, s, b - 1);
      var added := if Extended(edges, s, b) then {b} else {};
      assert (set v | 1 <= v <= b && Extended(edges, s, v)) == (set v | 1 <= v <= b - 1 && Extended(edges, s, v)) + added;
    } else {
      assert (set v | 1 <= v <= b && Extended(edges, s, v)) == {};
    }
  }

  /** Column 3 of v counts its column. */
  lemma {:induction false} AncestorsCount(edges: seq<Edge>, v: int, a: int)
    ensures |AncestorsBelow(edges, v, a + 1)| == ColCount(edges, v, a)
    decreases a
  {
    if a > 0 {
      AncestorsCount(edges, v, a - 1);
      AncestorsStep(edges, v, a);
    } else {
      assert AncestorsBelow(edges, v, a + 1) == {};
    }
  }

  lemma {:induction false} ReachColumnsUpTo(edges: seq<Edge>, n: nat, k: int)
    requires k <= n
    ensures ColumnUpTo(ExpectedTable(edges, n), 2, k) == ByStarts(edges, k, n)
    ensures ColumnUpTo(ExpectedTable(edges, n), 3, k) == ByEnds(edges, n, k)
    decreases k
  {
    if k > 0 {
      ReachColumnsUpTo(edges, n, k - 1);
      ExtendedFromCount(edges, k, n);
      AncestorsCount(edges, k, n);
    }
  }

  /**
   * Every increment of column 2 at a start is matched by one of column 3 at
   * the node reached, so the two columns have the same total.
   */
  lemma ReachColumnsBalance(edges: seq<Edge>, n: nat)
    ensures ColumnSum(ExpectedTable(edges, n), 2) == ColumnSum(ExpectedTable(edges, n), 3)
  {
    ReachColumnsUpTo(edges, n, n);
    StartsEqualEnds(edges, n, n);
  }

  // ---------------------------------------------------------------------
  // Column 4.
  // ---------------------------------------------------------------------

  /** A node without parents has no siblings. */
  lemma NoParentsNoSiblings(edges: seq<Edge>, n: int, v: int)
    requires ParentsOf(edges, v) == []
    ensures SiblingCount(edges, n, v) == 0
  {
    forall b | b in SiblingSet(edges, n, v) ensures false {
      var i, j :| 0 <= i < |edges| && 0 <= j < |edges| &&
        edges[i].0 == edges[j].0 && edges[i].1 == v && edges[j].1 == b;
      ParentsOfMembership(edges, v, edges[i].0);
    }
    assert SiblingSet(edges, n, v) == {};
  }

  /** A node has at most n - 1 siblings: all of them are other nodes of 1..n. */
  lemma SiblingsBound(edges: seq<Edge>, n: int, v: int)
    requires 1 <= v <= n
    ensures SiblingCount(edges, n, v) <= n - 1
  {
    assert SiblingSet(edges, n, v) <= Nodes(n) - {v};
    assert |Nodes(n) - {v}| == n - 1;
    NodesSubsetBound(SiblingSet(edges, n, v), Nodes(n) - {v});
  }

  lemma NodesSubsetBound(A: set<int>, B: set<int>)
    requires A <= B
    ensures |A| <= |B|
  {
    assert B == A + (B - A);
  }

  /** b is a sibling of a exactly when a is a sibling of b. */
  lemma SiblingsSymmetricInTable(edges: seq<Edge>, n: int, a: int, b: int)
    requires 1 <= a <= n && 1 <= b <= n
    ensures b in SiblingSet(edges, n, a) <==> a in SiblingSet(edges, n, b)
  {
    SiblingsSymmetric(edges, a, b);
  }

  // ---------------------------------------------------------------------
  // Shape of the table.
  // ---------------------------------------------------------------------

  /** A node is within 0 steps of itself, so it is never extended from itself. */
  lemma NotExtendedFromItself(edges: seq<Edge>, v: int)
    ensures !Extended(edges, v, v)
  {
    WithinMonotone(edges, v, v, 0, 1);
  }

  /** Node v counts at most n - 1 extended descendants, extended ancestors and siblings. */
  lemma RowBounds(edges: seq<Edge>, n: nat, v: int)
    requires 1 <= v <= n
    ensures ExtendedDescendants(edges, n, v) <= n - 1
    ensures ExtendedAncestors(edges, n, v) <= n - 1
    ensures SiblingCount(edges, n, v) <= n - 1
  {
    NotExtendedFromItself(edges, v);
    assert |Nodes(n) - {v}| == n - 1;
    NodesSubsetBound(ExtendedFrom(edges, n, v), Nodes(n) - {v});
    NodesSubsetBound(AncestorsBelow(edges, v, n + 1), Nodes(n) - {v});
    SiblingsBound(edges, n, v);
  }

  /**
   * The table has one row of five non-negative counts per node, and in every
   * row the last three counts are at most n - 1: they count nodes other than
   * the row's own.
   */
  lemma TableShape(edges: seq<Edge>, n: nat)
    ensures |ExpectedTable(edges, n)| == n
    ensures forall i :: 0 <= i < n ==> |ExpectedTable(edges, n)[i]| == 5
    ensures forall i, c :: 0 <= i < n && 0 <= c < 5 ==> ExpectedTable(edges, n)[i][c] >= 0
    ensures forall i :: 0 <= i < n ==>
      ExpectedTable(edges, n)[i][2] <= n - 1 && ExpectedTable(edges, n)[i][3] <= n - 1 &&
      ExpectedTable(edges, n)[i][4] <= n - 1
  {
    forall i | 0 <= i < n
      ensures ExpectedTable(edges, n)[i][2] <= n - 1 && ExpectedTable(edges, n)[i][3] <= n - 1 &&
        ExpectedTable(edges, n)[i][4] <= n - 1
    {
      RowBounds(edges, n, i + 1);
    }
  }
}
