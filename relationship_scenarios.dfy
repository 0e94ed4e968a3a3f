/**
 * The tables calculate_relationships (task2/task.py) computes for a few small
 * graphs: a tree, a self-loop, a two-node cycle and two disconnected parts.
 */
module RelationshipScenarios {
  import opened Graph
  import opened Traversal
  import opened Relationships

  /** A set closed under children is closed under edges. */
  lemma ClosedByChildren(edges: seq<Edge>, R: set<int>)
    requires forall v, c :: v in R && c in ChildrenOf(edges, v) ==> c in R
    ensures Closed(edges, R)
  {
    forall i | 0 <= i < |edges| && edges[i].0 in R ensures edges[i].1 in R {
      ChildrenOfMembership(edges, edges[i].0, edges[i].1);
    }
  }

  /** The nodes within one step of s are s and its children. */
  lemma NearByChildren(edges: seq<Edge>, n: int, s: int, N: set<int>)
    requires 1 <= s <= n && s in N && N <= Nodes(n)
    requires forall c :: c in ChildrenOf(edges, s) ==> c in N
    requires forall v :: v in N ==> v == s || v in ChildrenOf(edges, s)
    ensures Near(edges, n, s) == N
  {
    forall v | 1 <= v <= n ensures WithinSteps(edges, s, v, 1) <==> v in N {
      OneStep(edges, s, v);
      ChildrenOfMembership(edges, s, v);
    }
  }

  /**
   * With R a set holding s, closed under children, and reachable from s, and
   * N the set of s and its children, the nodes extended from s are R less N.
   */
  lemma ExtendedFromClosed(edges: seq<Edge>, n: int, s: int, R: set<int>, N: set<int>)
    requires 1 <= s <= n && s in R && R <= Nodes(n) && s in N && N <= Nodes(n)
    requires forall v, c :: v in R && c in ChildrenOf(edges, v) ==> c in R
    requires forall v :: v in R ==> Reachable(edges, s, v)
    requires forall c :: c in ChildrenOf(edges, s) ==> c in N
    requires forall v :: v in N ==> v == s || v in ChildrenOf(edges, s)
    ensures ExtendedFrom(edges, n, s) == R - N
  {
    ClosedByChildren(edges, R);
    ClosedIsReach(edges, n, s, R);
    NearByChildren(edges, n, s, N);
    forall v ensures v in ExtendedFrom(edges, n, s) <==> v in R && v !in Near(edges, n, s) {
    }
  }

  /** When no start has an extended node, no node has an extended ancestor. */
  lemma NoExtendedAncestors(edges: seq<Edge>, n: int)
    requires forall s :: 1 <= s <= n ==> ExtendedFrom(edges, n, s) == {}
    ensures forall v :: 1 <= v <= n ==> ExtendedAncestors(edges, n, v) == 0
  {
    forall v, s | 1 <= v <= n && 1 <= s <= n ensures !Extended(edges, s, v) {
      assert v !in ExtendedFrom(edges, n, s);
    }
  }

  const TreeEdges: seq<Edge> := [(1, 2), (1, 3), (2, 4)]

  /** Every node is reachable from 1; 2 reaches 4. */
  lemma TreeReach()
    ensures forall v :: v in {1, 2, 3, 4} ==> Reachable(TreeEdges, 1, v)
    ensures forall v :: v in {2, 4} ==> Reachable(TreeEdges, 2, v)
  {
    var e := TreeEdges;
    assert e[0] == (1, 2) && e[1] == (1, 3) && e[2] == (2, 4);
    OneStep(e, 1, 2);
    OneStep(e, 1, 3);
    OneStep(e, 2, 4);
    assert WithinSteps(e, 1, 1, 0) && WithinSteps(e, 1, 2, 1) && WithinSteps(e, 1, 3, 1);
    assert WithinSteps(e, 1, 4, 2);
    assert WithinSteps(e, 2, 2, 0) && WithinSteps(e, 2, 4, 1);
  }

  lemma TreeExtendedFromRoot()
    ensures ExtendedFrom(TreeEdges, 4, 1) == {4}
  {
    TreeReach();
    TreeDegrees();
    ExtendedFromClosed(TreeEdges, 4, 1, {1, 2, 3, 4}, {1, 2, 3});
  }

  lemma TreeExtendedFromOthers()
    ensures ExtendedFrom(TreeEdges, 4, 2) == {} && ExtendedFrom(TreeEdges, 4, 3) == {} && ExtendedFrom(TreeEdges, 4, 4) == {}
  {
    TreeReach();
    TreeDegrees();
    assert WithinSteps(TreeEdges, 3, 3, 0) && WithinSteps(TreeEdges, 4, 4, 0);
    ExtendedFromClosed(TreeEdges, 4, 2, {2, 4}, {2, 4});
    ExtendedFromClosed(TreeEdges, 4, 3, {3}, {3});
    ExtendedFromClosed(TreeEdges, 4, 4, {4}, {4});
  }

  lemma TreeExtended()
    ensures ExtendedFrom(TreeEdges, 4, 1) == {4}
    ensures ExtendedFrom(TreeEdges, 4, 2) == {} && ExtendedFrom(TreeEdges, 4, 3) == {} && ExtendedFrom(TreeEdges, 4, 4) == {}
  {
    TreeExtendedFromRoot();
    TreeExtendedFromOthers();
  }

  lemma TreeAncestors()
    ensures AncestorsBelow(TreeEdges, 4, 5) == {1}
    ensures AncestorsBelow(TreeEdges, 1, 5) == {} && AncestorsBelow(TreeEdges, 2, 5) == {} && AncestorsBelow(TreeEdges, 3, 5) == {}
  {
    TreeExtended();
    forall s, v | 1 <= s <= 4 && 1 <= v <= 4 ensures Extended(TreeEdges, s, v) <==> v in ExtendedFrom(TreeEdges, 4, s) {
    }
  }

  lemma TreeSiblings()
    ensures SiblingSet(TreeEdges, 4, 1) == {} && SiblingSet(TreeEdges, 4, 4) == {}
    ensures SiblingSet(TreeEdges, 4, 2) == {3} && SiblingSet(TreeEdges, 4, 3) == {2}
  {
    var e := TreeEdges;
    assert e[0] == (1, 2) && e[1] == (1, 3) && e[2] == (2, 4);
    assert Siblings(e, 2, 3) && Siblings(e, 3, 2);
  }

  lemma TreeDegrees()
    ensures ChildrenOf(TreeEdges, 1) == [2, 3] && ChildrenOf(TreeEdges, 2) == [4]
    ensures ChildrenOf(TreeEdges, 3) == [] && ChildrenOf(TreeEdges, 4) == []
    ensures ParentsOf(TreeEdges, 1) == [] && ParentsOf(TreeEdges, 2) == [1]
    ensures ParentsOf(TreeEdges, 3) == [1] && ParentsOf(TreeEdges, 4) == [2]
  {
    TreeThirdPrefix();
  }

  /** The lists of the first tree edge (1,2) alone. */
  lemma TreeFirstPrefix()
    ensures forall v :: ChildrenOf(TreeEdges[..1], v) == (if v == 1 then [2] else [])
    ensures forall v :: ParentsOf(TreeEdges[..1], v) == (if v == 2 then [1] else [])
  {
    assert TreeEdges[..1] == [(1, 2)] && TreeEdges[..1][..0] == [];
  }

  /** The lists of all three tree edges (1,2), (1,3), (2,4). */
  lemma TreeThirdPrefix()
    ensures forall v :: ChildrenOf(TreeEdges, v) == (if v == 1 then [2, 3] else if v == 2 then [4] else [])
    ensures forall v :: ParentsOf(TreeEdges, v) == (if v == 2 || v == 3 then [1] else if v == 4 then [2] else [])
  {
    TreeSecondPrefix();
    assert TreeEdges[..|TreeEdges| - 1] == TreeEdges[..2];
    assert TreeEdges[2] == (2, 4);
  }

  /** The lists of the first two tree edges (1,2), (1,3). */
  lemma TreeSecondPrefix()
    ensures forall v :: ChildrenOf(TreeEdges[..2], v) == (if v == 1 then [2, 3] else [])
    ensures forall v :: ParentsOf(TreeEdges[..2], v) == (if v == 2 || v == 3 then [1] else [])
  {
    TreeFirstPrefix();
    assert TreeEdges[..2] == [(1, 2), (1, 3)] && TreeEdges[..2][..1] == TreeEdges[..1];
  }

  /** Edges (1,2), (1,3), (2,4): node 4 is the only node two steps from any start. */
  lemma TreeTable()
    ensures ExpectedTable(TreeEdges, 4) == [[2, 0, 1, 0, 0], [1, 1, 0, 0, 1], [0, 1, 0, 0, 1], [0, 1, 0, 1, 0]]
  {
    TreeRows();
  }

  lemma TreeRows()
    ensures ExpectedRow(TreeEdges, 4, 1) == [2, 0, 1, 0, 0]
    ensures ExpectedRow(TreeEdges, 4, 2) == [1, 1, 0, 0, 1]
    ensures ExpectedRow(TreeEdges, 4, 3) == [0, 1, 0, 0, 1]
    ensures ExpectedRow(TreeEdges, 4, 4) == [0, 1, 0, 1, 0]
  {
    TreeDegrees();
    TreeExtended();
    TreeAncestors();
    TreeSiblings();
  }

  const LoopEdges: seq<Edge> := [(1, 1)]

  /** A self-loop on 1: one edge out and one in, and nothing at distance 2. */
  lemma LoopTable()
    ensures ExpectedTable(LoopEdges, 1) == [[1, 1, 0, 0, 0]]
  {
    var e := LoopEdges;
    assert e[..0] == [];
    assert ChildrenOf(e, 1) == [1] && ParentsOf(e, 1) == [1];
    assert WithinSteps(e, 1, 1, 0);
    ExtendedFromClosed(e, 1, 1, {1}, {1});
    NoExtendedAncestors(e, 1);
    assert SiblingSet(e, 1, 1) == {};
  }

  const CycleEdges: seq<Edge> := [(1, 2), (2, 1)]

  lemma CycleShape()
    ensures ChildrenOf(CycleEdges, 1) == [2] && ChildrenOf(CycleEdges, 2) == [1]
    ensures ParentsOf(CycleEdges, 1) == [2] && ParentsOf(CycleEdges, 2) == [1]
    ensures forall v :: v in {1, 2} ==> Reachable(CycleEdges, 1, v) && Reachable(CycleEdges, 2, v)
  {
    var e := CycleEdges;
    assert e[..1] == [(1, 2)] && e[..1][..0] == [];
    assert e[0] == (1, 2) && e[1] == (2, 1);
    OneStep(e, 1, 2);
    OneStep(e, 2, 1);
    assert WithinSteps(e, 1, 1, 0) && WithinSteps(e, 1, 2, 1);
    assert WithinSteps(e, 2, 2, 0) && WithinSteps(e, 2, 1, 1);
  }

  /**
   * The cycle 1 -> 2 -> 1: each node reaches the other in one step, and the
   * walk back to the start is not counted, so columns 2 and 3 stay 0.
   */
  lemma CycleTable()
    ensures ExpectedTable(CycleEdges, 2) == [[1, 1, 0, 0, 0], [1, 1, 0, 0, 0]]
  {
    CycleShape();
    CycleExtended();
    NoExtendedAncestors(CycleEdges, 2);
    CycleSiblings();
  }

  lemma CycleExtended()
    ensures forall s :: 1 <= s <= 2 ==> ExtendedFrom(CycleEdges, 2, s) == {}
  {
    CycleShape();
    ExtendedFromClosed(CycleEdges, 2, 1, {1, 2}, {1, 2});
    ExtendedFromClosed(CycleEdges, 2, 2, {1, 2}, {1, 2});
  }

  lemma CycleSiblings()
    ensures SiblingSet(CycleEdges, 2, 1) == {} && SiblingSet(CycleEdges, 2, 2) == {}
  {
    var e := CycleEdges;
    assert e[0] == (1, 2) && e[1] == (2, 1);
  }

  const SplitEdges: seq<Edge> := [(1, 2), (3, 3)]

  lemma SplitShape()
    ensures ChildrenOf(SplitEdges, 1) == [2] && ChildrenOf(SplitEdges, 2) == [] && ChildrenOf(SplitEdges, 3) == [3]
    ensures ParentsOf(SplitEdges, 1) == [] && ParentsOf(SplitEdges, 2) == [1] && ParentsOf(SplitEdges, 3) == [3]
    ensures Reachable(SplitEdges, 1, 1) && Reachable(SplitEdges, 1, 2)
    ensures Reachable(SplitEdges, 2, 2) && Reachable(SplitEdges, 3, 3)
  {
    var e := SplitEdges;
    assert e[..1] == [(1, 2)] && e[..1][..0] == [];
    assert e[0] == (1, 2) && e[1] == (3, 3);
    OneStep(e, 1, 2);
    assert WithinSteps(e, 1, 1, 0) && WithinSteps(e, 1, 2, 1);
    assert WithinSteps(e, 2, 2, 0) && WithinSteps(e, 3, 3, 0);
  }

  /** Edges (1,2) and (3,3): node 3 is counted apart from nodes 1 and 2. */
  lemma SplitTable()
    ensures ExpectedTable(SplitEdges, 3) == [[1, 0, 0, 0, 0], [0, 1, 0, 0, 0], [1, 1, 0, 0, 0]]
  {
    SplitRows();
  }

  lemma SplitRows()
    ensures ExpectedRow(SplitEdges, 3, 1) == [1, 0, 0, 0, 0]
    ensures ExpectedRow(SplitEdges, 3, 2) == [0, 1, 0, 0, 0]
    ensures ExpectedRow(SplitEdges, 3, 3) == [1, 1, 0, 0, 0]
  {
    SplitShape();
    SplitExtended();
    NoExtendedAncestors(SplitEdges, 3);
    SplitSiblings();
  }

  lemma SplitExtended()
    ensures forall s :: 1 <= s <= 3 ==> ExtendedFrom(SplitEdges, 3, s) == {}
  {
    SplitExtendedFrom1();
    SplitExtendedFrom2();
    SplitExtendedFrom3();
  }

  lemma SplitExtendedFrom1()
    ensures ExtendedFrom(SplitEdges, 3, 1) == {}
  {
    SplitShape();
    ExtendedFromClosed(SplitEdges, 3, 1, {1, 2}, {1, 2});
  }

  lemma SplitExtendedFrom2()
    ensures ExtendedFrom(SplitEdges, 3, 2) == {}
  {
    SplitShape();
    ExtendedFromClosed(SplitEdges, 3, 2, {2}, {2});
  }

  lemma SplitExtendedFrom3()
    ensures ExtendedFrom(SplitEdges, 3, 3) == {}
  {
    SplitShape();
    ExtendedFromClosed(SplitEdges, 3, 3, {3}, {3});
  }

  lemma SplitSiblings()
    ensures SiblingSet(SplitEdges, 3, 1) == {} && SiblingSet(SplitEdges, 3, 2) == {} && SiblingSet(SplitEdges, 3, 3) == {}
  {
    var e := SplitEdges;
    assert e[0] == (1, 2) && e[1] == (3, 3);
  }
}
