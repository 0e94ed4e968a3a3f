/**
 * The relationship engine of task2/task.py (calculate_relationships): for every
 * node v of 1..n one row of five counts, held in an n x 5 table that three
 * passes update in place.  Each pass is proved against the edge-level
 * definitions of module Graph; the row each node should get is ExpectedRow.
 */
module Relationships {
  import opened Wrappers
  import opened Graph
  import opened Traversal

  /** Column 2 of s: the nodes at shortest distance 2 or more from s. */
  ghost function ExtendedDescendants(edges: seq<Edge>, n: int, s: int): nat {
    |ExtendedFrom(edges, n, s)|
  }

  /** The starts below k from which v lies at shortest distance 2 or more. */
  ghost function AncestorsBelow(edges: seq<Edge>, v: int, k: int): set<int> {
    set s | 1 <= s < k && Extended(edges, s, v)
  }

  /** Column 3 of v: the starts from which v lies at shortest distance 2 or more. */
  ghost function ExtendedAncestors(edges: seq<Edge>, n: int, v: int): nat {
    |AncestorsBelow(edges, v, n + 1)|
  }

  /** Column 4 of v: the nodes other than v that share a parent with v. */
  ghost function SiblingCount(edges: seq<Edge>, n: int, v: int): nat {
    |SiblingSet(edges, n, v)|
  }

  ghost function ExpectedRow(edges: seq<Edge>, n: int, v: int): seq<int> {
    [ |ChildrenOf(edges, v)|, |ParentsOf(edges, v)|,
      ExtendedDescendants(edges, n, v), ExtendedAncestors(edges, n, v),
      SiblingCount(edges, n, v) ]
  }

  /** The table calculate_relationships returns: row v - 1 belongs to node v. */
  ghost function ExpectedTable(edges: seq<Edge>, n: nat): seq<seq<int>> {
    seq(n, i => ExpectedRow(edges, n, i + 1))
  }

  /** How many entries of s lie in 1..p-1. */
  ghost function CountBelow(s: seq<int>, p: int): nat
    decreases p
  {
    if p <= 1 then 0 else CountBelow(s, p - 1) + multiset(s)[p - 1]
  }

  lemma {:induction false} CountBelowAppend(s: seq<int>, x: int, p: int)
    ensures CountBelow(s + [x], p) == CountBelow(s, p) + (if 1 <= x < p then 1 else 0)
    decreases p
  {
    if p > 1 {
      CountBelowAppend(s, x, p - 1);
      assert multiset(s + [x]) == multiset(s) + multiset{x};
    }
  }

  lemma {:induction false} CountBelowEmpty(p: int)
    ensures CountBelow([], p) == 0
    decreases p
  {
    if p > 1 {
      CountBelowEmpty(p - 1);
    }
  }

  /** A list whose entries all lie in 1..n has all of them counted below n + 1. */
  lemma {:induction false} CountBelowAll(s: seq<int>, n: int)
    requires forall k :: 0 <= k < |s| ==> 1 <= s[k] <= n
    ensures CountBelow(s, n + 1) == |s|
  {
    if |s| == 0 {
      CountBelowEmpty(n + 1);
    } else {
      var init, x := s[..|s| - 1], s[|s| - 1];
      assert s == init + [x];
      CountBelowAll(init, n);
      CountBelowAppend(init, x, n + 1);
    }
  }

  /** The edges (p, c) counted from p's children or from c's parents. */
  lemma {:induction false} Transpose(edges: seq<Edge>, p: int, c: int)
    ensures multiset(ChildrenOf(edges, p))[c] == multiset(ParentsOf(edges, c))[p]
  {
    if |edges| > 0 {
      Transpose(edges[..|edges| - 1], p, c);
    }
  }

  /** Counting c's parents up to p: the new parent p adds the edges (p, c). */
  lemma CountBelowStep(edges: seq<Edge>, p: int, c: int)
    requires p >= 1
    ensures CountBelow(ParentsOf(edges, c), p + 1) == CountBelow(ParentsOf(edges, c), p) + multiset(ChildrenOf(edges, p))[c]
  {
    Transpose(edges, p, c);
  }

  /** Every parent of c lies in 1..n. */
  lemma ParentsInRange(edges: seq<Edge>, n: int, c: int)
    requires ValidEdges(edges, n)
    ensures forall k :: 0 <= k < |ParentsOf(edges, c)| ==> 1 <= ParentsOf(edges, c)[k] <= n
  {
    forall k | 0 <= k < |ParentsOf(edges, c)| ensures 1 <= ParentsOf(edges, c)[k] <= n {
      ParentsOfMembership(edges, c, ParentsOf(edges, c)[k]);
    }
  }

  /** Every forward list of fwd holds only nodes 1..n. */
  ghost predicate ListsInRange(fwd: seq<seq<int>>, n: int) {
    |fwd| == n + 1 && forall v, x :: 0 <= v <= n && x in fwd[v] ==> 1 <= x <= n
  }

  lemma AdjacencyListsInRange(edges: seq<Edge>, n: int, fwd: seq<seq<int>>, rev: seq<seq<int>>)
    requires ValidEdges(edges, n) && IsAdjacency(edges, n, fwd, rev)
    ensures ListsInRange(fwd, n)
  {
    forall v, x | 0 <= v <= n && x in fwd[v] ensures 1 <= x <= n {
      AdjacencyInRange(edges, n, fwd, rev, v, x);
    }
  }

  /** How many entries equal to c the forward lists of parents 1..p-1 hold. */
  ghost function InCount(fwd: seq<seq<int>>, c: int, p: int): nat
    requires p <= |fwd|
    decreases p
  {
    if p <= 1 then 0 else InCount(fwd, c, p - 1) + multiset(fwd[p - 1])[c]
  }

  /** Read from the forward lists, the count over all parents is c's in-degree. */
  lemma InCountIsInDegree(edges: seq<Edge>, n: int, fwd: seq<seq<int>>, rev: seq<seq<int>>, c: int)
    requires ValidEdges(edges, n) && IsAdjacency(edges, n, fwd, rev)
    ensures InCount(fwd, c, n + 1) == |ParentsOf(edges, c)|
  {
    InCountBelow(edges, n, fwd, rev, c, n + 1);
    ParentsInRange(edges, n, c);
    CountBelowAll(ParentsOf(edges, c), n);
  }

  lemma {:induction false} InCountBelow(edges: seq<Edge>, n: int, fwd: seq<seq<int>>, rev: seq<seq<int>>, c: int, p: int)
    requires IsAdjacency(edges, n, fwd, rev) && p <= n + 1
    ensures InCount(fwd, c, p) == CountBelow(ParentsOf(edges, c), p)
    decreases p
  {
    if p > 1 {
      InCountBelow(edges, n, fwd, rev, c, p - 1);
      assert fwd[p - 1] == ChildrenOf(edges, p - 1);
      CountBelowStep(edges, p - 1, c);
    }
  }

  /** Lines 23-25 for one parent: each forward-list entry bumps its parent's column 0 and its child's column 1. */
  method CountEdgesOf(fwd: seq<seq<int>>, n: nat, parent: int, t: array2<int>)
    requires ListsInRange(fwd, n) && 1 <= parent <= n
    requires t.Length0 == n && t.Length1 == 5
    modifies t
    ensures forall i :: 0 <= i < n ==> t[i, 0] == old(t[i, 0]) + (if i + 1 == parent then |fwd[parent]| else 0)
    ensures forall i :: 0 <= i < n ==> t[i, 1] == old(t[i, 1]) + multiset(fwd[parent])[i + 1]
    ensures forall i, j :: 0 <= i < n && 2 <= j < 5 ==> t[i, j] == old(t[i, j])
  {
    var children := fwd[parent];
    assert children[..0] == [];
    for k := 0 to |children|
      invariant forall i :: 0 <= i < n ==> t[i, 0] == old(t[i, 0]) + (if i + 1 == parent then k else 0)
      invariant forall i :: 0 <= i < n ==> t[i, 1] == old(t[i, 1]) + multiset(children[..k])[i + 1]
      invariant forall i, j :: 0 <= i < n && 2 <= j < 5 ==> t[i, j] == old(t[i, j])
    {
      var child := children[k];
      assert child in fwd[parent];
      assert children[..k + 1] == children[..k] + [child];
      t[parent - 1, 0] := t[parent - 1, 0] + 1;
      t[child - 1, 1] := t[child - 1, 1] + 1;
    }
    assert children[..|children|] == children;
  }

  /**
   * Lines 22-25: the degree pass.  Column 0 of every parent grows by the
   * length of its forward list and column 1 of every node by the number of
   * times it appears across all forward lists.
   */
  method DegreePass(fwd: seq<seq<int>>, n: nat, t: array2<int>)
    requires ListsInRange(fwd, n)
    requires t.Length0 == n && t.Length1 == 5
    modifies t
    ensures forall i :: 0 <= i < n ==> t[i, 0] == old(t[i, 0]) + |fwd[i + 1]|
    ensures forall i :: 0 <= i < n ==> t[i, 1] == old(t[i, 1]) + InCount(fwd, i + 1, n + 1)
    ensures forall i, j :: 0 <= i < n && 2 <= j < 5 ==> t[i, j] == old(t[i, j])
  {
    assert forall c :: InCount(fwd, c, 1) == 0;
    for parent := 1 to n + 1
      invariant forall i :: 0 <= i < n ==> t[i, 0] == old(t[i, 0]) + (if i + 1 < parent then |fwd[i + 1]| else 0)
      invariant forall i :: 0 <= i < n ==> t[i, 1] == old(t[i, 1]) + InCount(fwd, i + 1, parent)
      invariant forall i, j :: 0 <= i < n && 2 <= j < 5 ==> t[i, j] == old(t[i, j])
    {
      CountEdgesOf(fwd, n, parent, t);
    }
  }

  /** Adding start k to the starts considered adds it exactly when v is extended from k. */
  lemma AncestorsStep(edges: seq<Edge>, v: int, k: int)
    requires k >= 1
    ensures |AncestorsBelow(edges, v, k + 1)| == |AncestorsBelow(edges, v, k)| + (if Extended(edges, k, v) then 1 else 0)
  {
    var next := if Extended(edges, k, v) then {k} else {};
    assert AncestorsBelow(edges, v, k + 1) == AncestorsBelow(edges, v, k) + next;
    assert k !in AncestorsBelow(edges, v, k);
  }

  /** Lines 27-40: one traversal from every node in turn. */
  method ReachabilityPass(ghost edges: seq<Edge>, fwd: seq<seq<int>>, ghost rev: seq<seq<int>>, n: nat, t: array2<int>)
    requires ValidEdges(edges, n) && IsAdjacency(edges, n, fwd, rev)
    requires t.Length0 == n && t.Length1 == 5
    modifies t
    ensures forall i :: 0 <= i < n ==> t[i, 2] == old(t[i, 2]) + ExtendedDescendants(edges, n, i + 1)
    ensures forall i :: 0 <= i < n ==> t[i, 3] == old(t[i, 3]) + ExtendedAncestors(edges, n, i + 1)
    ensures forall i, j :: 0 <= i < n && 0 <= j < 5 && j != 2 && j != 3 ==> t[i, j] == old(t[i, j])
  {
    assert forall v :: AncestorsBelow(edges, v, 1) == {};
    for node := 1 to n + 1
      invariant forall i :: 0 <= i < n ==> t[i, 2] == old(t[i, 2]) + (if i + 1 < node then ExtendedDescendants(edges, n, i + 1) else 0)
      invariant forall i :: 0 <= i < n ==> t[i, 3] == old(t[i, 3]) + |AncestorsBelow(edges, i + 1, node)|
      invariant forall i, j :: 0 <= i < n && 0 <= j < 5 && j != 2 && j != 3 ==> t[i, j] == old(t[i, j])
    {
      ghost var visits := Traverse(edges, fwd, rev, n, node, t);
      forall v | 1 <= v <= n
        ensures |AncestorsBelow(edges, v, node + 1)| == |AncestorsBelow(edges, v, node)| + (if Extended(edges, node, v) then 1 else 0)
      {
        AncestorsStep(edges, v, node);
      }
    }
  }

  /** The nodes other than node that some parent of node also points to. */
  ghost function SiblingSet(edges: seq<Edge>, n: int, v: int): set<int> {
    set b | 1 <= b <= n && Siblings(edges, v, b)
  }

  /** Lines 43-47: the union of the parents' forward lists, without node itself. */
  method CountSiblings(ghost edges: seq<Edge>, fwd: seq<seq<int>>, rev: seq<seq<int>>, n: nat, node: int)
    returns (count: nat)
    requires ValidEdges(edges, n) && IsAdjacency(edges, n, fwd, rev) && 1 <= node <= n
    ensures count == SiblingCount(edges, n, node)
  {
    var parents := rev[node];
    var siblings: set<int> := {};
    for k := 0 to |parents|
      invariant forall b :: b in siblings <==> exists j :: 0 <= j < k && 0 <= parents[j] <= n && b in fwd[parents[j]]
    {
      AdjacencyInRange(edges, n, fwd, rev, node, parents[k]);
      siblings := siblings + set x | x in fwd[parents[k]];
    }
    siblings := siblings - {node};
    SiblingsFromParents(edges, n, fwd, rev, node, siblings);
    count := |siblings|;
  }

  lemma SiblingsFromParents(edges: seq<Edge>, n: nat, fwd: seq<seq<int>>, rev: seq<seq<int>>, node: int, siblings: set<int>)
    requires ValidEdges(edges, n) && IsAdjacency(edges, n, fwd, rev) && 1 <= node <= n
    requires forall b :: b in siblings <==> b != node && exists j :: 0 <= j < |rev[node]| && 0 <= rev[node][j] <= n && b in fwd[rev[node][j]]
    ensures siblings == SiblingSet(edges, n, node)
  {
    forall b | b in siblings ensures b in SiblingSet(edges, n, node) {
      var j :| 0 <= j < |rev[node]| && 0 <= rev[node][j] <= n && b in fwd[rev[node][j]];
      var p := rev[node][j];
      AdjacencyInRange(edges, n, fwd, rev, node, p);
      ParentsOfMembership(edges, node, p);
      ChildrenOfMembership(edges, p, b);
      AdjacencyInRange(edges, n, fwd, rev, p, b);
      var i1 :| 0 <= i1 < |edges| && edges[i1] == (p, node);
      var i2 :| 0 <= i2 < |edges| && edges[i2] == (p, b);
      assert Siblings(edges, node, b);
    }
    forall b | b in SiblingSet(edges, n, node) ensures b in siblings {
      var i1, i2 :| 0 <= i1 < |edges| && 0 <= i2 < |edges| &&
        edges[i1].0 == edges[i2].0 && edges[i1].1 == node && edges[i2].1 == b;
      var p := edges[i1].0;
      ParentsOfMembership(edges, node, p);
      ChildrenOfMembership(edges, p, b);
      var j :| 0 <= j < |rev[node]| && rev[node][j] == p;
      AdjacencyInRange(edges, n, fwd, rev, node, p);
    }
  }

  /** Lines 42-48: column 4 of every node is set to its sibling count. */
  method SiblingPass(ghost edges: seq<Edge>, fwd: seq<seq<int>>, rev: seq<seq<int>>, n: nat, t: array2<int>)
    requires ValidEdges(edges, n) && IsAdjacency(edges, n, fwd, rev)
    requires t.Length0 == n && t.Length1 == 5
    modifies t
    ensures forall i :: 0 <= i < n ==> t[i, 4] == SiblingCount(edges, n, i + 1)
    ensures forall i, j :: 0 <= i < n && 0 <= j < 4 ==> t[i, j] == old(t[i, j])
  {
    for node := 1 to n + 1
      invariant forall i :: 0 <= i < node - 1 ==> t[i, 4] == SiblingCount(edges, n, i + 1)
      invariant forall i, j :: 0 <= i < n && 0 <= j < 4 ==> t[i, j] == old(t[i, j])
    {
      var count := CountSiblings(edges, fwd, rev, n, node);
      t[node - 1, 4] := count;
    }
  }

  /**
   * Lines 13-50: the table of relationship counts, one row of five per node
   * 1..n, built by the degree, reachability and sibling passes over a table
   * of zeros.
   */
  method CalculateRelationships(edges: seq<Edge>, n: nat) returns (table: seq<seq<int>>)
    requires ValidEdges(edges, n)
    ensures table == ExpectedTable(edges, n)
  {
    var fwd, rev := BuildAdjacency(edges, n);
    var t := new int[n, 5]((_, _) => 0);
    AdjacencyListsInRange(edges, n, fwd, rev);
    DegreePass(fwd, n, t);
    ReachabilityPass(edges, fwd, rev, n, t);
    SiblingPass(edges, fwd, rev, n, t);
    table := Rows(t);
    forall c | 1 <= c <= n ensures InCount(fwd, c, n + 1) == |ParentsOf(edges, c)| {
      InCountIsInDegree(edges, n, fwd, rev, c);
    }
  }

  /**
   * Lines 64-66 of main: the node count is the largest identifier in the
   * edge list, and an empty list has none (max of nothing raises), so no
   * table.
   */
  method RelationshipsOf(edges: seq<Edge>) returns (table: Option<seq<seq<int>>>)
    requires forall i :: 0 <= i < |edges| ==> edges[i].0 >= 1 && edges[i].1 >= 1
    ensures table.None? <==> |edges| == 0
    ensures table.Some? ==>
      InferNodeCount(edges).Some? && InferNodeCount(edges).value >= 1 &&
      table.value == ExpectedTable(edges, InferNodeCount(edges).value)
  {
    match InferNodeCount(edges)
    case None =>
      table := None;
    case Some(n) =>
      InferredCountCoversEdges(edges);
      assert edges[0].0 <= n;
      var rows := CalculateRelationships(edges, n);
      table := Some(rows);
  }

  /** The table's rows as lists of five. */
  function Rows(t: array2<int>): seq<seq<int>>
    requires t.Length1 == 5
    reads t
  {
    seq(t.Length0, i requires 0 <= i < t.Length0 reads t => [t[i, 0], t[i, 1], t[i, 2], t[i, 3], t[i, 4]])
  }
}
