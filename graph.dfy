/**
 * The graph builder of the relationship engine (task2/task.py): a graph is the
 * list of (parent, child) edges exactly as parsed, with parallel edges, cycles
 * and self-loops allowed.  This module holds everything said about the graph
 * itself: the forward and reverse adjacency lists, the node count inferred from
 * the identifiers, reachability within k steps, and the sibling relation.
 */
module Graph {
  import opened Wrappers

  /** (parent, child) */
  type Edge = (int, int)

  /** Every identifier of every edge names a node of 1..n. */
  predicate ValidEdges(edges: seq<Edge>, n: int) {
    forall i :: 0 <= i < |edges| ==> 1 <= edges[i].0 <= n && 1 <= edges[i].1 <= n
  }

  /** The nodes of a graph with n nodes. */
  ghost function Nodes(n: int): (r: set<int>)
    ensures forall v :: v in r <==> 1 <= v <= n
    ensures n >= 0 ==> |r| == n
  {
    if n <= 0 then {} else Nodes(n - 1) + {n}
  }

  /** A set of nodes holds at most n of them. */
  lemma NodesBound(S: set<int>, n: int)
    requires n >= 0 && S <= Nodes(n)
    ensures |S| <= n
  {
    assert Nodes(n) == S + (Nodes(n) - S);
  }

  /** The forward list of p: the child of every edge whose parent is p, in edge order. */
  function ChildrenOf(edges: seq<Edge>, p: int): seq<int> {
    if |edges| == 0 then []
    else
      var last := edges[|edges| - 1];
      ChildrenOf(edges[..|edges| - 1], p) + (if last.0 == p then [last.1] else [])
  }

  /** The reverse list of c: the parent of every edge whose child is c, in edge order. */
  function ParentsOf(edges: seq<Edge>, c: int): seq<int> {
    if |edges| == 0 then []
    else
      var last := edges[|edges| - 1];
      ParentsOf(edges[..|edges| - 1], c) + (if last.1 == c then [last.0] else [])
  }

  /** c is in the forward list of p exactly when (p, c) is an edge. */
  lemma {:induction false} ChildrenOfMembership(edges: seq<Edge>, p: int, c: int)
    ensures c in ChildrenOf(edges, p) <==> exists i :: 0 <= i < |edges| && edges[i] == (p, c)
  {
    if |edges| > 0 {
      var init := edges[..|edges| - 1];
      ChildrenOfMembership(init, p, c);
      if exists i :: 0 <= i < |edges| && edges[i] == (p, c) {
        var i :| 0 <= i < |edges| && edges[i] == (p, c);
        if i < |edges| - 1 {
          assert init[i] == (p, c);
        }
      }
      if exists i :: 0 <= i < |init| && init[i] == (p, c) {
        var i :| 0 <= i < |init| && init[i] == (p, c);
        assert edges[i] == (p, c);
      }
    }
  }

  /** p is in the reverse list of c exactly when (p, c) is an edge. */
  lemma {:induction false} ParentsOfMembership(edges: seq<Edge>, c: int, p: int)
    ensures p in ParentsOf(edges, c) <==> exists i :: 0 <= i < |edges| && edges[i] == (p, c)
  {
    if |edges| > 0 {
      var init := edges[..|edges| - 1];
      ParentsOfMembership(init, c, p);
      if exists i :: 0 <= i < |edges| && edges[i] == (p, c) {
        var i :| 0 <= i < |edges| && edges[i] == (p, c);
        if i < |edges| - 1 {
          assert init[i] == (p, c);
        }
      }
      if exists i :: 0 <= i < |init| && init[i] == (p, c) {
        var i :| 0 <= i < |init| && init[i] == (p, c);
        assert edges[i] == (p, c);
      }
    }
  }

  /** The positions of the edges whose parent is p. */
  ghost function EdgesFrom(edges: seq<Edge>, p: int): set<nat> {
    set i: nat | i < |edges| && edges[i].0 == p
  }

  /** The positions of the edges whose child is c. */
  ghost function EdgesInto(edges: seq<Edge>, c: int): set<nat> {
    set i: nat | i < |edges| && edges[i].1 == c
  }

  /** The out-degree is the number of edges leaving p, parallel edges counted. */
  lemma {:induction false} OutDegreeCountsEdges(edges: seq<Edge>, p: int)
    ensures |ChildrenOf(edges, p)| == |EdgesFrom(edges, p)|
  {
    if |edges| > 0 {
      var m := |edges| - 1;
      var init := edges[..m];
      OutDegreeCountsEdges(init, p);
      assert EdgesFrom(edges, p) == EdgesFrom(init, p) + (if edges[m].0 == p then {m} else {});
    } else {
      assert EdgesFrom(edges, p) == {};
    }
  }

  /** The in-degree is the number of edges entering c, parallel edges counted. */
  lemma {:induction false} InDegreeCountsEdges(edges: seq<Edge>, c: int)
    ensures |ParentsOf(edges, c)| == |EdgesInto(edges, c)|
  {
    if |edges| > 0 {
      var m := |edges| - 1;
      var init := edges[..m];
      InDegreeCountsEdges(init, c);
      assert EdgesInto(edges, c) == EdgesInto(init, c) + (if edges[m].1 == c then {m} else {});
    } else {
      assert EdgesInto(edges, c) == {};
    }
  }

  /** fwd and rev are the adjacency lists of the edges, one slot per id 0..n. */
  ghost predicate IsAdjacency(edges: seq<Edge>, n: int, fwd: seq<seq<int>>, rev: seq<seq<int>>) {
    n >= 0 && |fwd| == n + 1 && |rev| == n + 1 &&
    forall v :: 0 <= v <= n ==> fwd[v] == ChildrenOf(edges, v) && rev[v] == ParentsOf(edges, v)
  }

  /** Every entry of an adjacency list names a node. */
  lemma AdjacencyInRange(edges: seq<Edge>, n: int, fwd: seq<seq<int>>, rev: seq<seq<int>>, v: int, x: int)
    requires ValidEdges(edges, n) && IsAdjacency(edges, n, fwd, rev) && 0 <= v <= n
    ensures x in fwd[v] ==> 1 <= x <= n
    ensures x in rev[v] ==> 1 <= x <= n
  {
    ChildrenOfMembership(edges, v, x);
    ParentsOfMembership(edges, v, x);
  }

  /** Appends every edge to the forward list of its parent and the reverse list of its child. */
  method BuildAdjacency(edges: seq<Edge>, n: nat) returns (fwd: seq<seq<int>>, rev: seq<seq<int>>)
    requires ValidEdges(edges, n)
    ensures IsAdjacency(edges, n, fwd, rev)
  {
    fwd := seq(n + 1, _ => []);
    rev := seq(n + 1, _ => []);
    for i := 0 to |edges|
      invariant |fwd| == n + 1 && |rev| == n + 1
      invariant forall v :: 0 <= v <= n ==> fwd[v] == ChildrenOf(edges[..i], v) && rev[v] == ParentsOf(edges[..i], v)
    {
      assert edges[..i + 1][..i] == edges[..i];
      var (parent, child) := edges[i];
      fwd := fwd[parent := fwd[parent] + [child]];
      rev := rev[child := rev[child] + [parent]];
    }
    assert edges[..|edges|] == edges;
  }

  /**
   * The node count main infers: the largest identifier in either position of
   * any edge, scanning the edges in order; an empty list has none (max raises).
   */
  function InferNodeCount(edges: seq<Edge>): (r: Option<int>)
    ensures r.None? <==> |edges| == 0
    ensures r.Some? ==> forall i :: 0 <= i < |edges| ==> edges[i].0 <= r.value && edges[i].1 <= r.value
    ensures r.Some? ==> exists i :: 0 <= i < |edges| && (edges[i].0 == r.value || edges[i].1 == r.value)
  {
    if |edges| == 0 then None
    else
      var last := edges[|edges| - 1];
      var top := if last.0 >= last.1 then last.0 else last.1;
      match InferNodeCount(edges[..|edges| - 1])
      case None => Some(top)
      case Some(m) => Some(if m >= top then m else top)
  }

  /** With positive identifiers, the inferred count makes every edge valid. */
  lemma InferredCountCoversEdges(edges: seq<Edge>)
    requires forall i :: 0 <= i < |edges| ==> edges[i].0 >= 1 && edges[i].1 >= 1
    requires |edges| > 0
    ensures InferNodeCount(edges).Some? && ValidEdges(edges, InferNodeCount(edges).value)
  {
  }

  /**
   * v can be reached from s along at most k edges.  The least such k is the
   * shortest-path distance from s to v.
   */
  ghost predicate WithinSteps(edges: seq<Edge>, s: int, v: int, k: nat)
    decreases k
  {
    if k == 0 then v == s
    else
      WithinSteps(edges, s, v, k - 1) ||
      exists i :: 0 <= i < |edges| && edges[i].1 == v && WithinSteps(edges, s, edges[i].0, k - 1)
  }

  ghost predicate Reachable(edges: seq<Edge>, s: int, v: int) {
    exists k: nat :: WithinSteps(edges, s, v, k)
  }

  /** v is reachable from s and its shortest distance from s is at least 2. */
  ghost predicate Extended(edges: seq<Edge>, s: int, v: int) {
    Reachable(edges, s, v) && !WithinSteps(edges, s, v, 1)
  }

  /** No edge leaves S. */
  ghost predicate Closed(edges: seq<Edge>, S: set<int>) {
    forall i :: 0 <= i < |edges| && edges[i].0 in S ==> edges[i].1 in S
  }

  /** Within one step of s are s itself and the children of s. */
  lemma OneStep(edges: seq<Edge>, s: int, v: int)
    ensures WithinSteps(edges, s, v, 1) <==> v == s || exists i :: 0 <= i < |edges| && edges[i] == (s, v)
  {
    assert WithinSteps(edges, s, v, 1) <==>
      v == s || exists i :: 0 <= i < |edges| && edges[i].1 == v && WithinSteps(edges, s, edges[i].0, 0);
  }

  lemma {:induction false} WithinMonotone(edges: seq<Edge>, s: int, v: int, k: nat, k': nat)
    requires k <= k' && WithinSteps(edges, s, v, k)
    ensures WithinSteps(edges, s, v, k')
    decreases k'
  {
    if k < k' {
      WithinMonotone(edges, s, v, k, k' - 1);
    }
  }

  /** A set closed under edges that holds s holds everything reachable from s. */
  lemma {:induction false} ClosedContainsReach(edges: seq<Edge>, s: int, S: set<int>, v: int, k: nat)
    requires s in S && Closed(edges, S) && WithinSteps(edges, s, v, k)
    ensures v in S
    decreases k
  {
    if k > 0 {
      if WithinSteps(edges, s, v, k - 1) {
        ClosedContainsReach(edges, s, S, v, k - 1);
      } else {
        var i :| 0 <= i < |edges| && edges[i].1 == v && WithinSteps(edges, s, edges[i].0, k - 1);
        ClosedContainsReach(edges, s, S, edges[i].0, k - 1);
      }
    }
  }

  /** Reachability does not leave the node range. */
  lemma ReachableInRange(edges: seq<Edge>, n: int, s: int, v: int)
    requires ValidEdges(edges, n) && 1 <= s <= n && Reachable(edges, s, v)
    ensures 1 <= v <= n
  {
    var k: nat :| WithinSteps(edges, s, v, k);
    ClosedContainsReach(edges, s, Nodes(n), v, k);
  }

  /** a and b are distinct children of one parent. */
  ghost predicate Siblings(edges: seq<Edge>, a: int, b: int) {
    a != b &&
    exists i, j :: 0 <= i < |edges| && 0 <= j < |edges| &&
      edges[i].0 == edges[j].0 && edges[i].1 == a && edges[j].1 == b
  }

  lemma SiblingsSymmetric(edges: seq<Edge>, a: int, b: int)
    ensures Siblings(edges, a, b) <==> Siblings(edges, b, a)
  {
  }
}
