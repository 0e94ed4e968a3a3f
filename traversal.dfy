/**
 * One breadth-first traversal of calculate_relationships (task2/task.py:27-40):
 * from start s, a FIFO queue of (node, depth) pairs and a visited set.  A node
 * is counted, for column 2 of s and column 3 of itself, when it is first
 * dequeued at depth greater than 1.
 *
 * Why the depth test selects exactly the nodes at distance 2 or more: the only
 * entry of depth 0 is s, the only entries of depth 1 are the children of s,
 * appended when s is expanded, and every later entry has depth 2 or more and is
 * appended behind them; so the first dequeue of s or of a child of s carries
 * depth at most 1, while any other node can only be queued at depth 2 or more.
 */
module Traversal {
  import opened Graph

  /** x has an entry in the queue. */
  ghost predicate InQueue(queue: seq<(int, int)>, x: int) {
    exists k :: 0 <= k < |queue| && queue[k].0 == x
  }

  /** Every queue entry is a node together with a depth within which s reaches it. */
  ghost predicate EntriesWithin(edges: seq<Edge>, n: int, s: int, queue: seq<(int, int)>) {
    forall k :: 0 <= k < |queue| ==>
      1 <= queue[k].0 <= n && 0 <= queue[k].1 && WithinSteps(edges, s, queue[k].0, queue[k].1)
  }

  /** No entry of depth 2 or more precedes an entry of depth at most 1. */
  ghost predicate ShallowFirst(queue: seq<(int, int)>) {
    forall a, b :: 0 <= a < b < |queue| && queue[b].1 <= 1 ==> queue[a].1 <= 1
  }

  /** queue' is queue followed by unvisited children of current at depth + 1. */
  ghost predicate AppendsChildren(edges: seq<Edge>, n: int, visited: set<int>, queue: seq<(int, int)>,
                                  queue': seq<(int, int)>, current: int, depth: int) {
    |queue| <= |queue'| && queue'[..|queue|] == queue &&
    forall m :: |queue| <= m < |queue'| ==>
      queue'[m].1 == depth + 1 && queue'[m].0 !in visited && 1 <= queue'[m].0 <= n &&
      exists i :: 0 <= i < |edges| && edges[i] == (current, queue'[m].0)
  }

  /** Expanding the head keeps both queue properties. */
  lemma ExpandKeepsQueue(edges: seq<Edge>, n: int, s: int, visited: set<int>, q0: seq<(int, int)>, queue: seq<(int, int)>)
    requires |q0| > 0 && EntriesWithin(edges, n, s, q0) && ShallowFirst(q0)
    requires q0[0].1 == 0 ==> q0 == [(s, 0)]
    requires AppendsChildren(edges, n, visited, q0[1..], queue, q0[0].0, q0[0].1)
    ensures EntriesWithin(edges, n, s, queue) && ShallowFirst(queue)
  {
    var q1 := q0[1..];
    var current, depth := q0[0].0, q0[0].1;
    forall k | 0 <= k < |queue|
      ensures 1 <= queue[k].0 <= n && 0 <= queue[k].1 && WithinSteps(edges, s, queue[k].0, queue[k].1)
    {
      if k < |q1| {
        assert queue[k] == q1[k] == q0[k + 1];
      } else {
        var i :| 0 <= i < |edges| && edges[i] == (current, queue[k].0);
        assert edges[i].1 == queue[k].0 && WithinSteps(edges, s, edges[i].0, depth);
      }
    }
    forall a, b | 0 <= a < b < |queue| && queue[b].1 <= 1 ensures queue[a].1 <= 1 {
      if b < |q1| {
        assert queue[a] == q0[a + 1] && queue[b] == q0[b + 1];
      }
    }
  }

  lemma InQueuePop(queue: seq<(int, int)>)
    requires |queue| > 0
    ensures forall x :: InQueue(queue, x) && x != queue[0].0 ==> InQueue(queue[1..], x)
  {
    forall x | InQueue(queue, x) && x != queue[0].0 ensures InQueue(queue[1..], x) {
      var k :| 0 <= k < |queue| && queue[k].0 == x;
      assert queue[1..][k - 1] == queue[k];
    }
  }

  /** The nodes one traversal from s counts: those at distance 2 or more from s. */
  ghost function ExtendedFrom(edges: seq<Edge>, n: int, s: int): set<int> {
    set v | 1 <= v <= n && Extended(edges, s, v)
  }

  /** The nodes reachable from s. */
  ghost function ReachableFrom(edges: seq<Edge>, n: int, s: int): set<int> {
    set v | 1 <= v <= n && Reachable(edges, s, v)
  }

  /**
   * What the traversal keeps true of its visited set and queue: every queued
   * node is within its depth of s, every visited node is reachable, the start
   * is visited first, s and its children are queued at depth at most 1 until
   * visited, no deep entry precedes a shallow one, and every neighbour of a
   * visited node is visited or queued.
   */
  ghost predicate Progress(edges: seq<Edge>, fwd: seq<seq<int>>, n: int, s: int, near: set<int>,
                           visited: set<int>, queue: seq<(int, int)>)
    requires |fwd| == n + 1
  {
    && visited <= Nodes(n)
    && EntriesWithin(edges, n, s, queue)
    && (forall v :: v in visited ==> Reachable(edges, s, v))
    && (visited == {} ==> queue == [(s, 0)])
    && (visited != {} ==> s in visited)
    && (visited != {} ==> forall v :: v in near && v !in visited ==> (v, 1) in queue)
    && ShallowFirst(queue)
    && (forall w, x :: 1 <= w <= n && w in visited && x in fwd[w] ==> x in visited || InQueue(queue, x))
  }

  /** The nodes within one step of s: s and its children. */
  ghost function Near(edges: seq<Edge>, n: int, s: int): set<int> {
    set v | 1 <= v <= n && WithinSteps(edges, s, v, 1)
  }

  /**
   * The traversal from s: column 2 of s grows by the number of nodes at
   * distance 2 or more from s, column 3 of each such node by one, and nothing
   * else changes.  It marks every reachable node once and nothing else, so it
   * performs at most n visits, cycles and self-loops included.
   */
  method Traverse(ghost edges: seq<Edge>, fwd: seq<seq<int>>, ghost rev: seq<seq<int>>, n: nat, s: int, t: array2<int>)
    returns (ghost visits: nat)
    requires ValidEdges(edges, n) && IsAdjacency(edges, n, fwd, rev) && 1 <= s <= n
    requires t.Length0 == n && t.Length1 == 5
    modifies t
    ensures t[s - 1, 2] == old(t[s - 1, 2]) + |ExtendedFrom(edges, n, s)|
    ensures forall i :: 0 <= i < n ==> t[i, 3] == old(t[i, 3]) + (if Extended(edges, s, i + 1) then 1 else 0)
    ensures forall i, j :: 0 <= i < n && 0 <= j < 5 && j != 3 && (i != s - 1 || j != 2) ==> t[i, j] == old(t[i, j])
    ensures visits == |ReachableFrom(edges, n, s)| <= n
  {
    ghost var near := Near(edges, n, s);
    var visited: set<int> := {};
    var queue: seq<(int, int)> := [(s, 0)];
    visits := 0;
    assert forall v :: Mark(visited, near, v) == 0;
    while queue != []
      invariant Progress(edges, fwd, n, s, near, visited, queue)
      invariant visits == |visited|
      invariant t[s - 1, 2] == old(t[s - 1, 2]) + |visited - near|
      invariant forall i :: 0 <= i < n ==> t[i, 3] == old(t[i, 3]) + Mark(visited, near, i + 1)
      invariant forall i, j :: 0 <= i < n && 0 <= j < 5 && j != 3 && (i != s - 1 || j != 2) ==> t[i, j] == old(t[i, j])
      invariant |visited| <= n
      decreases n - |visited|, |queue|
    {
      if queue[0].0 !in visited {
        visits := visits + 1;
      }
      visited, queue := VisitHead(edges, fwd, rev, n, s, near, visited, queue, t);
    }
    ClosedAtEnd(edges, n, fwd, rev, s, near, visited);
  }

  /**
   * Lines 30-40, one turn of the loop: the head of the queue is dropped; if
   * it was not yet visited it is marked, counted when its depth is above 1,
   * and its unvisited neighbours are appended at the next depth.
   */
  method VisitHead(ghost edges: seq<Edge>, fwd: seq<seq<int>>, ghost rev: seq<seq<int>>, n: nat, s: int,
                   ghost near: set<int>, visited: set<int>, queue: seq<(int, int)>, t: array2<int>)
    returns (visited': set<int>, queue': seq<(int, int)>)
    requires ValidEdges(edges, n) && IsAdjacency(edges, n, fwd, rev) && 1 <= s <= n && near == Near(edges, n, s)
    requires t.Length0 == n && t.Length1 == 5
    requires |queue| > 0 && Progress(edges, fwd, n, s, near, visited, queue)
    modifies t
    ensures Progress(edges, fwd, n, s, near, visited', queue')
    ensures visited' == visited + {queue[0].0} && visited' <= Nodes(n)
    ensures |visited'| == |visited| + (if queue[0].0 in visited then 0 else 1)
    ensures queue[0].0 in visited <==> visited' == visited
    ensures |visited'| <= n
    ensures queue[0].0 in visited ==> queue' == queue[1..]
    ensures queue[0].0 !in visited ==>
      queue' == queue[1..] + Unvisited(fwd[queue[0].0], visited + {queue[0].0}, queue[0].1 + 1)
    ensures t[s - 1, 2] - |visited' - near| == old(t[s - 1, 2]) - |visited - near|
    ensures forall i :: 0 <= i < n ==> t[i, 3] - Mark(visited', near, i + 1) == old(t[i, 3]) - Mark(visited, near, i + 1)
    ensures forall i, j :: 0 <= i < n && 0 <= j < 5 && j != 3 && (i != s - 1 || j != 2) ==> t[i, j] == old(t[i, j])
  {
    if queue[0].0 in visited {
      visited', queue' := visited, queue[1..];
      SkipKeepsProgress(edges, fwd, n, s, near, visited, queue);
    } else {
      visited', queue' := VisitNew(edges, fwd, rev, n, s, near, visited, queue, t);
    }
    NodesBound(visited', n);
  }

  /**
   * Lines 34-40, the head not yet visited: it is marked, counted when its
   * depth is above 1, and its unvisited neighbours are appended behind the
   * rest of the queue at the next depth.
   */
  method VisitNew(ghost edges: seq<Edge>, fwd: seq<seq<int>>, ghost rev: seq<seq<int>>, n: nat, s: int,
                  ghost near: set<int>, visited: set<int>, queue: seq<(int, int)>, t: array2<int>)
    returns (visited': set<int>, queue': seq<(int, int)>)
    requires ValidEdges(edges, n) && IsAdjacency(edges, n, fwd, rev) && 1 <= s <= n && near == Near(edges, n, s)
    requires t.Length0 == n && t.Length1 == 5
    requires |queue| > 0 && queue[0].0 !in visited && Progress(edges, fwd, n, s, near, visited, queue)
    modifies t
    ensures Progress(edges, fwd, n, s, near, visited', queue')
    ensures visited' == visited + {queue[0].0}
    ensures queue' == queue[1..] + Unvisited(fwd[queue[0].0], visited', queue[0].1 + 1)
    ensures t[s - 1, 2] - |visited' - near| == old(t[s - 1, 2]) - |visited - near|
    ensures forall i :: 0 <= i < n ==> t[i, 3] - Mark(visited', near, i + 1) == old(t[i, 3]) - Mark(visited, near, i + 1)
    ensures forall i, j :: 0 <= i < n && 0 <= j < 5 && j != 3 && (i != s - 1 || j != 2) ==> t[i, j] == old(t[i, j])
  {
    var current, depth := queue[0].0, queue[0].1;
    DepthClassifies(edges, fwd, n, s, near, visited, queue);
    visited' := visited + {current};
    CountExtended(t, n, s, near, visited, current, depth);
    queue' := EnqueueNeighbours(edges, fwd, rev, n, visited', queue[1..], current, depth);
    VisitKeepsProgress(edges, fwd, rev, n, s, near, visited, queue, queue');
  }

  /** Dropping an entry whose node is already visited. */
  lemma SkipKeepsProgress(edges: seq<Edge>, fwd: seq<seq<int>>, n: int, s: int, near: set<int>,
                          visited: set<int>, q0: seq<(int, int)>)
    requires |fwd| == n + 1 && |q0| > 0 && q0[0].0 in visited
    requires Progress(edges, fwd, n, s, near, visited, q0)
    ensures Progress(edges, fwd, n, s, near, visited, q0[1..])
  {
    var q1 := q0[1..];
    InQueuePop(q0);
    forall v | visited != {} && v in near && v !in visited ensures (v, 1) in q1 {
      var b :| 0 <= b < |q0| && q0[b] == (v, 1);
      assert q1[b - 1] == q0[b];
    }
    forall a, b | 0 <= a < b < |q1| && q1[b].1 <= 1 ensures q1[a].1 <= 1 {
      assert q1[a] == q0[a + 1] && q1[b] == q0[b + 1];
    }
    forall k | 0 <= k < |q1| ensures 1 <= q1[k].0 <= n && 0 <= q1[k].1 && WithinSteps(edges, s, q1[k].0, q1[k].1) {
      assert q1[k] == q0[k + 1];
    }
  }

  /** Marking the head visited and appending its unvisited neighbours. */
  lemma VisitKeepsProgress(edges: seq<Edge>, fwd: seq<seq<int>>, rev: seq<seq<int>>, n: int, s: int, near: set<int>,
                           visited: set<int>, q0: seq<(int, int)>, queue: seq<(int, int)>)
    requires ValidEdges(edges, n) && IsAdjacency(edges, n, fwd, rev) && near == Near(edges, n, s)
    requires |q0| > 0 && q0[0].0 !in visited
    requires Progress(edges, fwd, n, s, near, visited, q0)
    requires AppendsChildren(edges, n, visited + {q0[0].0}, q0[1..], queue, q0[0].0, q0[0].1)
    requires forall x :: x in fwd[q0[0].0] ==> x in visited + {q0[0].0} || (x, q0[0].1 + 1) in queue
    ensures Progress(edges, fwd, n, s, near, visited + {q0[0].0}, queue)
  {
    var q1 := q0[1..];
    var current, depth := q0[0].0, q0[0].1;
    var visited' := visited + {current};
    DepthClassifies(edges, fwd, n, s, near, visited, q0);
    ExpandKeepsQueue(edges, n, s, visited', q0, queue);
    InQueuePop(q0);
    InQueuePrefix(q1, queue);
    assert Reachable(edges, s, current) by {
      assert WithinSteps(edges, s, current, depth);
    }
    forall x | x in fwd[current] ensures x in visited' || InQueue(queue, x) {
      if x !in visited' {
        var b :| 0 <= b < |queue| && queue[b] == (x, depth + 1);
      }
    }
    if visited == {} {
      forall v | v in near && v !in visited' ensures (v, 1) in queue {
        OneStep(edges, s, v);
        ChildrenOfMembership(edges, s, v);
      }
    } else {
      forall v | v in near && v !in visited' ensures (v, 1) in queue {
        var b :| 0 <= b < |q0| && q0[b] == (v, 1);
        assert b > 0;
        assert queue[b - 1] == q1[b - 1] == q0[b];
      }
    }
  }

  /** Whether v has been visited at distance 2 or more from s: its column-3 contribution. */
  ghost function Mark(visited: set<int>, near: set<int>, v: int): int {
    if v in visited && v !in near then 1 else 0
  }

  lemma MarkStep(visited: set<int>, near: set<int>, current: int, v: int)
    requires current !in visited
    ensures Mark(visited + {current}, near, v) == Mark(visited, near, v) + (if v == current && current !in near then 1 else 0)
  {
  }

  /**
   * Lines 35-37: a node first dequeued at depth above 1 is one more node at
   * distance 2 or more from s; so marking current visited keeps column 2 of s
   * and column 3 of every node in step with the visited set.
   */
  method CountExtended(t: array2<int>, n: nat, s: int, ghost near: set<int>, ghost visited: set<int>, current: int, depth: int)
    requires t.Length0 == n && t.Length1 == 5 && 1 <= s <= n && 1 <= current <= n
    requires depth > 1 <==> current !in near
    requires current !in visited
    modifies t
    ensures t[s - 1, 2] - |visited + {current} - near| == old(t[s - 1, 2]) - |visited - near|
    ensures forall i :: 0 <= i < n ==> t[i, 3] - Mark(visited + {current}, near, i + 1) == old(t[i, 3]) - Mark(visited, near, i + 1)
    ensures forall i, j :: 0 <= i < n && 0 <= j < 5 && j != 3 && (i != s - 1 || j != 2) ==> t[i, j] == old(t[i, j])
  {
    assert visited + {current} - near == (visited - near) + (if current !in near then {current} else {});
    if depth > 1 {
      t[s - 1, 2] := t[s - 1, 2] + 1;
      t[current - 1, 3] := t[current - 1, 3] + 1;
    }
    forall i | 0 <= i < n
      ensures t[i, 3] - Mark(visited + {current}, near, i + 1) == old(t[i, 3]) - Mark(visited, near, i + 1)
    {
      MarkStep(visited, near, current, i + 1);
    }
  }

  /** The entry (x, d) for every x of xs that is not in visited, in the order of xs. */
  function Unvisited(xs: seq<int>, visited: set<int>, d: int): seq<(int, int)> {
    if |xs| == 0 then []
    else
      var last := xs[|xs| - 1];
      Unvisited(xs[..|xs| - 1], visited, d) + (if last in visited then [] else [(last, d)])
  }

  /** An entry is appended exactly for the unvisited members of the list, each at depth d. */
  lemma {:induction false} UnvisitedMembership(xs: seq<int>, visited: set<int>, d: int, e: (int, int))
    ensures e in Unvisited(xs, visited, d) <==> e.0 in xs && e.0 !in visited && e.1 == d
  {
    if |xs| > 0 {
      var init := xs[..|xs| - 1];
      UnvisitedMembership(init, visited, d, e);
      assert xs == init + [xs[|xs| - 1]];
    }
  }

  /**
   * Lines 38-40: every neighbour of current not yet visited is appended at
   * depth + 1, in the order of the forward list, repeats included.
   */
  method EnqueueNeighbours(ghost edges: seq<Edge>, fwd: seq<seq<int>>, ghost rev: seq<seq<int>>, n: nat,
                           visited: set<int>, queue: seq<(int, int)>, current: int, depth: int)
    returns (queue': seq<(int, int)>)
    requires ValidEdges(edges, n) && IsAdjacency(edges, n, fwd, rev) && 1 <= current <= n
    ensures queue' == queue + Unvisited(fwd[current], visited, depth + 1)
    ensures AppendsChildren(edges, n, visited, queue, queue', current, depth)
    ensures forall x :: x in fwd[current] ==> x in visited || (x, depth + 1) in queue'
  {
    var neighbors := fwd[current];
    queue' := queue;
    for k := 0 to |neighbors|
      invariant queue' == queue + Unvisited(neighbors[..k], visited, depth + 1)
    {
      var neighbor := neighbors[k];
      assert neighbors[..k + 1][..k] == neighbors[..k];
      if neighbor !in visited {
        queue' := queue' + [(neighbor, depth + 1)];
      }
    }
    assert neighbors[..|neighbors|] == neighbors;
    UnvisitedAppendsChildren(edges, fwd, rev, n, visited, queue, current, depth);
  }

  /** The appended entries are unvisited children of current, and every child is visited or appended. */
  lemma UnvisitedAppendsChildren(edges: seq<Edge>, fwd: seq<seq<int>>, rev: seq<seq<int>>, n: nat,
                                 visited: set<int>, queue: seq<(int, int)>, current: int, depth: int)
    requires ValidEdges(edges, n) && IsAdjacency(edges, n, fwd, rev) && 1 <= current <= n
    ensures AppendsChildren(edges, n, visited, queue, queue + Unvisited(fwd[current], visited, depth + 1), current, depth)
    ensures forall x :: x in fwd[current] ==>
      x in visited || (x, depth + 1) in queue + Unvisited(fwd[current], visited, depth + 1)
  {
    var u := Unvisited(fwd[current], visited, depth + 1);
    var q' := queue + u;
    assert q'[..|queue|] == queue;
    forall m | |queue| <= m < |q'|
      ensures q'[m].1 == depth + 1 && q'[m].0 !in visited && 1 <= q'[m].0 <= n
      ensures exists i :: 0 <= i < |edges| && edges[i] == (current, q'[m].0)
    {
      assert q'[m] == u[m - |queue|];
      UnvisitedMembership(fwd[current], visited, depth + 1, q'[m]);
      AdjacencyInRange(edges, n, fwd, rev, current, q'[m].0);
      ChildrenOfMembership(edges, current, q'[m].0);
    }
    forall x | x in fwd[current] && x !in visited ensures (x, depth + 1) in q' {
      UnvisitedMembership(fwd[current], visited, depth + 1, (x, depth + 1));
    }
  }

  lemma InQueuePrefix(queue: seq<(int, int)>, queue': seq<(int, int)>)
    requires |queue| <= |queue'| && queue'[..|queue|] == queue
    ensures forall x :: InQueue(queue, x) ==> InQueue(queue', x)
  {
    forall x | InQueue(queue, x) ensures InQueue(queue', x) {
      var k :| 0 <= k < |queue| && queue[k].0 == x;
      assert queue'[k] == queue[k];
    }
  }

  /** The depth of the first dequeue of a node is above 1 exactly when the node is not within one step of s. */
  lemma DepthClassifies(edges: seq<Edge>, fwd: seq<seq<int>>, n: int, s: int, near: set<int>,
                        visited: set<int>, queue: seq<(int, int)>)
    requires |fwd| == n + 1 && near == Near(edges, n, s)
    requires |queue| > 0 && queue[0].0 !in visited
    requires Progress(edges, fwd, n, s, near, visited, queue)
    ensures queue[0].1 > 1 <==> queue[0].0 !in near
    ensures queue[0].1 == 0 ==> visited == {} && queue[0].0 == s
    ensures 1 <= queue[0].0 <= n
  {
    var v, d := queue[0].0, queue[0].1;
    if d <= 1 {
      WithinMonotone(edges, s, v, d, 1);
    }
    if v in near && visited != {} {
      var b :| 0 <= b < |queue| && queue[b] == (v, 1);
    }
  }

  /** Once the queue is empty the visited set is exactly the set of nodes reachable from s. */
  lemma ClosedAtEnd(edges: seq<Edge>, n: int, fwd: seq<seq<int>>, rev: seq<seq<int>>, s: int, near: set<int>, visited: set<int>)
    requires ValidEdges(edges, n) && IsAdjacency(edges, n, fwd, rev) && 1 <= s <= n && near == Near(edges, n, s)
    requires Progress(edges, fwd, n, s, near, visited, [])
    ensures visited == ReachableFrom(edges, n, s) && |visited| <= n
    ensures visited - near == ExtendedFrom(edges, n, s)
    ensures forall v :: 1 <= v <= n ==> Mark(visited, near, v) == if Extended(edges, s, v) then 1 else 0
  {
    EmptyQueueCloses(edges, n, fwd, rev, s, near, visited);
    ClosedIsReach(edges, n, s, visited);
    forall v | 1 <= v <= n ensures Mark(visited, near, v) == if Extended(edges, s, v) then 1 else 0 {
      assert v in visited <==> v in ReachableFrom(edges, n, s);
    }
    NodesBound(visited, n);
  }

  /** With nothing left in the queue, no edge leaves the visited set. */
  lemma EmptyQueueCloses(edges: seq<Edge>, n: int, fwd: seq<seq<int>>, rev: seq<seq<int>>, s: int, near: set<int>, visited: set<int>)
    requires ValidEdges(edges, n) && IsAdjacency(edges, n, fwd, rev) && 1 <= s <= n
    requires Progress(edges, fwd, n, s, near, visited, [])
    ensures Closed(edges, visited) && s in visited && visited <= Nodes(n)
    ensures forall v :: v in visited ==> Reachable(edges, s, v)
  {
    forall i | 0 <= i < |edges| && edges[i].0 in visited ensures edges[i].1 in visited {
      ChildrenOfMembership(edges, edges[i].0, edges[i].1);
      assert !InQueue([], edges[i].1);
    }
  }

  /** A closed set of reachable nodes holding s is exactly what s reaches. */
  lemma ClosedIsReach(edges: seq<Edge>, n: int, s: int, visited: set<int>)
    requires Closed(edges, visited) && s in visited && visited <= Nodes(n)
    requires forall v :: v in visited ==> Reachable(edges, s, v)
    ensures visited == ReachableFrom(edges, n, s)
  {
    forall v | v in ReachableFrom(edges, n, s) ensures v in visited {
      var k: nat :| WithinSteps(edges, s, v, k);
      ClosedContainsReach(edges, s, visited, v, k);
    }
  }
}
