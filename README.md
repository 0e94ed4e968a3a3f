# Graph relationships, ranking conflicts and dice marginals

This project models three small analysis routines of a systems-analysis
course repository, and proves properties of each.

**Relationship engine** (`task2/task.py`). The input is a list of directed
(parent, child) edges over nodes `1..n`. Parallel edges, cycles and
self-loops are all allowed. `calculate_relationships` builds the forward
and reverse adjacency lists. It then fills an `n × 5` table whose row
`v - 1` holds five numbers:

- the out-degree of `v`;
- the in-degree of `v`;
- how many nodes a breadth-first walk from `v` first reaches at depth 2 or
  more (nodes at shortest distance at least 2);
- from how many starts `v` itself is reached at depth 2 or more;
- how many other nodes share a parent with `v`.

`main` takes the node count to be the largest identifier in the edge list.

Files:

- `graph.dfy`: the edges, adjacency lists, reachability and siblings.
- `traversal.dfy`: the breadth-first walk of lines 28-40.
- `relationships.dfy`: the degree, reachability and sibling passes, and the
  whole routine.
- `relationship_laws.dfy`: laws of the table:
  - columns 0 and 1 each add up to the number of edges;
  - columns 2 and 3 add up to the same total;
  - bounds on every cell;
  - the sibling relation is symmetric.
- `relationship_scenarios.dfy`: the full tables for a tree, a self-loop, a
  two-node cycle and a graph in two parts.

The table is an `array2<int>` that the passes update in place. The loops of
the source are `while`/`for` loops with invariants. Every pass is proved
against a specification written on the edge list itself: `ChildrenOf`,
`ParentsOf`, `WithinSteps`, `Extended` and `SiblingSet`.

**Ranking conflicts** (`task5/task.py`, `ranking.dfy`). A ranking is a list
whose entries are values or nested lists of values. `flatten_ranking` lists
the values depth-first. `find_conflict` compares two rankings: it reports
every pair of positions `i < j` of the first flattened ranking whose values
appear in the opposite order in the second one. "Order in the second one"
means the position of each value's first occurrence (Python's
`list.index`). When `list.index` is asked for a value that is not there, it
raises instead; the model returns `None` in exactly that case.

**Marginal distribution** (`task4/task.py`, `marginal.dfy`). A joint
distribution is a counter over (sum, product) keys.
`calculate_marginal_distribution` adds the counts up along one axis: axis 0
selects the sum, and any other axis selects the product. `main` builds the
joint distribution of the (sum, product) of two six-sided dice. The model
proves that:

- the marginal has exactly the projected keys;
- each marginal entry is the sum of its fibre (the joint keys that project
  to it);
- the grand total is preserved;
- the dice distribution has 36 outcomes, sums 2..12, and six ways to
  throw 7.

`wrappers.dfy` holds the `Option` type.

## Model

| member | source | states |
|---|---|---|
| Graph.ChildrenOfMembership | task2/task.py:14-17 | c is in the forward list of p exactly when (p, c) is one of the edges |
| Graph.ParentsOfMembership | task2/task.py:14-18 | p is in the reverse list of c exactly when (p, c) is one of the edges |
| Graph.OutDegreeCountsEdges | task2/task.py:16-17 | the forward list of p is as long as the number of edge positions whose parent is p (parallel edges counted) |
| Graph.InDegreeCountsEdges | task2/task.py:16-18 | the reverse list of c is as long as the number of edge positions whose child is c |
| Graph.AdjacencyInRange | task2/task.py:14-18 | with valid edges, every entry of every adjacency list names a node in 1..n |
| Graph.BuildAdjacency | task2/task.py:14-18 | the lists built edge by edge are, for every id 0..n, exactly the forward and reverse lists of the edge list |
| Graph.InferNodeCount | task2/task.py:65 | no count for an empty edge list (max of nothing raises); otherwise a value that bounds both ends of every edge and is attained by some edge |
| Graph.InferredCountCoversEdges | task2/task.py:64-66 | with positive ids, the inferred count makes every edge valid for the table |
| Graph.OneStep | task2/task.py:29-40 | within one step of s lie exactly s and the children of s |
| Graph.WithinMonotone | task2/task.py:29-40 | reachability within k steps implies reachability within any k' >= k |
| Graph.ClosedContainsReach | task2/task.py:29-40 | a node set that holds s and that no edge leaves holds every node reachable from s |
| Graph.ReachableInRange | task2/task.py:38-40 | with valid edges, the walk never leaves 1..n |
| Graph.SiblingsSymmetric | task2/task.py:43-47 | sharing a parent is symmetric |
| Traversal.Traverse | task2/task.py:28-40 | the walk from s raises column 2 of s by the number of nodes at shortest distance >= 2 from s, raises column 3 of exactly those nodes by one, changes no other cell, and visits each reachable node once (at most n visits, cycles included) |
| Traversal.VisitHead | task2/task.py:31-40 | one dequeue: a node already visited is skipped with the table untouched; otherwise it is marked, counted when its depth exceeds 1, and the new queue is the rest of the old one followed by its unvisited children at depth + 1, in list order; the walk invariant is kept |
| Traversal.VisitNew | task2/task.py:34-40 | a head not yet visited is marked, counted when its depth exceeds 1, and the new queue is the rest of the old one followed by its unvisited children at depth + 1 in list order; the walk invariant is kept and no other table cell changes |
| Traversal.CountExtended | task2/task.py:35-37 | the depth > 1 branch adds one to column 2 of the start and to column 3 of the node exactly when the node is not within one step of the start, and touches no other cell |
| Traversal.EnqueueNeighbours | task2/task.py:38-40 | the new queue is the old one followed by (x, depth + 1) for each unvisited x of the forward list, in list order and with repeats; each appended node is a child of the current node in 1..n, and every child ends up visited or queued |
| Traversal.UnvisitedMembership | task2/task.py:38-40 | an entry is appended exactly for a member of the list that is not visited, at the given depth |
| Traversal.UnvisitedAppendsChildren | task2/task.py:38-40 | the entries appended for the unvisited children are nodes in 1..n reached by an edge from the current node, at depth + 1, and every child of the current node is visited or appended |
| Traversal.DepthClassifies | task2/task.py:35 | at the first visit of a node, its queued depth exceeds 1 exactly when the node is neither the start nor a child of the start; depth 0 occurs only for the start, visited first |
| Traversal.SkipKeepsProgress | task2/task.py:32-33 | dropping an already visited head keeps the walk invariant |
| Traversal.VisitKeepsProgress | task2/task.py:34-40 | marking the head and queueing its children keeps the walk invariant |
| Traversal.MarkStep | task2/task.py:34-37 | marking a new node changes its count indicator by one exactly when it lies beyond one step, and no other node's |
| Traversal.EmptyQueueCloses | task2/task.py:30 | when the queue is empty, the visited set holds the start, lies in 1..n, is closed under edges and is reachable from the start |
| Traversal.ClosedIsReach | task2/task.py:28-40 | such a set is exactly the set of nodes reachable from the start |
| Traversal.ClosedAtEnd | task2/task.py:28-40 | at the end, visited is the reachable set, and the visited nodes beyond one step are exactly the nodes at shortest distance >= 2 |
| Traversal.InQueuePop | task2/task.py:31 | popping the head keeps every other queued node in the queue |
| Relationships.CountEdgesOf | task2/task.py:23-25 | one parent's loop adds its out-degree to its column 0 and, for every node, how many times that node is in the parent's list to its column 1; columns 2-4 are unchanged |
| Relationships.DegreePass | task2/task.py:22-25 | after lines 22-25, column 0 of v has grown by the length of v's forward list, and column 1 of v by the number of times v occurs across all forward lists; columns 2-4 are unchanged |
| Relationships.InCountIsInDegree | task2/task.py:22-25 | the times c occurs across the forward lists equal the length of c's reverse list, its in-degree |
| Relationships.Transpose | task2/task.py:16-18 | c occurs in the forward list of p as often as p occurs in the reverse list of c |
| Relationships.AncestorsStep | task2/task.py:27-37 | adding start k to the starts counted so far adds one to column 3 of v exactly when v is at shortest distance >= 2 from k |
| Relationships.ReachabilityPass | task2/task.py:27-40 | after the walks from every node, column 2 holds its count of nodes at distance >= 2 and column 3 its count of starts at distance >= 2; columns 0, 1 and 4 are unchanged |
| Relationships.SiblingsFromParents | task2/task.py:43-47 | the union of the parents' forward lists, less the node, is exactly its set of siblings in 1..n |
| Relationships.CountSiblings | task2/task.py:43-48 | the size of that union is the node's sibling count |
| Relationships.SiblingPass | task2/task.py:42-48 | column 4 of every node is set to its sibling count; columns 0-3 are unchanged |
| Relationships.CalculateRelationships | task2/task.py:13-50 | for valid edges, the returned table is the table of out-degree, in-degree, extended descendants, extended ancestors and siblings for every node 1..n |
| Relationships.RelationshipsOf | task2/task.py:64-66 | no table for an empty list of edges (the maximum raises); otherwise the table for the inferred node count, which is at least 1 |
| RelationshipLaws.DegreeSumsAreEdgeCount | task2/task.py:22-25 | with valid edges, the out-degrees and the in-degrees of nodes 1..n each add up to the number of edges |
| RelationshipLaws.DegreeColumnsTotal | task2/task.py:22-25 | columns 0 and 1 of the table each add up to the number of edges |
| RelationshipLaws.ReachColumnsBalance | task2/task.py:35-37 | columns 2 and 3 add up to the same total, since each increment of line 36 comes with one of line 37 |
| RelationshipLaws.StartsEqualEnds | task2/task.py:35-37 | counting the (start, end) pairs at distance >= 2 row by row or column by column gives the same number |
| RelationshipLaws.NoParentsNoSiblings | task2/task.py:43-47 | a node with no parents has no siblings |
| RelationshipLaws.SiblingsBound | task2/task.py:42-48 | a node has at most n - 1 siblings |
| RelationshipLaws.SiblingsSymmetricInTable | task2/task.py:42-48 | b is a sibling of a exactly when a is a sibling of b |
| RelationshipLaws.NotExtendedFromItself | task2/task.py:32-35 | a start is never counted among its own extended descendants: the visited guard stops a walk that comes back to it |
| RelationshipLaws.RowBounds | task2/task.py:27-48 | columns 2, 3 and 4 of a node are each at most n - 1 |
| RelationshipLaws.TableShape | task2/task.py:20-50 | the table has n rows of five cells, no cell is negative, and columns 2-4 are at most n - 1 |
| RelationshipScenarios.ExtendedFromClosed | task2/task.py:28-40 | in a closed reachable set R with N the start and its children, the nodes at distance >= 2 are R less N |
| RelationshipScenarios.TreeTable | task2/task.py:13-50 | edges (1,2),(1,3),(2,4) on 4 nodes give rows [2,0,1,0,0], [1,1,0,0,1], [0,1,0,0,1], [0,1,0,1,0] |
| RelationshipScenarios.TreeRows | task2/task.py:13-50 | the same four rows, node by node |
| RelationshipScenarios.LoopTable | task2/task.py:13-50 | a self-loop on node 1 gives [1,1,0,0,0] |
| RelationshipScenarios.CycleTable | task2/task.py:13-50 | the cycle (1,2),(2,1) gives [1,1,0,0,0] for both nodes: the walk back to the start is blocked by the visited guard |
| RelationshipScenarios.SplitTable | task2/task.py:13-50 | edges (1,2),(3,3) give [1,0,0,0,0], [0,1,0,0,0], [1,1,0,0,0]: node 3 is counted apart from nodes 1 and 2 |
| RelationshipScenarios.SplitRows | task2/task.py:13-50 | the same three rows, node by node |
| Ranking.FlattenRanking | task5/task.py:3-11 | the flattening loop returns the depth-first list of leaves of the ranking |
| Ranking.LeavesAppend | task5/task.py:6-10 | flattening distributes over concatenation of rankings |
| Ranking.LeavesLength | task5/task.py:3-11 | the flattened list has one entry per leaf of the nested ranking |
| Ranking.LeavesMembership | task5/task.py:3-11 | a value is in the flattened list exactly when it occurs as a leaf at some depth of the ranking |
| Ranking.FlatUnchanged | task5/task.py:3-11 | a ranking without nested lists flattens to itself |
| Ranking.FlattenIdempotent | task5/task.py:3-11 | flattening a flattened ranking changes nothing |
| Ranking.FirstIndex | task5/task.py:22 | `list.index`: none exactly when the value is absent; otherwise a position holding the value with no earlier one |
| Ranking.ScanRow | task5/task.py:20-23 | the inner loop for position i raises exactly when some later pair with i has a value missing from the second ranking; otherwise it returns the value pairs of the inverted later positions, in order |
| Ranking.FindConflict | task5/task.py:13-24 | raises exactly when some pair i < j of the first flattened ranking has a value missing from the second; otherwise returns the value pairs of the inverted position pairs in loop order |
| Ranking.PositionsExact | task5/task.py:19-23 | (i, j) is a reported position pair exactly when i < j within the first ranking and the second ranking places f1[i] after f1[j] |
| Ranking.ConflictMembership | task5/task.py:19-23 | (a, b) is reported exactly when a stands before b in the first ranking and after it in the second |
| Ranking.PairsSound | task5/task.py:19-23 | every position pair reported by the first i rows is inverted |
| Ranking.PairsComplete | task5/task.py:19-23 | every inverted pair whose first position lies within the first rows scanned is reported |
| Ranking.RowSound | task5/task.py:20-23 | every pair in a row's report is inverted |
| Ranking.RowComplete | task5/task.py:20-23 | every inverted pair within a row's range is in its report |
| Ranking.RowOrdered | task5/task.py:20-23 | a row's report is in increasing order of the second position |
| Ranking.PairsOrdered | task5/task.py:19-23 | the reports of the first rows are in lexicographic order of positions |
| Ranking.ConflictsOrdered | task5/task.py:19-23 | the conflicts come in lexicographic order of (i, j), the order of the two loops |
| Ranking.RowLength | task5/task.py:20-23 | the row for position i reports at most the number of later positions |
| Ranking.PairsLength | task5/task.py:19-23 | the first m rows report no more pairs than they scan |
| Ranking.MaxPairsClosed | task5/task.py:19-20 | the pairs scanned by the first m rows number m(2n - m - 1)/2 |
| Ranking.ConflictsBound | task5/task.py:19-23 | there are at most n(n - 1)/2 conflicts |
| Ranking.DistinctFirstIndex | task5/task.py:22 | in a ranking without repeats, the index of each entry is its own position |
| Ranking.SelfNoConflicts | task5/task.py:19-23 | a ranking with distinct values has no conflict with itself |
| Ranking.RepeatedEntrySelfConflict | task5/task.py:19-23 | with a repeated value, comparing a ranking with itself can report a conflict: [1,2,1] against itself gives (2,1) |
| Ranking.RepeatedEntryNoSelfConflict | task5/task.py:19-23 | a repeated value does not always conflict: [1,1] against itself reports nothing, although its values are not distinct |
| Ranking.SingleEntryNeverRaises | task5/task.py:19-23 | a ranking with at most one value never raises and has no conflicts, whatever the second ranking |
| Ranking.ExampleFlattening1 | task5/task.py:37 | the first example ranking flattens to 1..10 |
| Ranking.ExampleFlattening2 | task5/task.py:38 | the second example ranking flattens to 1..7, 9, 8, 10 |
| Ranking.ExampleIndex2 | task5/task.py:22 | the positions of the values 1..10 in the second flattened example |
| Ranking.ExampleInversions | task5/task.py:22 | in the examples, only the position pair (7, 8) is inverted |
| Ranking.ExampleConflicts | task5/task.py:36-40 | the examples do not raise, and their only conflict is (8, 9) |
| Marginal.TotalAdd | task4/task.py:19 | adding c to one counter entry, missing entries being 0, adds c to the counter's total |
| Marginal.MarginalDistribution | task4/task.py:14-20 | the marginal's keys are exactly the projections of the joint keys on the axis; each entry is the sum of the joint counts projecting to it; the total count is preserved |
| Marginal.AccumulateStep | task4/task.py:17-19 | folding one more joint entry into the marginal keeps it the marginal of the entries folded so far |
| Marginal.OtherAxesSelectProduct | task4/task.py:18 | any axis other than 0 gives the keys and counts of axis 1, the product |
| Marginal.Tally | task4/task.py:27 | Counter over a list: its keys are the list's elements, and each count is the element's multiplicity |
| Marginal.TallyTotal | task4/task.py:27 | a Counter over a list has total count equal to the list's length |
| Marginal.CountSelectedAppend | task4/task.py:17-19 | counting list elements by their projection adds up over concatenation |
| Marginal.MarginalIncrement | task4/task.py:27 | one more occurrence of a key adds one to the marginal count of its projection and to no other |
| Marginal.MarginalOfTally | task4/task.py:27-34 | the marginal of a Counter over a list counts the list elements projecting to each value |
| Marginal.RowsMembers | task4/task.py:24 | the first m rows of throws are exactly the pairs with first die in 1..m and second die in 1..6 |
| Marginal.OutcomesAreFaces | task4/task.py:24 | the outcomes are exactly the pairs of faces 1..6 |
| Marginal.OutcomesOrder | task4/task.py:24 | there are 36 outcomes, and (i, j) is number 6(i - 1) + (j - 1), the order of the nested comprehension |
| Marginal.ScoresMembers | task4/task.py:27 | a key is counted exactly when some outcome scores it |
| Marginal.JointTotal | task4/task.py:24-27 | the joint distribution counts 36 throws |
| Marginal.JointKeys | task4/task.py:27 | the joint keys are exactly the (i + j, i * j) for faces i, j |
| Marginal.SumMarginalKeys | task4/task.py:33 | the sum marginal has exactly the keys 2..12 |
| Marginal.RowsSevens | task4/task.py:24-27 | among the first m rows (m <= 6), m throws sum to 7 |
| Marginal.SumMarginalSeven | task4/task.py:33 | six throws sum to 7 |

## Left out

- Reading the CSV edge file (`parse_graph`), formatting the table
  (`format_output`), the command line and printing in `task2/task.py`: these
  are input and output. The model starts from the parsed edge list and ends
  with the table as a list of rows.
- JSON parsing and printing in `task5/task.py` are input and output, so
  `main` is modelled only through its example rankings.
- The `str()` conversion of reported values in `task5/task.py`: the model
  reports the values themselves. Any value type with equality can be used.
- Entropy (`calculate_entropy`, `calculate_joint_entropy`) and the rounding
  in `task4/task.py`: these are floating point.
- The other exercises of the repository (`task1`, `task3`, `task6`) are not
  part of this model.
- Dictionary and Counter iteration order:
  - The degree pass visits parents 1..n rather than in first-edge order.
  - The marginal folds the joint entries in an arbitrary order.
  - Both only add up counts, and addition does not depend on order.
  - The model keeps the order of every list the source appends to:
    adjacency lists, the queue and the conflict list.
- `defaultdict`: adjacency lists are stored for every id 0..n, and the
  unused ones are empty. Python creates a list only when a key is first
  read, but reading an absent key gives an empty list either way.
- Relationships.CalculateRelationships: requires every id in 1..n, and
  the other cases are not modelled:
  - Python raises `IndexError` on an id above the node count.
  - An id in 1 - n..0 makes `l_values[id - 1]` a negative index from -n to
    -1. Python then silently updates a row counted from the end of the table
    (lines 24, 25 and 37). Such an id is also counted by line 36 when a walk
    reaches it, and it can enter the sibling set at lines 46-48.
  - An id of -n or below gives an index under -n, and Python raises
    `IndexError`.
- Relationships.RelationshipsOf: requires positive ids, and the other cases
  are not modelled. When every id is 0 or below, the inferred node count is 0
  or below, `l_values` is empty, and the first edge raises `IndexError` at
  line 24. Mixed ids fall under the cases listed for CalculateRelationships.
- Traversal.Traverse: the visit count is a ghost result, used only to state
  that each reachable node is visited once.
- Ranking.FindConflict: the `ValueError` of `list.index` is modelled as the
  result `None`. The error type and its message are not modelled.
- A ranking entry is a value or a nested list (`Item`). Other JSON values,
  such as objects, would be leaves in the source, and the model does not
  distinguish them.
- Marginal.MarginalDistribution: the joint distribution is a map from
  (sum, product) keys to counts. Unpacking a key that is not a pair would
  raise in Python, and that is not modelled.

## Notes

- Edges (1,2),(1,3),(2,4) give node 2 the row [1,1,0,0,1]. The walk from node
  1 reaches node 2 at depth 1, so column 3 of node 2 is 0.
  `RelationshipScenarios.TreeTable` proves that row.
- Distinct values are enough for a ranking to have no conflict with itself
  (`Ranking.SelfNoConflicts`). A repeated value can create one, because
  `list.index` always finds the first occurrence: [1,2,1] gives (2,1)
  (`Ranking.RepeatedEntrySelfConflict`). It does not always: [1,1] gives
  none (`Ranking.RepeatedEntryNoSelfConflict`).
