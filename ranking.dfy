/**
 * The ranking-conflict finder of task5/task.py.  A ranking is a list whose
 * items are either single entries or nested lists of items, at any depth;
 * flattening reads its entries left to right, and a conflict is a pair of
 * entries that the two rankings, once flattened, place in opposite orders.
 */
module Ranking {
  import opened Wrappers

  datatype Item<T> = Leaf(value: T) | Group(items: seq<Item<T>>)

  /** The entries of a ranking, left to right at every depth. */
  function Leaves<T>(ranking: seq<Item<T>>): seq<T>
    decreases ranking
  {
    if |ranking| == 0 then []
    else Leaves(ranking[..|ranking| - 1]) + ItemLeaves(ranking[|ranking| - 1])
  }

  function ItemLeaves<T>(item: Item<T>): seq<T>
    decreases item
  {
    match item
    case Leaf(x) => [x]
    case Group(items) => Leaves(items)
  }

  /**
   * Lines 3-11: walks the ranking once, appending an entry and extending by
   * the flattening of a nested list.
   */
  method FlattenRanking<T>(ranking: seq<Item<T>>) returns (flat: seq<T>)
    ensures flat == Leaves(ranking)
    decreases ranking
  {
    flat := [];
    for k := 0 to |ranking|
      invariant flat == Leaves(ranking[..k])
    {
      assert ranking[..k + 1][..k] == ranking[..k];
      match ranking[k]
      case Group(items) =>
        var nested := FlattenRanking(items);
        flat := flat + nested;
      case Leaf(x) =>
        flat := flat + [x];
    }
    assert ranking[..|ranking|] == ranking;
  }

  /** Flattening a concatenation concatenates the flattenings, so entries keep their order. */
  lemma {:induction false} LeavesAppend<T>(a: seq<Item<T>>, b: seq<Item<T>>)
    ensures Leaves(a + b) == Leaves(a) + Leaves(b)
    decreases |b|
  {
    if |b| == 0 {
      assert a + b == a;
    } else {
      var init := b[..|b| - 1];
      assert (a + b)[..|a + b| - 1] == a + init;
      assert (a + b)[|a + b| - 1] == b[|b| - 1];
      LeavesAppend(a, init);
    }
  }

  /** The number of leaves of a ranking, counted from the front. */
  function LeafCount<T>(ranking: seq<Item<T>>): nat
    decreases ranking
  {
    if |ranking| == 0 then 0 else ItemLeafCount(ranking[0]) + LeafCount(ranking[1..])
  }

  function ItemLeafCount<T>(item: Item<T>): nat
    decreases item
  {
    match item
    case Leaf(_) => 1
    case Group(items) => LeafCount(items)
  }

  /** The flattening has one entry per leaf. */
  lemma {:induction false} LeavesLength<T>(ranking: seq<Item<T>>)
    ensures |Leaves(ranking)| == LeafCount(ranking)
    decreases ranking
  {
    if |ranking| > 0 {
      assert ranking == [ranking[0]] + ranking[1..];
      LeavesAppend([ranking[0]], ranking[1..]);
      assert [ranking[0]][..0] == [];
      ItemLeavesLength(ranking[0]);
      LeavesLength(ranking[1..]);
    }
  }

  lemma {:induction false} ItemLeavesLength<T>(item: Item<T>)
    ensures |ItemLeaves(item)| == ItemLeafCount(item)
    decreases item
  {
    match item
    case Leaf(_) =>
    case Group(items) => LeavesLength(items);
  }

  /** x is a leaf of the ranking at some depth. */
  ghost predicate Occurs<T>(ranking: seq<Item<T>>, x: T)
    decreases ranking
  {
    exists k :: 0 <= k < |ranking| && ItemOccurs(ranking[k], x)
  }

  ghost predicate ItemOccurs<T>(item: Item<T>, x: T)
    decreases item
  {
    match item
    case Leaf(y) => y == x
    case Group(items) => Occurs(items, x)
  }

  /** The flattening holds exactly the leaves found at any depth. */
  lemma {:induction false} LeavesMembership<T>(ranking: seq<Item<T>>, x: T)
    ensures x in Leaves(ranking) <==> Occurs(ranking, x)
    decreases ranking
  {
    if |ranking| > 0 {
      var init, last := ranking[..|ranking| - 1], ranking[|ranking| - 1];
      LeavesMembership(init, x);
      ItemLeavesMembership(last, x);
      if Occurs(ranking, x) {
        var k :| 0 <= k < |ranking| && ItemOccurs(ranking[k], x);
        if k < |init| {
          assert init[k] == ranking[k];
        }
      }
      if Occurs(init, x) {
        var k :| 0 <= k < |init| && ItemOccurs(init[k], x);
        assert ranking[k] == init[k];
      }
    }
  }

  lemma {:induction false} ItemLeavesMembership<T>(item: Item<T>, x: T)
    ensures x in ItemLeaves(item) <==> ItemOccurs(item, x)
    decreases item
  {
    match item
    case Leaf(_) =>
    case Group(items) => LeavesMembership(items, x);
  }

  /** A ranking without nested lists holding the entries of s. */
  function Lift<T>(s: seq<T>): seq<Item<T>>
  {
    seq(|s|, k requires 0 <= k < |s| => Leaf(s[k]))
  }

  /** Flattening a ranking without nested lists returns its entries unchanged. */
  lemma {:induction false} FlatUnchanged<T>(s: seq<T>)
    ensures Leaves(Lift(s)) == s
    decreases |s|
  {
    if |s| > 0 {
      var init := s[..|s| - 1];
      assert Lift(s)[..|s| - 1] == Lift(init);
      FlatUnchanged(init);
    }
  }

  /** Flattening twice is flattening once. */
  lemma FlattenIdempotent<T>(ranking: seq<Item<T>>)
    ensures Leaves(Lift(Leaves(ranking))) == Leaves(ranking)
  {
    FlatUnchanged(Leaves(ranking));
  }

  /**
   * Python's list.index: the position of the first occurrence of x in s,
   * or None where index raises ValueError.
   */
  function FirstIndex<T(==)>(s: seq<T>, x: T): (r: Option<nat>)
    ensures r.None? <==> x !in s
    ensures r.Some? ==> r.value < |s| && s[r.value] == x && forall k :: 0 <= k < r.value ==> s[k] != x
  {
    if |s| == 0 then None
    else if s[0] == x then Some(0)
    else match FirstIndex(s[1..], x)
      case None => None
      case Some(k) => Some(k + 1)
  }

  /** Ranking 2 puts b strictly before a (line 22). */
  predicate Inverted<T(==)>(f2: seq<T>, a: T, b: T) {
    FirstIndex(f2, a).Some? && FirstIndex(f2, b).Some? && FirstIndex(f2, a).value > FirstIndex(f2, b).value
  }

  /** The positions (i, j') with i < j' < j that conflict, in order of j'. */
  function RowPairs<T(==)>(f1: seq<T>, f2: seq<T>, i: nat, j: int): (r: seq<(nat, nat)>)
    requires i < |f1| && j <= |f1|
    ensures forall k :: 0 <= k < |r| ==> r[k].0 == i < r[k].1 < j
    decreases j
  {
    if j <= i + 1 then []
    else RowPairs(f1, f2, i, j - 1) + (if Inverted(f2, f1[i], f1[j - 1]) then [(i, j - 1)] else [])
  }

  /** The positions that conflict with a first position below i, in order of (i, j). */
  function PairsUpTo<T(==)>(f1: seq<T>, f2: seq<T>, i: nat): (r: seq<(nat, nat)>)
    requires i <= |f1|
    ensures forall k :: 0 <= k < |r| ==> r[k].0 < i && r[k].0 < r[k].1 < |f1|
  {
    if i == 0 then [] else PairsUpTo(f1, f2, i - 1) + RowPairs(f1, f2, i - 1, |f1|)
  }

  /** The positions of every conflict of flattened ranking 1 against flattened ranking 2. */
  function ConflictPositions<T(==)>(f1: seq<T>, f2: seq<T>): seq<(nat, nat)> {
    PairsUpTo(f1, f2, |f1|)
  }

  /** The entries at a list of positions. */
  function At<T>(f1: seq<T>, pos: seq<(nat, nat)>): seq<(T, T)>
    requires forall k :: 0 <= k < |pos| ==> pos[k].0 < |f1| && pos[k].1 < |f1|
  {
    seq(|pos|, k requires 0 <= k < |pos| => (f1[pos[k].0], f1[pos[k].1]))
  }

  /** The conflicts find_conflict returns when no lookup fails. */
  function Conflicts<T(==)>(f1: seq<T>, f2: seq<T>): seq<(T, T)> {
    At(f1, ConflictPositions(f1, f2))
  }

  /** Some pair at positions i < j of f1 has an entry missing from f2, so index raises. */
  predicate MissingInPair<T(==)>(f1: seq<T>, f2: seq<T>) {
    exists i, j :: 0 <= i < j < |f1| && Unlisted(f2, f1[i], f1[j])
  }

  /** f2 lacks a or b. */
  predicate Unlisted<T(==)>(f2: seq<T>, a: T, b: T) {
    a !in f2 || b !in f2
  }

  /** Picking entries at two lists of positions is picking at their concatenation. */
  lemma AtAppend<T>(f1: seq<T>, p: seq<(nat, nat)>, q: seq<(nat, nat)>)
    requires forall k :: 0 <= k < |p| ==> p[k].0 < |f1| && p[k].1 < |f1|
    requires forall k :: 0 <= k < |q| ==> q[k].0 < |f1| && q[k].1 < |f1|
    ensures At(f1, p + q) == At(f1, p) + At(f1, q)
  {
    assert forall k :: 0 <= k < |p + q| ==> (p + q)[k] == if k < |p| then p[k] else q[k - |p|];
  }

  /**
   * Lines 13-24: every pair of positions i < j of flattened ranking 1 whose
   * entries flattened ranking 2 orders the other way is appended, in order of
   * (i, j).  A lookup of an entry missing from ranking 2 raises; the model
   * returns None then.
   */
  method FindConflict<T(==)>(ranking1: seq<Item<T>>, ranking2: seq<Item<T>>) returns (result: Option<seq<(T, T)>>)
    ensures result.None? <==> MissingInPair(Leaves(ranking1), Leaves(ranking2))
    ensures result.Some? ==> result.value == Conflicts(Leaves(ranking1), Leaves(ranking2))
  {
    var f1 := FlattenRanking(ranking1);
    var f2 := FlattenRanking(ranking2);
    var conflicts: seq<(T, T)> := [];
    for i := 0 to |f1|
      invariant conflicts == At(f1, PairsUpTo(f1, f2, i))
      invariant forall p, q :: 0 <= p < q < |f1| && p < i ==> f1[p] in f2 && f1[q] in f2
    {
      var row := ScanRow(f1, f2, i);
      if row.None? {
        var q :| i < q < |f1| && (f1[i] !in f2 || f1[q] !in f2);
        assert Unlisted(f2, f1[i], f1[q]);
        return None;
      }
      AtAppend(f1, PairsUpTo(f1, f2, i), RowPairs(f1, f2, i, |f1|));
      conflicts := conflicts + row.value;
    }
    result := Some(conflicts);
  }

  /** The inner loop of lines 17-24 for one first position i. */
  method ScanRow<T(==)>(f1: seq<T>, f2: seq<T>, i: nat) returns (row: Option<seq<(T, T)>>)
    requires i < |f1|
    ensures row.None? <==> exists q :: i < q < |f1| && (f1[i] !in f2 || f1[q] !in f2)
    ensures row.Some? ==> row.value == At(f1, RowPairs(f1, f2, i, |f1|))
  {
    var conflicts: seq<(T, T)> := [];
    ghost var pos: seq<(nat, nat)> := [];
    for j := i + 1 to |f1|
      invariant pos == RowPairs(f1, f2, i, j) && conflicts == At(f1, pos)
      invariant forall q :: i < q < j ==> f1[i] in f2 && f1[q] in f2
    {
      var a := FirstIndex(f2, f1[i]);
      var b := FirstIndex(f2, f1[j]);
      if a.None? || b.None? {
        return None;
      }
      if a.value > b.value {
        conflicts := conflicts + [(f1[i], f1[j])];
        pos := pos + [(i, j)];
      }
    }
    row := Some(conflicts);
  }

  // ---------------------------------------------------------------------
  // Laws of the conflict list.
  // ---------------------------------------------------------------------

  /** Every position listed by a row conflicts. */
  lemma {:induction false} RowSound<T>(f1: seq<T>, f2: seq<T>, i: nat, j: int)
    requires i < |f1| && j <= |f1|
    ensures forall k :: 0 <= k < |RowPairs(f1, f2, i, j)| ==>
      Inverted(f2, f1[i], f1[RowPairs(f1, f2, i, j)[k].1])
    decreases j
  {
    if j > i + 1 {
      RowSound(f1, f2, i, j - 1);
    }
  }

  lemma {:induction false} PairsSound<T>(f1: seq<T>, f2: seq<T>, m: nat)
    requires m <= |f1|
    ensures forall k :: 0 <= k < |PairsUpTo(f1, f2, m)| ==>
      Inverted(f2, f1[PairsUpTo(f1, f2, m)[k].0], f1[PairsUpTo(f1, f2, m)[k].1])
    decreases m
  {
    if m > 0 {
      PairsSound(f1, f2, m - 1);
      RowSound(f1, f2, m - 1, |f1|);
      var p, r := PairsUpTo(f1, f2, m - 1), RowPairs(f1, f2, m - 1, |f1|);
      assert forall k :: 0 <= k < |p + r| ==> (p + r)[k] == if k < |p| then p[k] else r[k - |p|];
    }
  }

  /** A conflicting pair at positions i < j is listed by the row of i once the scan passes j. */
  lemma {:induction false} RowComplete<T>(f1: seq<T>, f2: seq<T>, i: nat, j: nat, m: int)
    requires i < j < m <= |f1| && Inverted(f2, f1[i], f1[j])
    ensures (i, j) in RowPairs(f1, f2, i, m)
    decreases m
  {
    if j < m - 1 {
      RowComplete(f1, f2, i, j, m - 1);
    }
  }

  lemma {:induction false} PairsComplete<T>(f1: seq<T>, f2: seq<T>, i: nat, j: nat, m: nat)
    requires i < j < |f1| && i < m <= |f1| && Inverted(f2, f1[i], f1[j])
    ensures (i, j) in PairsUpTo(f1, f2, m)
    decreases m
  {
    if i < m - 1 {
      PairsComplete(f1, f2, i, j, m - 1);
    } else {
      RowComplete(f1, f2, i, j, |f1|);
    }
  }

  /** The conflict positions are exactly the pairs i < j that ranking 2 orders the other way. */
  lemma PositionsExact<T>(f1: seq<T>, f2: seq<T>, i: nat, j: nat)
    ensures (i, j) in ConflictPositions(f1, f2) <==> i < j < |f1| && Inverted(f2, f1[i], f1[j])
  {
    if i < j < |f1| && Inverted(f2, f1[i], f1[j]) {
      PairsComplete(f1, f2, i, j, |f1|);
    }
    if (i, j) in ConflictPositions(f1, f2) {
      PairsSound(f1, f2, |f1|);
    }
  }

  /** [a, b] is a conflict exactly when a comes before b in ranking 1 and after it in ranking 2. */
  lemma ConflictMembership<T>(f1: seq<T>, f2: seq<T>, a: T, b: T)
    ensures (a, b) in Conflicts(f1, f2) <==>
      exists i, j :: 0 <= i < j < |f1| && f1[i] == a && f1[j] == b && Inverted(f2, a, b)
  {
    var pos := ConflictPositions(f1, f2);
    if (a, b) in Conflicts(f1, f2) {
      var k :| 0 <= k < |pos| && Conflicts(f1, f2)[k] == (a, b);
      PositionsExact(f1, f2, pos[k].0, pos[k].1);
      assert f1[pos[k].0] == a && f1[pos[k].1] == b;
    }
    if exists i, j :: 0 <= i < j < |f1| && f1[i] == a && f1[j] == b && Inverted(f2, a, b) {
      var i, j :| 0 <= i < j < |f1| && f1[i] == a && f1[j] == b && Inverted(f2, a, b);
      PositionsExact(f1, f2, i, j);
      var k :| 0 <= k < |pos| && pos[k] == (i, j);
      assert Conflicts(f1, f2)[k] == (a, b);
    }
  }

  /** p comes before q in the order of the two loops. */
  predicate Before(p: (nat, nat), q: (nat, nat)) {
    p.0 < q.0 || (p.0 == q.0 && p.1 < q.1)
  }

  /** A row lists its second positions in increasing order. */
  lemma {:induction false} RowOrdered<T>(f1: seq<T>, f2: seq<T>, i: nat, j: int)
    requires i < |f1| && j <= |f1|
    ensures forall k, k' :: 0 <= k < k' < |RowPairs(f1, f2, i, j)| ==>
      RowPairs(f1, f2, i, j)[k].1 < RowPairs(f1, f2, i, j)[k'].1
    decreases j
  {
    if j > i + 1 {
      RowOrdered(f1, f2, i, j - 1);
    }
  }

  /** Positions all in earlier rows, followed by one row in order, stay in order. */
  lemma OrderedConcat(p: seq<(nat, nat)>, r: seq<(nat, nat)>, row: nat)
    requires forall k, k' :: 0 <= k < k' < |p| ==> Before(p[k], p[k'])
    requires forall k :: 0 <= k < |p| ==> p[k].0 < row
    requires forall k :: 0 <= k < |r| ==> r[k].0 == row
    requires forall k, k' :: 0 <= k < k' < |r| ==> r[k].1 < r[k'].1
    ensures forall k, k' :: 0 <= k < k' < |p + r| ==> Before((p + r)[k], (p + r)[k'])
  {
    forall k, k' | 0 <= k < k' < |p + r| ensures Before((p + r)[k], (p + r)[k']) {
      if k' < |p| {
        assert (p + r)[k] == p[k] && (p + r)[k'] == p[k'];
      } else if k < |p| {
        assert (p + r)[k] == p[k] && (p + r)[k'] == r[k' - |p|];
      } else {
        assert (p + r)[k] == r[k - |p|] && (p + r)[k'] == r[k' - |p|];
      }
    }
  }

  lemma {:induction false} PairsOrdered<T>(f1: seq<T>, f2: seq<T>, m: nat)
    requires m <= |f1|
    ensures forall k, k' :: 0 <= k < k' < |PairsUpTo(f1, f2, m)| ==>
      Before(PairsUpTo(f1, f2, m)[k], PairsUpTo(f1, f2, m)[k'])
    decreases m
  {
    if m > 0 {
      PairsOrdered(f1, f2, m - 1);
      RowOrdered(f1, f2, m - 1, |f1|);
      OrderedConcat(PairsUpTo(f1, f2, m - 1), RowPairs(f1, f2, m - 1, |f1|), m - 1);
    }
  }

  /** Conflicts are emitted by the position of their first entry, then of their second. */
  lemma ConflictsOrdered<T>(f1: seq<T>, f2: seq<T>)
    ensures forall k, k' :: 0 <= k < k' < |ConflictPositions(f1, f2)| ==>
      Before(ConflictPositions(f1, f2)[k], ConflictPositions(f1, f2)[k'])
  {
    PairsOrdered(f1, f2, |f1|);
  }

  lemma {:induction false} RowLength<T>(f1: seq<T>, f2: seq<T>, i: nat, j: int)
    requires i < |f1| && i < j <= |f1|
    ensures |RowPairs(f1, f2, i, j)| <= j - i - 1
    decreases j
  {
    if j > i + 1 {
      RowLength(f1, f2, i, j - 1);
    }
  }

  /** The number of pairs i < j < n with i below m. */
  function MaxPairs(n: int, m: int): int
    decreases m
  {
    if m <= 0 then 0 else MaxPairs(n, m - 1) + (n - m)
  }

  lemma {:induction false} PairsLength<T>(f1: seq<T>, f2: seq<T>, m: nat)
    requires m <= |f1|
    ensures |PairsUpTo(f1, f2, m)| <= MaxPairs(|f1|, m)
    decreases m
  {
    if m > 0 {
      PairsLength(f1, f2, m - 1);
      RowLength(f1, f2, m - 1, |f1|);
    }
  }

  lemma {:induction false} MaxPairsClosed(n: int, m: nat)
    ensures 2 * MaxPairs(n, m) == m * (2 * n - m - 1)
    decreases m
  {
    if m > 0 {
      MaxPairsClosed(n, m - 1);
      PairBoundStep(n, m);
    }
  }

  lemma PairBoundStep(n: int, m: int)
    ensures m * (2 * n - m - 1) == (m - 1) * (2 * n - (m - 1) - 1) + 2 * (n - m)
  {
    assert m * (2 * n - m - 1) == 2 * m * n - m * m - m;
    assert (m - 1) * (2 * n - m) == 2 * m * n - m * m - 2 * n + m;
  }

  /** n entries admit at most n(n-1)/2 conflicts. */
  lemma ConflictsBound<T>(f1: seq<T>, f2: seq<T>)
    ensures 2 * |Conflicts(f1, f2)| <= |f1| * (|f1| - 1)
  {
    PairsLength(f1, f2, |f1|);
    MaxPairsClosed(|f1|, |f1|);
  }

  predicate Distinct<T(==)>(s: seq<T>) {
    forall k, k' :: 0 <= k < k' < |s| ==> s[k] != s[k']
  }

  /** In a list of distinct entries every entry is found at its own position. */
  lemma DistinctFirstIndex<T>(f: seq<T>, k: nat)
    requires Distinct(f) && k < |f|
    ensures FirstIndex(f, f[k]) == Some(k)
  {
  }

  /** A ranking whose entries are distinct has no conflict with itself. */
  lemma SelfNoConflicts<T>(f: seq<T>)
    requires Distinct(f)
    ensures Conflicts(f, f) == []
  {
    var pos := ConflictPositions(f, f);
    if |pos| > 0 {
      PairsSound(f, f, |f|);
      var p, q := pos[0].0, pos[0].1;
      DistinctFirstIndex(f, p);
      DistinctFirstIndex(f, q);
    }
  }

  /**
   * With a repeated entry a ranking does conflict with itself: both copies of
   * 1 are looked up at the first, so 2 comes after its second copy yet
   * before its first.
   */
  lemma RepeatedEntrySelfConflict()
    ensures Conflicts([1, 2, 1], [1, 2, 1]) == [(2, 1)]
  {
    var f := [1, 2, 1];
    assert FirstIndex(f, 1) == Some(0);
    assert FirstIndex(f, 2) == Some(1);
    assert RowPairs(f, f, 0, 3) == [];
    assert RowPairs(f, f, 1, 3) == [(1, 2)];
    assert RowPairs(f, f, 2, 3) == [];
    assert PairsUpTo(f, f, 3) == [(1, 2)];
  }

  /** A repeated value does not always conflict: [1, 1] against itself reports nothing. */
  lemma RepeatedEntryNoSelfConflict()
    ensures !Distinct([1, 1]) && Conflicts([1, 1], [1, 1]) == []
  {
    var f := [1, 1];
    assert f[0] == f[1];
    assert FirstIndex(f, 1) == Some(0);
    assert !Inverted(f, f[0], f[1]);
    assert RowPairs(f, f, 0, 2) == [] && RowPairs(f, f, 1, 2) == [];
    assert ConflictPositions(f, f) == [];
  }

  /** With at most one entry no pair is looked up, so nothing raises and nothing conflicts. */
  lemma SingleEntryNeverRaises<T>(f1: seq<T>, f2: seq<T>)
    requires |f1| <= 1
    ensures !MissingInPair(f1, f2) && Conflicts(f1, f2) == []
  {
    if |f1| == 1 {
      assert PairsUpTo(f1, f2, 1) == PairsUpTo(f1, f2, 0) + RowPairs(f1, f2, 0, 1) == [];
    } else {
      assert PairsUpTo(f1, f2, 0) == [];
    }
  }

  // ---------------------------------------------------------------------
  // The example rankings of lines 37-38.
  // ---------------------------------------------------------------------

  /** [1, [2, 3], 4, [5, 6, 7], 8, 9, 10] */
  const ExampleRanking1: seq<Item<int>> :=
    [Leaf(1), Group([Leaf(2), Leaf(3)]), Leaf(4), Group([Leaf(5), Leaf(6), Leaf(7)]), Leaf(8), Leaf(9), Leaf(10)]

  /** [[1, 2], [3, 4, 5], 6, 7, 9, [8, 10]] */
  const ExampleRanking2: seq<Item<int>> :=
    [Group([Leaf(1), Leaf(2)]), Group([Leaf(3), Leaf(4), Leaf(5)]), Leaf(6), Leaf(7), Leaf(9), Group([Leaf(8), Leaf(10)])]

  /** A nested list on its own flattens to its entries. */
  lemma LeavesOfGroup<T>(g: seq<T>)
    ensures Leaves([Group(Lift(g))]) == g
  {
    assert [Group(Lift(g))][..0] == [];
    FlatUnchanged(g);
  }

  lemma ExampleFlattening1()
    ensures Leaves(ExampleRanking1) == [1, 2, 3, 4, 5, 6, 7, 8, 9, 10]
  {
    var a, b, c, d, e := Lift([1]), [Group(Lift([2, 3]))], Lift([4]), [Group(Lift([5, 6, 7]))], Lift([8, 9, 10]);
    assert ExampleRanking1 == (((a + b) + c) + d) + e by {
      assert a == [Leaf(1)] && c == [Leaf(4)] && e == [Leaf(8), Leaf(9), Leaf(10)];
      assert Lift([2, 3]) == [Leaf(2), Leaf(3)];
      assert Lift([5, 6, 7]) == [Leaf(5), Leaf(6), Leaf(7)];
    }
    assert Leaves(a + b) == [1, 2, 3] by {
      FlatUnchanged([1]);
      LeavesOfGroup([2, 3]);
      LeavesAppend(a, b);
    }
    assert Leaves(a + b + c) == [1, 2, 3, 4] by {
      FlatUnchanged([4]);
      LeavesAppend(a + b, c);
    }
    assert Leaves(a + b + c + d) == [1, 2, 3, 4, 5, 6, 7] by {
      LeavesOfGroup([5, 6, 7]);
      LeavesAppend(a + b + c, d);
    }
    FlatUnchanged([8, 9, 10]);
    LeavesAppend(a + b + c + d, e);
  }

  lemma ExampleFlattening2()
    ensures Leaves(ExampleRanking2) == [1, 2, 3, 4, 5, 6, 7, 9, 8, 10]
  {
    var g, h, k, l := [Group(Lift([1, 2]))], [Group(Lift([3, 4, 5]))], Lift([6, 7, 9]), [Group(Lift([8, 10]))];
    assert ExampleRanking2 == ((g + h) + k) + l by {
      assert k == [Leaf(6), Leaf(7), Leaf(9)];
      assert Lift([1, 2]) == [Leaf(1), Leaf(2)];
      assert Lift([3, 4, 5]) == [Leaf(3), Leaf(4), Leaf(5)];
      assert Lift([8, 10]) == [Leaf(8), Leaf(10)];
    }
    assert Leaves(g + h) == [1, 2, 3, 4, 5] by {
      LeavesOfGroup([1, 2]);
      LeavesOfGroup([3, 4, 5]);
      LeavesAppend(g, h);
    }
    assert Leaves(g + h + k) == [1, 2, 3, 4, 5, 6, 7, 9] by {
      FlatUnchanged([6, 7, 9]);
      LeavesAppend(g + h, k);
    }
    LeavesOfGroup([8, 10]);
    LeavesAppend(g + h + k, l);
  }

  /** The position of entry v in the second example flattened. */
  function ExamplePosition2(v: int): int {
    if v == 8 then 8 else if v == 9 then 7 else v - 1
  }

  lemma ExampleIndex2(f2: seq<int>, v: int)
    requires f2 == [1, 2, 3, 4, 5, 6, 7, 9, 8, 10] && 1 <= v <= 10
    ensures FirstIndex(f2, v) == Some(ExamplePosition2(v))
  {
    assert Distinct(f2);
    assert f2[ExamplePosition2(v)] == v;
    DistinctFirstIndex(f2, ExamplePosition2(v));
  }

  /** Only 8 and 9 are ordered differently. */
  lemma ExampleInversions(f1: seq<int>, f2: seq<int>, i: int, j: int)
    requires f1 == [1, 2, 3, 4, 5, 6, 7, 8, 9, 10] && f2 == [1, 2, 3, 4, 5, 6, 7, 9, 8, 10]
    requires 0 <= i < j < 10
    ensures Inverted(f2, f1[i], f1[j]) <==> i == 7 && j == 8
  {
    assert forall k :: 0 <= k < 10 ==> f1[k] == k + 1;
    ExampleIndex2(f2, f1[i]);
    ExampleIndex2(f2, f1[j]);
  }

  /** The example rankings of lines 37-38 raise nothing and conflict only on [8, 9]. */
  lemma ExampleConflicts()
    ensures !MissingInPair(Leaves(ExampleRanking1), Leaves(ExampleRanking2))
    ensures Conflicts(Leaves(ExampleRanking1), Leaves(ExampleRanking2)) == [(8, 9)]
  {
    ExampleFlattening1();
    ExampleFlattening2();
    var f1, f2 := Leaves(ExampleRanking1), Leaves(ExampleRanking2);
    forall i | 0 <= i < |f1| ensures f1[i] in f2 {
      assert f1[i] == i + 1;
      ExampleIndex2(f2, i + 1);
    }
    var pos := ConflictPositions(f1, f2);
    ExampleInversions(f1, f2, 7, 8);
    PositionsExact(f1, f2, 7, 8);
    forall k | 0 <= k < |pos| ensures pos[k] == (7, 8) {
      PositionsExact(f1, f2, pos[k].0, pos[k].1);
      ExampleInversions(f1, f2, pos[k].0, pos[k].1);
    }
    ConflictsOrdered(f1, f2);
    assert |pos| >= 2 ==> Before(pos[0], pos[1]);
    assert pos == [(7, 8)];
  }
}
