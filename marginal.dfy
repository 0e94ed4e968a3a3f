/**
 * The marginal-distribution step of task4/task.py.  A Counter is a map from
 * keys to counts in which a missing key reads as 0.  The joint distribution
 * of two dice counts every (sum, product) pair, and a marginal projects it
 * onto one of the two components.
 */
module Marginal {
  /** A key of the joint distribution: (sum, product). */
  type Key = (int, int)

  /** Line 18: axis 0 picks the sum, any other axis the product. */
  function Select(key: Key, axis: int): int {
    if axis == 0 then key.0 else key.1
  }

  /** A Counter read: a missing key counts 0. */
  function Get<K>(m: map<K, int>, k: K): int {
    if k in m then m[k] else 0
  }

  // ---------------------------------------------------------------------
  // Sums of counts over sets of keys.
  // ---------------------------------------------------------------------

  /** The counts of the keys in S added up, in no particular order. */
  ghost function MapSum<K>(m: map<K, int>, S: set<K>): int
    requires S <= m.Keys
    decreases S
  {
    if S == {} then 0 else var x :| x in S; m[x] + MapSum(m, S - {x})
  }

  /** The sum of all counts (sum(counter.values())). */
  ghost function Total<K>(m: map<K, int>): int {
    MapSum(m, m.Keys)
  }

  /** Any key can be taken out of a sum first. */
  lemma MapSumRemove<K>(m: map<K, int>, S: set<K>, y: K)
    requires S <= m.Keys && y in S
    ensures MapSum(m, S) == m[y] + MapSum(m, S - {y})
    decreases S
  {
    var x :| x in S && MapSum(m, S) == m[x] + MapSum(m, S - {x});
    if x != y {
      MapSumRemove(m, S - {x}, y);
      MapSumRemove(m, S - {y}, x);
      assert S - {x} - {y} == S - {y} - {x};
    }
  }

  /** A sum reads only the counts of the keys it adds up. */
  lemma MapSumUnchanged<K>(m: map<K, int>, m': map<K, int>, S: set<K>)
    requires S <= m.Keys && S <= m'.Keys
    requires forall x :: x in S ==> m[x] == m'[x]
    ensures MapSum(m, S) == MapSum(m', S)
    decreases S
  {
    if S != {} {
      var x :| x in S && MapSum(m, S) == m[x] + MapSum(m, S - {x});
      MapSumRemove(m', S, x);
      MapSumUnchanged(m, m', S - {x});
    }
  }

  /** Setting the count of x changes only the term of x. */
  lemma MapSumUpdate<K>(m: map<K, int>, x: K, v: int, S: set<K>)
    requires S <= m.Keys + {x}
    ensures S - {x} <= m.Keys
    ensures MapSum(m[x := v], S) == MapSum(m, S - {x}) + (if x in S then v else 0)
  {
    var m' := m[x := v];
    if x in S {
      MapSumRemove(m', S, x);
      MapSumUnchanged(m', m, S - {x});
    } else {
      assert S - {x} == S;
      MapSumUnchanged(m', m, S);
    }
  }

  /** counter[k] += c adds c to the total, whether or not k was present. */
  lemma TotalAdd<K>(m: map<K, int>, k: K, c: int)
    ensures Total(m[k := Get(m, k) + c]) == Total(m) + c
  {
    var m' := m[k := Get(m, k) + c];
    assert m'.Keys == m.Keys + {k};
    MapSumUpdate(m, k, Get(m, k) + c, m'.Keys);
    if k in m {
      MapSumRemove(m, m.Keys, k);
      assert m'.Keys - {k} == m.Keys - {k};
    } else {
      assert m'.Keys - {k} == m.Keys;
    }
  }

  // ---------------------------------------------------------------------
  // The marginal.
  // ---------------------------------------------------------------------

  /** The keys among D whose selected component is k. */
  ghost function Fiber(D: set<Key>, axis: int, k: int): set<Key> {
    set key | key in D && Select(key, axis) == k
  }

  /** The selected components of the keys in D. */
  ghost function Image(D: set<Key>, axis: int): set<int> {
    set key | key in D :: Select(key, axis)
  }

  /** The joint counts of the keys whose selected component is k, added up. */
  ghost function MarginalCount(joint: map<Key, int>, axis: int, k: int): int {
    MapSum(joint, Fiber(joint.Keys, axis, k))
  }

  /**
   * Lines 14-20: every entry of the joint distribution adds its count to the
   * marginal under its selected component.  Counts are added in the Counter's
   * iteration order, which addition makes irrelevant; the model takes the keys
   * in any order.
   */
  method MarginalDistribution(joint: map<Key, int>, axis: int) returns (marginal: map<int, int>)
    ensures marginal.Keys == Image(joint.Keys, axis)
    ensures forall k :: k in marginal ==> marginal[k] == MarginalCount(joint, axis, k)
    ensures Total(marginal) == Total(joint)
  {
    marginal := map[];
    var rest := joint.Keys;
    ghost var done: set<Key> := {};
    assert Image(done, axis) == {};
    while rest != {}
      invariant done + rest == joint.Keys && done !! rest
      invariant Accumulated(joint, axis, done, marginal)
      decreases rest
    {
      var key :| key in rest;
      var k := Select(key, axis);
      var marginal' := marginal[k := Get(marginal, k) + joint[key]];
      AccumulateStep(joint, axis, done, key, marginal, marginal');
      marginal := marginal';
      rest := rest - {key};
      done := done + {key};
    }
    assert done == joint.Keys;
  }

  /** The marginal of the entries of done: its keys, its counts and its total. */
  ghost predicate Accumulated(joint: map<Key, int>, axis: int, done: set<Key>, marginal: map<int, int>)
    requires done <= joint.Keys
  {
    marginal.Keys == Image(done, axis) &&
    (forall k :: k in marginal ==> marginal[k] == MapSum(joint, Fiber(done, axis, k))) &&
    Total(marginal) == MapSum(joint, done)
  }

  /** marginal[key] += count extends the marginal of done to the marginal of done + {key}. */
  lemma AccumulateStep(joint: map<Key, int>, axis: int, done: set<Key>, key: Key,
                       marginal: map<int, int>, marginal': map<int, int>)
    requires done <= joint.Keys && key in joint && key !in done
    requires Accumulated(joint, axis, done, marginal)
    requires marginal' == marginal[Select(key, axis) := Get(marginal, Select(key, axis)) + joint[key]]
    ensures Accumulated(joint, axis, done + {key}, marginal')
  {
    var done', c := done + {key}, Select(key, axis);
    TotalStep(joint, done, key, marginal, c);
    assert Image(done', axis) == Image(done, axis) + {c};
    forall k | k in marginal' ensures marginal'[k] == MapSum(joint, Fiber(done', axis, k)) {
      FiberStep(joint, axis, done, key, k);
    }
  }

  /** The total of the marginal follows the sum of the entries taken. */
  lemma TotalStep(joint: map<Key, int>, done: set<Key>, key: Key, marginal: map<int, int>, c: int)
    requires done <= joint.Keys && key in joint && key !in done
    ensures MapSum(joint, done + {key}) == MapSum(joint, done) + joint[key]
    ensures Total(marginal[c := Get(marginal, c) + joint[key]]) == Total(marginal) + joint[key]
  {
    MapSumRemove(joint, done + {key}, key);
    assert done + {key} - {key} == done;
    TotalAdd(marginal, c, joint[key]);
  }

  /** Adding key to done adds its count to the fiber of its selected component only. */
  lemma FiberStep(joint: map<Key, int>, axis: int, done: set<Key>, key: Key, k: int)
    requires done <= joint.Keys && key in joint && key !in done
    ensures MapSum(joint, Fiber(done + {key}, axis, k)) ==
      MapSum(joint, Fiber(done, axis, k)) + (if k == Select(key, axis) then joint[key] else 0)
    ensures k !in Image(done, axis) ==> MapSum(joint, Fiber(done, axis, k)) == 0
  {
    var done' := done + {key};
    if k == Select(key, axis) {
      MapSumRemove(joint, Fiber(done', axis, k), key);
      assert Fiber(done', axis, k) - {key} == Fiber(done, axis, k);
    } else {
      assert Fiber(done', axis, k) == Fiber(done, axis, k);
    }
    if k !in Image(done, axis) {
      assert Fiber(done, axis, k) == {};
    }
  }

  /** Every axis other than 0 gives the marginal of the product. */
  lemma OtherAxesSelectProduct(joint: map<Key, int>, axis: int, k: int)
    requires axis != 0
    ensures Image(joint.Keys, axis) == Image(joint.Keys, 1)
    ensures MarginalCount(joint, axis, k) == MarginalCount(joint, 1, k)
  {
    assert Fiber(joint.Keys, axis, k) == Fiber(joint.Keys, 1, k);
  }

  // ---------------------------------------------------------------------
  // Counter(iterable).
  // ---------------------------------------------------------------------

  /** Counter(s): how often each element of s occurs. */
  function Tally<K(==)>(s: seq<K>): (r: map<K, int>)
    ensures r.Keys == set x | x in s
    ensures forall x :: x in r ==> r[x] == multiset(s)[x]
  {
    if |s| == 0 then map[]
    else
      var init, last := s[..|s| - 1], s[|s| - 1];
      assert s == init + [last];
      var t := Tally(init);
      t[last := Get(t, last) + 1]
  }

  /** A Counter of a sequence counts |s| in total. */
  lemma {:induction false} TallyTotal<K>(s: seq<K>)
    ensures Total(Tally(s)) == |s|
  {
    if |s| > 0 {
      var init := s[..|s| - 1];
      TallyTotal(init);
      TotalAdd(Tally(init), s[|s| - 1], 1);
    }
  }

  /** How many entries of s have k as their selected component. */
  function CountSelected(s: seq<Key>, axis: int, k: int): nat {
    if |s| == 0 then 0
    else CountSelected(s[..|s| - 1], axis, k) + (if Select(s[|s| - 1], axis) == k then 1 else 0)
  }

  lemma {:induction false} CountSelectedAppend(a: seq<Key>, b: seq<Key>, axis: int, k: int)
    ensures CountSelected(a + b, axis, k) == CountSelected(a, axis, k) + CountSelected(b, axis, k)
    decreases |b|
  {
    if |b| == 0 {
      assert a + b == a;
    } else {
      assert (a + b)[..|a + b| - 1] == a + b[..|b| - 1];
      CountSelectedAppend(a, b[..|b| - 1], axis, k);
    }
  }

  /** Counting one more occurrence of x adds 1 to the marginal of its selected component. */
  lemma MarginalIncrement(t: map<Key, int>, x: Key, axis: int, k: int)
    ensures MarginalCount(t[x := Get(t, x) + 1], axis, k) ==
      MarginalCount(t, axis, k) + (if Select(x, axis) == k then 1 else 0)
  {
    var t' := t[x := Get(t, x) + 1];
    var F, F' := Fiber(t.Keys, axis, k), Fiber(t'.Keys, axis, k);
    MapSumUpdate(t, x, Get(t, x) + 1, F');
    if Select(x, axis) == k && x in t {
      MapSumRemove(t, F, x);
      assert F' - {x} == F - {x};
    } else {
      assert F' - {x} == F;
    }
  }

  /** The marginal of a Counter of s counts the entries of s selecting k. */
  lemma {:induction false} MarginalOfTally(s: seq<Key>, axis: int, k: int)
    ensures MarginalCount(Tally(s), axis, k) == CountSelected(s, axis, k)
  {
    if |s| == 0 {
      assert Fiber(Tally(s).Keys, axis, k) == {};
    } else {
      var init, x := s[..|s| - 1], s[|s| - 1];
      MarginalOfTally(init, axis, k);
      MarginalIncrement(Tally(init), x, axis, k);
    }
  }

  // ---------------------------------------------------------------------
  // The two dice of lines 24 and 27.
  // ---------------------------------------------------------------------

  /** The faces of a die are 1..Faces (range(1, 7)). */
  const Faces: int := 6

  /** The outcomes (i, 1), ..., (i, Faces). */
  function Row(i: int): seq<(int, int)> {
    seq(Faces, t => (i, t + 1))
  }

  /** The outcomes with first die 1..m and second die 1..6, first die major. */
  function Rows(m: int): seq<(int, int)>
    decreases m
  {
    if m <= 0 then [] else Rows(m - 1) + Row(m)
  }

  /** Line 24: [(i, j) for i in range(1, 7) for j in range(1, 7)]. */
  function Outcomes(): seq<(int, int)> {
    Rows(Faces)
  }

  /** Line 27: the (sum, product) of an outcome. */
  function Score(o: (int, int)): Key {
    (o.0 + o.1, o.0 * o.1)
  }

  function Scores(o: seq<(int, int)>): seq<Key>
  {
    seq(|o|, t requires 0 <= t < |o| => Score(o[t]))
  }

  /** Line 27: Counter((i + j, i * j) for i, j in outcomes). */
  function JointDistribution(): map<Key, int> {
    Tally(Scores(Outcomes()))
  }

  lemma RowMembers(i: int, o: (int, int))
    ensures o in Row(i) <==> o.0 == i && 1 <= o.1 <= 6
  {
    if o.0 == i && 1 <= o.1 <= 6 {
      assert Row(i)[o.1 - 1] == o;
    }
  }

  lemma {:induction false} RowsMembers(m: int, o: (int, int))
    ensures o in Rows(m) <==> 1 <= o.0 <= m && 1 <= o.1 <= 6
    decreases m
  {
    if m > 0 {
      RowsMembers(m - 1, o);
      RowMembers(m, o);
    }
  }

  /** The outcomes are exactly the pairs of die faces. */
  lemma OutcomesAreFaces(o: (int, int))
    ensures o in Outcomes() <==> 1 <= o.0 <= 6 && 1 <= o.1 <= 6
  {
    RowsMembers(6, o);
  }

  lemma {:induction false} RowsAt(m: nat, i: int, j: int)
    requires 1 <= i <= m && 1 <= j <= 6
    ensures |Rows(m)| == 6 * m && Rows(m)[6 * (i - 1) + (j - 1)] == (i, j)
  {
    if i < m {
      RowsAt(m - 1, i, j);
    } else if m > 1 {
      RowsAt(m - 1, 1, 1);
    } else {
      assert Rows(m - 1) == [];
    }
  }

  /** (i, j) is the outcome at position 6(i - 1) + (j - 1): first die major, second die minor. */
  lemma OutcomesOrder(i: int, j: int)
    requires 1 <= i <= 6 && 1 <= j <= 6
    ensures |Outcomes()| == 36 && Outcomes()[6 * (i - 1) + (j - 1)] == (i, j)
  {
    RowsAt(6, i, j);
  }

  /** The joint distribution counts 36 outcomes in total. */
  lemma JointTotal()
    ensures Total(JointDistribution()) == 36
  {
    OutcomesOrder(1, 1);
    TallyTotal(Scores(Outcomes()));
  }

  /** The keys of a Counter of scores are the scores of the outcomes. */
  lemma ScoresMembers(o: seq<(int, int)>, key: Key)
    ensures key in Tally(Scores(o)) <==> exists x :: x in o && key == Score(x)
  {
    if key in Tally(Scores(o)) {
      var t :| 0 <= t < |o| && Scores(o)[t] == key;
      assert o[t] in o;
    }
    if exists x :: x in o && key == Score(x) {
      var x :| x in o && key == Score(x);
      var t :| 0 <= t < |o| && o[t] == x;
      assert Scores(o)[t] == key;
    }
  }

  /** key is the (sum, product) of two die faces. */
  ghost predicate DiceScore(key: Key) {
    exists i, j :: 1 <= i <= Faces && 1 <= j <= Faces && key == Score((i, j))
  }

  /** The keys of the joint distribution are exactly the (i + j, i * j) of two die faces. */
  lemma JointKeys(key: Key)
    ensures key in JointDistribution() <==> DiceScore(key)
  {
    ScoresMembers(Outcomes(), key);
    if key in JointDistribution() {
      var x :| x in Outcomes() && key == Score(x);
      OutcomesAreFaces(x);
    }
    if DiceScore(key) {
      var i, j :| 1 <= i <= Faces && 1 <= j <= Faces && key == Score((i, j));
      OutcomesAreFaces((i, j));
    }
  }

  /** The sum marginal has the keys 2..12. */
  lemma SumMarginalKeys()
    ensures forall k :: k in Image(JointDistribution().Keys, 0) <==> 2 <= k <= 12
  {
    forall k ensures k in Image(JointDistribution().Keys, 0) <==> 2 <= k <= 12 {
      if k in Image(JointDistribution().Keys, 0) {
        var key :| key in JointDistribution() && key.0 == k;
        JointKeys(key);
      }
      if 2 <= k <= 12 {
        var i := if k <= 7 then 1 else k - 6;
        assert Score((i, k - i)).0 == k;
        JointKeys(Score((i, k - i)));
      }
    }
  }

  /** The first m outcomes of row i hold one summing to 7 once they reach face 7 - i. */
  lemma {:induction false} RowSevens(i: int, m: nat)
    requires m <= 6
    ensures CountSelected(Scores(Row(i))[..m], 0, 7) == if 1 <= 7 - i <= m then 1 else 0
  {
    var r := Scores(Row(i));
    if m > 0 {
      RowSevens(i, m - 1);
      assert r[..m][..m - 1] == r[..m - 1];
      assert r[..m][m - 1] == (i + m, i * m);
    } else {
      assert r[..m] == [];
    }
  }

  lemma {:induction false} RowsSevens(m: int)
    requires m <= 6
    ensures CountSelected(Scores(Rows(m)), 0, 7) == if m <= 0 then 0 else m
    decreases m
  {
    if m > 0 {
      RowsSevens(m - 1);
      RowSevens(m, 6);
      var p, r := Rows(m - 1), Row(m);
      assert Scores(r)[..6] == Scores(r);
      assert Scores(p + r) == Scores(p) + Scores(r);
      CountSelectedAppend(Scores(p), Scores(r), 0, 7);
    } else {
      assert Scores(Rows(m)) == [];
    }
  }

  /** Six of the 36 outcomes sum to 7. */
  lemma SumMarginalSeven()
    ensures MarginalCount(JointDistribution(), 0, 7) == 6
  {
    MarginalOfTally(Scores(Outcomes()), 0, 7);
    RowsSevens(6);
  }
}
