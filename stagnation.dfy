/** The stagnation test: comparing two candidate maps, and the counter of consecutive
    passes that compared equal. */
module Stagnation {
  import opened Grids
  import opened Options

  /** What the list comparison checks: equal lengths, and every element of the first
      list occurs in the second. */
  predicate SameElements(a1: seq<int>, a2: seq<int>) {
    |a1| == |a2| && forall i | 0 <= i < |a1| :: a1[i] in a2
  }

  function Elements(s: seq<int>): set<int> {
    set i | 0 <= i < |s| :: s[i]
  }

  /** A list without repetitions has as many distinct elements as entries. */
  lemma {:induction false} DistinctCard(s: seq<int>)
    requires Distinct(s)
    ensures |Elements(s)| == |s|
  {
    if s != [] {
      var t := s[..|s| - 1];
      DistinctCard(t);
      assert Elements(s) == Elements(t) + {s[|s| - 1]};
      assert s[|s| - 1] !in Elements(t);
    }
  }

  /** For lists without repetitions the list comparison is exactly set equality. */
  lemma SameElementsIsSetEquality(a1: seq<int>, a2: seq<int>)
    requires Distinct(a1) && Distinct(a2)
    ensures SameElements(a1, a2) <==> Elements(a1) == Elements(a2)
  {
    DistinctCard(a1);
    DistinctCard(a2);
    if SameElements(a1, a2) {
      forall x | x in Elements(a1)
        ensures x in Elements(a2)
      {
        var i :| 0 <= i < |a1| && a1[i] == x;
        var j :| 0 <= j < |a2| && a2[j] == x;
      }
      var e1, e2 := Elements(a1), Elements(a2);
      assert |e2 - e1| == |e2| - |e1| == 0;
      assert e2 - e1 == {};
    }
    if Elements(a1) == Elements(a2) {
      forall i | 0 <= i < |a1|
        ensures a1[i] in a2
      {
        assert a1[i] in Elements(a1);
      }
    }
  }

  /** What the map comparison checks: the previous map is not empty, and each of its
      keys is a key of the current map with a list of the same elements. */
  predicate MapsEqual(prev: Opts, cur: Opts) {
    |prev| > 0 && forall k | k in prev :: k in cur && SameElements(prev[k], cur[k])
  }

  /** When the current map's keys are among the previous map's keys (a board only
      loses empty cells) and all lists are free of repetitions, the one-way comparison
      is the order-independent equality of the two maps: same keys, same sets of
      candidates per key, and not empty. */
  lemma MapsEqualIsSetEquality(prev: Opts, cur: Opts)
    requires cur.Keys <= prev.Keys
    requires forall k | k in prev :: Distinct(prev[k])
    requires forall k | k in cur :: Distinct(cur[k])
    ensures MapsEqual(prev, cur) <==>
      prev != map[] && prev.Keys == cur.Keys &&
      forall k | k in prev :: Elements(prev[k]) == Elements(cur[k])
  {
    forall k | k in prev && k in cur
      ensures SameElements(prev[k], cur[k]) <==> Elements(prev[k]) == Elements(cur[k])
    {
      SameElementsIsSetEquality(prev[k], cur[k]);
    }
    if prev != map[] {
      assert exists k :: k in prev;
      assert |prev| > 0;
    }
  }

  /** A map compares equal to itself exactly when it is not empty. */
  lemma MapsEqualSelf(m: Opts)
    ensures MapsEqual(m, m) <==> m != map[]
  {
    forall k | k in m
      ensures SameElements(m[k], m[k])
    {
    }
    if m != map[] {
      var k :| k in m;
      assert |m| > 0;
    }
  }

  /** The counter after one comparison: bumped when equal, reset otherwise. */
  function NextCount(count: nat, equal: bool): nat {
    if equal then count + 1 else 0
  }

  /** The counter after a run of comparisons, starting from 0. */
  function Count(eqs: seq<bool>): nat {
    if eqs == [] then 0 else NextCount(Count(eqs[..|eqs| - 1]), eqs[|eqs| - 1])
  }

  /** The counter is the length of the trailing run of equal comparisons. */
  lemma {:induction false} CountIsTrailingRun(eqs: seq<bool>)
    ensures Count(eqs) <= |eqs|
    ensures forall i | |eqs| - Count(eqs) <= i < |eqs| :: eqs[i]
    ensures Count(eqs) < |eqs| ==> !eqs[|eqs| - Count(eqs) - 1]
  {
    if eqs != [] {
      var t := eqs[..|eqs| - 1];
      CountIsTrailingRun(t);
      assert forall i | 0 <= i < |t| :: t[i] == eqs[i];
    }
  }

  /** The counter reaches 3 exactly when the last three comparisons were equal; so when
      the driver stops at pass p (one comparison per pass), passes p - 2, p - 1 and p
      all compared equal and p - 2 is where the repetition began. */
  lemma StopAfterThree(eqs: seq<bool>)
    requires forall j | 0 <= j < |eqs| :: Count(eqs[..j]) < 3
    ensures Count(eqs) == 3 <==> |eqs| >= 3 && eqs[|eqs| - 3] && eqs[|eqs| - 2] && eqs[|eqs| - 1]
  {
    CountIsTrailingRun(eqs);
    if |eqs| >= 3 && eqs[|eqs| - 3] && eqs[|eqs| - 2] && eqs[|eqs| - 1] {
      var t := eqs[..|eqs| - 1];
      assert Count(t) < 3;
      CountIsTrailingRun(t);
      var u := t[..|t| - 1];
      assert u == eqs[..|eqs| - 2];
      CountIsTrailingRun(u);
      assert Count(u) < 3;
      var v := u[..|u| - 1];
      assert v == eqs[..|eqs| - 3];
    }
  }
}
