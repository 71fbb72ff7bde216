/**
 * The reference the search is proved against: enumerate every way of
 * placing the courses, in lexicographic order of the course-0, course-1, ...
 * hour choices, and keep the feasible ones. The search prunes a branch as
 * soon as one course does not fit; the lemmas here show that pruning loses
 * nothing and that the result is exactly the set of complete feasible
 * placements, each once and in lexicographic order.
 */
module Enumeration {
  import opened Domain
  import opened Placement

  /** Every completion of p: p followed by any hours for courses |p|, ...,
      n-1, with the hour of course |p| varying slowest. */
  function Extend(t: Tables, p: Assignment): seq<Assignment>
    requires |p| <= |t.involvements|
    decreases |t.involvements| - |p|, |t.hourNames| + 1
  {
    if |p| == |t.involvements| then [p] else ExtendBelow(t, p, |t.hourNames|)
  }

  /** The completions of p that hold course |p| at an hour below k. */
  function ExtendBelow(t: Tables, p: Assignment, k: nat): seq<Assignment>
    requires |p| < |t.involvements| && k <= |t.hourNames|
    decreases |t.involvements| - |p|, k
  {
    if k == 0 then [] else ExtendBelow(t, p, k - 1) + Extend(t, p + [k - 1])
  }

  /** The feasible members of xs, in their order. */
  function Feasibles(t: Tables, xs: seq<Assignment>): seq<Assignment>
    requires t.WellFormed()
  {
    if xs == [] then []
    else (if Feasible(t, xs[0]) then [xs[0]] else []) + Feasibles(t, xs[1..])
  }

  /** All complete feasible placements, in lexicographic order. */
  function AllValidAssignments(t: Tables): seq<Assignment>
    requires t.WellFormed()
  {
    Feasibles(t, Extend(t, []))
  }

  /** The schedules of a list of placements. */
  function SchedulesOf(t: Tables, xs: seq<Assignment>): seq<Schedule>
  {
    seq(|xs|, i requires 0 <= i < |xs| => ScheduleOf(t, xs[i]))
  }

  /** x is a completion of p. */
  predicate Extends(t: Tables, p: Assignment, x: Assignment) {
    && |p| <= |x| == |t.involvements|
    && x[..|p|] == p
    && forall i :: |p| <= i < |x| ==> x[i] < |t.hourNames|
  }

  /** a comes strictly before b in lexicographic order. */
  predicate LexLess(a: Assignment, b: Assignment) {
    exists k :: 0 <= k < |a| && k < |b| && a[..k] == b[..k] && a[k] < b[k]
  }

  predicate LexSorted(xs: seq<Assignment>) {
    forall i, j :: 0 <= i < j < |xs| ==> LexLess(xs[i], xs[j])
  }

  // ---------------------------------------------------------------------
  // The enumeration lists exactly the completions.

  lemma {:induction false} ExtendMembers(t: Tables, p: Assignment)
    requires |p| <= |t.involvements|
    ensures forall x :: x in Extend(t, p) ==> Extends(t, p, x)
    decreases |t.involvements| - |p|, |t.hourNames| + 1
  {
    if |p| < |t.involvements| {
      ExtendBelowMembers(t, p, |t.hourNames|);
    }
  }

  lemma {:induction false} ExtendBelowMembers(t: Tables, p: Assignment, k: nat)
    requires |p| < |t.involvements| && k <= |t.hourNames|
    ensures forall x :: x in ExtendBelow(t, p, k) ==> Extends(t, p, x) && x[|p|] < k
    decreases |t.involvements| - |p|, k
  {
    if k > 0 {
      ExtendBelowMembers(t, p, k - 1);
      var q := p + [k - 1];
      ExtendMembers(t, q);
      forall x | x in Extend(t, q) ensures Extends(t, p, x) && x[|p|] < k {
        assert x[..|p|] == x[..|q|][..|p|] == p;
        assert x[|p|] == x[..|q|][|p|] == k - 1;
      }
    }
  }

  /** Extend(t, p + [h]) is a block of ExtendBelow(t, p, k) for h < k. */
  lemma {:induction false} ExtendBelowContains(t: Tables, p: Assignment, h: Hour, k: nat, x: Assignment)
    requires |p| < |t.involvements| && h < k <= |t.hourNames|
    requires x in Extend(t, p + [h])
    ensures x in ExtendBelow(t, p, k)
  {
    if h < k - 1 {
      ExtendBelowContains(t, p, h, k - 1, x);
    }
  }

  /** Every completion of p is enumerated. */
  lemma {:induction false} ExtendComplete(t: Tables, p: Assignment, x: Assignment)
    requires |p| <= |t.involvements| && Extends(t, p, x)
    ensures x in Extend(t, p)
    decreases |t.involvements| - |p|
  {
    if |p| == |t.involvements| {
      assert x == x[..|p|];
    } else {
      var h := x[|p|];
      var q := p + [h];
      assert x[..|q|] == x[..|p|] + [h];
      ExtendComplete(t, q, x);
      ExtendBelowContains(t, p, h, |t.hourNames|, x);
    }
  }

  // ---------------------------------------------------------------------
  // The enumeration is in strictly increasing lexicographic order.

  lemma LexSortedAppend(a: seq<Assignment>, b: seq<Assignment>)
    requires LexSorted(a) && LexSorted(b)
    requires forall x, y :: x in a && y in b ==> LexLess(x, y)
    ensures LexSorted(a + b)
  {
    forall i, j | 0 <= i < j < |a + b| ensures LexLess((a + b)[i], (a + b)[j]) {
      if j < |a| {
        assert (a + b)[i] == a[i] && (a + b)[j] == a[j];
      } else if i >= |a| {
        assert (a + b)[i] == b[i - |a|] && (a + b)[j] == b[j - |a|];
      } else {
        assert (a + b)[i] in a && (a + b)[j] in b;
      }
    }
  }

  lemma {:induction false} ExtendSorted(t: Tables, p: Assignment)
    requires |p| <= |t.involvements|
    ensures LexSorted(Extend(t, p))
    decreases |t.involvements| - |p|, |t.hourNames| + 1
  {
    if |p| < |t.involvements| {
      ExtendBelowSorted(t, p, |t.hourNames|);
    }
  }

  lemma {:induction false} ExtendBelowSorted(t: Tables, p: Assignment, k: nat)
    requires |p| < |t.involvements| && k <= |t.hourNames|
    ensures LexSorted(ExtendBelow(t, p, k))
    decreases |t.involvements| - |p|, k
  {
    if k > 0 {
      var q := p + [k - 1];
      var a, b := ExtendBelow(t, p, k - 1), Extend(t, q);
      ExtendBelowSorted(t, p, k - 1);
      ExtendSorted(t, q);
      ExtendBelowMembers(t, p, k - 1);
      ExtendMembers(t, q);
      forall x, y | x in a && y in b ensures LexLess(x, y) {
        assert y[..|p|] == y[..|q|][..|p|] == p;
        assert y[|p|] == y[..|q|][|p|] == k - 1;
        assert x[..|p|] == y[..|p|] && x[|p|] < y[|p|];
      }
      LexSortedAppend(a, b);
    }
  }

  // ---------------------------------------------------------------------
  // Filtering.

  lemma {:induction false} FeasiblesAppend(t: Tables, xs: seq<Assignment>, ys: seq<Assignment>)
    requires t.WellFormed()
    ensures Feasibles(t, xs + ys) == Feasibles(t, xs) + Feasibles(t, ys)
  {
    if xs != [] {
      assert (xs + ys)[1..] == xs[1..] + ys;
      FeasiblesAppend(t, xs[1..], ys);
    } else {
      assert xs + ys == ys;
    }
  }

  lemma {:induction false} FeasiblesMembers(t: Tables, xs: seq<Assignment>)
    requires t.WellFormed()
    ensures forall x :: x in Feasibles(t, xs) <==> x in xs && Feasible(t, x)
  {
    if xs != [] {
      FeasiblesMembers(t, xs[1..]);
      assert xs == [xs[0]] + xs[1..];
    }
  }

  lemma {:induction false} FeasiblesSorted(t: Tables, xs: seq<Assignment>)
    requires t.WellFormed() && LexSorted(xs)
    ensures LexSorted(Feasibles(t, xs))
  {
    if xs != [] {
      var rest := xs[1..];
      assert LexSorted(rest) by {
        forall i, j | 0 <= i < j < |rest| ensures LexLess(rest[i], rest[j]) {
          assert rest[i] == xs[i + 1] && rest[j] == xs[j + 1];
        }
      }
      FeasiblesSorted(t, rest);
      FeasiblesMembers(t, rest);
      forall y | y in Feasibles(t, rest) ensures LexLess(xs[0], y) {
        var j :| 0 <= j < |rest| && rest[j] == y;
        assert y == xs[j + 1];
      }
      LexSortedAppend(if Feasible(t, xs[0]) then [xs[0]] else [], Feasibles(t, rest));
    }
  }

  /** An infeasible prefix has no feasible completion: pruning it loses nothing. */
  lemma PrunedBranchEmpty(t: Tables, q: Assignment)
    requires t.WellFormed() && |q| <= |t.involvements| && !Feasible(t, q)
    ensures Feasibles(t, Extend(t, q)) == []
  {
    ExtendMembers(t, q);
    FeasiblesMembers(t, Extend(t, q));
    var r := Feasibles(t, Extend(t, q));
    if r != [] {
      var x := r[0];
      assert x in r;
      FeasiblePrefix(t, x, |q|);
    }
  }

  lemma SchedulesOfAppend(t: Tables, xs: seq<Assignment>, ys: seq<Assignment>)
    ensures SchedulesOf(t, xs + ys) == SchedulesOf(t, xs) + SchedulesOf(t, ys)
  {
    var l, r := SchedulesOf(t, xs + ys), SchedulesOf(t, xs) + SchedulesOf(t, ys);
    forall i | 0 <= i < |l| ensures l[i] == r[i] {
      if i < |xs| { assert (xs + ys)[i] == xs[i]; } else { assert (xs + ys)[i] == ys[i - |xs|]; }
    }
  }

  // ---------------------------------------------------------------------
  // The solution set.

  /** Trying one more hour for the next course adds the schedules of the
      feasible completions that place it there, after those found so far. */
  lemma ExtendBelowStep(t: Tables, p: Assignment, h: Hour)
    requires t.WellFormed() && |p| < |t.involvements| && h < |t.hourNames|
    ensures SchedulesOf(t, Feasibles(t, ExtendBelow(t, p, h + 1))) ==
              SchedulesOf(t, Feasibles(t, ExtendBelow(t, p, h))) + SchedulesOf(t, Feasibles(t, Extend(t, p + [h])))
  {
    FeasiblesAppend(t, ExtendBelow(t, p, h), Extend(t, p + [h]));
    SchedulesOfAppend(t, Feasibles(t, ExtendBelow(t, p, h)), Feasibles(t, Extend(t, p + [h])));
  }

  /** A complete feasible placement is its own only feasible completion. */
  lemma CompleteStep(t: Tables, q: Assignment)
    requires t.WellFormed() && Complete(t, q) && Feasible(t, q)
    ensures SchedulesOf(t, Feasibles(t, Extend(t, q))) == [ScheduleOf(t, q)]
  {
    assert Extend(t, q) == [q];
    assert Feasibles(t, [q]) == [q];
  }

  /** The reference lists exactly the complete feasible placements. */
  lemma AllValidAssignmentsExact(t: Tables, x: Assignment)
    requires t.WellFormed()
    ensures x in AllValidAssignments(t) <==> Complete(t, x) && Feasible(t, x)
  {
    ExtendMembers(t, []);
    FeasiblesMembers(t, Extend(t, []));
    if Complete(t, x) {
      assert Extends(t, [], x);
      ExtendComplete(t, [], x);
    }
  }

  /** ... in strictly increasing lexicographic order, so each of them once. */
  lemma AllValidAssignmentsSorted(t: Tables)
    requires t.WellFormed()
    ensures LexSorted(AllValidAssignments(t))
  {
    ExtendSorted(t, []);
    FeasiblesSorted(t, Extend(t, []));
  }

  /** Soundness: every schedule of the solution set is valid. */
  lemma SolutionSetSound(t: Tables, i: nat)
    requires t.WellFormed() && i < |SchedulesOf(t, AllValidAssignments(t))|
    ensures ValidSchedule(t, SchedulesOf(t, AllValidAssignments(t))[i])
  {
    var x := AllValidAssignments(t)[i];
    AllValidAssignmentsExact(t, x);
    ScheduleOfValid(t, x);
  }

  /** Completeness: every valid schedule is in the solution set. */
  lemma SolutionSetComplete(t: Tables, s: Schedule)
    requires t.WellFormed() && ValidSchedule(t, s)
    ensures s in SchedulesOf(t, AllValidAssignments(t))
  {
    var a := AssignmentOf(t, s);
    ValidScheduleIsScheduleOf(t, s);
    AllValidAssignmentsExact(t, a);
    var xs := AllValidAssignments(t);
    var i :| 0 <= i < |xs| && xs[i] == a;
    assert SchedulesOf(t, xs)[i] == s;
  }

  lemma LexLessDistinct(a: Assignment, b: Assignment)
    requires LexLess(a, b)
    ensures a != b
  {
  }

  /** No schedule is found twice. */
  lemma SolutionSetDistinct(t: Tables, i: nat, j: nat)
    requires t.WellFormed() && i < j < |SchedulesOf(t, AllValidAssignments(t))|
    ensures SchedulesOf(t, AllValidAssignments(t))[i] != SchedulesOf(t, AllValidAssignments(t))[j]
  {
    var xs := AllValidAssignments(t);
    AllValidAssignmentsSorted(t);
    LexLessDistinct(xs[i], xs[j]);
    AllValidAssignmentsExact(t, xs[i]);
    AllValidAssignmentsExact(t, xs[j]);
    if ScheduleOf(t, xs[i]) == ScheduleOf(t, xs[j]) {
      ScheduleOfInjective(t, xs[i], xs[j]);
    }
  }
}
