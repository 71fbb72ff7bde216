/**
 * Placements of courses at hours, the schedules they induce, and what it
 * means for a schedule to be valid. An assignment lists, for courses
 * 0, 1, ... in order, the hour each one is held at; this is the order in
 * which the search fixes them.
 */
module Placement {
  import opened Domain

  /** Course k is held at hour a[k]. */
  type Assignment = seq<Hour>
  /** Hour -> the courses held at that hour. */
  type Schedule = seq<seq<CourseId>>
  /** Person, hour -> available? */
  type Matrix = seq<seq<bool>>

  predicate StrictlyIncreasing(xs: seq<int>) {
    forall i, j :: 0 <= i < j < |xs| ==> xs[i] < xs[j]
  }

  predicate Disjoint(xs: seq<Person>, ys: seq<Person>) {
    forall p :: p in xs ==> p !in ys
  }

  /** The first |a| courses are placed, each at an existing hour. */
  predicate InRange(t: Tables, a: Assignment) {
    |a| <= |t.involvements| && forall k :: 0 <= k < |a| ==> a[k] < |t.hourNames|
  }

  /** Every course is placed. */
  predicate Complete(t: Tables, a: Assignment) {
    InRange(t, a) && |a| == |t.involvements|
  }

  /** Course k may be held at hour a[k]: each of its participants is free at
      that hour in the base matrix, and no earlier course held at the same
      hour shares a participant with it. */
  predicate PlacementOk(t: Tables, a: Assignment, k: nat)
    requires t.WellFormed() && InRange(t, a) && k < |a|
  {
    && (forall p :: p in t.involvements[k] ==> t.availability[p][a[k]])
    && (forall j :: 0 <= j < k && a[j] == a[k] ==> Disjoint(t.involvements[j], t.involvements[k]))
  }

  /** Every placed course fits where it is placed. */
  predicate Feasible(t: Tables, a: Assignment)
    requires t.WellFormed()
  {
    InRange(t, a) && forall k :: 0 <= k < |a| ==> PlacementOk(t, a, k)
  }

  /** Person p attends one of the placed courses at hour h. */
  predicate Booked(t: Tables, a: Assignment, p: Person, h: Hour)
    requires InRange(t, a)
  {
    exists j :: 0 <= j < |a| && a[j] == h && p in t.involvements[j]
  }

  /** The availability matrix once the courses of a are placed: a person is
      free at an hour when the base matrix says so and none of the placed
      courses held at that hour involves them. */
  function AvailAfter(t: Tables, a: Assignment): Matrix
    requires t.WellFormed() && InRange(t, a)
  {
    seq(|t.personNames|, p requires 0 <= p < |t.personNames| =>
      seq(|t.hourNames|, h requires 0 <= h < |t.hourNames| =>
        t.availability[p][h] && !Booked(t, a, p, h)))
  }

  /** The courses placed at hour h, in increasing order. */
  function CoursesAt(a: Assignment, h: Hour): seq<CourseId>
  {
    if a == [] then []
    else CoursesAt(a[..|a| - 1], h) + (if a[|a| - 1] == h then [|a| - 1] else [])
  }

  /** The hour -> courses table the source builds for a placement. */
  function ScheduleOf(t: Tables, a: Assignment): Schedule
  {
    seq(|t.hourNames|, h requires 0 <= h < |t.hourNames| => CoursesAt(a, h))
  }

  /** Course c is held at some hour of s. */
  predicate Scheduled(s: Schedule, c: CourseId) {
    exists h :: 0 <= h < |s| && c in s[h]
  }

  predicate CourseFree(t: Tables, c: CourseId, h: Hour)
    requires t.WellFormed() && c < |t.involvements| && h < |t.hourNames|
  {
    forall p :: p in t.involvements[c] ==> t.availability[p][h]
  }

  /** A complete valid schedule: one course list per hour, each strictly
      increasing; every course held at exactly one hour; every participant
      free, in the base matrix, at the hour of each of their courses; and the
      courses held at one hour have pairwise disjoint participant lists. */
  predicate ValidSchedule(t: Tables, s: Schedule)
    requires t.WellFormed()
  {
    && |s| == |t.hourNames|
    && (forall h :: 0 <= h < |s| ==> StrictlyIncreasing(s[h]))
    && (forall h, i :: 0 <= h < |s| && 0 <= i < |s[h]| ==> s[h][i] < |t.involvements|)
    && (forall c :: 0 <= c < |t.involvements| ==> Scheduled(s, c))
    && (forall h1, i1, h2, i2 ::
          0 <= h1 < |s| && 0 <= i1 < |s[h1]| && 0 <= h2 < |s| && 0 <= i2 < |s[h2]| && h1 != h2 ==>
            s[h1][i1] != s[h2][i2])
    && (forall h, i :: 0 <= h < |s| && 0 <= i < |s[h]| ==> CourseFree(t, s[h][i], h))
    && (forall h, i, j :: 0 <= h < |s| && 0 <= i < j < |s[h]| ==>
          Disjoint(t.involvements[s[h][i]], t.involvements[s[h][j]]))
  }

  // ---------------------------------------------------------------------
  // Feasibility is decided course by course.

  /** Whether course k fits depends only on the placements up to k. */
  lemma PlacementOkPrefix(t: Tables, a: Assignment, m: nat, k: nat)
    requires t.WellFormed() && InRange(t, a) && k < m <= |a|
    ensures InRange(t, a[..m]) && (PlacementOk(t, a[..m], k) <==> PlacementOk(t, a, k))
  {
    assert forall j :: 0 <= j <= k ==> a[..m][j] == a[j];
  }

  /** Every prefix of a feasible placement is feasible. */
  lemma FeasiblePrefix(t: Tables, a: Assignment, m: nat)
    requires t.WellFormed() && Feasible(t, a) && m <= |a|
    ensures Feasible(t, a[..m])
  {
    forall k | 0 <= k < m ensures PlacementOk(t, a[..m], k) {
      PlacementOkPrefix(t, a, m, k);
    }
  }

  /** Placing one more course keeps feasibility exactly when that course fits. */
  lemma FeasibleAppend(t: Tables, a: Assignment, h: Hour)
    requires t.WellFormed() && InRange(t, a + [h])
    ensures InRange(t, a)
    ensures Feasible(t, a + [h]) <==> Feasible(t, a) && PlacementOk(t, a + [h], |a|)
  {
    var b := a + [h];
    assert b[..|a|] == a;
    forall k | 0 <= k < |a| ensures PlacementOk(t, a, k) <==> PlacementOk(t, b, k) {
      PlacementOkPrefix(t, b, |a|, k);
    }
  }

  /** The conflict check of the search: with a feasible prefix a, course |a|
      fits at hour h exactly when all of its participants are free at h in
      the matrix that placing a leaves behind. */
  lemma FitsIffFree(t: Tables, a: Assignment, h: Hour)
    requires t.WellFormed() && Feasible(t, a) && |a| < |t.involvements| && h < |t.hourNames|
    ensures InRange(t, a + [h])
    ensures Feasible(t, a + [h]) <==>
              forall p :: p in t.involvements[|a|] ==> AvailAfter(t, a)[p][h]
  {
    var b, k := a + [h], |a|;
    assert InRange(t, b);
    FeasibleAppend(t, a, h);
    var course := t.involvements[k];
    if Feasible(t, b) {
      assert PlacementOk(t, b, k);
      forall p | p in course ensures AvailAfter(t, a)[p][h] {
        assert t.availability[p][b[k]];
        forall j | 0 <= j < |a| && a[j] == h ensures p !in t.involvements[j] {
          assert b[j] == b[k];
          assert Disjoint(t.involvements[j], course);
        }
      }
    } else {
      assert !PlacementOk(t, b, k);
      if forall p :: p in course ==> t.availability[p][h] {
        var j :| 0 <= j < k && b[j] == b[k] && !Disjoint(t.involvements[j], course);
        var p :| p in t.involvements[j] && p in course;
        assert Booked(t, a, p, h) by { assert a[j] == h; }
        assert !AvailAfter(t, a)[p][h];
      } else {
        var p :| p in course && !t.availability[p][h];
        assert !AvailAfter(t, a)[p][h];
      }
    }
  }

  // ---------------------------------------------------------------------
  // The availability matrix along a search path.

  /** Two matrices of the same shape and the same cells are equal. */
  lemma MatrixExt(m1: Matrix, m2: Matrix)
    requires |m1| == |m2|
    requires forall p :: 0 <= p < |m1| ==> |m1[p]| == |m2[p]|
    requires forall p, h :: 0 <= p < |m1| && 0 <= h < |m1[p]| ==> m1[p][h] == m2[p][h]
    ensures m1 == m2
  {
    forall p | 0 <= p < |m1| ensures m1[p] == m2[p] {
      assert forall h :: 0 <= h < |m1[p]| ==> m1[p][h] == m2[p][h];
    }
  }

  /** Before anything is placed, the matrix is the base matrix. */
  lemma AvailAfterEmpty(t: Tables)
    requires t.WellFormed()
    ensures AvailAfter(t, []) == t.availability
  {
    MatrixExt(AvailAfter(t, []), t.availability);
  }

  /** Placing course |a| at hour h turns off exactly the cells (p, h) of its
      participants p and leaves every other cell as it was. */
  lemma AvailAfterAppend(t: Tables, a: Assignment, h: Hour)
    requires t.WellFormed() && InRange(t, a + [h])
    ensures InRange(t, a)
    ensures |AvailAfter(t, a + [h])| == |AvailAfter(t, a)| == |t.personNames|
    ensures forall p :: 0 <= p < |t.personNames| ==>
              |AvailAfter(t, a + [h])[p]| == |AvailAfter(t, a)[p]| == |t.hourNames|
    ensures forall p, g :: 0 <= p < |t.personNames| && 0 <= g < |t.hourNames| ==>
              AvailAfter(t, a + [h])[p][g] ==
                (AvailAfter(t, a)[p][g] && !(g == h && p in t.involvements[|a|]))
  {
    var b := a + [h];
    assert InRange(t, a) by { assert forall k :: 0 <= k < |a| ==> a[k] == b[k]; }
    forall p, g | 0 <= p < |t.personNames| && 0 <= g < |t.hourNames|
      ensures Booked(t, b, p, g) <==> Booked(t, a, p, g) || (g == h && p in t.involvements[|a|])
    {
      if Booked(t, b, p, g) {
        var j :| 0 <= j < |b| && b[j] == g && p in t.involvements[j];
        if j < |a| { assert a[j] == g; }
      }
      if Booked(t, a, p, g) {
        var j :| 0 <= j < |a| && a[j] == g && p in t.involvements[j];
        assert b[j] == g;
      }
      if g == h && p in t.involvements[|a|] {
        assert b[|a|] == g;
      }
    }
  }

  /** A matrix that agrees cell by cell with the matrix after a, except
      that the participants of course |a| are no longer free at h, is the
      matrix after a + [h]. */
  lemma MarkedIsAvailAfter(t: Tables, a: Assignment, h: Hour, m: Matrix)
    requires t.WellFormed() && InRange(t, a) && |a| < |t.involvements| && h < |t.hourNames|
    requires |m| == |t.personNames|
    requires forall p :: 0 <= p < |t.personNames| ==> |m[p]| == |t.hourNames|
    requires forall p, g :: 0 <= p < |t.personNames| && 0 <= g < |t.hourNames| ==>
               m[p][g] == (AvailAfter(t, a)[p][g] && !(g == h && p in t.involvements[|a|]))
    ensures m == AvailAfter(t, a + [h])
  {
    assert InRange(t, a + [h]) by { assert forall k :: 0 <= k < |a| ==> (a + [h])[k] == a[k]; }
    AvailAfterAppend(t, a, h);
    MatrixExt(m, AvailAfter(t, a + [h]));
  }

  // ---------------------------------------------------------------------
  // The schedule induced by a placement.

  /** CoursesAt(a, h) is strictly increasing and holds exactly the courses
      placed at h. */
  lemma {:induction false} CoursesAtSpec(a: Assignment, h: Hour)
    ensures StrictlyIncreasing(CoursesAt(a, h))
    ensures forall i :: 0 <= i < |CoursesAt(a, h)| ==>
              CoursesAt(a, h)[i] < |a| && a[CoursesAt(a, h)[i]] == h
    ensures forall c :: 0 <= c < |a| && a[c] == h ==> c in CoursesAt(a, h)
  {
    if a != [] {
      var init := a[..|a| - 1];
      CoursesAtSpec(init, h);
      assert forall c :: 0 <= c < |init| ==> init[c] == a[c];
    }
  }

  /** Membership in the course list of an hour, both directions. */
  lemma CoursesAtMember(a: Assignment, h: Hour, c: CourseId)
    ensures c in CoursesAt(a, h) <==> c < |a| && a[c] == h
  {
    CoursesAtSpec(a, h);
  }

  /** Placing course |a| at hour h appends |a| to that hour's list and
      changes no other hour. */
  lemma ScheduleOfAppend(t: Tables, a: Assignment, h: Hour)
    requires h < |t.hourNames|
    ensures ScheduleOf(t, a + [h]) == ScheduleOf(t, a)[h := ScheduleOf(t, a)[h] + [|a|]]
  {
    assert (a + [h])[..|a|] == a;
    forall g | 0 <= g < |t.hourNames|
      ensures ScheduleOf(t, a + [h])[g] == ScheduleOf(t, a)[h := ScheduleOf(t, a)[h] + [|a|]][g]
    {
      assert CoursesAt(a + [h], g) == CoursesAt(a, g) + (if h == g then [|a|] else []);
    }
  }

  /** The schedule of a complete feasible placement is valid. */
  lemma ScheduleOfValid(t: Tables, a: Assignment)
    requires t.WellFormed() && Complete(t, a) && Feasible(t, a)
    ensures ValidSchedule(t, ScheduleOf(t, a))
  {
    var s := ScheduleOf(t, a);
    forall h | 0 <= h < |s| ensures StrictlyIncreasing(s[h]) {
      CoursesAtSpec(a, h);
    }
    forall h, i | 0 <= h < |s| && 0 <= i < |s[h]|
      ensures s[h][i] < |t.involvements| && a[s[h][i]] == h
    {
      CoursesAtSpec(a, h);
    }
    forall c | 0 <= c < |t.involvements| ensures Scheduled(s, c) {
      CoursesAtMember(a, a[c], c);
      assert c in s[a[c]];
    }
    forall h, i | 0 <= h < |s| && 0 <= i < |s[h]| ensures CourseFree(t, s[h][i], h) {
      assert PlacementOk(t, a, s[h][i]);
    }
    forall h, i, j | 0 <= h < |s| && 0 <= i < j < |s[h]|
      ensures Disjoint(t.involvements[s[h][i]], t.involvements[s[h][j]])
    {
      assert s[h][i] < s[h][j];
      assert PlacementOk(t, a, s[h][j]);
    }
  }

  /** Different complete placements give different schedules. */
  lemma ScheduleOfInjective(t: Tables, a: Assignment, b: Assignment)
    requires Complete(t, a) && Complete(t, b) && ScheduleOf(t, a) == ScheduleOf(t, b)
    ensures a == b
  {
    forall c | 0 <= c < |a| ensures a[c] == b[c] {
      CoursesAtMember(a, a[c], c);
      assert c in ScheduleOf(t, a)[a[c]];
      CoursesAtMember(b, a[c], c);
    }
  }

  /** Two strictly increasing sequences with the same elements are equal. */
  lemma {:induction false} StrictlyIncreasingUnique(xs: seq<int>, ys: seq<int>)
    requires StrictlyIncreasing(xs) && StrictlyIncreasing(ys)
    requires forall x :: x in xs <==> x in ys
    ensures xs == ys
  {
    if |ys| > 0 { var y := ys[0]; assert y in ys; }
    if |xs| > 0 { var x := xs[0]; assert x in xs; }
    if xs != [] && ys != [] {
      assert xs[0] in ys && ys[0] in xs;
      assert ys != [];
      assert xs[0] == ys[0];
      assert xs == [xs[0]] + xs[1..];
      assert ys == [ys[0]] + ys[1..];
      forall x ensures x in xs[1..] <==> x in ys[1..] {
        if x in xs[1..] {
          var i :| 1 <= i < |xs| && xs[i] == x;
          assert xs[0] < xs[i];
          assert x in ys && x != ys[0];
        }
        if x in ys[1..] {
          var i :| 1 <= i < |ys| && ys[i] == x;
          assert ys[0] < ys[i];
          assert x in xs && x != xs[0];
        }
      }
      StrictlyIncreasingUnique(xs[1..], ys[1..]);
    }
  }

  /** The hour a valid schedule holds course c at. */
  ghost function HourOf(t: Tables, s: Schedule, c: CourseId): (h: Hour)
    requires t.WellFormed() && ValidSchedule(t, s) && c < |t.involvements|
    ensures h < |s| && c in s[h]
  {
    assert Scheduled(s, c);
    var h :| 0 <= h < |s| && c in s[h]; h
  }

  /** The placement a valid schedule encodes. */
  ghost function AssignmentOf(t: Tables, s: Schedule): (a: Assignment)
    requires t.WellFormed() && ValidSchedule(t, s)
    ensures Complete(t, a)
    ensures forall c, h :: 0 <= c < |a| && 0 <= h < |s| ==> (c in s[h] <==> a[c] == h)
  {
    var a := seq(|t.involvements|, c requires 0 <= c < |t.involvements| => HourOf(t, s, c));
    assert forall c, h :: 0 <= c < |a| && 0 <= h < |s| && c in s[h] ==> a[c] == h by {
      forall c, h | 0 <= c < |a| && 0 <= h < |s| && c in s[h] ensures a[c] == h {
        var i :| 0 <= i < |s[h]| && s[h][i] == c;
        var j :| 0 <= j < |s[a[c]]| && s[a[c]][j] == c;
      }
    }
    a
  }

  /** A valid schedule is the schedule of the placement it encodes. */
  lemma AssignmentOfSchedule(t: Tables, s: Schedule)
    requires t.WellFormed() && ValidSchedule(t, s)
    ensures ScheduleOf(t, AssignmentOf(t, s)) == s
  {
    var a := AssignmentOf(t, s);
    forall h | 0 <= h < |s| ensures ScheduleOf(t, a)[h] == s[h] {
      CoursesAtSpec(a, h);
      forall c ensures c in CoursesAt(a, h) <==> c in s[h] {
        CoursesAtMember(a, h, c);
        if c in s[h] {
          var i :| 0 <= i < |s[h]| && s[h][i] == c;
        }
      }
      StrictlyIncreasingUnique(CoursesAt(a, h), s[h]);
    }
  }

  /** The placement a valid schedule encodes is feasible. */
  lemma AssignmentOfFeasible(t: Tables, s: Schedule)
    requires t.WellFormed() && ValidSchedule(t, s)
    ensures Feasible(t, AssignmentOf(t, s))
  {
    var a := AssignmentOf(t, s);
    forall k | 0 <= k < |a| ensures PlacementOk(t, a, k) {
      var h := a[k];
      var ik :| 0 <= ik < |s[h]| && s[h][ik] == k;
      assert CourseFree(t, s[h][ik], h);
      forall j | 0 <= j < k && a[j] == h
        ensures Disjoint(t.involvements[j], t.involvements[k])
      {
        var ij :| 0 <= ij < |s[h]| && s[h][ij] == j;
        assert StrictlyIncreasing(s[h]);
        assert ij < ik;
        assert Disjoint(t.involvements[s[h][ij]], t.involvements[s[h][ik]]);
      }
    }
  }

  /** Every valid schedule is the schedule of a complete feasible placement. */
  lemma ValidScheduleIsScheduleOf(t: Tables, s: Schedule)
    requires t.WellFormed() && ValidSchedule(t, s)
    ensures Complete(t, AssignmentOf(t, s)) && Feasible(t, AssignmentOf(t, s))
    ensures ScheduleOf(t, AssignmentOf(t, s)) == s
  {
    AssignmentOfSchedule(t, s);
    AssignmentOfFeasible(t, s);
  }
}
