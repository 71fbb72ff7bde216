/**
 * The scheduler itself: a depth-first search that places the courses one by
 * one, in course order, at every hour where all their participants are still
 * free, recording each complete placement; then the scoring of every
 * recorded schedule and the selection of the best ones.
 */
module Engine {
  import opened Wrappers
  import opened Domain
  import opened Placement
  import opened Enumeration
  import opened Scoring
  import opened Ranking
  import opened SeqFacts

  /** The largest value of the source's int loop counters. */
  const IntMax: int := 0x7fff_ffff

  /** Some participant of a course is no longer free at the hour. */
  method FindConflict(avail: Matrix, participants: seq<Person>, hour: Hour) returns (conflict: bool)
    requires forall i :: 0 <= i < |participants| ==>
               participants[i] < |avail| && hour < |avail[participants[i]]|
    ensures conflict <==> exists i :: 0 <= i < |participants| && !avail[participants[i]][hour]
  {
    conflict := false;
    var i := 0;
    while i < |participants|
      invariant 0 <= i <= |participants|
      invariant forall j :: 0 <= j < i ==> avail[participants[j]][hour]
    {
      if !avail[participants[i]][hour] {
        conflict := true;
        break;
      }
      i := i + 1;
    }
  }

  /** The copy of the availability matrix in which the participants of a
      course are no longer free at the hour it is placed at; every other
      cell is unchanged. */
  method MarkUnavailable(avail: Matrix, participants: seq<Person>, hour: Hour) returns (marked: Matrix)
    requires forall i :: 0 <= i < |participants| ==>
               participants[i] < |avail| && hour < |avail[participants[i]]|
    ensures |marked| == |avail|
    ensures forall p :: 0 <= p < |avail| ==> |marked[p]| == |avail[p]|
    ensures forall p, h :: 0 <= p < |avail| && 0 <= h < |avail[p]| ==>
              marked[p][h] == (avail[p][h] && !(h == hour && p in participants))
  {
    marked := avail;
    for i := 0 to |participants|
      invariant |marked| == |avail|
      invariant forall p :: 0 <= p < |avail| ==> |marked[p]| == |avail[p]|
      invariant forall p, h :: 0 <= p < |avail| && 0 <= h < |avail[p]| ==>
                  marked[p][h] == (avail[p][h] && !(h == hour && p in participants[..i]))
    {
      var person := participants[i];
      marked := marked[person := marked[person][hour := false]];
      assert participants[..i + 1] == participants[..i] + [person];
    }
    assert participants[..|participants|] == participants;
  }

  /** The value std::min_element finds in a non-empty list: its smallest element. */
  method MinOf(xs: seq<int>) returns (m: int)
    requires |xs| > 0
    ensures m == MinElement(xs)
  {
    m := xs[0];
    for i := 1 to |xs|
      invariant m in xs[..i] && forall j :: 0 <= j < i ==> m <= xs[j]
    {
      if xs[i] < m {
        m := xs[i];
      }
      assert xs[..i + 1] == xs[..i] + [xs[i]];
    }
    assert xs[..|xs|] == xs;
    var lo := MinElement(xs);
    assert lo <= m;
  }

  /** The value std::max_element finds in a non-empty list: its largest element. */
  method MaxOf(xs: seq<int>) returns (m: int)
    requires |xs| > 0
    ensures m == MaxElement(xs)
  {
    m := xs[0];
    for i := 1 to |xs|
      invariant m in xs[..i] && forall j :: 0 <= j < i ==> xs[j] <= m
    {
      if m < xs[i] {
        m := xs[i];
      }
      assert xs[..i + 1] == xs[..i] + [xs[i]];
    }
    assert xs[..|xs|] == xs;
    var hi := MaxElement(xs);
    assert m <= hi;
  }

  /** One teacher's term of the score, end - start - times.size() + 1,
      evaluated in size_t arithmetic. */
  method TeacherTerm(times: seq<Hour>) returns (term: nat)
    requires |times| > 0
    ensures term == PenaltyTerm(times)
  {
    var start := MinOf(times);
    var end := MaxOf(times);
    var span := (end - start) % SizeModulus;
    var rest := (span - |times|) % SizeModulus;
    term := (rest + 1) % SizeModulus;
  }

  /** The minimum of the scores, and the positions holding it in order;
      no minimum for no scores. */
  method SelectBest(scores: seq<int>) returns (best: Option<int>, winners: seq<nat>)
    ensures Ranks(scores, best, winners)
  {
    if |scores| == 0 {
      return None, [];
    }
    var bestScore := MinOf(scores);
    winners := [];
    for i := 0 to |scores|
      invariant winners == Positions(scores, bestScore, i)
    {
      if scores[i] == bestScore {
        winners := winners + [i];
      }
    }
    PositionsSpec(scores, bestScore, |scores|);
    best := Some(bestScore);
    assert forall j :: 0 <= j < |scores| ==> scores[j] in scores;
  }

  /** An input the search finds nothing for: one course whose only
      participant is never free. Every precondition of Run holds, so the
      ranker is handed no schedule at all; the minimum as the source takes
      it (Ranking.MinScoreAsWritten) is undefined there, while SelectBest
      answers None. */
  lemma NoScheduleForUnavailableTeacher()
    ensures var t := Tables(["Ann"], ["Math"], ["Mon"], [[false]], [[0]]);
      && t.WellFormed() && t.HasTeachers() && |t.involvements| > 0
      && |AllValidAssignments(t)| == 0
  {
    var t := Tables(["Ann"], ["Math"], ["Mon"], [[false]], [[0]]);
    var p: Assignment := [];
    var a: Assignment := [0];
    assert Extend(t, p) == [a] by {
      assert p + [0] == a;
      assert Extend(t, a) == [a];
      assert ExtendBelow(t, p, 1) == ExtendBelow(t, p, 0) + Extend(t, p + [0]);
    }
    assert t.WellFormed() && !Feasible(t, a) by {
      assert 0 in t.involvements[0] && !t.availability[0][a[0]];
      assert InRange(t, a) && !PlacementOk(t, a, 0);
    }
    assert Feasibles(t, [a]) == Feasibles(t, [a][1..]);
  }

  /** The search stands at the placement `prefix` of the first courses, with
      a course still to place: `schedule` and `avail` are the hour table
      and the availability matrix that placement leaves. */
  ghost predicate SearchState(t: Tables, prefix: Assignment, schedule: Schedule, avail: Matrix) {
    && t.WellFormed() && |prefix| < |t.involvements|
    && Feasible(t, prefix)
    && schedule == ScheduleOf(t, prefix)
    && avail == AvailAfter(t, prefix)
  }

  class Scheduler {
    const personNames: seq<string>
    const courseNames: seq<string>
    const hourNames: seq<string>
    const availability: Matrix
    const courseInvolvements: seq<seq<Person>>
    /** The complete schedules found so far, in the order they were found. */
    var validSchedules: seq<Schedule>

    /** The read-only tables the scheduler was built from. */
    function Inputs(): Tables {
      Tables(personNames, courseNames, hourNames, availability, courseInvolvements)
    }

    /** The tables are well formed and every recorded schedule is valid. */
    ghost predicate Valid()
      reads this
    {
      Inputs().WellFormed() && forall i :: 0 <= i < |validSchedules| ==> ValidSchedule(Inputs(), validSchedules[i])
    }

    /** A scheduler over tables already read from the two input files. */
    constructor (t: Tables)
      requires t.WellFormed()
      ensures Inputs() == t && validSchedules == []
      ensures Valid()
    {
      personNames := t.personNames;
      courseNames := t.courseNames;
      hourNames := t.hourNames;
      availability := t.availability;
      courseInvolvements := t.involvements;
      validSchedules := [];
    }

    /** Tries course `depth` at every hour, in increasing order, continuing
        with the next course after each hour that fits. `schedule` and
        `avail` are the hour table and the availability matrix left by the
        placement `prefix` of the earlier courses. The schedules it records
        are exactly the feasible completions of `prefix`, in lexicographic
        order. */
    method Explore(schedule: Schedule, avail: Matrix, depth: nat, ghost prefix: Assignment)
      requires depth == |prefix| && SearchState(Inputs(), prefix, schedule, avail)
      modifies this
      ensures validSchedules ==
                old(validSchedules) + SchedulesOf(Inputs(), Feasibles(Inputs(), Extend(Inputs(), prefix)))
      decreases |courseInvolvements| - depth, 1
    {
      ghost var t := Inputs();
      ghost var start := validSchedules;
      for hour := 0 to |hourNames|
        invariant validSchedules == start + SchedulesOf(t, Feasibles(t, ExtendBelow(t, prefix, hour)))
      {
        ExtendBelowStep(t, prefix, hour);
        TryHour(schedule, avail, depth, prefix, hour);
        AppendAssociative(start, SchedulesOf(t, Feasibles(t, ExtendBelow(t, prefix, hour))),
                          SchedulesOf(t, Feasibles(t, Extend(t, prefix + [hour]))));
      }
    }

    /** One round of the search loop: course `depth` at one hour. If one of
        its participants is no longer free then, the branch is pruned;
        otherwise the course is placed and its participants are marked busy,
        and the schedule is recorded when it is the last course, or the
        search goes on with the next course. The schedules it records are
        the feasible completions of `prefix` that place the course at that
        hour. */
    method TryHour(schedule: Schedule, avail: Matrix, depth: nat, ghost prefix: Assignment, hour: Hour)
      requires depth == |prefix| && SearchState(Inputs(), prefix, schedule, avail)
      requires hour < |hourNames|
      modifies this
      ensures validSchedules ==
                old(validSchedules) + SchedulesOf(Inputs(), Feasibles(Inputs(), Extend(Inputs(), prefix + [hour])))
      decreases |courseInvolvements| - depth, 0
    {
      var t := Inputs();
      var participants := courseInvolvements[depth];
      ghost var q := prefix + [hour];
      FitsIffFree(t, prefix, hour);
      var conflict := FindConflict(avail, participants, hour);
      if conflict {
        PrunedBranchEmpty(t, q);
        return;
      }
      var newSchedule := schedule[hour := schedule[hour] + [depth]];
      var newAvail := MarkUnavailable(avail, participants, hour);
      ScheduleOfAppend(t, prefix, hour);
      MarkedIsAvailAfter(t, prefix, hour, newAvail);
      if depth + 1 == |t.courseNames| {
        CompleteStep(t, q);
        validSchedules := validSchedules + [newSchedule];
      } else {
        Explore(newSchedule, newAvail, depth + 1, q);
      }
    }

    /** The first half of the scoring: for each course of the schedule, in
        hour order, append the hour to its teacher's list, creating the list
        on first use. */
    method CollectTeacherTimes(schedule: Schedule) returns (teacherTimes: map<Person, seq<Hour>>)
      requires Scorable(Inputs(), schedule)
      ensures forall p :: Lookup(teacherTimes, p) == TeacherHours(Inputs(), schedule, p, |schedule|)
      ensures forall p :: p in teacherTimes ==> |teacherTimes[p]| > 0
    {
      ghost var t := Inputs();
      teacherTimes := map[];
      for hour := 0 to |schedule|
        invariant teacherTimes == TeacherTimes(t, schedule, hour)
        invariant forall p :: p in teacherTimes ==> |teacherTimes[p]| > 0
      {
        teacherTimes := RecordHour(teacherTimes, schedule[hour], hour);
      }
      forall p ensures Lookup(teacherTimes, p) == TeacherHours(t, schedule, p, |schedule|) {
        TeacherTimesLookup(t, schedule, |schedule|, p);
      }
    }

    /** The inner loop of the collection: append the hour to the list of
        the teacher of each of its courses, creating the list on first use. */
    method RecordHour(before: map<Person, seq<Hour>>, courses: seq<CourseId>, hour: Hour)
      returns (teacherTimes: map<Person, seq<Hour>>)
      requires Inputs().WellFormed() && Inputs().HasTeachers()
      requires forall i :: 0 <= i < |courses| ==> courses[i] < |courseInvolvements|
      requires forall p :: p in before ==> |before[p]| > 0
      ensures teacherTimes == AddHours(Inputs(), before, courses, hour, |courses|)
      ensures forall p :: p in teacherTimes ==> |teacherTimes[p]| > 0
    {
      ghost var t := Inputs();
      teacherTimes := before;
      for j := 0 to |courses|
        invariant teacherTimes == AddHours(t, before, courses, hour, j)
        invariant forall p :: p in teacherTimes ==> |teacherTimes[p]| > 0
      {
        var teacher := courseInvolvements[courses[j]][0];
        var times := if teacher in teacherTimes then teacherTimes[teacher] else [];
        teacherTimes := teacherTimes[teacher := times + [hour]];
      }
    }

    /** The score of a schedule, computed as the source does: collect
        each teacher's hours in a map, then add up last - first - count + 1
        over the teachers in the map, in size_t arithmetic. */
    method CalcScore(schedule: Schedule) returns (score: int)
      requires Scorable(Inputs(), schedule)
      ensures score == ComputedScore(Inputs(), schedule)
    {
      var t := Inputs();
      var teacherTimes := CollectTeacherTimes(schedule);
      ghost var terms := Terms(t, schedule);
      score := 0;
      for teacher := 0 to |t.personNames|
        invariant score == SumUpTo(terms, teacher)
      {
        ghost var xs := TeacherHours(t, schedule, teacher, |schedule|);
        assert terms[teacher] == if |xs| == 0 then 0 else PenaltyTerm(xs);
        if teacher in teacherTimes {
          var times := teacherTimes[teacher];
          assert times == xs;
          var term := TeacherTerm(times);
          score := score + term;
        } else {
          assert |xs| == 0;
        }
      }
    }

    /** The first loop of the ranking: the score of every recorded
        schedule, in order. */
    method ScoreAll() returns (scores: seq<int>)
      requires Valid() && Inputs().HasTeachers() && |hourNames| <= IntMax
      ensures AllScorable(Inputs(), validSchedules)
      ensures scores == Scores(Inputs(), validSchedules, |validSchedules|)
    {
      var t, vs := Inputs(), validSchedules;
      assert forall i :: 0 <= i < |vs| ==> ValidSchedule(t, vs[i]);
      scores := [];
      for i := 0 to |vs|
        invariant scores == Scores(t, vs, i)
      {
        var score := CalcScore(vs[i]);
        ComputedScoreExact(t, vs[i]);
        scores := scores + [score];
      }
    }

    /** Scores every recorded schedule, takes the minimum and selects, in
        order, the schedules that attain it. With no schedule there is no
        minimum and no winner. */
    method FindBestSchedules() returns (best: Option<int>, winners: seq<nat>)
      requires Valid() && Inputs().HasTeachers() && |hourNames| <= IntMax
      ensures AllScorable(Inputs(), validSchedules)
      ensures Ranked(Inputs(), validSchedules, best, winners)
    {
      var scores := ScoreAll();
      best, winners := SelectBest(scores);
      RanksScores(Inputs(), validSchedules, best, winners);
    }

    /** Starts the search from the empty schedule and the original
        availability, then ranks everything found. */
    method Run() returns (best: Option<int>, winners: seq<nat>)
      requires Valid() && Inputs().HasTeachers()
      requires |courseInvolvements| > 0 && |hourNames| <= IntMax
      modifies this
      ensures Valid()
      ensures validSchedules == old(validSchedules) + SchedulesOf(Inputs(), AllValidAssignments(Inputs()))
      ensures Ranked(Inputs(), validSchedules, best, winners)
    {
      ghost var t := Inputs();
      var schedule: Schedule := seq(|hourNames|, _ => []);
      assert schedule == ScheduleOf(t, []);
      AvailAfterEmpty(t);
      ghost var found := validSchedules;
      Explore(schedule, availability, 0, []);
      forall i | 0 <= i < |validSchedules| ensures ValidSchedule(t, validSchedules[i]) {
        if i >= |found| {
          SolutionSetSound(t, i - |found|);
        }
      }
      best, winners := FindBestSchedules();
    }
  }
}
