# Course scheduler: search and ranking core

This project models the core of a small course scheduler. The scheduler
reads a persons-by-hours availability table and, for each course, a list of
participants whose first entry is the course's teacher. It then finds
every way to give each course one hour so that each participant is free at
that hour and no participant attends two courses in the same hour. Finally
it scores every such timetable by how many idle hours the teachers spend
between their first and last class, and reports the timetables with the
lowest score.

The model follows the structure of `Scheduler` in `scheduler.cpp`:

- `Domain`: the read-only tables the parser fills (`Tables`), the shape
  the model assumes for them (`WellFormed`), and the teacher of a course
  (its first participant).
- `Placement`: declarative meaning. A placement is a sequence giving each
  of the first courses its hour. It is feasible when every course fits at
  its hour. From it follow the hour table the search builds
  (`ScheduleOf`) and the availability matrix it leaves (`AvailAfter`).
  `ValidSchedule` characterises a complete valid timetable directly, as
  hour-indexed course lists.
- `Enumeration`: a brute-force reference. `Extend` lists every completion
  of a placement in lexicographic order, and `Feasibles` keeps the feasible
  ones. The lemmas show that this list is exactly the set of valid
  timetables, each once, in lexicographic order, and that pruning a branch
  at its first conflict loses nothing.
- `Scoring`: the teacher-to-hours map the score is computed from, the
  per-teacher penalty `max - min - count + 1`, and the score as a sum.
  The source computes the penalty in unsigned 64-bit arithmetic; that is
  modelled explicitly (`PenaltyTerm`) and proved equal to the
  mathematical penalty on valid timetables.
- `Ranking`: what "the best score and the timetables attaining it" means
  (`Ranked`, `Ranks`).
- `Engine`: the imperative code. The class `Scheduler` holds the tables as
  constants and the growing list `validSchedules`. Its methods are proved
  against the functions above:
  - `Explore` and `TryHour`: the recursive search, with one copy of the
    hour table and of the matrix per branch.
  - `CollectTeacherTimes` and `RecordHour`: build the teacher-to-hours map.
  - `CalcScore`: the score.
  - `FindBestSchedules` and `Run`: the ranker, and the driver that starts
    from the empty timetable.

The main results are these:

- `Run` appends exactly `SchedulesOf(AllValidAssignments)` to
  `validSchedules`. By `AllValidAssignmentsExact`, `SolutionSetSound` and
  `SolutionSetComplete`, that list holds every valid timetable and
  nothing else. By `AllValidAssignmentsSorted` it is in lexicographic
  order of the course hours, and by `SolutionSetDistinct` each timetable
  appears once.
- Every branch of the search sees the availability matrix of exactly its
  own placement (`SearchState`, `MarkedIsAvailAfter`). Placing a course
  changes only the cells of its participants at its hour
  (`AvailAfterAppend`).
- The score is a sum of per-teacher idle-hour counts
  (`PenaltyCountsIdleHours`, `ScoreIsIdleHours`). It is non-negative (`ScoreNonNegative`), and
  a teacher's penalty is zero exactly when their classes are back to back
  (`PenaltyZeroIffContiguous`).
- The ranker returns the minimum score and, in increasing order, exactly
  the positions of the timetables that attain it (`Ranked`, `RankedUnique`).
  When there is no timetable it returns no score.

## Model

| member | source | states |
|---|---|---|
| Engine.Scheduler.Explore | scheduler.cpp:128-175 | The search from a feasible placement of the first `depth` courses appends exactly the timetables of the feasible completions of that placement, in lexicographic order of their hours. |
| Engine.Scheduler.TryHour | scheduler.cpp:138-173 | Trying one hour for course `depth` appends the timetables of the feasible completions of the placement extended by that hour. A conflict appends nothing. The last course appends its one timetable; otherwise the method recurses with the copied and updated hour table and matrix. |
| Engine.FindConflict | scheduler.cpp:138-146 | There is a conflict exactly when some participant of the course is unavailable at the hour in the current matrix. |
| Engine.MarkUnavailable | scheduler.cpp:157-163 | The copied matrix equals the original, except that the course's participants become unavailable at that hour. Every other cell, and the shape, is unchanged. |
| Engine.Scheduler.Run | scheduler.cpp:109-126 | Starting from the empty timetable and the original matrix, the search adds exactly the list of all valid timetables, and the result is the ranking of that list. |
| Engine.Scheduler.CollectTeacherTimes | scheduler.cpp:199-208 | For every person, the map holds, in increasing hour order, the hours of the courses that person teaches, with one entry per course. A person who teaches nothing is absent, and every key holds a non-empty list. |
| Engine.Scheduler.RecordHour | scheduler.cpp:203-207 | Visiting the courses of one hour appends that hour to each course teacher's list, once per course, and leaves every key with a non-empty list. |
| Engine.Scheduler.CalcScore | scheduler.cpp:197-221 | The result is the sum over teachers of the source's size_t term `end - start - size + 1`. |
| Engine.TeacherTerm | scheduler.cpp:214-218 | One teacher's term, with the earliest and latest hour taken as the true minimum and maximum, and the subtraction of the list size wrapping modulo 2^64 as it does in size_t. |
| Engine.MinOf | scheduler.cpp:215 | The minimum-finding loop returns the smallest element of a non-empty list. |
| Engine.MaxOf | scheduler.cpp:216 | The maximum-finding loop returns the largest element of a non-empty list. |
| Engine.Scheduler.ScoreAll | scheduler.cpp:180-184 | The score list holds, position by position, the score of each recorded timetable. |
| Engine.SelectBest | scheduler.cpp:185-194 | The best value is a member of the score list and below or equal to every score. The winners are exactly the positions holding it, in increasing order. An empty list gives no best value and no winners. |
| Engine.Scheduler.FindBestSchedules | scheduler.cpp:177-195 | The recorded timetables are ranked: the lowest score, when there is a timetable, and exactly the positions, in order, of the timetables attaining it. |
| Engine.NoScheduleForUnavailableTeacher | scheduler.cpp:117-125 | One course whose only participant is never free meets every precondition of `run`, and yet there is no valid timetable, so the ranker receives an empty list. |
| Placement.FitsIffFree | scheduler.cpp:138-146 | Checking the course's participants against the current matrix decides exactly whether the extended placement is feasible: each participant free in the base matrix and not booked at that hour by an earlier course. |
| Placement.AvailAfterAppend | scheduler.cpp:157-163 | Placing one more course changes the matrix only at its participants' cells for its hour. Every other cell and the shape are unchanged. |
| Placement.MarkedIsAvailAfter | scheduler.cpp:157-163 | A matrix marked as the source marks it is the availability matrix of the extended placement. |
| Placement.ScheduleOfAppend | scheduler.cpp:156-158 | The new hour table is the old one with the course number appended to that hour's list. |
| Placement.ScheduleOfValid | scheduler.cpp:164-167 | The hour table of a complete feasible placement is a valid timetable. |
| Placement.ValidScheduleIsScheduleOf | scheduler.cpp:164-167 | Every valid timetable is the hour table of a complete feasible placement. |
| Placement.ScheduleOfInjective | scheduler.cpp:156-158 | Different complete placements give different hour tables. |
| Placement.AvailAfterEmpty | scheduler.cpp:115 | The empty placement leaves the original availability matrix. |
| Enumeration.PrunedBranchEmpty | scheduler.cpp:147-151 | No completion of an infeasible placement is feasible, so skipping a branch at its first conflict loses no timetable. |
| Enumeration.CompleteStep | scheduler.cpp:164-171 | A complete feasible placement has itself as its only feasible completion, and its timetable is the one recorded. |
| Enumeration.ExtendBelowStep | scheduler.cpp:136 | Trying hour `h` after hours `0..h-1` appends the completions that use `h` after those that use smaller hours. |
| Enumeration.AllValidAssignmentsExact | scheduler.cpp:128-175 | A placement is in the solution list exactly when it is complete and feasible. |
| Enumeration.AllValidAssignmentsSorted | scheduler.cpp:136 | The solution list is strictly increasing in lexicographic order of the course-0, course-1, ... hours. |
| Enumeration.SolutionSetSound | scheduler.cpp:164-167 | Every recorded timetable is valid. |
| Enumeration.SolutionSetComplete | scheduler.cpp:128-175 | Every valid timetable is recorded. |
| Enumeration.SolutionSetDistinct | scheduler.cpp:128-175 | No timetable is recorded twice. |
| Enumeration.FeasiblesMembers | scheduler.cpp:147-151 | Filtering keeps exactly the feasible members. |
| Scoring.TeacherTimesLookup | scheduler.cpp:199-208 | The map built hour by hour gives each person exactly their teaching hours. Looking up an absent key yields the empty list, as `operator[]` does. |
| Scoring.AddHoursLookup | scheduler.cpp:203-207 | Visiting the courses of one hour appends to each person's list that hour once for every course they teach there. |
| Scoring.TeacherHoursMember | scheduler.cpp:199-208 | An hour is in a person's list exactly when it is an hour of the timetable at which they teach some course. |
| Scoring.HoursInAtMostOne | scheduler.cpp:203-207 | In a valid timetable a person teaches at most one course per hour. |
| Scoring.TeacherHoursIncreasing | scheduler.cpp:199-208 | In a valid timetable each teacher's hour list is strictly increasing, so there are no repeated hours. |
| Scoring.PenaltyCountsIdleHours | scheduler.cpp:214-218 | For increasing hours, `max - min - count + 1` is the number of hours between the first and last class at which the teacher has no class. |
| Scoring.PenaltyZeroIffContiguous | scheduler.cpp:214-218 | A teacher's penalty is zero exactly when their classes are at consecutive hours. |
| Scoring.PenaltyNonNegative | scheduler.cpp:218 | For increasing hours the penalty is never negative. |
| Scoring.SpanCoversClasses | scheduler.cpp:218 | For increasing hours the span from first to last class is at least the number of classes. |
| Scoring.EndsOfIncreasing | scheduler.cpp:215-216 | For increasing hours the minimum is the first and the maximum is the last. |
| Scoring.PenaltyTermExact | scheduler.cpp:218 | When the span fits in 64 bits, the wrapped size_t term equals the mathematical penalty. |
| Scoring.WrapCancels | scheduler.cpp:218 | Subtracting the size and adding one, each modulo 2^64, gives `d - n + 1` when `0 < n <= d + 1`. |
| Scoring.TeacherPenalty | scheduler.cpp:212-219 | In a valid timetable each teacher's penalty is non-negative, and the source's term for that teacher equals it. |
| Scoring.ComputedScoreExact | scheduler.cpp:197-221 | In a valid timetable the score as the source computes it, with its size_t terms, equals the closed-form score: the sum over teachers of `max - min - count + 1`. |
| Scoring.ScoreIsIdleHours | scheduler.cpp:209-219 | The score of a valid timetable is the sum, over all persons, of the hours each spends waiting between their first and last class. |
| Scoring.ScoreNonNegative | scheduler.cpp:211-220 | The score of a valid timetable is non-negative. |
| Scoring.SumUpToNonNegative | scheduler.cpp:211-219 | A sum of non-negative terms is non-negative. |
| Scoring.MinElement | scheduler.cpp:215 | The minimum of a non-empty list is one of its elements and below or equal to every element. |
| Scoring.MaxElement | scheduler.cpp:216 | The maximum of a non-empty list is one of its elements and above or equal to every element. |
| Scoring.ValidScheduleScorable | scheduler.cpp:203-205 | Every course number in a valid timetable indexes a known course, so its teacher can be read. |
| Ranking.RanksScores | scheduler.cpp:185-194 | Ranking the list of scores ranks the timetables. |
| Ranking.RankedUnique | scheduler.cpp:185-194 | The best score and the list of winners are determined by the timetables alone. |
| Ranking.PositionsSpec | scheduler.cpp:187-194 | The positions holding a value are listed strictly increasing, and a position is listed exactly when it holds that value. |
| Ranking.MinScoreAsWritten | scheduler.cpp:185 | The dereferenced `min_element` is a score that some timetable attains and that is below or equal to every score. It is defined only when there is at least one timetable. |
| Ranking.RankedAgreesWithMinElement | scheduler.cpp:185-194 | With at least one timetable, the ranked best score is the source's minimum, and there is at least one winner. |

## Left out

- Parsing the two CSV files (scheduler.cpp:14-81) is not modelled. The
  tables are given directly. Two parts of `Domain.Tables.WellFormed` are
  what the parser guarantees: one participant list per course name
  (scheduler.cpp:60-64), and only known persons in those lists, because
  unknown names are dropped (scheduler.cpp:73-77).
- Domain.Tables.WellFormed also requires every row of the availability
  matrix to have exactly one cell per hour. This is an assumption about the
  input file, not something the parser guarantees: it keeps one cell per
  field of each row (scheduler.cpp:42-50) and never compares that with the
  number of hours. Rows of other lengths are excluded from the model. A
  shorter row makes `availability[person][hour]` at scheduler.cpp:141 read
  out of bounds. A longer row is well defined in the source, because only
  the first cells are read, but the model does not cover it.
- All console output is left out, including printing of the tables, the
  progress counters, the "no solutions" message, the winners and
  `print_schedule` (scheduler.cpp:84-107, 113-124, 168, 191-192 and
  223-236). Instead of printing them, `Run` returns the best score and the
  positions of the winners. `main` (238-243) is left out too.
- The scores are `double` in the source. The model computes with integers.
  Each term is a whole number below 2^64. On valid timetables every term
  is at most the number of hours, so the sum is exact in a double.
- Engine.Scheduler.CalcScore keys the teacher map by person index, not by
  person name. The parser resolves every name to its first matching row
  with `std::find` (scheduler.cpp:73), so distinct teacher indices carry
  distinct names and the two maps have the same entries. The model visits
  persons in index order, not in the map's name order; the order does not
  change the sum.
- Engine.Scheduler.Run requires at least one course. With zero courses the
  source reads `course_involvements[0]` as soon as there is an hour
  (scheduler.cpp:139), which is undefined. A trivial empty timetable with
  score 0 would be the sensible result for that input, but the source does
  not produce it, and the model follows the source.
- Engine.Scheduler.FindBestSchedules and Engine.Scheduler.CalcScore require
  every course to list at least one participant. The source reads
  `course_involvements[course][0]` (scheduler.cpp:205), which is undefined
  for an empty list. `Domain.Tables.Teacher` is total (person 0 for such a
  course), but it is never consulted for one.
- The `int` loop counters and `int` hour values are modelled as
  unbounded. `Run` and the ranker require the number of hours to fit in an
  `int` (`IntMax`), so the counters over hours (scheduler.cpp:136 and 201)
  and the hour values stored in the teacher map do not overflow.
- Engine.Scheduler.FindBestSchedules and Engine.Scheduler.Run do not model
  overflow of the counters over schedules: `int i` at scheduler.cpp:181
  and 187, and `int n` at 186. These count the found timetables, which can
  exceed the `int` range; for example, 2 hours and 31 courses that share
  no participant give 2^31 timetables. The model bounds neither the
  number of timetables nor these counters.
- Scoring.ComputedScoreExact needs fewer than 2^64 hours, which is always
  true for a table held in memory.
- Scoring.TeacherHoursIncreasing and the penalty lemmas require a valid
  timetable, the only kind `calc_score` is given. For other hour lists
  the model defines the wrapped term (`PenaltyTerm`), but proves only that
  it is below 2^64.

## Findings

| source | as written | input that shows it | evidently intended | confidence | as-written member | corrected member |
|---|---|---|---|---|---|---|
| scheduler.cpp:185 | `find_best_schedules` dereferences `std::min_element` of the score list even when that list is empty. `run` (scheduler.cpp:117-125) calls it right after printing "No solutions found.", and dereferencing the end iterator is undefined. | One person "Ann", one hour "Mon", Ann unavailable on Mon, and one course "Math" with participant Ann. No valid timetable exists. | With no timetable, report that there is no best score and no winners. | not executed | Ranking.MinScoreAsWritten, Engine.NoScheduleForUnavailableTeacher | Engine.SelectBest, Engine.Scheduler.FindBestSchedules, Ranking.RankedAgreesWithMinElement |
