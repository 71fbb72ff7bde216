/**
 * The scheduler's read-only tables: person, course and hour names, the
 * person-by-hour availability matrix and, per course, the list of persons
 * who must attend it. They are filled once by the file parser (not part of
 * this model) and never changed afterwards.
 */
module Domain {

  type Person = nat
  type Hour = nat
  type CourseId = nat

  datatype Tables = Tables(
    personNames: seq<string>,
    courseNames: seq<string>,
    hourNames: seq<string>,
    availability: seq<seq<bool>>,   // person, hour -> available?
    involvements: seq<seq<Person>>) // course -> participants, teacher first
  {
    /** The shape of the tables. The parser guarantees one participant
        list per course name and only known persons in those lists
        (unknown names are dropped while parsing). That every row of the
        matrix has one cell per hour is an assumption about the input file:
        the parser keeps however many cells a row holds. */
    predicate WellFormed() {
      && |availability| == |personNames|
      && (forall p :: 0 <= p < |availability| ==> |availability[p]| == |hourNames|)
      && |courseNames| == |involvements|
      && (forall c, i :: 0 <= c < |involvements| && 0 <= i < |involvements[c]| ==>
            involvements[c][i] < |personNames|)
    }

    /** Every course lists at least one participant, its teacher. */
    predicate HasTeachers() {
      forall c :: 0 <= c < |involvements| ==> |involvements[c]| > 0
    }

    /** The teacher of a course is its first participant. The function is
        total, so the scoring functions built on it need no preconditions;
        it is consulted only for known courses that list a participant. */
    function Teacher(c: CourseId): (p: Person)
      ensures c < |involvements| && |involvements[c]| > 0 ==> p in involvements[c]
    {
      if c < |involvements| && |involvements[c]| > 0 then involvements[c][0] else 0
    }
  }
}
