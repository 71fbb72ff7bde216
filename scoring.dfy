/**
 * The quality score of a schedule: for every teacher (the first participant
 * of a course), the number of hours they wait between their first and their
 * last class, summed over all teachers. Lower is better.
 */
module Scoring {
  import opened Domain
  import opened Placement
  import opened SeqFacts

  /** The smallest element: the value std::min_element points to. */
  ghost function MinElement(xs: seq<int>): (m: int)
    requires |xs| > 0
    ensures m in xs && forall x :: x in xs ==> m <= x
  {
    ExtremesExist(xs);
    var m :| m in xs && forall x :: x in xs ==> m <= x; m
  }

  /** The largest element: the value std::max_element points to. */
  ghost function MaxElement(xs: seq<int>): (m: int)
    requires |xs| > 0
    ensures m in xs && forall x :: x in xs ==> x <= m
  {
    ExtremesExist(xs);
    var m :| m in xs && forall x :: x in xs ==> x <= m; m
  }

  /** A non-empty sequence has a smallest and a largest element. */
  lemma {:induction false} ExtremesExist(xs: seq<int>)
    requires |xs| > 0
    ensures exists m :: m in xs && forall x :: x in xs ==> m <= x
    ensures exists m :: m in xs && forall x :: x in xs ==> x <= m
  {
    if |xs| == 1 {
      assert xs[0] in xs && forall x :: x in xs ==> x == xs[0];
    } else {
      var tail := xs[1..];
      ExtremesExist(tail);
      var lo :| lo in tail && forall x :: x in tail ==> lo <= x;
      var hi :| hi in tail && forall x :: x in tail ==> x <= hi;
      assert xs == [xs[0]] + tail;
      var a := if xs[0] <= lo then xs[0] else lo;
      var b := if hi <= xs[0] then xs[0] else hi;
      assert a in xs && forall x :: x in xs ==> a <= x;
      assert b in xs && forall x :: x in xs ==> x <= b;
    }
  }

  /** Every course of s is a known course with a teacher. */
  predicate Scorable(t: Tables, s: Schedule) {
    && t.WellFormed() && t.HasTeachers()
    && forall h, i :: 0 <= h < |s| && 0 <= i < |s[h]| ==> s[h][i] < |t.involvements|
  }

  /** The teacher teaches one of the courses cs. */
  predicate Teaches(t: Tables, cs: seq<CourseId>, teacher: Person)
  {
    exists i :: 0 <= i < |cs| && t.Teacher(cs[i]) == teacher
  }

  /** One entry h for each of the first j courses of cs that the teacher
      teaches. */
  function HoursIn(t: Tables, cs: seq<CourseId>, teacher: Person, h: Hour, j: nat): seq<Hour>
    requires j <= |cs|
  {
    if j == 0 then []
    else HoursIn(t, cs, teacher, h, j - 1) + (if t.Teacher(cs[j - 1]) == teacher then [h] else [])
  }

  /** The hours of s[..k] at which the teacher teaches, one entry per
      course, in hour order. */
  function TeacherHours(t: Tables, s: Schedule, teacher: Person, k: nat): seq<Hour>
    requires k <= |s|
  {
    if k == 0 then [] else TeacherHours(t, s, teacher, k - 1) + HoursIn(t, s[k - 1], teacher, k - 1, |s[k - 1]|)
  }

  /** What std::map's operator[] yields: the stored list, or a fresh empty
      one for a key not yet present. */
  function Lookup(m: map<Person, seq<Hour>>, p: Person): seq<Hour> {
    if p in m then m[p] else []
  }

  /** The teacher -> hours map once hour h has been appended for the
      teachers of the first j courses of cs, one append per course. */
  function AddHours(t: Tables, m: map<Person, seq<Hour>>, cs: seq<CourseId>, h: Hour, j: nat): map<Person, seq<Hour>>
    requires j <= |cs|
  {
    if j == 0 then m
    else
      var before := AddHours(t, m, cs, h, j - 1);
      var teacher := t.Teacher(cs[j - 1]);
      before[teacher := Lookup(before, teacher) + [h]]
  }

  /** The teacher -> hours map the source has built after hours 0..k-1. */
  function TeacherTimes(t: Tables, s: Schedule, k: nat): map<Person, seq<Hour>>
    requires k <= |s|
  {
    if k == 0 then map[] else AddHours(t, TeacherTimes(t, s, k - 1), s[k - 1], k - 1, |s[k - 1]|)
  }

  /** The penalty of one teacher's hours: last - first - count + 1. */
  ghost function Penalty(xs: seq<int>): int {
    if |xs| == 0 then 0 else MaxElement(xs) - MinElement(xs) - |xs| + 1
  }

  /** The penalty of every person, by person index. */
  ghost function Penalties(t: Tables, s: Schedule): seq<int> {
    seq(|t.personNames|, p requires 0 <= p => Penalty(TeacherHours(t, s, p, |s|)))
  }

  /** xs[0] + ... + xs[k-1]. */
  function SumUpTo(xs: seq<int>, k: nat): int
    requires k <= |xs|
  {
    if k == 0 then 0 else SumUpTo(xs, k - 1) + xs[k - 1]
  }

  /** The score of a schedule: the penalties of all persons, added up. A
      person who teaches nothing contributes no penalty. */
  ghost function Score(t: Tables, s: Schedule): int {
    SumUpTo(Penalties(t, s), |t.personNames|)
  }

  /** The number of hours in lo..hi that are not in xs. */
  function CountMissing(xs: seq<int>, lo: int, hi: int): nat
    decreases hi - lo
  {
    if hi < lo then 0 else CountMissing(xs, lo, hi - 1) + (if hi in xs then 0 else 1)
  }

  /** The idle hours of a teacher: the hours between their first and their
      last class at which they have no class. */
  ghost function IdleHours(xs: seq<int>): nat
    requires |xs| > 0
  {
    CountMissing(xs, MinElement(xs), MaxElement(xs))
  }

  // ---------------------------------------------------------------------
  // Which hours a teacher teaches.

  lemma {:induction false} HoursInSpec(t: Tables, cs: seq<CourseId>, teacher: Person, h: Hour, j: nat)
    requires j <= |cs|
    ensures forall x :: x in HoursIn(t, cs, teacher, h, j) ==> x == h
    ensures |HoursIn(t, cs, teacher, h, j)| > 0 <==> exists i :: 0 <= i < j && t.Teacher(cs[i]) == teacher
  {
    if j > 0 {
      HoursInSpec(t, cs, teacher, h, j - 1);
    }
  }

  /** A teacher teaches at most one course per hour when the courses of
      that hour have disjoint participant lists. */
  lemma {:induction false} HoursInAtMostOne(t: Tables, cs: seq<CourseId>, teacher: Person, h: Hour, j: nat)
    requires t.HasTeachers() && j <= |cs|
    requires forall i :: 0 <= i < |cs| ==> cs[i] < |t.involvements|
    requires forall i, k :: 0 <= i < k < |cs| ==> Disjoint(t.involvements[cs[i]], t.involvements[cs[k]])
    ensures |HoursIn(t, cs, teacher, h, j)| <= 1
  {
    if j > 0 {
      HoursInAtMostOne(t, cs, teacher, h, j - 1);
      HoursInSpec(t, cs, teacher, h, j - 1);
      if |HoursIn(t, cs, teacher, h, j - 1)| > 0 {
        var i :| 0 <= i < j - 1 && t.Teacher(cs[i]) == teacher;
        assert Disjoint(t.involvements[cs[i]], t.involvements[cs[j - 1]]);
        assert t.Teacher(cs[j - 1]) != teacher;
      }
    }
  }

  lemma {:induction false} TeacherHoursBelow(t: Tables, s: Schedule, teacher: Person, k: nat)
    requires k <= |s|
    ensures forall x :: x in TeacherHours(t, s, teacher, k) ==> x < k
  {
    if k > 0 {
      TeacherHoursBelow(t, s, teacher, k - 1);
      HoursInSpec(t, s[k - 1], teacher, k - 1, |s[k - 1]|);
    }
  }

  /** Hour h is in a teacher's list exactly when they teach a course then. */
  lemma {:induction false} TeacherHoursMember(t: Tables, s: Schedule, teacher: Person, k: nat, h: Hour)
    requires k <= |s|
    ensures h in TeacherHours(t, s, teacher, k) <==> h < k && Teaches(t, s[h], teacher)
  {
    if k > 0 {
      TeacherHoursMember(t, s, teacher, k - 1, h);
      HoursInSpec(t, s[k - 1], teacher, k - 1, |s[k - 1]|);
      TeacherHoursBelow(t, s, teacher, k - 1);
      var here := HoursIn(t, s[k - 1], teacher, k - 1, |s[k - 1]|);
      if |here| > 0 {
        var x := here[0];
        assert x in here;
      }
    }
  }

  /** operator[] followed by push_back: only the list of the updated key
      grows, by one entry. */
  lemma AppendLookup(m: map<Person, seq<Hour>>, teacher: Person, h: Hour, p: Person)
    ensures Lookup(m[teacher := Lookup(m, teacher) + [h]], p) ==
              Lookup(m, p) + (if teacher == p then [h] else [])
  {
  }

  /** Appending for the first j courses of an hour adds, to each teacher's
      list, the hour once per course of theirs among them. */
  lemma {:induction false} AddHoursLookup(t: Tables, m: map<Person, seq<Hour>>, cs: seq<CourseId>, h: Hour, j: nat, p: Person)
    requires j <= |cs|
    ensures Lookup(AddHours(t, m, cs, h, j), p) == Lookup(m, p) + HoursIn(t, cs, p, h, j)
  {
    if j > 0 {
      var before := AddHours(t, m, cs, h, j - 1);
      var teacher := t.Teacher(cs[j - 1]);
      var extra := if teacher == p then [h] else [];
      var earlier, hours := Lookup(m, p), HoursIn(t, cs, p, h, j - 1);
      AddHoursLookup(t, m, cs, h, j - 1, p);
      AppendLookup(before, teacher, h, p);
      AppendAssociative(earlier, hours, extra);
    }
  }

  /** The map the source builds holds, for each teacher, exactly their
      hours in hour order. */
  lemma {:induction false} TeacherTimesLookup(t: Tables, s: Schedule, k: nat, p: Person)
    requires k <= |s|
    ensures Lookup(TeacherTimes(t, s, k), p) == TeacherHours(t, s, p, k)
  {
    if k == 0 {
      assert TeacherTimes(t, s, 0) == map[];
      assert |TeacherHours(t, s, p, 0)| == 0;
    } else {
      var m, cs := TeacherTimes(t, s, k - 1), s[k - 1];
      var n := |cs|;
      TeacherTimesLookup(t, s, k - 1, p);
      AddHoursLookup(t, m, cs, k - 1, n, p);
      assert A: TeacherTimes(t, s, k) == AddHours(t, m, cs, k - 1, n);
      assert B: TeacherHours(t, s, p, k) == TeacherHours(t, s, p, k - 1) + HoursIn(t, cs, p, k - 1, n);
    }
  }

  /** In a valid schedule a teacher's hours are strictly increasing. */
  lemma {:induction false} TeacherHoursIncreasing(t: Tables, s: Schedule, teacher: Person, k: nat)
    requires Scorable(t, s) && ValidSchedule(t, s) && k <= |s|
    ensures StrictlyIncreasing(TeacherHours(t, s, teacher, k))
  {
    if k > 0 {
      var prev := TeacherHours(t, s, teacher, k - 1);
      var here := HoursIn(t, s[k - 1], teacher, k - 1, |s[k - 1]|);
      TeacherHoursIncreasing(t, s, teacher, k - 1);
      TeacherHoursBelow(t, s, teacher, k - 1);
      HoursInSpec(t, s[k - 1], teacher, k - 1, |s[k - 1]|);
      HoursInAtMostOne(t, s[k - 1], teacher, k - 1, |s[k - 1]|);
      var all := prev + here;
      forall i, j | 0 <= i < j < |all| ensures all[i] < all[j] {
        if j < |prev| {
          assert all[i] == prev[i] && all[j] == prev[j];
        } else {
          assert j == |prev| && all[j] in here;
          assert all[i] in prev;
        }
      }
    }
  }

  // ---------------------------------------------------------------------
  // The closed form of a teacher's penalty.

  /** Membership outside lo..hi does not matter to the count. */
  lemma {:induction false} CountMissingSame(xs: seq<int>, ys: seq<int>, lo: int, hi: int)
    requires forall h :: lo <= h <= hi ==> (h in xs <==> h in ys)
    ensures CountMissing(xs, lo, hi) == CountMissing(ys, lo, hi)
    decreases hi - lo
  {
    if lo <= hi {
      CountMissingSame(xs, ys, lo, hi - 1);
    }
  }

  /** Counting on over hours hi+1..m, none of them in xs, adds m - hi. */
  lemma {:induction false} CountMissingGap(xs: seq<int>, lo: int, hi: int, m: int)
    requires lo <= hi + 1 && hi <= m
    requires forall h :: hi < h <= m ==> h !in xs
    ensures CountMissing(xs, lo, m) == CountMissing(xs, lo, hi) + (m - hi)
    decreases m - hi
  {
    if m > hi {
      CountMissingGap(xs, lo, hi, m - 1);
    }
  }

  lemma EndsOfIncreasing(xs: seq<int>)
    requires |xs| > 0 && StrictlyIncreasing(xs)
    ensures MinElement(xs) == xs[0] && MaxElement(xs) == xs[|xs| - 1]
  {
    var lo, hi := MinElement(xs), MaxElement(xs);
    var first, last := xs[0], xs[|xs| - 1];
    assert first in xs && last in xs;
    var i :| 0 <= i < |xs| && xs[i] == lo;
    var j :| 0 <= j < |xs| && xs[j] == hi;
    assert xs[0] <= xs[i] && xs[j] <= xs[|xs| - 1];
  }

  /** Dropping the last class of strictly increasing hours changes
      membership only from the dropped hour on, and nothing lies strictly
      between the last two classes. */
  lemma LastClass(xs: seq<int>)
    requires |xs| > 1 && StrictlyIncreasing(xs)
    ensures forall h :: h <= xs[|xs| - 2] ==> (h in xs <==> h in xs[..|xs| - 1])
    ensures forall h :: xs[|xs| - 2] < h < xs[|xs| - 1] ==> h !in xs
  {
    var n := |xs| - 1;
    forall h | h <= xs[n - 1] && h in xs ensures h in xs[..n] {
      var i :| 0 <= i < |xs| && xs[i] == h;
      assert i < n;
      assert xs[..n][i] == h;
    }
    forall i | 0 <= i < |xs| ensures !(xs[n - 1] < xs[i] < xs[n]) {
      if i < n - 1 {
        assert xs[i] < xs[n - 1];
      }
    }
  }

  /** For a teacher's strictly increasing hours, the penalty is the number
      of idle hours between the first and the last class. */
  lemma {:induction false} PenaltyCountsIdleHours(xs: seq<int>)
    requires |xs| > 0 && StrictlyIncreasing(xs)
    ensures Penalty(xs) == IdleHours(xs)
  {
    EndsOfIncreasing(xs);
    var n := |xs| - 1;
    var x := xs[n];
    if n == 0 {
      assert x in xs;
      assert CountMissing(xs, x, x) == 0;
    } else {
      var ys := xs[..n];
      assert StrictlyIncreasing(ys);
      EndsOfIncreasing(ys);
      var first, last := xs[0], xs[n - 1];
      assert ys[0] == first && ys[n - 1] == last;
      PenaltyCountsIdleHours(ys);
      assert CountMissing(ys, first, last) == last - first - n + 1;
      LastClass(xs);
      CountMissingSame(xs, ys, first, last);
      CountMissingGap(xs, first, last, x - 1);
      assert x in xs;
      assert CountMissing(xs, first, x) == CountMissing(xs, first, x - 1);
      assert Penalty(xs) == x - first - n;
    }
  }

  /** A teacher's penalty is 0 exactly when their classes are back to back,
      at the first hour and the hours right after it; in particular a
      teacher with one class contributes 0. */
  lemma PenaltyZeroIffContiguous(xs: seq<int>)
    requires |xs| > 0 && StrictlyIncreasing(xs)
    ensures Penalty(xs) == 0 <==> forall i :: 0 <= i < |xs| ==> xs[i] == xs[0] + i
  {
    var n := |xs| - 1;
    EndsOfIncreasing(xs);
    if Penalty(xs) == 0 {
      forall i | 0 <= i < |xs| ensures xs[i] == xs[0] + i {
        LowerBound(xs, i);
        LowerBound(xs[i..], n - i);
      }
    } else {
      assert xs[n] != xs[0] + n;
    }
  }

  /** In a strictly increasing sequence, position j is at least j above the first. */
  lemma {:induction false} LowerBound(xs: seq<int>, j: nat)
    requires StrictlyIncreasing(xs) && j < |xs|
    ensures xs[j] >= xs[0] + j
  {
    if j > 0 {
      LowerBound(xs, j - 1);
    }
  }

  /** Distinct hours span at least as many hours as there are classes. */
  lemma SpanCoversClasses(xs: seq<int>)
    requires |xs| > 0 && StrictlyIncreasing(xs)
    ensures |xs| <= MaxElement(xs) - MinElement(xs) + 1
  {
    EndsOfIncreasing(xs);
    LowerBound(xs, |xs| - 1);
  }

  /** A teacher whose hours are distinct has a non-negative penalty. */
  lemma PenaltyNonNegative(xs: seq<int>)
    requires StrictlyIncreasing(xs)
    ensures Penalty(xs) >= 0
  {
    if |xs| > 0 {
      SpanCoversClasses(xs);
    }
  }

  // ---------------------------------------------------------------------
  // The penalty term in the source's unsigned arithmetic.

  /** 2^64: size_t arithmetic is modulo this. */
  const SizeModulus: int := 0x1_0000_0000_0000_0000

  /** The term end - start - times.size() + 1 as the source evaluates it:
      the int difference end - start is converted to size_t, and the
      subtraction of the size and the addition of 1 wrap modulo 2^64. */
  ghost function PenaltyTerm(xs: seq<int>): (r: nat)
    requires |xs| > 0
    ensures r < SizeModulus
  {
    var d := (MaxElement(xs) - MinElement(xs)) % SizeModulus;
    var e := (d - |xs|) % SizeModulus;
    (e + 1) % SizeModulus
  }

  /** For strictly increasing hours the wrap-around cancels out: the
      intermediate value wraps to 2^64 - 1 exactly when the classes are back
      to back, and adding 1 wraps it back to 0. */
  lemma PenaltyTermExact(xs: seq<int>)
    requires |xs| > 0 && StrictlyIncreasing(xs)
    requires MaxElement(xs) - MinElement(xs) < SizeModulus
    ensures PenaltyTerm(xs) == Penalty(xs)
  {
    SpanCoversClasses(xs);
    WrapCancels(MaxElement(xs) - MinElement(xs), |xs|);
  }

  /** ((d mod 2^64 - n) mod 2^64 + 1) mod 2^64 is d - n + 1 when that lies in 0..d. */
  lemma WrapCancels(d: int, n: nat)
    requires 0 <= d < SizeModulus && 0 < n <= d + 1
    ensures ((d % SizeModulus - n) % SizeModulus + 1) % SizeModulus == d - n + 1
  {
    assert d % SizeModulus == d;
    if d - n == -1 {
      assert (d - n) % SizeModulus == SizeModulus - 1;
    } else {
      assert (d - n) % SizeModulus == d - n;
      assert (d - n + 1) % SizeModulus == d - n + 1;
    }
  }

  /** The term the source adds for every person, by person index:
      PenaltyTerm of their hours if they teach at all (only teachers are
      keys of its map), nothing otherwise. */
  ghost function Terms(t: Tables, s: Schedule): seq<int> {
    seq(|t.personNames|, p requires 0 <= p =>
      var xs := TeacherHours(t, s, p, |s|);
      if |xs| == 0 then 0 else PenaltyTerm(xs))
  }

  /** The score exactly as the source's arithmetic produces it. */
  ghost function ComputedScore(t: Tables, s: Schedule): int {
    SumUpTo(Terms(t, s), |t.personNames|)
  }

  /** In a valid schedule a teacher's hours are strictly increasing hours
      of the schedule, so the source's term for them is their penalty, and
      that penalty is non-negative. */
  lemma TeacherPenalty(t: Tables, s: Schedule, teacher: Person)
    requires Scorable(t, s) && ValidSchedule(t, s)
    ensures var xs := TeacherHours(t, s, teacher, |s|);
      && Penalty(xs) >= 0
      && (|xs| > 0 && |s| < SizeModulus ==> PenaltyTerm(xs) == Penalty(xs))
  {
    var xs := TeacherHours(t, s, teacher, |s|);
    TeacherHoursIncreasing(t, s, teacher, |s|);
    PenaltyNonNegative(xs);
    if |xs| > 0 && |s| < SizeModulus {
      TeacherHoursBelow(t, s, teacher, |s|);
      var hi, lo := MaxElement(xs), MinElement(xs);
      assert hi < |s| && lo >= 0;
      PenaltyTermExact(xs);
    }
  }

  /** On a valid schedule every term the source adds is the person's
      penalty, so the score it computes is the closed-form score. */
  lemma ComputedScoreExact(t: Tables, s: Schedule)
    requires Scorable(t, s) && ValidSchedule(t, s) && |s| < SizeModulus
    ensures ComputedScore(t, s) == Score(t, s)
  {
    forall p | 0 <= p < |t.personNames| ensures Terms(t, s)[p] == Penalties(t, s)[p] {
      TeacherPenalty(t, s, p);
    }
    assert Terms(t, s) == Penalties(t, s);
  }

  /** A sum of non-negative numbers is non-negative. */
  lemma {:induction false} SumUpToNonNegative(xs: seq<int>, k: nat)
    requires k <= |xs|
    requires forall i :: 0 <= i < k ==> xs[i] >= 0
    ensures SumUpTo(xs, k) >= 0
  {
    if k > 0 {
      SumUpToNonNegative(xs, k - 1);
    }
  }

  /** The score of a valid schedule is non-negative. */
  lemma ScoreNonNegative(t: Tables, s: Schedule)
    requires Scorable(t, s) && ValidSchedule(t, s)
    ensures Score(t, s) >= 0
  {
    forall p | 0 <= p < |t.personNames| ensures Penalties(t, s)[p] >= 0 {
      TeacherPenalty(t, s, p);
    }
    SumUpToNonNegative(Penalties(t, s), |t.personNames|);
  }

  /** The idle hours of every person, by person index; a person who
      teaches nothing has none. */
  ghost function IdleCounts(t: Tables, s: Schedule): seq<int> {
    seq(|t.personNames|, p requires 0 <= p =>
      var xs := TeacherHours(t, s, p, |s|);
      if |xs| == 0 then 0 else IdleHours(xs))
  }

  /** The score of a valid schedule is the total number of hours the
      teachers spend waiting between their first and their last class. */
  lemma ScoreIsIdleHours(t: Tables, s: Schedule)
    requires Scorable(t, s) && ValidSchedule(t, s)
    ensures Score(t, s) == SumUpTo(IdleCounts(t, s), |t.personNames|)
  {
    forall p | 0 <= p < |t.personNames| ensures Penalties(t, s)[p] == IdleCounts(t, s)[p] {
      var xs := TeacherHours(t, s, p, |s|);
      if |xs| > 0 {
        TeacherHoursIncreasing(t, s, p, |s|);
        PenaltyCountsIdleHours(xs);
      }
    }
    assert Penalties(t, s) == IdleCounts(t, s);
  }

  /** A valid schedule only names known courses, so it can be scored. */
  lemma ValidScheduleScorable(t: Tables, s: Schedule)
    requires t.WellFormed() && t.HasTeachers() && ValidSchedule(t, s)
    ensures Scorable(t, s)
  {
  }
}
