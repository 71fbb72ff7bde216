/**
 * Ranking the solutions: the lowest score among all valid schedules and the
 * positions, in solution order, of the schedules that attain it.
 */
module Ranking {
  import opened Wrappers
  import opened Domain
  import opened Placement
  import opened Scoring

  predicate AllScorable(t: Tables, vs: seq<Schedule>) {
    forall i :: 0 <= i < |vs| ==> Scorable(t, vs[i])
  }

  /** The scores of the first i schedules, in order. */
  ghost function Scores(t: Tables, vs: seq<Schedule>, i: nat): seq<int>
    requires AllScorable(t, vs) && i <= |vs|
  {
    if i == 0 then [] else Scores(t, vs, i - 1) + [Score(t, vs[i - 1])]
  }

  lemma {:induction false} ScoresSpec(t: Tables, vs: seq<Schedule>, i: nat)
    requires AllScorable(t, vs) && i <= |vs|
    ensures |Scores(t, vs, i)| == i
    ensures forall j :: 0 <= j < i ==> Scores(t, vs, i)[j] == Score(t, vs[j])
  {
    if i > 0 {
      ScoresSpec(t, vs, i - 1);
    }
  }

  /** The positions below i at which xs holds b, in increasing order. */
  function Positions(xs: seq<int>, b: int, i: nat): seq<nat>
    requires i <= |xs|
  {
    if i == 0 then [] else Positions(xs, b, i - 1) + (if xs[i - 1] == b then [i - 1] else [])
  }

  lemma {:induction false} PositionsSpec(xs: seq<int>, b: int, i: nat)
    requires i <= |xs|
    ensures StrictlyIncreasing(Positions(xs, b, i))
    ensures forall w :: w in Positions(xs, b, i) ==> w < i
    ensures forall j :: 0 <= j < i ==> (j in Positions(xs, b, i) <==> xs[j] == b)
  {
    if i > 0 {
      PositionsSpec(xs, b, i - 1);
      var prev := Positions(xs, b, i - 1);
      if xs[i - 1] == b {
        var all := prev + [i - 1];
        forall m, n | 0 <= m < n < |all| ensures all[m] < all[n] {
          if n < |prev| {
            assert all[m] == prev[m] && all[n] == prev[n];
          } else {
            assert all[m] == prev[m] && prev[m] in prev;
          }
        }
      }
    }
  }

  /** best is the lowest score of vs, None exactly when there is no
      schedule, and winners lists in increasing order exactly the positions
      of the schedules whose score is best. */
  ghost predicate Ranked(t: Tables, vs: seq<Schedule>, best: Option<int>, winners: seq<nat>)
    requires AllScorable(t, vs)
  {
    && (best.None? <==> vs == [])
    && (best.Some? ==> exists i :: 0 <= i < |vs| && Score(t, vs[i]) == best.value)
    && (best.Some? ==> forall i :: 0 <= i < |vs| ==> best.value <= Score(t, vs[i]))
    && StrictlyIncreasing(winners)
    && (forall w :: w in winners ==> w < |vs|)
    && (forall i :: 0 <= i < |vs| ==> (i in winners <==> best.Some? && Score(t, vs[i]) == best.value))
  }

  /** The same ranking over a list of scores. */
  predicate Ranks(scores: seq<int>, best: Option<int>, winners: seq<nat>) {
    && (best.None? <==> scores == [])
    && (best.Some? ==> best.value in scores)
    && (best.Some? ==> forall i :: 0 <= i < |scores| ==> best.value <= scores[i])
    && StrictlyIncreasing(winners)
    && (forall w :: w in winners ==> w < |scores|)
    && (forall i :: 0 <= i < |scores| ==> (i in winners <==> best.Some? && scores[i] == best.value))
  }

  /** Ranking the scores of the schedules ranks the schedules. */
  lemma RanksScores(t: Tables, vs: seq<Schedule>, best: Option<int>, winners: seq<nat>)
    requires AllScorable(t, vs) && Ranks(Scores(t, vs, |vs|), best, winners)
    ensures Ranked(t, vs, best, winners)
  {
    var scores := Scores(t, vs, |vs|);
    ScoresSpec(t, vs, |vs|);
    if best.Some? {
      var i :| 0 <= i < |scores| && scores[i] == best.value;
      assert Score(t, vs[i]) == best.value;
    }
  }

  /** The minimum as the source takes it, by dereferencing the result of
      std::min_element over the scores: defined only for at least one
      schedule. */
  ghost function MinScoreAsWritten(t: Tables, vs: seq<Schedule>): (b: int)
    requires AllScorable(t, vs) && |vs| > 0
    ensures exists i :: 0 <= i < |vs| && Score(t, vs[i]) == b
    ensures forall i :: 0 <= i < |vs| ==> b <= Score(t, vs[i])
  {
    var scores := Scores(t, vs, |vs|);
    ScoresSpec(t, vs, |vs|);
    assert forall i :: 0 <= i < |vs| ==> scores[i] in scores;
    var b := MinElement(scores);
    var i :| 0 <= i < |scores| && scores[i] == b;
    b
  }

  /** The ranking is determined by the schedules: there is only one best
      score and one list of winners. */
  lemma RankedUnique(t: Tables, vs: seq<Schedule>, b1: Option<int>, w1: seq<nat>, b2: Option<int>, w2: seq<nat>)
    requires AllScorable(t, vs)
    requires Ranked(t, vs, b1, w1) && Ranked(t, vs, b2, w2)
    ensures b1 == b2 && w1 == w2
  {
    if b1.Some? {
      var i :| 0 <= i < |vs| && Score(t, vs[i]) == b1.value;
      var j :| 0 <= j < |vs| && Score(t, vs[j]) == b2.value;
      assert b1.value <= Score(t, vs[j]) && b2.value <= Score(t, vs[i]);
    }
    StrictlyIncreasingUnique(w1, w2);
  }

  /** Whenever there is a schedule, the ranked best is the minimum as the
      source computes it, and at least one schedule wins. */
  lemma RankedAgreesWithMinElement(t: Tables, vs: seq<Schedule>, best: Option<int>, winners: seq<nat>)
    requires AllScorable(t, vs) && |vs| > 0 && Ranked(t, vs, best, winners)
    ensures best == Some(MinScoreAsWritten(t, vs))
    ensures winners != []
  {
    var m := MinScoreAsWritten(t, vs);
    var i :| 0 <= i < |vs| && Score(t, vs[i]) == best.value;
    var j :| 0 <= j < |vs| && Score(t, vs[j]) == m;
    assert best.value <= m <= Score(t, vs[i]);
    assert i in winners;
  }
}
