/**
 * The label, threshold and accuracy expressions of `logistic_majority_gender`
 * in aggregate_analysis.py.  A row is labelled 1 when its adult men strictly
 * outnumber its adult women; a regression score is turned into a class by
 * the threshold 0.5; accuracy is the fraction of test rows whose class
 * matches the label.  The train/test split and the regression that produces
 * the scores are library code: the test rows and their scores are inputs.
 */
module Majority {
  import opened Wrappers
  import opened Series

  /** `(HOMBRES_18+ > MUJERES_18+).astype(int)` for one row. */
  function MajorityLabel(row: YearRow): (l: int)
    ensures l == 0 || l == 1
    ensures l == 1 <==> row.male > row.female
  {
    if row.male > row.female then 1 else 0
  }

  /** The `MAYORIA_HOMBRES` column. */
  function Labels(rows: seq<YearRow>): (ls: seq<int>)
    ensures |ls| == |rows|
    ensures forall i :: 0 <= i < |rows| ==> ls[i] == MajorityLabel(rows[i])
  {
    if rows == [] then [] else [MajorityLabel(rows[0])] + Labels(rows[1..])
  }

  /** `(score >= 0.5).astype(int)` for one score. */
  function PredictedClass(score: real): (c: int)
    ensures c == 0 || c == 1
    ensures c == 1 <==> score >= 0.5
  {
    if score >= 0.5 then 1 else 0
  }

  /** The predicted classes of a column of scores. */
  function Predictions(scores: seq<real>): (ps: seq<int>)
    ensures |ps| == |scores|
    ensures forall i :: 0 <= i < |scores| ==> ps[i] == PredictedClass(scores[i])
  {
    if scores == [] then [] else [PredictedClass(scores[0])] + Predictions(scores[1..])
  }

  /** Number of positions where the prediction equals the label. */
  function Matches(labels: seq<int>, preds: seq<int>): (n: nat)
    requires |labels| == |preds|
    ensures n <= |labels|
  {
    if labels == [] then 0
    else (if labels[0] == preds[0] then 1 else 0) + Matches(labels[1..], preds[1..])
  }

  /** `(y_pred == y_test).mean()`: `None` on an empty test set, where the mean is undefined. */
  function Accuracy(labels: seq<int>, preds: seq<int>): (a: Option<real>)
    requires |labels| == |preds|
    ensures a.None? <==> labels == []
    ensures a.Some? ==> 0.0 <= a.value <= 1.0
  {
    if labels == [] then None else Some(Matches(labels, preds) as real / |labels| as real)
  }

  /** The accuracy reported for test rows `test` whose regression scores are `scores`. */
  function MajorityAccuracy(test: seq<YearRow>, scores: seq<real>): Option<real>
    requires |test| == |scores|
  {
    Accuracy(Labels(test), Predictions(scores))
  }

  // ---------------------------------------------------------------------------
  // Properties
  // ---------------------------------------------------------------------------

  /** A tie between men and women is not a male majority. */
  lemma TieIsNotMajority(row: YearRow)
    requires row.male == row.female
    ensures MajorityLabel(row) == 0
  {
  }

  lemma {:induction false} MatchesAppend(l1: seq<int>, p1: seq<int>, l2: seq<int>, p2: seq<int>)
    requires |l1| == |p1| && |l2| == |p2|
    ensures Matches(l1 + l2, p1 + p2) == Matches(l1, p1) + Matches(l2, p2)
  {
    if l1 != [] {
      assert (l1 + l2)[1..] == l1[1..] + l2;
      assert (p1 + p2)[1..] == p1[1..] + p2;
      MatchesAppend(l1[1..], p1[1..], l2, p2);
    } else {
      assert l1 + l2 == l2 && p1 + p2 == p2;
    }
  }

  /** Every position matches exactly when the count reaches the length. */
  lemma {:induction false} MatchesAll(labels: seq<int>, preds: seq<int>)
    requires |labels| == |preds|
    ensures Matches(labels, preds) == |labels| <==> forall i :: 0 <= i < |labels| ==> labels[i] == preds[i]
  {
    if labels != [] {
      MatchesAll(labels[1..], preds[1..]);
      if forall i :: 0 <= i < |labels| ==> labels[i] == preds[i] {
        assert forall i :: 0 <= i < |labels[1..]| ==> labels[1..][i] == preds[1..][i] by {
          forall i | 0 <= i < |labels[1..]| ensures labels[1..][i] == preds[1..][i] {
            assert labels[1..][i] == labels[i + 1] && preds[1..][i] == preds[i + 1];
          }
        }
      }
      if Matches(labels, preds) == |labels| {
        assert Matches(labels[1..], preds[1..]) <= |labels[1..]|;
        forall i | 0 <= i < |labels| ensures labels[i] == preds[i] {
          if i > 0 {
            assert labels[1..][i - 1] == labels[i] && preds[1..][i - 1] == preds[i];
          }
        }
      }
    }
  }

  /** No position matches exactly when the count is zero. */
  lemma {:induction false} MatchesNone(labels: seq<int>, preds: seq<int>)
    requires |labels| == |preds|
    ensures Matches(labels, preds) == 0 <==> forall i :: 0 <= i < |labels| ==> labels[i] != preds[i]
  {
    if labels != [] {
      MatchesNone(labels[1..], preds[1..]);
      if forall i :: 0 <= i < |labels| ==> labels[i] != preds[i] {
        assert forall i :: 0 <= i < |labels[1..]| ==> labels[1..][i] != preds[1..][i] by {
          forall i | 0 <= i < |labels[1..]| ensures labels[1..][i] != preds[1..][i] {
            assert labels[1..][i] == labels[i + 1] && preds[1..][i] == preds[i + 1];
          }
        }
      }
      if Matches(labels, preds) == 0 {
        forall i | 0 <= i < |labels| ensures labels[i] != preds[i] {
          if i > 0 {
            assert labels[1..][i - 1] == labels[i] && preds[1..][i - 1] == preds[i];
          }
        }
      }
    }
  }

  /** Accuracy is 1 exactly when every prediction is right. */
  lemma PerfectAccuracy(labels: seq<int>, preds: seq<int>)
    requires |labels| == |preds| && labels != []
    ensures Accuracy(labels, preds) == Some(1.0) <==> forall i :: 0 <= i < |labels| ==> labels[i] == preds[i]
  {
    MatchesAll(labels, preds);
    var n := |labels| as real;
    var k := Matches(labels, preds) as real;
    if k / n == 1.0 {
      assert k == n;
    }
  }

  /** Accuracy is 0 exactly when every prediction is wrong. */
  lemma ZeroAccuracy(labels: seq<int>, preds: seq<int>)
    requires |labels| == |preds| && labels != []
    ensures Accuracy(labels, preds) == Some(0.0) <==> forall i :: 0 <= i < |labels| ==> labels[i] != preds[i]
  {
    MatchesNone(labels, preds);
    var n := |labels| as real;
    var k := Matches(labels, preds) as real;
    if k / n == 0.0 {
      assert k == 0.0;
    }
  }

  /** The threshold maps a score of exactly 0 or 1 back to that class. */
  lemma ThresholdKeepsLabels(l: int)
    requires l == 0 || l == 1
    ensures PredictedClass(l as real) == l
  {
  }

  /** Scores equal to the labels themselves reach accuracy 1 on any non-empty test set. */
  lemma ExactScoresArePerfect(test: seq<YearRow>)
    requires test != []
    ensures var scores := seq(|test|, i requires 0 <= i < |test| => MajorityLabel(test[i]) as real);
            MajorityAccuracy(test, scores) == Some(1.0)
  {
    var scores := seq(|test|, i requires 0 <= i < |test| => MajorityLabel(test[i]) as real);
    var labels, preds := Labels(test), Predictions(scores);
    forall i | 0 <= i < |labels| ensures labels[i] == preds[i] {
      ThresholdKeepsLabels(MajorityLabel(test[i]));
    }
    PerfectAccuracy(labels, preds);
  }
}
