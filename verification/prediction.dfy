/** The placeholder "prediction" rescalings of placement/ml_service.py, in
    hundredths of a percentage point. */
module Prediction {
  import opened Text

  /** `get_overall_placement_prediction`: 95% of the readiness score, capped
      at 100 and rounded to two decimals; 0 when the score is unknown.
      `readiness` is in hundredths, so the prediction before rounding is
      95 * readiness / 100 hundredths; halves are rounded upward. */
  function OverallPrediction(readiness: Option<int>): (r: int)
    ensures readiness.None? ==> r == 0
    ensures r <= 10000
    ensures readiness.Some? && 95 * readiness.value >= 1000000 ==> r == 10000
    ensures readiness.Some? && 95 * readiness.value <= 1000000 ==>
      100 * r - 50 <= 95 * readiness.value < 100 * r + 50
  {
    match readiness
    case None => 0
    case Some(score) =>
      var scaled := 95 * score;
      var capped := if scaled < 1000000 then scaled else 1000000;
      (capped + 50) / 100
  }

  /** On the scores the readiness scorer produces (0..100) the prediction
      stays in 0..95, and a full readiness predicts exactly 95. */
  lemma OverallRange(readiness: int)
    requires 0 <= readiness <= 10000
    ensures 0 <= OverallPrediction(Some(readiness)) <= 9500
    ensures readiness == 10000 ==> OverallPrediction(Some(readiness)) == 9500
  {
  }

  /** A higher readiness never predicts lower. */
  lemma {:induction false} OverallMonotone(r1: int, r2: int)
    requires r1 <= r2
    ensures OverallPrediction(Some(r1)) <= OverallPrediction(Some(r2))
  {
    var c1 := if 95 * r1 < 1000000 then 95 * r1 else 1000000;
    var c2 := if 95 * r2 < 1000000 then 95 * r2 else 1000000;
    assert c1 <= c2;
    DivMonotone(c1 + 50, c2 + 50);
  }

  lemma DivMonotone(a: int, b: int)
    requires a <= b
    ensures a / 100 <= b / 100
  {
    assert a == 100 * (a / 100) + a % 100 && b == 100 * (b / 100) + b % 100;
  }

  /** `get_job_specific_prediction` for an integer match percentage `m`:
      98 from 100 upward, 0.9 * m + 10 from 75, 0.7 * m + 10 from 50,
      0.5 * m below 50. */
  function JobPrediction(m: int): (r: int)
    ensures m >= 100 ==> r == 9800
    ensures 75 <= m < 100 ==> r == 90 * m + 1000
    ensures 50 <= m < 75 ==> r == 70 * m + 1000
    ensures m < 50 ==> 2 * r == 100 * m
  {
    if m >= 100 then 9800
    else if m >= 75 then 90 * m + 1000
    else if m >= 50 then 70 * m + 1000
    else 50 * m
  }

  /** For percentages in 0..100 the prediction lies in 0..99.1; it rises
      within each band and jumps up at 50 and 75, but drops from 99.1 at 99
      to 98 at 100. */
  lemma {:induction false} JobPredictionShape(m1: int, m2: int)
    requires 0 <= m1 <= m2 <= 100
    ensures 0 <= JobPrediction(m1) <= 9910
    ensures m2 < 100 ==> JobPrediction(m1) <= JobPrediction(m2)
    ensures JobPrediction(99) > JobPrediction(100)
  {
    if m2 < 100 {
      if m1 < 50 && m2 >= 50 {
        assert JobPrediction(m1) <= 2450;
      } else if m1 < 75 && m2 >= 75 {
        assert JobPrediction(m1) <= 6180;
      }
    }
  }

  /** The match percentages the scorers produce (0, 33, 50, 67, 100) give
      the predictions 0, 16.5, 45, 56.9 and 98, in the same order. */
  lemma JobPredictionOnScorerValues()
    ensures JobPrediction(0) == 0
    ensures JobPrediction(33) == 1650
    ensures JobPrediction(50) == 4500
    ensures JobPrediction(67) == 5690
    ensures JobPrediction(100) == 9800
  {
  }
}
