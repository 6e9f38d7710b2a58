/** The score summary of ResultScreen.tsx: the percentage shown and the message tier above it. */
module Results {

  /** The three headlines (`t.excellentWork`, `t.goodJob`, `t.keepPracticing`). */
  datatype Message = ExcellentWork | GoodJob | KeepPracticing

  /** `Math.round((score / total) * 100)`, or 0 when there are no questions.
      The result is the nearest integer to 100 * score / total, a half rounding up;
      it is computed exactly on integers instead of in floating point. */
  function Percentage(score: nat, total: nat): (p: nat)
    ensures total == 0 ==> p == 0
    ensures total > 0 ==> 2 * total * p <= 200 * score + total < 2 * total * (p + 1)
  {
    if total > 0 then (200 * score + total) / (2 * total) else 0
  }

  /** The tier of a percentage: above 80 excellent, above 50 good, otherwise keep practicing. */
  function MessageFor(percentage: int): (m: Message)
    ensures m == ExcellentWork <==> percentage > 80
    ensures m == GoodJob <==> 50 < percentage <= 80
    ensures m == KeepPracticing <==> percentage <= 50
  {
    if percentage > 80 then ExcellentWork
    else if percentage > 50 then GoodJob
    else KeepPracticing
  }

  /** A higher tier has a higher rank. */
  function Rank(m: Message): nat
  {
    match m
    case KeepPracticing => 0
    case GoodJob => 1
    case ExcellentWork => 2
  }

  /** A positive factor can be cancelled from a strict inequality. */
  lemma CancelFactor(k: nat, a: nat, b: nat)
    requires k > 0 && k * a < k * b
    ensures a < b
  {
    assert k * b - k * a == k * (b - a);
  }

  /** The percentage of a score that does not exceed the number of questions is between 0 and 100. */
  lemma PercentageBounded(score: nat, total: nat)
    requires score <= total
    ensures Percentage(score, total) <= 100
  {
    if total > 0 {
      var p := Percentage(score, total);
      assert 200 * score <= 200 * total;
      CancelFactor(2 * total, p, 101);
    }
  }

  /** All questions right gives 100 percent and the excellent tier. */
  lemma PerfectScoreIsExcellent(total: nat)
    requires total > 0
    ensures Percentage(total, total) == 100
    ensures MessageFor(Percentage(total, total)) == ExcellentWork
  {
    var p := Percentage(total, total);
    assert 2 * total * 101 == 202 * total && 2 * total * 100 == 200 * total;
    CancelFactor(2 * total, p, 101);
    CancelFactor(2 * total, 100, p + 1);
  }

  /** Four right out of five is exactly 80 percent, which the strict comparison puts in the good tier. */
  lemma FourOfFiveIsGood()
    ensures Percentage(4, 5) == 80
    ensures MessageFor(Percentage(4, 5)) == GoodJob
  {
  }

  /** For a fixed number of questions, more correct answers never give a lower percentage. */
  lemma PercentageMonotone(score1: nat, score2: nat, total: nat)
    requires score1 <= score2
    ensures Percentage(score1, total) <= Percentage(score2, total)
  {
    if total > 0 {
      var p1, p2 := Percentage(score1, total), Percentage(score2, total);
      assert 200 * score1 <= 200 * score2;
      CancelFactor(2 * total, p1, p2 + 1);
    }
  }

  /** For a fixed number of questions, more correct answers never give a lower tier. */
  lemma MessageMonotone(score1: nat, score2: nat, total: nat)
    requires score1 <= score2
    ensures Rank(MessageFor(Percentage(score1, total))) <= Rank(MessageFor(Percentage(score2, total)))
  {
    PercentageMonotone(score1, score2, total);
  }
}
