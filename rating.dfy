/** `getPerformanceRating` and the percentage `displayResults` hands it. */
module Rating {

  const EXCELLENT: char := 'E'
  const GOOD: char := 'G'
  const NEEDS_IMPROVEMENT: char := 'N'

  /** `correctAnswers * 100.0 / totalQuestions`, computed exactly. */
  function Percentage(correct: int, total: int): (p: real)
    requires total > 0
    ensures p * total as real == correct as real * 100.0
  {
    (correct as real * 100.0) / total as real
  }

  /** `getPerformanceRating`: the thresholds are tried from the top and the
      first that the percentage reaches decides. */
  function GetPerformanceRating(percentage: real): (rating: char)
    ensures rating == EXCELLENT || rating == GOOD || rating == NEEDS_IMPROVEMENT
  {
    if percentage >= 80.0 then EXCELLENT
    else if percentage >= 60.0 then GOOD
    else NEEDS_IMPROVEMENT
  }

  function Rank(rating: char): nat {
    if rating == EXCELLENT then 2 else if rating == GOOD then 1 else 0
  }

  /** A better percentage never gives a worse rating. */
  lemma RatingMonotone(p: real, q: real)
    requires p <= q
    ensures Rank(GetPerformanceRating(p)) <= Rank(GetPerformanceRating(q))
  {
  }

  /** The rating stated on whole numbers: Excellent when 100c >= 80t, Good
      when 80t > 100c >= 60t, Needs Improvement otherwise. */
  function IntegerRating(correct: int, total: int): char {
    if 100 * correct >= 80 * total then EXCELLENT
    else if 100 * correct >= 60 * total then GOOD
    else NEEDS_IMPROVEMENT
  }

  lemma ScaleCompare(x: real, y: real, t: real)
    requires t > 0.0
    ensures x >= y <==> x * t >= y * t
  {
    if x >= y {
      assert (x - y) * t >= 0.0;
    } else {
      assert (y - x) * t > 0.0;
    }
  }

  /** The rating of the percentage of `correct` out of `total` is the
      integer rating. */
  lemma RatingOfPercentage(correct: int, total: int)
    requires total > 0
    ensures GetPerformanceRating(Percentage(correct, total)) == IntegerRating(correct, total)
  {
    var p := Percentage(correct, total);
    ScaleCompare(p, 80.0, total as real);
    ScaleCompare(p, 60.0, total as real);
  }

  /** The boundaries: 80 is Excellent, just under 80 and 60 are Good, just
      under 60 is Needs Improvement; five out of five is 100 and Excellent,
      two out of four is 50 and Needs Improvement. */
  lemma RatingBoundaries()
    ensures GetPerformanceRating(80.0) == EXCELLENT
    ensures GetPerformanceRating(79.9) == GOOD && GetPerformanceRating(60.0) == GOOD
    ensures GetPerformanceRating(59.9) == NEEDS_IMPROVEMENT
    ensures Percentage(5, 5) == 100.0 && IntegerRating(5, 5) == EXCELLENT
    ensures Percentage(2, 4) == 50.0 && IntegerRating(2, 4) == NEEDS_IMPROVEMENT
  {
  }
}
