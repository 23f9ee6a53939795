/** The numeric fields of a submission: their range rules and the derived
    accuracy percentage (api/leaderboard.js, lines 158-172). */
module Scoring {

  /** A request field after `Number(...)`: an integer, or anything that is not
      one (NaN, a fraction, an infinity). */
  datatype Num = Int(value: int) | NotInteger

  /** The range check of line 168 passes: a positive maximum, a score between
      zero and the maximum, and a non-negative duration. */
  predicate InRange(score: int, maxScore: int, durationMs: int) {
    !(maxScore <= 0 || score < 0 || score > maxScore || durationMs < 0)
  }

  /** Rounding of `n / d` on exact rationals: the nearest integer, halves upward. */
  function RoundHalfUp(n: int, d: int): int
    requires d > 0
  {
    (2 * n + d) / (2 * d)
  }

  /** `x` bounded below by `lo` and above by `hi`. */
  function Clamp(lo: int, hi: int, x: int): int {
    if x > hi then hi else if x < lo then lo else x
  }

  lemma RoundHalfUpIsNearest(n: int, d: int)
    requires d > 0
    ensures d * (2 * RoundHalfUp(n, d) - 1) <= 2 * n < d * (2 * RoundHalfUp(n, d) + 1)
  {
    var q := RoundHalfUp(n, d);
    var m := (2 * n + d) % (2 * d);
    assert 2 * n + d == 2 * d * q + m && 0 <= m < 2 * d;
    assert d * (2 * q - 1) == 2 * d * q - d;
    assert d * (2 * q + 1) == 2 * d * q + d;
  }

  lemma MulCancel(d: int, a: int, b: int)
    requires d > 0
    ensures d * a < d * b ==> a < b
  {
  }

  lemma RoundHalfUpWithin(n: int, d: int)
    requires d > 0
    ensures 0 <= n <= 100 * d ==> 0 <= RoundHalfUp(n, d) <= 100
  {
    var q := RoundHalfUp(n, d);
    RoundHalfUpIsNearest(n, d);
    if 0 <= n <= 100 * d {
      MulCancel(d, 2 * q - 1, 201);
      MulCancel(d, -1, 2 * q + 1);
    }
  }

  /** `accuracyPercent`: always within 0..100, and for a result in range it is
      `score / maxScore * 100` rounded to the nearest integer, halves upward. */
  function AccuracyPercent(score: int, maxScore: int): (r: int)
    requires maxScore > 0
    ensures 0 <= r <= 100
    ensures 0 <= score <= maxScore ==>
      maxScore * (2 * r - 1) <= 200 * score < maxScore * (2 * r + 1)
  {
    RoundHalfUpIsNearest(100 * score, maxScore);
    RoundHalfUpWithin(100 * score, maxScore);
    Clamp(0, 100, RoundHalfUp(100 * score, maxScore))
  }

  /** 80 of 100 is 80 percent. */
  lemma AccuracyScenario()
    ensures AccuracyPercent(80, 100) == 80
  {
  }
}
