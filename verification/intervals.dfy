/** The half-open interval test `overlaps` shared by slot rendering and the commit-time re-check. */
module Intervals {

  function Max(a: int, b: int): int { if a >= b then a else b }
  function Min(a: int, b: int): int { if a <= b then a else b }

  /** Hour `t` lies in the half-open interval `[s, s+d)`. */
  predicate Within(t: int, s: int, d: int) {
    s <= t < s + d
  }

  /**
   * `[s, s+d)` and `[b, b+bd)` intersect: the later start lies before the
   * earlier end. Then both are non-empty and the later start is an hour of
   * both; for non-empty intervals it is the usual "each starts before the
   * other ends".
   */
  predicate Overlaps(s: int, d: int, b: int, bd: int): (r: bool)
    ensures r ==> 0 < d && 0 < bd && Within(Max(s, b), s, d) && Within(Max(s, b), b, bd)
    ensures 0 < d && 0 < bd ==> (r <==> s < b + bd && b < s + d)
  {
    Max(s, b) < Min(s + d, b + bd)
  }

  /** The test does not depend on which interval comes first. */
  lemma OverlapsSymmetric(s: int, d: int, b: int, bd: int)
    ensures Overlaps(s, d, b, bd) <==> Overlaps(b, bd, s, d)
  {
  }

  /**
   * For all integers: the intervals overlap exactly when both are non-empty and
   * each starts before the other ends. With positive durations that is the
   * familiar `s < b + bd && b < s + d`.
   */
  lemma OverlapsIff(s: int, d: int, b: int, bd: int)
    ensures Overlaps(s, d, b, bd) <==> 0 < d && 0 < bd && s < b + bd && b < s + d
  {
  }

  /** Overlap means sharing an hour: some integer hour `t` lies in both intervals. */
  lemma OverlapsShareHour(s: int, d: int, b: int, bd: int)
    ensures Overlaps(s, d, b, bd) <==> exists t :: Within(t, s, d) && Within(t, b, bd)
  {
    if Overlaps(s, d, b, bd) {
      assert Within(Max(s, b), s, d) && Within(Max(s, b), b, bd);
    }
  }

  /** Adjacent bookings do not clash; bookings sharing an hour do. */
  lemma OverlapsExamples()
    ensures !Overlaps(9, 2, 11, 2)
    ensures Overlaps(9, 2, 10, 2)
    ensures !Overlaps(11, 2, 9, 2)
    ensures !Overlaps(9, 0, 9, 2)
  {
  }
}
