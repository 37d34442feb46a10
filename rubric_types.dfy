/**
 * The rubric records of `src/types/rubric.ts` and the interval vocabulary the
 * score-bracket code is about: a bracket stands for the closed integer
 * interval [minScore, maxScore].
 */
module RubricTypes {

  /** One row of a rubric's score table. */
  datatype ScoreBracket = ScoreBracket(id: string, minScore: int, maxScore: int, criteria: string)

  /** A range of scores `{ min, max }`, both ends included. */
  datatype ScoreRange = ScoreRange(min: int, max: int)

  /** The rubric edit form: `note` is `""` when the rubric has none. */
  datatype RubricForm = RubricForm(name: string, totalScore: int, brackets: seq<ScoreBracket>, note: string)

  /** The bracket's interval is non-empty. */
  predicate WellFormed(b: ScoreBracket) {
    b.minScore <= b.maxScore
  }

  predicate AllWellFormed(bs: seq<ScoreBracket>) {
    forall b :: b in bs ==> WellFormed(b)
  }

  /** Every bracket lies inside [0, total]. */
  predicate Inside(bs: seq<ScoreBracket>, total: int) {
    forall b :: b in bs ==> 0 <= b.minScore && b.maxScore <= total
  }

  /** The two intervals share no score; sharing an end point is an overlap. */
  predicate Disjoint(a: ScoreBracket, b: ScoreBracket) {
    a.maxScore < b.minScore || b.maxScore < a.minScore
  }

  /** Any two brackets at different positions are disjoint. */
  predicate PairwiseDisjoint(bs: seq<ScoreBracket>) {
    forall i, j :: 0 <= i < |bs| && 0 <= j < |bs| && i != j ==> Disjoint(bs[i], bs[j])
  }

  predicate InBracket(b: ScoreBracket, x: int) {
    b.minScore <= x <= b.maxScore
  }

  /** Some bracket contains the score `x`. */
  predicate Covered(bs: seq<ScoreBracket>, x: int) {
    exists b :: b in bs && InBracket(b, x)
  }

  predicate InRange(r: ScoreRange, x: int) {
    r.min <= x <= r.max
  }

  /** Some range contains the score `x`. */
  predicate InRanges(rs: seq<ScoreRange>, x: int) {
    exists r :: r in rs && InRange(r, x)
  }
}
