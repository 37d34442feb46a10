/**
 * AI-detection scores as the application shows them: the risk category,
 * its colour, icon, label and tooltip, and the percentage text
 * (`src/utils/aiDetectionUtils.ts`), and the five-bucket histogram of the
 * analytics chart (`src/components/analytics/charts/AIDetectionDistribution.tsx`).
 */
module AIDetection {
  import opened Wrappers
  import opened Text

  /** `Math.round(score * 100)`, in exact arithmetic: halves round up. */
  function Percent(score: real): int {
    (score * 100.0 + 0.5).Floor
  }

  datatype Risk = Low | Medium | High

  /** The category's place in the order low < medium < high. */
  function Level(c: Risk): nat {
    match c
    case Low => 0
    case Medium => 1
    case High => 2
  }

  /** `getAIDetectionCategory`, given the rounded percentage. */
  function CategoryOf(p: int): Risk {
    if p >= 85 then High else if p >= 60 then Medium else Low
  }

  /** `getAIDetectionColor`, given the rounded percentage. */
  function ColorOf(p: int): string {
    if p >= 85 then "bg-red-100 text-red-700"
    else if p >= 60 then "bg-yellow-100 text-yellow-700"
    else "bg-green-100 text-green-700"
  }

  /** `getAIDetectionTooltip`, given the rounded percentage. */
  function TooltipOf(p: int): string {
    if p >= 85 then "High probability of AI generation (85%+)"
    else if p >= 60 then "Medium probability of AI generation (60-84%)"
    else "Low probability of AI generation (<60%)"
  }

  /** `getAIDetectionIcon`: red, yellow or green circle by category. */
  function IconOf(c: Risk): string {
    match c
    case High => "\U{1F534}"
    case Medium => "\U{1F7E1}"
    case Low => "\U{1F7E2}"
  }

  /** `getAIDetectionLabel`. */
  function LabelOf(c: Risk): string {
    match c
    case High => "High Risk"
    case Medium => "Medium Risk"
    case Low => "Low Risk"
  }

  /** The functions of `aiDetectionUtils.ts` on the score itself. */
  function Category(score: real): Risk { CategoryOf(Percent(score)) }
  function Color(score: real): string { ColorOf(Percent(score)) }
  function Tooltip(score: real): string { TooltipOf(Percent(score)) }
  function Icon(score: real): string { IconOf(Category(score)) }
  function Label(score: real): string { LabelOf(Category(score)) }

  /** `formatAIDetectionScore`: the rounded percentage followed by `%`. */
  function Format(score: real): string {
    IntToString(Percent(score)) + "%"
  }

  /** Exactly one category holds: high from 85, medium from 60 to 84, low below 60. */
  lemma CategoryThresholds(p: int)
    ensures CategoryOf(p) == High <==> p >= 85
    ensures CategoryOf(p) == Medium <==> 60 <= p < 85
    ensures CategoryOf(p) == Low <==> p < 60
  {
  }

  /** Rounding keeps the order of scores. */
  lemma PercentMonotone(s1: real, s2: real)
    requires s1 <= s2
    ensures Percent(s1) <= Percent(s2)
  {
  }

  /** A higher score never falls in a lower category. */
  lemma CategoryMonotone(s1: real, s2: real)
    requires s1 <= s2
    ensures Level(Category(s1)) <= Level(Category(s2))
  {
    PercentMonotone(s1, s2);
  }

  /**
   * The colour and the tooltip use the category's thresholds: each is a
   * function of the category, and different categories get different
   * colours and tooltips; icons and labels are likewise one per category.
   */
  lemma SameThresholds(s1: real, s2: real)
    ensures Color(s1) == Color(s2) <==> Category(s1) == Category(s2)
    ensures Tooltip(s1) == Tooltip(s2) <==> Category(s1) == Category(s2)
    ensures Icon(s1) == Icon(s2) <==> Category(s1) == Category(s2)
    ensures Label(s1) == Label(s2) <==> Category(s1) == Category(s2)
  {
    var p1, p2 := Percent(s1), Percent(s2);
    SameColor(p1, p2);
    SameTooltip(p1, p2);
    SameIcon(Category(s1), Category(s2));
    SameLabel(Category(s1), Category(s2));
  }

  lemma SameColor(p1: int, p2: int)
    ensures ColorOf(p1) == ColorOf(p2) <==> CategoryOf(p1) == CategoryOf(p2)
  {
  }

  lemma SameTooltip(p1: int, p2: int)
    ensures TooltipOf(p1) == TooltipOf(p2) <==> CategoryOf(p1) == CategoryOf(p2)
  {
    TooltipsDistinct();
  }

  lemma TooltipsDistinct()
    ensures TooltipOf(85) != TooltipOf(60) && TooltipOf(85) != TooltipOf(0) && TooltipOf(60) != TooltipOf(0)
  {
  }

  lemma SameIcon(c1: Risk, c2: Risk)
    ensures IconOf(c1) == IconOf(c2) <==> c1 == c2
  {
  }

  lemma SameLabel(c1: Risk, c2: Risk)
    ensures LabelOf(c1) == LabelOf(c2) <==> c1 == c2
  {
  }

  /** The percentage text reads back as the rounded percentage. */
  lemma FormatReadsBack(score: real)
    ensures var f := Format(score);
      f[|f| - 1] == '%' && ParseInt(f[..|f| - 1]) == Some(Percent(score))
  {
    var f := Format(score);
    assert f[..|f| - 1] == IntToString(Percent(score));
    ParseIntOfIntToString(Percent(score));
  }

  // ---------------------------------------------------------------------------
  // The distribution chart
  // ---------------------------------------------------------------------------

  /** The bucket of a rounded percentage; upper bounds inclusive: 0-20, 20-40, 40-60, 60-80, 80-100. */
  function BucketOf(p: int): (b: nat)
    ensures b < 5
  {
    if p <= 20 then 0 else if p <= 40 then 1 else if p <= 60 then 2 else if p <= 80 then 3 else 4
  }

  /** How many of the scores fall in bucket `b`. */
  function CountIn(scores: seq<real>, b: nat): nat {
    if scores == [] then 0
    else (if BucketOf(Percent(scores[0])) == b then 1 else 0) + CountIn(scores[1..], b)
  }

  /** The chart's five counts. */
  function Histogram(scores: seq<real>): (h: seq<nat>)
    ensures |h| == 5
  {
    [CountIn(scores, 0), CountIn(scores, 1), CountIn(scores, 2), CountIn(scores, 3), CountIn(scores, 4)]
  }

  /**
   * The chart's counting loop: five buckets starting at 0, and each score
   * increments the count of its bucket.
   */
  method Distribution(scores: seq<real>) returns (counts: array<nat>)
    ensures fresh(counts) && counts.Length == 5
    ensures counts[..] == Histogram(scores)
  {
    counts := new nat[5](_ => 0);
    for i := 0 to |scores|
      invariant counts.Length == 5
      invariant counts[..] == Histogram(scores[..i])
    {
      var b := BucketOf(Percent(scores[i]));
      counts[b] := counts[b] + 1;
      CountInAppend(scores[..i], scores[i]);
      assert scores[..i + 1] == scores[..i] + [scores[i]];
    }
    assert scores[..|scores|] == scores;
  }

  lemma {:induction false} CountInAppend(scores: seq<real>, x: real)
    ensures forall b: nat ::
      CountIn(scores + [x], b) == CountIn(scores, b) + (if BucketOf(Percent(x)) == b then 1 else 0)
  {
    if scores != [] {
      CountInAppend(scores[1..], x);
      assert (scores + [x])[1..] == scores[1..] + [x];
    } else {
      assert ([] + [x])[1..] == [];
    }
  }

  lemma {:induction false} CountInConcat(a: seq<real>, c: seq<real>, b: nat)
    ensures CountIn(a + c, b) == CountIn(a, b) + CountIn(c, b)
  {
    if a != [] {
      CountInConcat(a[1..], c, b);
      assert (a + c)[1..] == a[1..] + c;
    } else {
      assert a + c == c;
    }
  }

  /** Every score is counted exactly once: the five counts add up to the number of scores. */
  lemma {:induction false} CountsSumToTotal(scores: seq<real>)
    ensures var h := Histogram(scores); h[0] + h[1] + h[2] + h[3] + h[4] == |scores|
  {
    if scores != [] {
      CountsSumToTotal(scores[1..]);
    }
  }

  lemma RemoveOne<T>(s: seq<T>, i: nat)
    requires i < |s|
    ensures multiset(s[..i] + s[i + 1..]) == multiset(s) - multiset{s[i]}
  {
    assert s == s[..i] + [s[i]] + s[i + 1..];
  }

  /** Taking one score out of the list takes it out of its bucket's count. */
  lemma CountInRemove(s: seq<real>, i: nat, b: nat)
    requires i < |s|
    ensures CountIn(s, b) == CountIn(s[..i] + s[i + 1..], b) + (if BucketOf(Percent(s[i])) == b then 1 else 0)
  {
    assert s == s[..i] + [s[i]] + s[i + 1..];
    CountInConcat(s[..i] + [s[i]], s[i + 1..], b);
    CountInConcat(s[..i], [s[i]], b);
    CountInConcat(s[..i], s[i + 1..], b);
    assert [s[i]][1..] == [];
  }

  lemma {:induction false} CountInOrderFree(s1: seq<real>, s2: seq<real>, b: nat)
    requires multiset(s1) == multiset(s2)
    ensures CountIn(s1, b) == CountIn(s2, b)
    decreases |s1|
  {
    if s1 != [] {
      var x := s1[0];
      assert x in multiset(s2);
      var i :| 0 <= i < |s2| && s2[i] == x;
      var rest2 := s2[..i] + s2[i + 1..];
      RemoveOne(s2, i);
      assert multiset(s1) == multiset{x} + multiset(s1[1..]) by {
        assert s1 == [x] + s1[1..];
      }
      assert multiset(s1[1..]) == multiset(rest2);
      CountInOrderFree(s1[1..], rest2, b);
      CountInRemove(s2, i, b);
    } else {
      assert |s2| == |multiset(s2)| == 0;
    }
  }

  /** The counts do not depend on the order of the scores. */
  lemma CountsOrderFree(s1: seq<real>, s2: seq<real>)
    requires multiset(s1) == multiset(s2)
    ensures Histogram(s1) == Histogram(s2)
  {
    CountInOrderFree(s1, s2, 0);
    CountInOrderFree(s1, s2, 1);
    CountInOrderFree(s1, s2, 2);
    CountInOrderFree(s1, s2, 3);
    CountInOrderFree(s1, s2, 4);
  }

  /**
   * The bucket never goes down as the percentage goes up. The buckets and
   * the categories do not share a boundary at 60: a score of exactly 60%
   * is "medium" yet counted in the 40-60% bucket, while every high score
   * is in the top bucket and every score in the two top buckets is at
   * least medium.
   */
  lemma BucketsAndCategories(p: int, q: int)
    ensures p <= q ==> BucketOf(p) <= BucketOf(q)
    ensures BucketOf(60) == 2 && CategoryOf(60) == Medium
    ensures CategoryOf(p) == High ==> BucketOf(p) == 4
    ensures BucketOf(p) >= 3 ==> CategoryOf(p) != Low
  {
  }
}
