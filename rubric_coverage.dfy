/**
 * The interval checks of `src/utils/rubricUtils.ts`:
 * `validateCompleteCoverage` (the gaps a rubric's brackets leave in
 * 0..totalScore), `validateNoOverlaps` and `getCoveragePercentage`. Each one
 * walks a sorted copy of the brackets and never changes its input.
 */
module RubricCoverage {
  import opened Wrappers
  import opened RubricTypes
  import opened BracketSort
  import opened Arith
  import Lists

  // ---------------------------------------------------------------------------
  // The ranges validateCompleteCoverage reports
  // ---------------------------------------------------------------------------

  /** The range in front of the first sorted bracket, when it starts above 0. */
  function LeadingGap(s: seq<ScoreBracket>): seq<ScoreRange>
    requires |s| > 0
  {
    if s[0].minScore > 0 then [ScoreRange(0, s[0].minScore - 1)] else []
  }

  /** The gap between sorted brackets `j` and `j + 1`, when they leave one. */
  function GapAt(s: seq<ScoreBracket>, j: nat): seq<ScoreRange>
    requires j + 1 < |s|
  {
    if s[j].maxScore + 1 < s[j + 1].minScore
    then [ScoreRange(s[j].maxScore + 1, s[j + 1].minScore - 1)]
    else []
  }

  /** The gaps between consecutive sorted brackets among the first `k + 1`, left to right. */
  function GapsUpTo(s: seq<ScoreBracket>, k: nat): seq<ScoreRange>
    requires k < |s|
  {
    if k == 0 then [] else GapsUpTo(s, k - 1) + GapAt(s, k - 1)
  }

  /** The range after the last sorted bracket, when it ends below `total`. */
  function TrailingGap(s: seq<ScoreBracket>, total: int): seq<ScoreRange>
    requires |s| > 0
  {
    var last := s[|s| - 1];
    if last.maxScore < total then [ScoreRange(last.maxScore + 1, total)] else []
  }

  /** `missingRanges` of `validateCompleteCoverage(brackets, total)`. */
  function MissingRanges(brackets: seq<ScoreBracket>, total: int): seq<ScoreRange> {
    if |brackets| == 0 then [ScoreRange(0, total)]
    else
      var s := SortByMin(brackets);
      LeadingGap(s) + GapsUpTo(s, |s| - 1) + TrailingGap(s, total)
  }

  /**
   * `validateCompleteCoverage`: the ranges of 0..totalScore the brackets leave
   * uncovered, found by one pass over the sorted copy, and whether there are none.
   */
  method ValidateCompleteCoverage(brackets: seq<ScoreBracket>, totalScore: int)
    returns (isValid: bool, missingRanges: seq<ScoreRange>)
    ensures missingRanges == MissingRanges(brackets, totalScore)
    ensures isValid <==> missingRanges == []
    ensures brackets == [] ==> !isValid && missingRanges == [ScoreRange(0, totalScore)]
  {
    if |brackets| == 0 {
      return false, [ScoreRange(0, totalScore)];
    }
    var sorted := SortByMin(brackets);
    missingRanges := ScanGaps(sorted, totalScore);
    isValid := |missingRanges| == 0;
  }

  /** The pass of `validateCompleteCoverage` over the sorted copy: leading gap, gaps between neighbours, trailing gap. */
  method ScanGaps(sorted: seq<ScoreBracket>, totalScore: int) returns (missingRanges: seq<ScoreRange>)
    requires |sorted| > 0
    ensures missingRanges == LeadingGap(sorted) + GapsUpTo(sorted, |sorted| - 1) + TrailingGap(sorted, totalScore)
  {
    missingRanges := [];
    if sorted[0].minScore > 0 {
      missingRanges := missingRanges + [ScoreRange(0, sorted[0].minScore - 1)];
    }
    var i := 0;
    while i < |sorted| - 1
      invariant 0 <= i <= |sorted| - 1
      invariant missingRanges == Scanned(sorted, i)
    {
      var current := sorted[i];
      var next := sorted[i + 1];
      if current.maxScore + 1 < next.minScore {
        missingRanges := missingRanges + [ScoreRange(current.maxScore + 1, next.minScore - 1)];
      } else {
        assert missingRanges == missingRanges + [];
      }
      i := i + 1;
    }
    ScannedIsGaps(sorted, i);
    var last := sorted[|sorted| - 1];
    if last.maxScore < totalScore {
      missingRanges := missingRanges + [ScoreRange(last.maxScore + 1, totalScore)];
    }
  }

  /** The ranges the pass has found once it has looked at the first `i + 1` brackets. */
  function Scanned(s: seq<ScoreBracket>, i: nat): seq<ScoreRange>
    requires i < |s|
  {
    if i == 0 then LeadingGap(s) else Scanned(s, i - 1) + GapAt(s, i - 1)
  }

  /** What the pass has found so far is the leading gap and the gaps up to bracket `i`. */
  lemma {:induction false} ScannedIsGaps(s: seq<ScoreBracket>, i: nat)
    requires i < |s|
    ensures Scanned(s, i) == LeadingGap(s) + GapsUpTo(s, i)
  {
    if i == 0 {
      assert LeadingGap(s) + [] == LeadingGap(s);
    } else {
      ScannedIsGaps(s, i - 1);
      Lists.AppendAssoc(LeadingGap(s), GapsUpTo(s, i - 1), GapAt(s, i - 1));
    }
  }

  // ---------------------------------------------------------------------------
  // Shape of the reported ranges
  // ---------------------------------------------------------------------------

  /** Each range is non-empty and ends below the start of the next one. */
  predicate Ascending(rs: seq<ScoreRange>)
    decreases |rs|
  {
    rs == [] ||
    (rs[0].min <= rs[0].max && (|rs| == 1 || rs[0].max < rs[1].min) && Ascending(rs[1..]))
  }

  /** In an ascending list every range is non-empty and ends below the start of every later one. */
  lemma {:induction false} AscendingPairwise(rs: seq<ScoreRange>)
    requires Ascending(rs)
    ensures forall i :: 0 <= i < |rs| ==> rs[i].min <= rs[i].max
    ensures forall i, j :: 0 <= i < j < |rs| ==> rs[i].max < rs[j].min
    decreases |rs|
  {
    if rs != [] {
      var t := rs[1..];
      AscendingPairwise(t);
      forall i | 0 <= i < |rs| ensures rs[i].min <= rs[i].max {
        if i > 0 {
          assert rs[i] == t[i - 1];
        }
      }
      forall i, j | 0 <= i < j < |rs| ensures rs[i].max < rs[j].min {
        assert rs[j] == t[j - 1];
        if i > 0 {
          assert rs[i] == t[i - 1];
        } else if j > 1 {
          assert rs[1] == t[0];
          assert t[0].min <= t[0].max && t[0].max < t[j - 1].min;
        }
      }
    }
  }

  /** The last range of `a` ends below the start of the first range of `b`, when both have one. */
  predicate Precedes(a: seq<ScoreRange>, b: seq<ScoreRange>) {
    a == [] || b == [] || a[|a| - 1].max < b[0].min
  }

  lemma {:induction false} AscendingConcat(a: seq<ScoreRange>, b: seq<ScoreRange>)
    requires Ascending(a)
    requires Ascending(b)
    requires Precedes(a, b)
    ensures Ascending(a + b)
    decreases |a|
  {
    if a == [] {
      assert a + b == b;
    } else {
      var c := a + b;
      assert c[0] == a[0] && c[1..] == a[1..] + b;
      if |a| == 1 {
        assert a[1..] + b == b;
        if b != [] {
          assert c[1] == b[0];
        }
      } else {
        assert Precedes(a[1..], b) by {
          assert a[1..][|a| - 2] == a[|a| - 1];
        }
        AscendingConcat(a[1..], b);
        assert c[1] == a[1];
      }
    }
  }

  /** Every interior gap lies strictly between the first bracket's start and bracket `k`'s start. */
  lemma {:induction false} GapsBounds(s: seq<ScoreBracket>, k: nat)
    requires k < |s| && SortedByMin(s) && AllWellFormed(s)
    ensures forall r :: r in GapsUpTo(s, k) ==> s[0].minScore < r.min && r.max < s[k].minScore
  {
    if k > 0 {
      GapsBounds(s, k - 1);
      assert s[k - 1] in s;
    }
  }

  /** The last range ends below `x`, when there is one. */
  predicate EndsBelow(rs: seq<ScoreRange>, x: int) {
    rs == [] || rs[|rs| - 1].max < x
  }

  /** What the pass has found after bracket `i` is ascending and ends below bracket `i`'s start. */
  lemma {:induction false} ScannedAscending(s: seq<ScoreBracket>, i: nat)
    requires i < |s| && SortedByMin(s) && AllWellFormed(s)
    ensures Ascending(Scanned(s, i)) && EndsBelow(Scanned(s, i), s[i].minScore)
  {
    if i == 0 {
      assert Ascending(LeadingGap(s));
    } else {
      var p, g := Scanned(s, i - 1), GapAt(s, i - 1);
      ScannedAscending(s, i - 1);
      assert s[i - 1] in s;
      assert s[i - 1].minScore <= s[i].minScore;
      assert Ascending(g) && Precedes(p, g);
      AscendingConcat(p, g);
      if g == [] {
        assert p + g == p;
      } else {
        assert (p + g)[|p + g| - 1] == g[0];
      }
    }
  }

  /**
   * For brackets with minScore <= maxScore, the reported ranges are non-empty
   * and strictly ascending, hence pairwise disjoint (for no brackets, when
   * the total is not negative).
   */
  lemma MissingRangesAscending(brackets: seq<ScoreBracket>, total: int)
    requires AllWellFormed(brackets)
    requires brackets == [] ==> total >= 0
    ensures Ascending(MissingRanges(brackets, total))
    ensures forall r :: r in MissingRanges(brackets, total) ==> r.min <= r.max
    ensures var rs := MissingRanges(brackets, total);
      forall i, j :: 0 <= i < j < |rs| ==> rs[i].max < rs[j].min
  {
    if brackets != [] {
      var s := SortByMin(brackets);
      SortKeepsElements(brackets);
      ScanAscending(s, total);
    }
    var rs := MissingRanges(brackets, total);
    AscendingPairwise(rs);
    forall r | r in rs ensures r.min <= r.max {
      var i :| 0 <= i < |rs| && rs[i] == r;
    }
  }

  /** The ranges one pass over sorted, well-formed brackets reports are ascending. */
  lemma ScanAscending(s: seq<ScoreBracket>, total: int)
    requires |s| > 0 && SortedByMin(s) && AllWellFormed(s)
    ensures Ascending(LeadingGap(s) + GapsUpTo(s, |s| - 1) + TrailingGap(s, total))
  {
    var front, trail := Scanned(s, |s| - 1), TrailingGap(s, total);
    ScanThenTrailing(s, total);
    ScannedIsGaps(s, |s| - 1);
    SameFront(front, LeadingGap(s) + GapsUpTo(s, |s| - 1), trail);
  }

  lemma SameFront(a: seq<ScoreRange>, b: seq<ScoreRange>, t: seq<ScoreRange>)
    requires a == b && Ascending(a + t)
    ensures Ascending(b + t)
  {
  }

  /** What the pass found, followed by the trailing gap, is ascending. */
  lemma ScanThenTrailing(s: seq<ScoreBracket>, total: int)
    requires |s| > 0 && SortedByMin(s) && AllWellFormed(s)
    ensures Ascending(Scanned(s, |s| - 1) + TrailingGap(s, total))
  {
    var n := |s|;
    var front, trail := Scanned(s, n - 1), TrailingGap(s, total);
    ScannedAscending(s, n - 1);
    assert s[n - 1] in s;
    AscendingConcat(front, trail);
  }

  // ---------------------------------------------------------------------------
  // The ranges are exactly the uncovered scores
  // ---------------------------------------------------------------------------

  /** Every bracket of the sorted list ends before the next one begins. */
  predicate StrictlyOrdered(s: seq<ScoreBracket>) {
    forall i, j :: 0 <= i < j < |s| ==> s[i].maxScore < s[j].minScore
  }

  /** Sorted, non-empty and pairwise disjoint brackets are strictly ordered. */
  lemma DisjointSortedIsOrdered(s: seq<ScoreBracket>)
    requires SortedByMin(s) && AllWellFormed(s) && PairwiseDisjoint(s)
    ensures StrictlyOrdered(s)
  {
    forall i, j | 0 <= i < j < |s| ensures s[i].maxScore < s[j].minScore {
      assert Disjoint(s[i], s[j]);
      assert s[j] in s;
    }
  }

  lemma InRangesConcat(a: seq<ScoreRange>, b: seq<ScoreRange>, x: int)
    ensures InRanges(a + b, x) <==> InRanges(a, x) || InRanges(b, x)
  {
    if InRanges(a + b, x) {
      var r :| r in a + b && InRange(r, x);
      assert r in a || r in b;
    }
  }

  /** Between the first bracket's start and bracket `k`'s end, the interior gaps are the uncovered scores. */
  lemma {:induction false} GapsExact(s: seq<ScoreBracket>, k: nat, x: int)
    requires k < |s| && StrictlyOrdered(s) && AllWellFormed(s)
    requires s[0].minScore <= x <= s[k].maxScore
    ensures InRanges(GapsUpTo(s, k), x) <==> !Covered(s[..k + 1], x)
  {
    if k == 0 {
      assert s[..1] == [s[0]];
      assert InBracket(s[0], x);
    } else {
      InRangesConcat(GapsUpTo(s, k - 1), GapAt(s, k - 1), x);
      if x <= s[k - 1].maxScore {
        GapsExact(s, k - 1, x);
        assert s[k - 1] in s && s[k] in s;
        assert !InBracket(s[k], x);
        assert !InRanges(GapAt(s, k - 1), x);
        CoveredSnoc(s, k, x);
      } else if x < s[k].minScore {
        InGap(s, k, x);
      } else {
        InNext(s, k, x);
      }
    }
  }

  /** The first `k + 1` brackets cover `x` iff the first `k` do or bracket `k` does. */
  lemma CoveredSnoc(s: seq<ScoreBracket>, k: nat, x: int)
    requires k < |s|
    ensures Covered(s[..k + 1], x) <==> Covered(s[..k], x) || InBracket(s[k], x)
  {
    assert s[..k + 1] == s[..k] + [s[k]];
    if Covered(s[..k + 1], x) {
      var b :| b in s[..k + 1] && InBracket(b, x);
      assert b in s[..k] || b == s[k];
    }
    if InBracket(s[k], x) {
      assert s[k] in s[..k + 1];
    }
  }

  /** A score strictly between brackets `k - 1` and `k` lies in their gap and in none of the first `k + 1` brackets. */
  lemma InGap(s: seq<ScoreBracket>, k: nat, x: int)
    requires 0 < k < |s| && StrictlyOrdered(s) && AllWellFormed(s)
    requires s[k - 1].maxScore < x < s[k].minScore
    ensures InRanges(GapAt(s, k - 1), x) && !Covered(s[..k + 1], x)
  {
    var g := ScoreRange(s[k - 1].maxScore + 1, s[k].minScore - 1);
    assert GapAt(s, k - 1) == [g] && InRange(g, x);
    assert g in GapAt(s, k - 1);
    assert s[k - 1] in s;
    forall b | b in s[..k + 1] ensures !InBracket(b, x) {
      var j :| 0 <= j < k + 1 && s[..k + 1][j] == b;
      assert s[j] == b;
      if j < k - 1 {
        assert s[j].maxScore < s[k - 1].minScore;
      }
    }
  }

  /** A score inside bracket `k` is covered by the first `k + 1` brackets and lies in none of the gaps before it. */
  lemma InNext(s: seq<ScoreBracket>, k: nat, x: int)
    requires 0 < k < |s| && StrictlyOrdered(s) && AllWellFormed(s)
    requires s[k].minScore <= x <= s[k].maxScore
    ensures !InRanges(GapsUpTo(s, k - 1), x) && !InRanges(GapAt(s, k - 1), x) && Covered(s[..k + 1], x)
  {
    assert s[k - 1] in s;
    AfterGaps(s, k - 1, x);
    assert !InRanges(GapAt(s, k - 1), x);
    assert s[k] == s[..k + 1][k] && InBracket(s[k], x);
  }

  /** No interior gap among the first `k + 1` brackets reaches a score from bracket `k`'s start on. */
  lemma AfterGaps(s: seq<ScoreBracket>, k: nat, x: int)
    requires k < |s| && StrictlyOrdered(s) && AllWellFormed(s) && s[k].minScore <= x
    ensures !InRanges(GapsUpTo(s, k), x)
  {
    GapsBoundsOrdered(s, k);
  }

  /** Interior gaps end before bracket `k` starts, whatever their order. */
  lemma GapsBoundsOrdered(s: seq<ScoreBracket>, k: nat)
    requires k < |s| && StrictlyOrdered(s) && AllWellFormed(s)
    ensures forall r :: r in GapsUpTo(s, k) ==> r.max < s[k].minScore
  {
    assert SortedByMin(s) by {
      forall i, j | 0 <= i < j < |s| ensures s[i].minScore <= s[j].minScore {
        assert s[i] in s;
      }
    }
    GapsBounds(s, k);
  }

  /**
   * For well-formed, pairwise-disjoint brackets inside [0, total], a score of
   * 0..total lies in a reported range iff no bracket contains it (that the
   * reported ranges lie inside [0, total] is `MissingRangesInside`).
   */
  lemma MissingRangesExact(brackets: seq<ScoreBracket>, total: int, x: int)
    requires AllWellFormed(brackets) && Inside(brackets, total) && PairwiseDisjoint(brackets)
    requires 0 <= x <= total
    ensures InRanges(MissingRanges(brackets, total), x) <==> !Covered(brackets, x)
  {
    if brackets == [] {
      assert InRange(ScoreRange(0, total), x);
    } else {
      var s := SortByMin(brackets);
      SortKeepsElements(brackets);
      SortKeepsCoverage(brackets, x);
      SortKeepsDisjoint(brackets);
      DisjointSortedIsOrdered(s);
      SortedMissingExact(s, total, x);
    }
  }

  /** MissingRangesExact on the sorted copy. */
  lemma SortedMissingExact(s: seq<ScoreBracket>, total: int, x: int)
    requires s != [] && StrictlyOrdered(s) && AllWellFormed(s) && Inside(s, total)
    requires 0 <= x <= total
    ensures InRanges(LeadingGap(s) + GapsUpTo(s, |s| - 1) + TrailingGap(s, total), x) <==> !Covered(s, x)
  {
    var n := |s|;
    InRangesConcat(LeadingGap(s), GapsUpTo(s, n - 1), x);
    InRangesConcat(LeadingGap(s) + GapsUpTo(s, n - 1), TrailingGap(s, total), x);
    if x < s[0].minScore {
      LeadingCase(s, x);
    } else if x > s[n - 1].maxScore {
      TrailingCase(s, total, x);
    } else {
      MiddleCase(s, total, x);
    }
  }

  /** A score below the first bracket lies in the leading gap and in no bracket. */
  lemma LeadingCase(s: seq<ScoreBracket>, x: int)
    requires s != [] && StrictlyOrdered(s) && AllWellFormed(s)
    requires 0 <= x < s[0].minScore
    ensures InRanges(LeadingGap(s), x) && !Covered(s, x)
    ensures !InRanges(GapsUpTo(s, |s| - 1), x)
  {
    var g := ScoreRange(0, s[0].minScore - 1);
    assert LeadingGap(s) == [g] && InRange(g, x) && g in LeadingGap(s);
    BeforeFirstUncovered(s, x);
  }

  /** A score above the last bracket, up to the total, lies in the trailing gap and in no bracket. */
  lemma TrailingCase(s: seq<ScoreBracket>, total: int, x: int)
    requires s != [] && StrictlyOrdered(s) && AllWellFormed(s)
    requires s[|s| - 1].maxScore < x <= total
    ensures InRanges(TrailingGap(s, total), x) && !Covered(s, x)
    ensures !InRanges(GapsUpTo(s, |s| - 1), x)
  {
    InTrailingGap(s, total, x);
    AfterLastUncovered(s, x);
  }

  lemma InTrailingGap(s: seq<ScoreBracket>, total: int, x: int)
    requires s != [] && s[|s| - 1].maxScore < x <= total
    ensures InRanges(TrailingGap(s, total), x)
  {
    var g := ScoreRange(s[|s| - 1].maxScore + 1, total);
    assert TrailingGap(s, total) == [g];
    assert g in TrailingGap(s, total) && InRange(g, x);
  }

  /** A score between the first bracket's start and the last one's end lies in no outer gap. */
  lemma MiddleCase(s: seq<ScoreBracket>, total: int, x: int)
    requires s != [] && StrictlyOrdered(s) && AllWellFormed(s)
    requires s[0].minScore <= x <= s[|s| - 1].maxScore
    ensures !InRanges(LeadingGap(s), x) && !InRanges(TrailingGap(s, total), x)
    ensures InRanges(GapsUpTo(s, |s| - 1), x) <==> !Covered(s, x)
  {
    var n := |s|;
    GapsExact(s, n - 1, x);
    assert s[..n] == s;
    if s[0].minScore > 0 {
      assert LeadingGap(s) == [ScoreRange(0, s[0].minScore - 1)];
    }
    if s[n - 1].maxScore < total {
      assert TrailingGap(s, total) == [ScoreRange(s[n - 1].maxScore + 1, total)];
    }
  }

  lemma BeforeFirstUncovered(s: seq<ScoreBracket>, x: int)
    requires s != [] && StrictlyOrdered(s) && AllWellFormed(s)
    requires x < s[0].minScore
    ensures !Covered(s, x)
    ensures !InRanges(GapsUpTo(s, |s| - 1), x)
  {
    assert !Covered(s, x) by {
      forall b | b in s ensures !InBracket(b, x) {
        var j :| 0 <= j < |s| && s[j] == b;
        assert s[0].minScore <= s[j].minScore by {
          if j > 0 {
            assert s[0].maxScore < s[j].minScore;
            assert s[0] in s;
          }
        }
      }
    }
    assert !InRanges(GapsUpTo(s, |s| - 1), x) by {
      GapsAboveFirst(s, |s| - 1);
    }
  }

  lemma AfterLastUncovered(s: seq<ScoreBracket>, x: int)
    requires s != [] && StrictlyOrdered(s) && AllWellFormed(s)
    requires x > s[|s| - 1].maxScore
    ensures !Covered(s, x)
    ensures !InRanges(GapsUpTo(s, |s| - 1), x)
  {
    var n := |s|;
    assert s[n - 1] in s;
    forall b | b in s ensures !InBracket(b, x) {
      var j :| 0 <= j < n && s[j] == b;
      if j < n - 1 {
        assert s[j].maxScore < s[n - 1].minScore;
      }
    }
    GapsBoundsOrdered(s, n - 1);
  }

  /** Interior gaps start after the first bracket begins. */
  lemma GapsAboveFirst(s: seq<ScoreBracket>, k: nat)
    requires k < |s| && StrictlyOrdered(s) && AllWellFormed(s)
    ensures forall r :: r in GapsUpTo(s, k) ==> s[0].minScore < r.min
  {
    assert SortedByMin(s) by {
      forall i, j | 0 <= i < j < |s| ensures s[i].minScore <= s[j].minScore {
        assert s[i] in s;
      }
    }
    GapsBounds(s, k);
  }

  /** The reported ranges lie inside [0, total] when the brackets do and the total is not negative. */
  lemma MissingRangesInside(brackets: seq<ScoreBracket>, total: int)
    requires AllWellFormed(brackets) && Inside(brackets, total) && total >= 0
    ensures forall r :: r in MissingRanges(brackets, total) ==> 0 <= r.min && r.max <= total
  {
    if brackets != [] {
      var s := SortByMin(brackets);
      SortKeepsElements(brackets);
      ScanInside(s, total);
      assert RangesInside(MissingRanges(brackets, total), total);
    }
  }

  /** Every range lies inside [0, total]. */
  predicate RangesInside(rs: seq<ScoreRange>, total: int) {
    forall r :: r in rs ==> 0 <= r.min && r.max <= total
  }

  lemma RangesInsideConcat(a: seq<ScoreRange>, b: seq<ScoreRange>, total: int)
    requires RangesInside(a, total) && RangesInside(b, total)
    ensures RangesInside(a + b, total)
  {
  }

  /** MissingRangesInside on the sorted copy. */
  lemma ScanInside(s: seq<ScoreBracket>, total: int)
    requires |s| > 0 && SortedByMin(s) && AllWellFormed(s) && Inside(s, total)
    ensures RangesInside(LeadingGap(s) + GapsUpTo(s, |s| - 1) + TrailingGap(s, total), total)
  {
    LeadingInside(s, total);
    GapsInside(s, total);
    TrailingInside(s, total);
    RangesInsideConcat(LeadingGap(s), GapsUpTo(s, |s| - 1), total);
    RangesInsideConcat(LeadingGap(s) + GapsUpTo(s, |s| - 1), TrailingGap(s, total), total);
  }

  lemma LeadingInside(s: seq<ScoreBracket>, total: int)
    requires |s| > 0 && AllWellFormed(s) && Inside(s, total)
    ensures RangesInside(LeadingGap(s), total)
  {
    assert s[0] in s;
  }

  lemma GapsInside(s: seq<ScoreBracket>, total: int)
    requires |s| > 0 && SortedByMin(s) && AllWellFormed(s) && Inside(s, total)
    ensures RangesInside(GapsUpTo(s, |s| - 1), total)
  {
    var lo, hi := s[0].minScore, s[|s| - 1].minScore;
    assert 0 <= lo && hi <= total by {
      assert s[0] in s && s[|s| - 1] in s;
    }
    assert forall r :: r in GapsUpTo(s, |s| - 1) ==> lo < r.min && r.max < hi by {
      GapsBounds(s, |s| - 1);
    }
    BetweenInside(GapsUpTo(s, |s| - 1), lo, hi, total);
  }

  lemma BetweenInside(rs: seq<ScoreRange>, lo: int, hi: int, total: int)
    requires forall r :: r in rs ==> lo < r.min && r.max < hi
    requires 0 <= lo && hi <= total
    ensures RangesInside(rs, total)
  {
  }

  lemma TrailingInside(s: seq<ScoreBracket>, total: int)
    requires |s| > 0 && AllWellFormed(s) && Inside(s, total)
    ensures RangesInside(TrailingGap(s, total), total)
  {
    assert s[|s| - 1] in s;
  }

  /**
   * validateCompleteCoverage's verdict: for well-formed, pairwise-disjoint
   * brackets inside [0, total], `isValid` holds iff every score 0..total
   * lies in some bracket.
   */
  lemma CompleteIffAllCovered(brackets: seq<ScoreBracket>, total: int)
    requires AllWellFormed(brackets) && Inside(brackets, total) && PairwiseDisjoint(brackets)
    requires total >= 0
    ensures MissingRanges(brackets, total) == [] <==> forall x :: 0 <= x <= total ==> Covered(brackets, x)
  {
    var rs := MissingRanges(brackets, total);
    forall x | 0 <= x <= total ensures InRanges(rs, x) <==> !Covered(brackets, x) {
      MissingRangesExact(brackets, total, x);
    }
    if rs != [] {
      MissingRangesAscending(brackets, total);
      MissingRangesInside(brackets, total);
      assert rs[0] in rs && InRange(rs[0], rs[0].min);
      assert !Covered(brackets, rs[0].min);
    }
  }

  // ---------------------------------------------------------------------------
  // validateNoOverlaps
  // ---------------------------------------------------------------------------

  /** Each sorted bracket ends before its successor starts. */
  predicate AdjacentSeparated(s: seq<ScoreBracket>) {
    forall j :: 0 <= j < |s| - 1 ==> s[j].maxScore < s[j + 1].minScore
  }

  lemma {:induction false} AdjacentToOrdered(s: seq<ScoreBracket>)
    requires AllWellFormed(s) && AdjacentSeparated(s)
    ensures StrictlyOrdered(s)
  {
    if |s| > 1 {
      AdjacentToOrdered(s[1..]);
      forall j | 1 <= j < |s| ensures s[0].maxScore < s[j].minScore {
        if j > 1 {
          assert s[1..][0] == s[1] && s[1..][j - 1] == s[j];
          assert s[1] in s;
        }
      }
      forall i, j | 0 <= i < j < |s| ensures s[i].maxScore < s[j].minScore {
        if i > 0 {
          assert s[1..][i - 1] == s[i] && s[1..][j - 1] == s[j];
        }
      }
    }
  }

  /**
   * For brackets with minScore <= maxScore, adjacent separation of the sorted
   * copy is exactly pairwise disjointness of the input.
   */
  lemma SeparatedIffDisjoint(brackets: seq<ScoreBracket>)
    requires AllWellFormed(brackets)
    ensures AdjacentSeparated(SortByMin(brackets)) <==> PairwiseDisjoint(brackets)
  {
    var s := SortByMin(brackets);
    SortKeepsElements(brackets);
    SortKeepsDisjoint(brackets);
    if PairwiseDisjoint(brackets) {
      DisjointSortedIsOrdered(s);
    }
    if AdjacentSeparated(s) {
      AdjacentToOrdered(s);
      forall i, j | 0 <= i < |s| && 0 <= j < |s| && i != j ensures Disjoint(s[i], s[j]) {
        if i < j {
          assert s[i].maxScore < s[j].minScore;
        } else {
          assert s[j].maxScore < s[i].minScore;
        }
      }
    }
  }

  /**
   * `validateNoOverlaps`: false as soon as one sorted bracket reaches the
   * next one's minScore; for well-formed brackets this is exactly "pairwise
   * disjoint", so a shared end point counts as an overlap.
   */
  method ValidateNoOverlaps(brackets: seq<ScoreBracket>) returns (ok: bool)
    ensures ok <==> AdjacentSeparated(SortByMin(brackets))
    ensures AllWellFormed(brackets) ==> (ok <==> PairwiseDisjoint(brackets))
  {
    var sorted := SortByMin(brackets);
    var i := 0;
    while i < |sorted| - 1
      invariant 0 <= i <= |sorted| || |sorted| == 0
      invariant forall j :: 0 <= j < i && j < |sorted| - 1 ==> sorted[j].maxScore < sorted[j + 1].minScore
    {
      var current := sorted[i];
      var next := sorted[i + 1];
      if current.maxScore >= next.minScore {
        if AllWellFormed(brackets) {
          SeparatedIffDisjoint(brackets);
        }
        return false;
      }
      i := i + 1;
    }
    if AllWellFormed(brackets) {
      SeparatedIffDisjoint(brackets);
    }
    ok := true;
  }

  /**
   * Without well-formedness the verdict can depend on the order: an empty
   * bracket 0..-1 and a bracket 0..3 share `minScore`, the stable sort keeps
   * them as given, and only the order with the empty one first passes.
   */
  lemma IllFormedOrderMatters()
    ensures var x, y := ScoreBracket("x", 0, -1, "x"), ScoreBracket("y", 0, 3, "y");
      multiset([x, y]) == multiset([y, x]) &&
      AdjacentSeparated(SortByMin([x, y])) && !AdjacentSeparated(SortByMin([y, x]))
  {
    var x, y := ScoreBracket("x", 0, -1, "x"), ScoreBracket("y", 0, 3, "y");
    SortPair(x, y);
    SortPair(y, x);
  }

  /** Two brackets with the same `minScore` stay in their order. */
  lemma SortPair(x: ScoreBracket, y: ScoreBracket)
    requires x.minScore == y.minScore
    ensures SortByMin([x, y]) == [x, y]
  {
    assert [x, y][1..] == [y];
    assert SortByMin([y]) == [y] by {
      assert [y][1..] == [];
    }
    assert Insert(x, [y]) == [x, y];
  }

  /** For well-formed brackets the overlap verdict does not depend on the input order. */
  lemma NoOverlapsOrderFree(a: seq<ScoreBracket>, b: seq<ScoreBracket>)
    requires multiset(a) == multiset(b) && AllWellFormed(a)
    ensures AllWellFormed(b)
    ensures AdjacentSeparated(SortByMin(a)) <==> AdjacentSeparated(SortByMin(b))
  {
    SameElements(a, b);
    SeparatedIffDisjoint(a);
    SeparatedIffDisjoint(b);
    PermutationKeepsDisjoint(a, b);
  }

  // ---------------------------------------------------------------------------
  // getCoveragePercentage
  // ---------------------------------------------------------------------------

  /** The number of scores a bracket spans. */
  function Width(b: ScoreBracket): int {
    b.maxScore - b.minScore + 1
  }

  /** The summed widths: overlapping scores are counted once per bracket. */
  function SumWidths(s: seq<ScoreBracket>): int {
    if s == [] then 0 else Width(s[0]) + SumWidths(s[1..])
  }

  lemma {:induction false} SumWidthsConcat(a: seq<ScoreBracket>, b: seq<ScoreBracket>)
    ensures SumWidths(a + b) == SumWidths(a) + SumWidths(b)
  {
    if a != [] {
      SumWidthsConcat(a[1..], b);
      assert (a + b)[0] == a[0];
      assert (a + b)[1..] == a[1..] + b;
    } else {
      assert a + b == b;
    }
  }

  lemma SumWidthsSplice(u: seq<ScoreBracket>, x: ScoreBracket, v: seq<ScoreBracket>)
    ensures SumWidths(u + [x] + v) == Width(x) + SumWidths(u + v)
  {
    SumWidthsConcat(u + [x], v);
    SumWidthsConcat(u, [x]);
    SumWidthsConcat(u, v);
    assert [x][1..] == [];
  }

  /** The summed width does not depend on the order of the brackets. */
  lemma {:induction false} SumWidthsPermutation(a: seq<ScoreBracket>, b: seq<ScoreBracket>)
    requires multiset(a) == multiset(b)
    ensures SumWidths(a) == SumWidths(b)
    decreases |a|
  {
    if a == [] {
      assert |b| == |multiset(b)| == 0;
    } else {
      var x := a[0];
      assert x in multiset(a);
      assert x in b;
      var p :| 0 <= p < |b| && b[p] == x;
      var b' := RemoveAt(b, p);
      RemoveMatching(a, b, p);
      SumWidthsPermutation(a[1..], b');
      SumWidthsSplice(b'[..p], x, b'[p..]);
      assert b'[..p] + b'[p..] == b';
    }
  }

  /** `Math.round(n / d * 100)` computed exactly (half-up), `None` when `d` is 0 (NaN or Infinity). */
  function RoundedPercent(n: int, d: int): Option<int> {
    if d == 0 then None
    else if d > 0 then Some((200 * n + d) / (2 * d))
    else Some((-(200 * n + d)) / (-2 * d))
  }

  /**
   * `getCoveragePercentage`: 0 for no brackets, otherwise the summed widths of
   * the brackets as a rounded percentage of the totalScore + 1 scores.
   */
  method GetCoveragePercentage(brackets: seq<ScoreBracket>, totalScore: int) returns (p: Option<int>)
    ensures brackets == [] ==> p == Some(0)
    ensures brackets != [] ==> p == RoundedPercent(SumWidths(brackets), totalScore + 1)
  {
    if |brackets| == 0 {
      return Some(0);
    }
    var sorted := SortByMin(brackets);
    var coveredPoints := 0;
    var i := 0;
    while i < |sorted|
      invariant 0 <= i <= |sorted|
      invariant coveredPoints == SumWidths(sorted[..i])
    {
      var bracket := sorted[i];
      SumWidthsStep(sorted, i);
      coveredPoints := coveredPoints + bracket.maxScore - bracket.minScore + 1;
      i := i + 1;
    }
    assert sorted[..|sorted|] == sorted;
    SumWidthsPermutation(sorted, brackets);
    p := RoundedPercent(coveredPoints, totalScore + 1);
  }

  /** Adding the next bracket's width to the sum over a prefix. */
  lemma SumWidthsStep(s: seq<ScoreBracket>, i: nat)
    requires i < |s|
    ensures SumWidths(s[..i + 1]) == SumWidths(s[..i]) + s[i].maxScore - s[i].minScore + 1
  {
    SumWidthsConcat(s[..i], [s[i]]);
    assert s[..i + 1] == s[..i] + [s[i]];
    assert [s[i]][1..] == [];
  }

  /** Strictly ordered brackets span at most the scores from the first start to the last end. */
  lemma {:induction false} SumWidthsOrdered(s: seq<ScoreBracket>)
    requires s != [] && StrictlyOrdered(s) && AllWellFormed(s)
    ensures SumWidths(s) <= s[|s| - 1].maxScore - s[0].minScore + 1
  {
    if |s| > 1 {
      SumWidthsOrdered(s[1..]);
      assert s[1..][0] == s[1] && s[0].maxScore < s[1].minScore;
    }
  }

  /** ... and exactly those scores when each bracket starts right after the previous one ends. */
  lemma {:induction false} SumWidthsContiguous(s: seq<ScoreBracket>)
    requires s != []
    requires forall j :: 0 <= j < |s| - 1 ==> s[j + 1].minScore == s[j].maxScore + 1
    ensures SumWidths(s) == s[|s| - 1].maxScore - s[0].minScore + 1
  {
    if |s| > 1 {
      SumWidthsContiguous(s[1..]);
      assert s[1..][0] == s[1];
    }
  }

  lemma {:induction false} NoGapsUpTo(s: seq<ScoreBracket>, k: nat)
    requires k < |s| && GapsUpTo(s, k) == []
    ensures forall j :: 0 <= j < k ==> s[j + 1].minScore <= s[j].maxScore + 1
  {
    if k > 0 {
      var g, h := GapsUpTo(s, k - 1), GapAt(s, k - 1);
      assert |g| + |h| == 0 by {
        assert g + h == [];
      }
      NoGapsUpTo(s, k - 1);
      assert s[k].minScore <= s[k - 1].maxScore + 1 by {
        assert h == [];
      }
    }
  }

  lemma PercentOfWhole(d: int)
    requires d > 0
    ensures RoundedPercent(d, d) == Some(100)
  {
    DivExact(200 * d + d, 2 * d, 100, d);
  }

  lemma PercentAtMostWhole(n: int, d: int)
    requires d > 0 && n <= d
    ensures RoundedPercent(n, d).value <= 100
  {
    QuotientBelow(200 * n + d, 2 * d, 101);
  }

  /**
   * Coverage percentage of brackets that tile 0..total without overlap (the
   * rubric validateCompleteCoverage accepts): exactly 100.
   */
  lemma TiledCoverageIsWhole(brackets: seq<ScoreBracket>, total: int)
    requires AllWellFormed(brackets) && Inside(brackets, total) && PairwiseDisjoint(brackets)
    requires brackets != [] && MissingRanges(brackets, total) == []
    ensures SumWidths(brackets) == total + 1
    ensures RoundedPercent(SumWidths(brackets), total + 1) == Some(100)
  {
    var s := SortByMin(brackets);
    SortKeepsElements(brackets);
    SortKeepsDisjoint(brackets);
    DisjointSortedIsOrdered(s);
    TiledSortedWidth(s, total);
    SumWidthsPermutation(s, brackets);
    assert brackets[0] in brackets;
    PercentOfWhole(total + 1);
  }

  /** TiledCoverageIsWhole on the sorted copy. */
  lemma TiledSortedWidth(s: seq<ScoreBracket>, total: int)
    requires s != [] && StrictlyOrdered(s) && AllWellFormed(s) && Inside(s, total)
    requires LeadingGap(s) + GapsUpTo(s, |s| - 1) + TrailingGap(s, total) == []
    ensures SumWidths(s) == total + 1
  {
    var n := |s|;
    assert s[0] in s && s[n - 1] in s;
    assert LeadingGap(s) == [] && TrailingGap(s, total) == [];
    NoGapsContiguous(s);
    SumWidthsContiguous(s);
  }

  lemma NoGapsContiguous(s: seq<ScoreBracket>)
    requires s != [] && StrictlyOrdered(s) && GapsUpTo(s, |s| - 1) == []
    ensures forall j :: 0 <= j < |s| - 1 ==> s[j + 1].minScore == s[j].maxScore + 1
  {
    NoGapsUpTo(s, |s| - 1);
  }

  /** Without overlaps the percentage never passes 100. */
  lemma DisjointCoverageAtMostWhole(brackets: seq<ScoreBracket>, total: int)
    requires AllWellFormed(brackets) && Inside(brackets, total) && PairwiseDisjoint(brackets)
    requires brackets != [] && total >= 0
    ensures SumWidths(brackets) <= total + 1
    ensures RoundedPercent(SumWidths(brackets), total + 1).value <= 100
  {
    var s := SortByMin(brackets);
    SortKeepsElements(brackets);
    SortKeepsDisjoint(brackets);
    DisjointSortedIsOrdered(s);
    assert s[0] in s && s[|s| - 1] in s;
    SumWidthsOrdered(s);
    SumWidthsPermutation(s, brackets);
    PercentAtMostWhole(SumWidths(brackets), total + 1);
  }

  /** Overlapping scores count twice: two copies of a full bracket give 200. */
  lemma OverlapCountsTwice(total: int)
    requires total >= 0
    ensures var b := ScoreBracket("bracket-0", 0, total, "all");
            RoundedPercent(SumWidths([b, b]), total + 1) == Some(200)
  {
    var b := ScoreBracket("bracket-0", 0, total, "all");
    assert SumWidths([b, b]) == 2 * (total + 1) by {
      assert [b][1..] == [];
      assert SumWidths([b]) == Width(b) + SumWidths([]);
      assert [b, b][1..] == [b];
      assert SumWidths([b, b]) == Width(b) + SumWidths([b]);
    }
    var d := total + 1;
    DivExact(200 * (2 * d) + d, 2 * d, 200, d);
  }
}
