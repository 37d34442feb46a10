/**
 * The bracket dialog of `src/components/rubric/AddBracketModal.tsx`: the
 * form check `validateForm`, the bracket `handleSubmit` builds from an
 * accepted form, and `getAvailableRanges`, the score ranges still free for a
 * new bracket.
 */
module AddBracketModal {
  import opened Wrappers
  import opened RubricTypes
  import opened BracketSort
  import opened RubricCoverage
  import opened Text

  /** The three text fields of the dialog. */
  datatype BracketForm = BracketForm(minScore: string, maxScore: string, criteria: string)

  /** What the dialog hands to its parent on submit: nothing but the errors, or one bracket through `onAdd` or `onEdit`. */
  datatype Submission = Rejected(errors: seq<string>) | Added(bracket: ScoreBracket) | Edited(bracket: ScoreBracket)

  const AllFieldsRequired := "All fields are required"
  const NotNumbers := "Scores must be valid numbers"
  const MinAboveMax := "Minimum score cannot be " + "greater than maximum score"
  const OverlapsExisting := "This score range overlaps " + "with an existing bracket"

  function OutOfRange(totalScore: int): string {
    "Scores must be between 0 and " + IntToString(totalScore)
  }

  /** The form as the dialog fills it when it opens: the edited bracket's values, or empty fields. */
  function FormOf(editing: Option<ScoreBracket>): BracketForm {
    match editing
    case None => BracketForm("", "", "")
    case Some(b) => BracketForm(IntToString(b.minScore), IntToString(b.maxScore), b.criteria)
  }

  /** The brackets a candidate is checked against: every existing bracket except those with the edited bracket's id. */
  function OtherBrackets(existing: seq<ScoreBracket>, editing: Option<ScoreBracket>): (r: seq<ScoreBracket>)
    ensures |r| <= |existing|
    ensures forall b :: b in r <==> b in existing && (editing.Some? ==> b.id != editing.value.id)
  {
    if existing == [] then []
    else
      var rest := OtherBrackets(existing[1..], editing);
      assert existing == [existing[0]] + existing[1..];
      if editing.Some? && existing[0].id == editing.value.id then rest else [existing[0]] + rest
  }

  /** The dialog's overlap test for the candidate range [lo, hi] against `b`. */
  predicate Overlaps(lo: int, hi: int, b: ScoreBracket) {
    !(hi < b.minScore || lo > b.maxScore)
  }

  /** `validateForm`: the checks run in order and the first one that fails gives the only message. */
  function ValidateForm(form: BracketForm, totalScore: int, existing: seq<ScoreBracket>, editing: Option<ScoreBracket>)
    : (errors: seq<string>)
    ensures |errors| <= 1
  {
    var lo := ParseInt(form.minScore);
    var hi := ParseInt(form.maxScore);
    if Trim(form.minScore) == [] || Trim(form.maxScore) == [] || Trim(form.criteria) == [] then
      [AllFieldsRequired]
    else if lo.None? || hi.None? then
      [NotNumbers]
    else if lo.value < 0 || hi.value < 0 || lo.value > totalScore || hi.value > totalScore then
      [OutOfRange(totalScore)]
    else if lo.value > hi.value then
      [MinAboveMax]
    else if exists b :: b in OtherBrackets(existing, editing) && Overlaps(lo.value, hi.value, b) then
      [OverlapsExisting]
    else
      []
  }

  /**
   * What an accepted form guarantees, stated over brackets: three non-blank
   * fields, two integers with 0 <= min <= max <= totalScore, and a range
   * disjoint from every other bracket.
   */
  predicate Acceptable(form: BracketForm, totalScore: int, existing: seq<ScoreBracket>, editing: Option<ScoreBracket>) {
    var lo := ParseInt(form.minScore);
    var hi := ParseInt(form.maxScore);
    Trim(form.minScore) != [] && Trim(form.maxScore) != [] && Trim(form.criteria) != [] &&
    lo.Some? && hi.Some? && 0 <= lo.value <= hi.value <= totalScore &&
    forall b :: b in OtherBrackets(existing, editing) ==> Disjoint(ScoreBracket("", lo.value, hi.value, ""), b)
  }

  /** The form passes exactly when it is acceptable. */
  lemma ValidateFormAccepts(form: BracketForm, totalScore: int, existing: seq<ScoreBracket>, editing: Option<ScoreBracket>)
    ensures ValidateForm(form, totalScore, existing, editing) == [] <==> Acceptable(form, totalScore, existing, editing)
  {
    var lo := ParseInt(form.minScore);
    var hi := ParseInt(form.maxScore);
    if lo.Some? && hi.Some? {
      OverlapIsNotDisjoint(lo.value, hi.value, OtherBrackets(existing, editing));
    }
  }

  /** The dialog's overlap test is the negation of disjointness from the candidate bracket. */
  lemma OverlapIsNotDisjoint(lo: int, hi: int, others: seq<ScoreBracket>)
    ensures (exists b :: b in others && Overlaps(lo, hi, b)) <==>
            !forall b :: b in others ==> Disjoint(ScoreBracket("", lo, hi, ""), b)
  {
    forall b ensures Overlaps(lo, hi, b) <==> !Disjoint(ScoreBracket("", lo, hi, ""), b) {
    }
  }

  /**
   * The order of the checks: a blank field hides every other problem, a
   * non-number hides the range problems, a score outside [0, totalScore]
   * hides min > max, and an overlap is only reported for an ordered range
   * inside the bounds.
   */
  lemma ValidateFormOrder(form: BracketForm, totalScore: int, existing: seq<ScoreBracket>, editing: Option<ScoreBracket>)
    ensures var errors := ValidateForm(form, totalScore, existing, editing);
      (errors == [AllFieldsRequired] <==>
        Trim(form.minScore) == [] || Trim(form.maxScore) == [] || Trim(form.criteria) == []) &&
      (errors == [NotNumbers] ==>
        Trim(form.minScore) != [] && Trim(form.maxScore) != [] && Trim(form.criteria) != []) &&
      (errors == [OutOfRange(totalScore)] ==>
        ParseInt(form.minScore).Some? && ParseInt(form.maxScore).Some?) &&
      (errors == [MinAboveMax] ==>
        0 <= ParseInt(form.maxScore).value < ParseInt(form.minScore).value <= totalScore) &&
      (errors == [OverlapsExisting] ==>
        0 <= ParseInt(form.minScore).value <= ParseInt(form.maxScore).value <= totalScore &&
        exists b :: b in OtherBrackets(existing, editing) &&
          !Disjoint(ScoreBracket("", ParseInt(form.minScore).value, ParseInt(form.maxScore).value, ""), b))
  {
    MessagesDiffer(totalScore);
  }

  /** The five messages are distinct, so a message identifies the check that failed. */
  lemma MessagesDiffer(totalScore: int)
    ensures AllFieldsRequired != NotNumbers && AllFieldsRequired != MinAboveMax && AllFieldsRequired != OverlapsExisting
    ensures NotNumbers != MinAboveMax && NotNumbers != OverlapsExisting && MinAboveMax != OverlapsExisting
    ensures OutOfRange(totalScore) !in {AllFieldsRequired, NotNumbers, MinAboveMax, OverlapsExisting}
  {
    var m := OutOfRange(totalScore);
    assert |AllFieldsRequired| == 23 && |NotNumbers| == 28 && |MinAboveMax| == 50 && |OverlapsExisting| == 50;
    assert m[15] == 'b' && NotNumbers[15] == 'v';
    assert m[0] == 'S' && AllFieldsRequired[0] == 'A';
    assert MinAboveMax[0] == 'M' && OverlapsExisting[0] == 'T';
  }

  /** `${n}` never starts or ends with whitespace and is never empty. */
  lemma IntToStringNotBlank(n: int)
    ensures Trim(IntToString(n)) == IntToString(n) != []
  {
    var s := IntToString(n);
    if n < 0 {
      assert s[|s| - 1] == NatToString(-n)[|NatToString(-n)| - 1];
    }
    TrimOfTrimmed(s);
  }

  /**
   * Re-saving the edited bracket unchanged passes the check: its own id is
   * left out of the overlap test, so a well-formed bracket inside the bounds
   * that is disjoint from the brackets with other ids is accepted.
   */
  lemma ResaveUnchanged(b: ScoreBracket, totalScore: int, existing: seq<ScoreBracket>)
    requires 0 <= b.minScore <= b.maxScore <= totalScore && Trim(b.criteria) != []
    requires forall c :: c in existing && c.id != b.id ==> Disjoint(b, c)
    ensures ValidateForm(FormOf(Some(b)), totalScore, existing, Some(b)) == []
  {
    var form := FormOf(Some(b));
    ParseIntOfIntToString(b.minScore);
    ParseIntOfIntToString(b.maxScore);
    IntToStringNotBlank(b.minScore);
    IntToStringNotBlank(b.maxScore);
    forall c | c in OtherBrackets(existing, Some(b)) ensures !Overlaps(b.minScore, b.maxScore, c) {
      assert Disjoint(b, c);
    }
  }

  /**
   * `handleSubmit`: a rejected form only shows its errors; an accepted one
   * becomes a bracket with the edited bracket's id (a fresh
   * `bracket-<now>` id when adding, or when that id is empty), the parsed
   * scores and the trimmed criteria, sent to `onEdit` when editing and to
   * `onAdd` otherwise. `now` stands for `Date.now()`.
   */
  function HandleSubmit(form: BracketForm, totalScore: int, existing: seq<ScoreBracket>,
                        editing: Option<ScoreBracket>, now: int): Submission
  {
    var errors := ValidateForm(form, totalScore, existing, editing);
    if errors != [] then Rejected(errors)
    else
      var id := if editing.Some? && editing.value.id != "" then editing.value.id else "bracket-" + IntToString(now);
      var b := ScoreBracket(id, ParseInt(form.minScore).value, ParseInt(form.maxScore).value, Trim(form.criteria));
      if editing.Some? then Edited(b) else Added(b)
  }

  /**
   * What `handleSubmit` emits: a bracket exactly when the form is acceptable;
   * that bracket lies in [0, totalScore], is well-formed, is disjoint from
   * every other bracket, carries the trimmed criteria and, when editing, the
   * edited bracket's non-empty id; exactly one of `onAdd`/`onEdit` receives it.
   */
  lemma SubmitEmitsAcceptedBracket(form: BracketForm, totalScore: int, existing: seq<ScoreBracket>,
                                   editing: Option<ScoreBracket>, now: int)
    ensures var s := HandleSubmit(form, totalScore, existing, editing, now);
      (s.Rejected? <==> !Acceptable(form, totalScore, existing, editing)) &&
      (s.Rejected? ==> |s.errors| == 1) &&
      (!s.Rejected? ==>
        (s.Edited? <==> editing.Some?) &&
        0 <= s.bracket.minScore <= s.bracket.maxScore <= totalScore &&
        s.bracket.criteria == Trim(form.criteria) && s.bracket.criteria != [] &&
        (forall b :: b in OtherBrackets(existing, editing) ==> Disjoint(s.bracket, b)) &&
        (editing.Some? && editing.value.id != "" ==> s.bracket.id == editing.value.id))
  {
    ValidateFormAccepts(form, totalScore, existing, editing);
    var errors := ValidateForm(form, totalScore, existing, editing);
    var s := HandleSubmit(form, totalScore, existing, editing, now);
    if errors == [] {
      var lo, hi := ParseInt(form.minScore).value, ParseInt(form.maxScore).value;
      assert s.bracket.minScore == lo && s.bracket.maxScore == hi;
      forall c | c in OtherBrackets(existing, editing) ensures Disjoint(s.bracket, c) {
        assert Disjoint(ScoreBracket("", lo, hi, ""), c);
      }
    } else {
      assert s == Rejected(errors);
    }
  }

  // ---------------------------------------------------------------------------
  // getAvailableRanges
  // ---------------------------------------------------------------------------

  /**
   * The ranges `getAvailableRanges` lists, in terms of the gaps
   * `validateCompleteCoverage` reports for the other brackets: the two
   * agree, except that with no other bracket and a negative total the
   * dialog lists nothing where the coverage check reports `{0, total}`.
   */
  function AvailableRanges(existing: seq<ScoreBracket>, editing: Option<ScoreBracket>, totalScore: int): seq<ScoreRange> {
    var others := OtherBrackets(existing, editing);
    if others == [] && totalScore < 0 then [] else MissingRanges(others, totalScore)
  }

  /** Where the walk over the sorted brackets resumes after its first `i` brackets. */
  function ResumeAt(sorted: seq<ScoreBracket>, i: nat): int
    requires i <= |sorted|
  {
    if i == 0 then 0 else sorted[i - 1].maxScore + 1
  }

  /** The ranges the walk has emitted after its first `i` brackets. */
  function Walked(sorted: seq<ScoreBracket>, i: nat): seq<ScoreRange>
    requires i <= |sorted|
  {
    if i == 0 then [] else LeadingGap(sorted) + GapsUpTo(sorted, i - 1)
  }

  /** The walk past bracket `i` emits the stretch below it that lies above the resume point, and nothing else. */
  lemma WalkStep(sorted: seq<ScoreBracket>, i: nat)
    requires i < |sorted|
    ensures Walked(sorted, i + 1) ==
      Walked(sorted, i) + (if ResumeAt(sorted, i) < sorted[i].minScore
                           then [ScoreRange(ResumeAt(sorted, i), sorted[i].minScore - 1)] else [])
  {
    if i > 0 {
      assert GapsUpTo(sorted, i) == GapsUpTo(sorted, i - 1) + GapAt(sorted, i - 1);
    }
  }

  /**
   * `getAvailableRanges`: walks the other brackets in ascending `minScore`,
   * emitting the stretch below each bracket that lies above the previous
   * bracket's end, then the stretch above the last bracket up to `totalScore`.
   */
  method GetAvailableRanges(existing: seq<ScoreBracket>, editing: Option<ScoreBracket>, totalScore: int)
    returns (ranges: seq<ScoreRange>)
    ensures ranges == AvailableRanges(existing, editing, totalScore)
    ensures forall r :: r in ranges ==> r.min <= r.max
  {
    var sorted := SortByMin(OtherBrackets(existing, editing));
    ranges := WalkAvailable(sorted, totalScore);
    AvailableRangesOfSorted(existing, editing, totalScore);
  }

  /** The walk of `getAvailableRanges` over the sorted other brackets. */
  method WalkAvailable(sorted: seq<ScoreBracket>, totalScore: int) returns (ranges: seq<ScoreRange>)
    ensures ranges == if sorted == [] then (if totalScore >= 0 then [ScoreRange(0, totalScore)] else [])
                      else Walked(sorted, |sorted|) + TrailingGap(sorted, totalScore)
    ensures forall r :: r in ranges ==> r.min <= r.max
  {
    ranges := [];
    var currentMin := 0;
    for i := 0 to |sorted|
      invariant currentMin == ResumeAt(sorted, i)
      invariant ranges == Walked(sorted, i)
      invariant forall r :: r in ranges ==> r.min <= r.max
    {
      var bracket := sorted[i];
      WalkStep(sorted, i);
      if currentMin < bracket.minScore {
        ranges := ranges + [ScoreRange(currentMin, bracket.minScore - 1)];
      }
      currentMin := bracket.maxScore + 1;
    }
    if sorted != [] {
      assert currentMin == sorted[|sorted| - 1].maxScore + 1;
    }
    if currentMin <= totalScore {
      ranges := ranges + [ScoreRange(currentMin, totalScore)];
    }
  }

  /** With no other bracket, the only available range is the whole of 0..totalScore (none for a negative total). */
  lemma AvailableWhenAlone(existing: seq<ScoreBracket>, editing: Option<ScoreBracket>, totalScore: int)
    requires OtherBrackets(existing, editing) == []
    ensures AvailableRanges(existing, editing, totalScore) == (if totalScore >= 0 then [ScoreRange(0, totalScore)] else [])
  {
  }

  /** AvailableRanges spelled out over the sorted other brackets. */
  lemma AvailableRangesOfSorted(existing: seq<ScoreBracket>, editing: Option<ScoreBracket>, totalScore: int)
    ensures var s := SortByMin(OtherBrackets(existing, editing));
      AvailableRanges(existing, editing, totalScore) ==
        if s == [] then (if totalScore >= 0 then [ScoreRange(0, totalScore)] else [])
        else Walked(s, |s|) + TrailingGap(s, totalScore)
  {
  }

  /** With no bracket being edited, the dialog lists exactly the gaps the coverage check reports, once the total is not negative or some bracket exists. */
  lemma AvailableMatchesCoverage(existing: seq<ScoreBracket>, totalScore: int)
    requires existing != [] || totalScore >= 0
    ensures AvailableRanges(existing, None, totalScore) == MissingRanges(existing, totalScore)
  {
    OtherBracketsOfNone(existing);
  }

  lemma {:induction false} OtherBracketsOfNone(existing: seq<ScoreBracket>)
    ensures OtherBrackets(existing, None) == existing
  {
    if existing != [] {
      OtherBracketsOfNone(existing[1..]);
      assert existing == [existing[0]] + existing[1..];
    }
  }

  /**
   * For well-formed, pairwise-disjoint brackets inside [0, totalScore], a
   * score of 0..totalScore is listed as available iff no other bracket holds
   * it, and the listed ranges are ascending and disjoint.
   */
  lemma AvailableRangesExact(existing: seq<ScoreBracket>, editing: Option<ScoreBracket>, totalScore: int, x: int)
    requires AllWellFormed(existing) && Inside(existing, totalScore) && PairwiseDisjoint(existing)
    requires 0 <= x <= totalScore
    ensures InRanges(AvailableRanges(existing, editing, totalScore), x) <==> !Covered(OtherBrackets(existing, editing), x)
    ensures Ascending(AvailableRanges(existing, editing, totalScore))
  {
    var others := OtherBrackets(existing, editing);
    OtherBracketsDisjoint(existing, editing);
    MissingRangesExact(others, totalScore, x);
    MissingRangesAscending(others, totalScore);
  }

  /** Dropping brackets keeps them well-formed, inside the bounds and pairwise disjoint. */
  lemma {:induction false} OtherBracketsDisjoint(existing: seq<ScoreBracket>, editing: Option<ScoreBracket>)
    requires AllWellFormed(existing) && PairwiseDisjoint(existing)
    ensures AllWellFormed(OtherBrackets(existing, editing)) && PairwiseDisjoint(OtherBrackets(existing, editing))
  {
    if existing != [] {
      var head, tail := existing[0], existing[1..];
      assert tail[..0] + [head] + tail[0..] == existing;
      SpliceDisjoint(tail, 0, head);
      OtherBracketsDisjoint(tail, editing);
      var rest := OtherBrackets(tail, editing);
      if !(editing.Some? && head.id == editing.value.id) {
        assert OtherBrackets(existing, editing) == rest[..0] + [head] + rest[0..];
        SpliceDisjoint(rest, 0, head);
      }
    }
  }
}
