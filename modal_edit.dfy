/**
 * The rubric editor of `src/components/rubric/ModalEdit.tsx`: the bracket
 * list edits, the checks `handleSubmit` runs before it stores a rubric, the
 * text that lists the missing ranges, the modification check that enables
 * the Save button, and the total-score field.
 */
module ModalEdit {
  import opened Wrappers
  import opened RubricTypes
  import opened BracketSort
  import opened RubricCoverage
  import opened Text
  import opened Lists
  import RubricContent
  import opened RubricProvider
  import opened AddBracketModal

  // ---------------------------------------------------------------------------
  // The bracket list edits
  // ---------------------------------------------------------------------------

  /** `handleAddBracket`: the bracket is appended, nothing else in the form changes. */
  function AddToForm(form: RubricForm, b: ScoreBracket): RubricForm {
    form.(brackets := form.brackets + [b])
  }

  /** `handleEditBracket`: every bracket with the edited id is replaced. */
  function EditInForm(form: RubricForm, b: ScoreBracket): RubricForm {
    form.(brackets := ReplaceWhere((x: ScoreBracket) => x.id == b.id, b, form.brackets))
  }

  /** `handleDeleteBracket`: every bracket with the id is removed. */
  function DeleteFromForm(form: RubricForm, id: string): RubricForm {
    form.(brackets := Filter((x: ScoreBracket) => x.id != id, form.brackets))
  }

  /** No two brackets share an id. */
  predicate UniqueIds(bs: seq<ScoreBracket>) {
    forall i, j :: 0 <= i < j < |bs| ==> bs[i].id != bs[j].id
  }

  /** A rubric's brackets as the editor keeps them: non-empty, inside [0, total] and pairwise disjoint. */
  predicate Consistent(bs: seq<ScoreBracket>, total: int) {
    AllWellFormed(bs) && Inside(bs, total) && PairwiseDisjoint(bs)
  }

  /**
   * Deleting removes every bracket with the id and keeps the others, in
   * order and as often as before; the form's other fields stay, and the
   * brackets stay consistent.
   */
  lemma DeleteKeepsOthers(form: RubricForm, id: string)
    ensures var after := DeleteFromForm(form, id);
      after.name == form.name && after.totalScore == form.totalScore && after.note == form.note &&
      Subsequence(after.brackets, form.brackets) &&
      (forall b :: b in after.brackets ==> b.id != id) &&
      (forall b: ScoreBracket :: b.id != id ==> multiset(after.brackets)[b] == multiset(form.brackets)[b])
    ensures Consistent(form.brackets, form.totalScore) ==>
      Consistent(DeleteFromForm(form, id).brackets, form.totalScore)
  {
    var keep := (x: ScoreBracket) => x.id != id;
    FilterSpec(keep, form.brackets);
    if Consistent(form.brackets, form.totalScore) {
      OtherBracketsDisjoint(form.brackets, Some(ScoreBracket(id, 0, 0, "")));
      FilterIsOtherBrackets(form.brackets, id);
    }
  }

  /** Dropping the brackets with an id is what the bracket dialog does with the edited bracket's id. */
  lemma {:induction false} FilterIsOtherBrackets(bs: seq<ScoreBracket>, id: string)
    ensures Filter((x: ScoreBracket) => x.id != id, bs) == OtherBrackets(bs, Some(ScoreBracket(id, 0, 0, "")))
  {
    if bs != [] {
      FilterIsOtherBrackets(bs[1..], id);
    }
  }

  /**
   * A bracket the dialog accepted for adding keeps the rubric consistent
   * when it is appended, and the bracket is the new last one.
   */
  lemma AddAcceptedKeepsConsistent(form: RubricForm, f: BracketForm, now: int)
    requires Consistent(form.brackets, form.totalScore)
    requires HandleSubmit(f, form.totalScore, form.brackets, None, now).Added?
    ensures var b := HandleSubmit(f, form.totalScore, form.brackets, None, now).bracket;
      var after := AddToForm(form, b);
      Consistent(after.brackets, form.totalScore) && after.brackets[|after.brackets| - 1] == b &&
      after.brackets[..|form.brackets|] == form.brackets
  {
    var b := HandleSubmit(f, form.totalScore, form.brackets, None, now).bracket;
    SubmitEmitsAcceptedBracket(f, form.totalScore, form.brackets, None, now);
    var bs := form.brackets + [b];
    forall i, j | 0 <= i < |bs| && 0 <= j < |bs| && i != j ensures Disjoint(bs[i], bs[j]) {
      if i < |form.brackets| && j < |form.brackets| {
        assert bs[i] == form.brackets[i] && bs[j] == form.brackets[j];
      } else if i < |form.brackets| {
        assert bs[i] in form.brackets && bs[i] in OtherBrackets(form.brackets, None);
      } else {
        assert bs[j] in form.brackets && bs[j] in OtherBrackets(form.brackets, None);
      }
    }
  }

  /**
   * A bracket the dialog accepted while editing one of the rubric's
   * brackets replaces that bracket alone (ids are unique), leaving the
   * length and every other bracket unchanged and the rubric consistent.
   */
  lemma EditAcceptedKeepsConsistent(form: RubricForm, f: BracketForm, e: ScoreBracket, now: int)
    requires Consistent(form.brackets, form.totalScore) && UniqueIds(form.brackets)
    requires e in form.brackets && e.id != ""
    requires HandleSubmit(f, form.totalScore, form.brackets, Some(e), now).Edited?
    ensures var b := HandleSubmit(f, form.totalScore, form.brackets, Some(e), now).bracket;
      var after := EditInForm(form, b).brackets;
      |after| == |form.brackets| && Consistent(after, form.totalScore) && UniqueIds(after) &&
      (forall i :: 0 <= i < |after| ==> after[i] == if form.brackets[i].id == e.id then b else form.brackets[i])
  {
    var b := HandleSubmit(f, form.totalScore, form.brackets, Some(e), now).bracket;
    SubmitEmitsAcceptedBracket(f, form.totalScore, form.brackets, Some(e), now);
    assert b.id == e.id;
    var bs := form.brackets;
    var after := EditInForm(form, b).brackets;
    forall i, j | 0 <= i < |after| && 0 <= j < |after| && i != j
      ensures Disjoint(after[i], after[j]) && (i < j ==> after[i].id != after[j].id)
    {
      if bs[i].id == e.id {
        assert bs[j].id != e.id;
        assert bs[j] in OtherBrackets(bs, Some(e));
      } else if bs[j].id == e.id {
        assert bs[i] in OtherBrackets(bs, Some(e));
      }
    }
  }

  // ---------------------------------------------------------------------------
  // The missing-range text
  // ---------------------------------------------------------------------------

  /** One missing range as the editor shows it: `n` for a single score, `a-b` otherwise. */
  function MissingRangeText(r: ScoreRange): string {
    RubricContent.RangeText(ScoreBracket("", r.min, r.max, ""))
  }

  /** The missing ranges joined by `", "`. */
  function MissingText(rs: seq<ScoreRange>): string {
    Join(Map(MissingRangeText, rs), ", ")
  }

  /** `texts.join(", ")`, read as the pieces between commas: all but the first carry the space. */
  function Spaced(ts: seq<string>): seq<string>
    requires |ts| >= 1
  {
    [ts[0]] + seq(|ts| - 1, i requires 0 <= i < |ts| - 1 => " " + ts[i + 1])
  }

  lemma {:induction false} JoinSpaced(ts: seq<string>)
    requires |ts| >= 1
    ensures Join(ts, ", ") == Join(Spaced(ts), [','])
  {
    if |ts| > 1 {
      var tail := ts[1..];
      JoinSpaced(tail);
      var sp := Spaced(tail);
      var rest := sp[1..];
      assert Spaced(ts) == [ts[0]] + ([" " + ts[1]] + rest);
      assert [" " + ts[1]] + rest == [[' '] + sp[0]] + sp[1..];
      JoinCons(' ', sp, ',');
      var j := Join(sp, [',']);
      assert Join(ts, ", ") == ts[0] + ", " + j;
      assert Join(Spaced(ts), [',']) == ts[0] + [','] + ([' '] + j);
    }
  }

  /**
   * The list of missing ranges can be read back: split at the commas, each
   * piece, trimmed, parses as one range, in order.
   */
  lemma MissingTextReadsBack(rs: seq<ScoreRange>)
    requires rs != []
    requires forall r :: r in rs ==> r.min >= 0 && r.max >= 0
    ensures |Split(MissingText(rs), ',')| == |rs|
    ensures forall k :: 0 <= k < |rs| ==>
      RubricContent.ParseRange(Trim(Split(MissingText(rs), ',')[k])) == Some((rs[k].min, rs[k].max))
  {
    var ts := Map(MissingRangeText, rs);
    var sp := Spaced(ts);
    JoinSpaced(ts);
    forall k | 0 <= k < |sp|
      ensures ',' !in sp[k] && RubricContent.ParseRange(Trim(sp[k])) == Some((rs[k].min, rs[k].max))
    {
      assert rs[k] in rs;
      assert sp[k] == (if k > 0 then " " else "") + MissingRangeText(rs[k]);
      MissingPiece(rs[k], k > 0);
    }
    SplitJoin(sp, ',');
    assert Split(MissingText(rs), ',') == sp;
  }

  /** One piece between the commas, with or without the space of the separator before it. */
  lemma MissingPiece(r: ScoreRange, padded: bool)
    requires r.min >= 0 && r.max >= 0
    ensures var t := (if padded then " " else "") + MissingRangeText(r);
      ',' !in t && RubricContent.ParseRange(Trim(t)) == Some((r.min, r.max))
  {
    var b := ScoreBracket("", r.min, r.max, "");
    var text := MissingRangeText(r);
    RubricContent.RangeTextEnds(b);
    NoCommaInRange(b);
    RubricContent.RangeTextParses(b);
    if padded {
      TrimPadded1(text);
      assert ',' !in " " + text;
    } else {
      TrimOfTrimmed(text);
      assert "" + text == text;
    }
  }

  lemma NoCommaInRange(b: ScoreBracket)
    requires b.minScore >= 0 && b.maxScore >= 0
    ensures ',' !in RubricContent.RangeText(b)
  {
    var a := IntToString(b.minScore);
    var z := IntToString(b.maxScore);
    assert forall k :: 0 <= k < |a| ==> IsDigit(a[k]);
    assert forall k :: 0 <= k < |z| ==> IsDigit(z[k]);
  }

  /** A single leading space is trimmed off a text that starts and ends with non-spaces. */
  lemma TrimPadded1(x: string)
    requires x != [] && !IsSpace(x[0]) && !IsSpace(x[|x| - 1])
    ensures Trim(" " + x) == x
  {
    assert (" " + x)[1..] == x;
    assert TrimStart(" " + x) == TrimStart(x) == x;
  }

  // ---------------------------------------------------------------------------
  // handleSubmit
  // ---------------------------------------------------------------------------

  /** An alert dialog: its title and description. */
  datatype Alert = Alert(title: string, description: string)

  /** The arguments `handleSubmit` passes to `updateRubric`. */
  datatype UpdateRequest = UpdateRequest(oldRubricId: int, name: string, content: string, totalScore: int)

  /** What `updateRubric` answers: the stored rubric, if any, and an error text (`""` when none). */
  datatype UpdateReply = UpdateReply(rubric: Option<Rubric>, error: string)

  /** What a submission did: the update it requested, the alert it raised, and whether it closed the editor. */
  datatype SubmitResult = SubmitResult(request: Option<UpdateRequest>, alert: Option<Alert>, closed: bool)

  const CoverageMessagePrefix := "Please add score brackets to " + "cover all ranges. Missing: "

  /** The alert of the first check that fails, in the order handleSubmit runs them, or `None` when all pass. */
  function FirstFailure(rubric: Option<Rubric>, form: RubricForm): Option<Alert> {
    if rubric.None? then Some(Alert("Error", "No rubric selected for editing"))
    else if Trim(form.name) == [] then Some(Alert("Validation Error", "Please enter a rubric name"))
    else if form.totalScore <= 0 then Some(Alert("Validation Error", "Please enter a valid total score"))
    else if MissingRanges(form.brackets, form.totalScore) != [] then
      Some(Alert("Validation Error", CoverageMessagePrefix + MissingText(MissingRanges(form.brackets, form.totalScore))))
    else None
  }

  /**
   * A submission gets past the checks exactly when a rubric is selected,
   * the name is not blank, the total is positive and, for consistent
   * brackets, every score 0..total lies in a bracket.
   */
  lemma SubmitChecksIff(rubric: Option<Rubric>, form: RubricForm)
    requires Consistent(form.brackets, form.totalScore)
    ensures FirstFailure(rubric, form).None? <==>
      rubric.Some? && Trim(form.name) != [] && form.totalScore > 0 &&
      forall x :: 0 <= x <= form.totalScore ==> Covered(form.brackets, x)
  {
    if form.totalScore > 0 {
      CompleteIffAllCovered(form.brackets, form.totalScore);
    }
  }

  /**
   * `handleSubmit`, given the user's answer to the confirmation, the rubric
   * being edited, the form and what `updateRubric` answers: a declined
   * confirmation does nothing; a failed check raises its alert and stops;
   * otherwise the update is requested with the trimmed name and the
   * brackets' table, and on success the provider's list drops the old id
   * and gains the stored rubric.
   */
  method Submit(confirmed: bool, rubric: Option<Rubric>, form: RubricForm, reply: UpdateReply, store: RubricStore)
    returns (result: SubmitResult)
    modifies store
    ensures !confirmed ==> result == SubmitResult(None, None, false)
    ensures confirmed && FirstFailure(rubric, form).Some? ==>
      result == SubmitResult(None, FirstFailure(rubric, form), false)
    ensures confirmed && FirstFailure(rubric, form).None? ==>
      result.request == Some(UpdateRequest(rubric.value.id, Trim(form.name),
                                           RubricContent.Content(form.brackets, form.note), form.totalScore)) &&
      (reply.error != "" ==> result.alert == Some(Alert("Error", "Failed to update rubric: " + reply.error)) && !result.closed) &&
      (reply.error == "" ==> result.alert == Some(Alert("Success", "Rubric updated successfully")) && result.closed)
    ensures store.rubrics ==
      if confirmed && FirstFailure(rubric, form).None? && reply.error == "" && reply.rubric.Some?
      then WithoutId(old(store.rubrics), rubric.value.id) + [reply.rubric.value]
      else old(store.rubrics)
  {
    if !confirmed {
      return SubmitResult(None, None, false);
    }
    if rubric.None? {
      return SubmitResult(None, Some(Alert("Error", "No rubric selected for editing")), false);
    }
    if Trim(form.name) == [] {
      return SubmitResult(None, Some(Alert("Validation Error", "Please enter a rubric name")), false);
    }
    if form.totalScore <= 0 {
      return SubmitResult(None, Some(Alert("Validation Error", "Please enter a valid total score")), false);
    }
    var isValid, missingRanges := ValidateCompleteCoverage(form.brackets, form.totalScore);
    if !isValid {
      var text := CoverageMessagePrefix + MissingText(missingRanges);
      return SubmitResult(None, Some(Alert("Validation Error", text)), false);
    }
    var content := RubricContent.ConvertBracketsToContent(form.brackets, form.note);
    var request := UpdateRequest(rubric.value.id, Trim(form.name), content, form.totalScore);
    if reply.error != "" {
      return SubmitResult(Some(request), Some(Alert("Error", "Failed to update rubric: " + reply.error)), false);
    }
    if reply.rubric.Some? {
      store.RemoveRubric(rubric.value.id);
      store.AddRubric(reply.rubric.value);
    }
    result := SubmitResult(Some(request), Some(Alert("Success", "Rubric updated successfully")), true);
  }

  /**
   * The table a successful submission stores reads back as the form's
   * brackets, sorted by minScore and renumbered, with the form's note.
   */
  lemma SubmittedContentReadsBack(rubric: Option<Rubric>, form: RubricForm)
    requires forall b :: b in form.brackets ==> RubricContent.Storable(b)
    requires RubricContent.StorableNote(form.note)
    ensures RubricContent.Parse(RubricContent.Content(form.brackets, form.note)) ==
      (RubricContent.Renumbered(SortByMin(form.brackets), 0), if form.note != "" then Some(form.note) else None)
  {
    RubricContent.ParseOfContent(form.brackets, form.note);
  }

  /**
   * The coverage alert names exactly the uncovered scores: for consistent
   * brackets and a positive total, the ranges it lists read back, in
   * ascending order, and a score lies in one of them iff no bracket holds it.
   */
  lemma CoverageAlertExact(form: RubricForm, x: int)
    requires Consistent(form.brackets, form.totalScore) && form.totalScore > 0
    requires 0 <= x <= form.totalScore
    ensures var rs := MissingRanges(form.brackets, form.totalScore);
      Ascending(rs) && (InRanges(rs, x) <==> !Covered(form.brackets, x)) &&
      (rs != [] ==> |Split(MissingText(rs), ',')| == |rs|)
  {
    var rs := MissingRanges(form.brackets, form.totalScore);
    MissingRangesExact(form.brackets, form.totalScore, x);
    MissingRangesAscending(form.brackets, form.totalScore);
    if rs != [] {
      MissingRangesInside(form.brackets, form.totalScore);
      MissingTextReadsBack(rs);
    }
  }

  // ---------------------------------------------------------------------------
  // The Save button and the total-score field
  // ---------------------------------------------------------------------------

  /**
   * The modification check: while the loaded rubric has a name or brackets,
   * the form counts as modified when the name, total or note differs or the
   * brackets, each list sorted by minScore, differ; otherwise the flag
   * keeps its previous value.
   */
  function IsModified(form: RubricForm, original: RubricForm, previous: bool): bool {
    if original.name != "" || |original.brackets| > 0 then
      form.name != original.name || form.totalScore != original.totalScore || form.note != original.note ||
      SortByMin(form.brackets) != SortByMin(original.brackets)
    else previous
  }

  /** Save is enabled when nothing is loading, coverage is complete and the form is modified. */
  predicate SaveEnabled(loading: bool, form: RubricForm, modified: bool) {
    !loading && MissingRanges(form.brackets, form.totalScore) == [] && modified
  }

  /**
   * An untouched form keeps Save disabled (the flag is reset when the
   * rubric loads), and for consistent brackets Save is enabled iff nothing
   * is loading, the form was modified and every score 0..total is covered.
   */
  lemma SaveEnabledIff(loading: bool, form: RubricForm, original: RubricForm, previous: bool)
    requires Consistent(form.brackets, form.totalScore) && form.totalScore >= 0
    ensures !SaveEnabled(loading, original, IsModified(original, original, false))
    ensures SaveEnabled(loading, form, IsModified(form, original, previous)) <==>
      !loading && IsModified(form, original, previous) &&
      forall x :: 0 <= x <= form.totalScore ==> Covered(form.brackets, x)
  {
    CompleteIffAllCovered(form.brackets, form.totalScore);
  }

  /**
   * Reordering the brackets alone is no modification once the loaded
   * rubric has a name: the lists are compared sorted by minScore.
   */
  lemma ReorderIsNoChange(form: RubricForm, original: RubricForm, previous: bool)
    requires original.name != ""
    requires form.name == original.name && form.totalScore == original.totalScore && form.note == original.note
    requires SortByMin(form.brackets) == SortByMin(original.brackets)
    ensures !IsModified(form, original, previous)
  {
  }

  /** `parseInt(value) || 0`: the total-score field stores 0 for a non-number. */
  function TotalScoreEntry(value: string): int {
    ParseInt(value).GetOr(0)
  }

  /**
   * The total-score field reads back any integer typed in decimal, and
   * anything `parseInt` cannot read becomes 0, which the submission then
   * rejects as not a valid total.
   */
  lemma TotalScoreEntryReads(n: int, junk: string, rubric: Rubric, form: RubricForm)
    requires ParseInt(junk).None?
    ensures TotalScoreEntry(IntToString(n)) == n
    ensures TotalScoreEntry(junk) == 0
    ensures Trim(form.name) != [] ==>
      FirstFailure(Some(rubric), form.(totalScore := TotalScoreEntry(junk))) ==
        Some(Alert("Validation Error", "Please enter a valid total score"))
  {
    ParseIntOfIntToString(n);
  }

  /** The coverage bar's width: the percentage when it is at most 100, else 99 (also when it is not a number). */
  function BarWidth(p: Option<int>): (w: int)
    ensures w <= 100
    ensures p.Some? && p.value <= 100 ==> w == p.value
    ensures !(p.Some? && p.value <= 100) ==> w == 99
  {
    if p.Some? && p.value <= 100 then p.value else 99
  }
}
