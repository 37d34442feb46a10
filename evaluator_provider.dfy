/**
 * The evaluator state of `src/context/main/evaluator/EvaluatorProvider.tsx`:
 * the question under evaluation, whether it is locked, and the answer
 * sheets, changed only through `evaluatorReducer`.
 */
module EvaluatorProvider {
  import opened Wrappers
  import opened Lists

  /**
   * An answer sheet, with the fields the reducer and its callers touch.
   * The student and AI-detection data it also carries are left out; the
   * status is kept as the text the application stores ("NOT_EVALUATED",
   * "EVALUATING", ...).
   */
  datatype Sheet = Sheet(
    id: string,
    trackedAnswer: string,
    committedAnswer: string,
    score: Option<int>,
    justification: Option<string>,
    isEvaluationSaved: bool,
    status: string)

  /** A partial sheet, `Partial<Sheet>`: each present field overrides the sheet's. */
  datatype SheetPatch = SheetPatch(
    id: Option<string>,
    trackedAnswer: Option<string>,
    committedAnswer: Option<string>,
    score: Option<Option<int>>,
    justification: Option<Option<string>>,
    isEvaluationSaved: Option<bool>,
    status: Option<string>)

  datatype EvaluatorState = EvaluatorState(question: string, isLocked: bool, sheets: seq<Sheet>)

  datatype Action =
    | SetQuestion(question: string)
    | AddSheet(sheet: Sheet)
    | RemoveSheet(removeId: string)
    | UpdateSheet(updateId: string, data: SheetPatch)
    | SetSheetStatus(statusId: string, status: string)
    | SetSheetSaveState(saveId: string, isEvaluationSaved: bool)
    | SetAllSheetsStatus(allStatus: string)
    | LockQuestion
    | UnlockQuestion
    | ResetEvaluator
    /** Any other action type: the reducer's `default` branch. */
    | Other(actionType: string)

  const InitialState := EvaluatorState("", false, [])

  /** `{ ...sheet, ...data }`. */
  function Merge(s: Sheet, p: SheetPatch): Sheet {
    Sheet(p.id.GetOr(s.id),
          p.trackedAnswer.GetOr(s.trackedAnswer),
          p.committedAnswer.GetOr(s.committedAnswer),
          p.score.GetOr(s.score),
          p.justification.GetOr(s.justification),
          p.isEvaluationSaved.GetOr(s.isEvaluationSaved),
          p.status.GetOr(s.status))
  }

  const EmptyPatch := SheetPatch(None, None, None, None, None, None, None)

  /** Every sheet with the id is merged with the patch. */
  function MergeWhere(sheets: seq<Sheet>, id: string, p: SheetPatch): seq<Sheet> {
    Map((s: Sheet) => if s.id == id then Merge(s, p) else s, sheets)
  }

  /** `evaluatorReducer`. */
  function Reduce(state: EvaluatorState, action: Action): EvaluatorState {
    match action
    case SetQuestion(q) => state.(question := q)
    case AddSheet(s) => state.(sheets := state.sheets + [s])
    case RemoveSheet(id) => state.(sheets := Filter((s: Sheet) => s.id != id, state.sheets))
    case UpdateSheet(id, p) => state.(sheets := MergeWhere(state.sheets, id, p))
    case SetSheetStatus(id, st) =>
      state.(sheets := Map((s: Sheet) => if s.id == id then s.(status := st) else s, state.sheets))
    case SetSheetSaveState(id, saved) =>
      state.(sheets := Map((s: Sheet) => if s.id == id then s.(isEvaluationSaved := saved) else s, state.sheets))
    case SetAllSheetsStatus(st) => state.(sheets := Map((s: Sheet) => s.(status := st), state.sheets))
    case LockQuestion => state.(isLocked := true)
    case UnlockQuestion => state.(isLocked := false)
    case ResetEvaluator => InitialState
    case Other(_) => state
  }

  /** Applying the actions in order, as `dispatch` does. */
  function ReduceAll(state: EvaluatorState, actions: seq<Action>): EvaluatorState
    decreases |actions|
  {
    if actions == [] then state else ReduceAll(Reduce(state, actions[0]), actions[1..])
  }

  /** A field after a spread: the patch's value when it gives one, else the sheet's. */
  predicate Overrides<T(==)>(given: Option<T>, before: T, after: T) {
    (given.Some? ==> after == given.value) && (given.None? ==> after == before)
  }

  /** Merging keeps every field the patch leaves out and takes every field it gives. */
  lemma MergeFields(s: Sheet, p: SheetPatch)
    ensures Merge(s, EmptyPatch) == s
    ensures var m := Merge(s, p);
      Overrides(p.id, s.id, m.id) &&
      Overrides(p.trackedAnswer, s.trackedAnswer, m.trackedAnswer) &&
      Overrides(p.committedAnswer, s.committedAnswer, m.committedAnswer) &&
      Overrides(p.score, s.score, m.score) &&
      Overrides(p.justification, s.justification, m.justification) &&
      Overrides(p.isEvaluationSaved, s.isEvaluationSaved, m.isEvaluationSaved) &&
      Overrides(p.status, s.status, m.status)
    ensures Merge(Merge(s, p), p) == Merge(s, p)
  {
  }

  /** `SET_QUESTION` changes only the question. */
  lemma SetQuestionOnly(state: EvaluatorState, q: string)
    ensures Reduce(state, SetQuestion(q)) == EvaluatorState(q, state.isLocked, state.sheets)
    ensures Reduce(Reduce(state, SetQuestion(q)), SetQuestion(state.question)) == state
  {
  }

  /** `ADD_SHEET` appends the sheet; the existing sheets keep their positions. */
  lemma AddSheetAppends(state: EvaluatorState, s: Sheet)
    ensures var after := Reduce(state, AddSheet(s)).sheets;
      |after| == |state.sheets| + 1 && after[|state.sheets|] == s && after[..|state.sheets|] == state.sheets
    ensures Reduce(state, AddSheet(s)).question == state.question
    ensures Reduce(state, AddSheet(s)).isLocked == state.isLocked
  {
  }

  /** `REMOVE_SHEET` removes every sheet with the id and keeps the others, in order and as often as before. */
  lemma RemoveSheetSpec(state: EvaluatorState, id: string)
    ensures var after := Reduce(state, RemoveSheet(id));
      after.question == state.question && after.isLocked == state.isLocked &&
      Subsequence(after.sheets, state.sheets) &&
      (forall x :: x in after.sheets ==> x.id != id) &&
      (forall x: Sheet :: x.id != id ==> multiset(after.sheets)[x] == multiset(state.sheets)[x])
  {
    FilterSpec((x: Sheet) => x.id != id, state.sheets);
  }

  /** Adding a sheet with a fresh id and then removing that id gives back the state. */
  lemma AddThenRemove(state: EvaluatorState, s: Sheet)
    requires forall x :: x in state.sheets ==> x.id != s.id
    ensures Reduce(Reduce(state, AddSheet(s)), RemoveSheet(s.id)) == state
  {
    var keep := (x: Sheet) => x.id != s.id;
    FilterAll(keep, state.sheets);
    FilterAppendDropped(keep, state.sheets, s);
  }

  lemma {:induction false} FilterAppendDropped<T(!new)>(keep: T -> bool, xs: seq<T>, x: T)
    requires !keep(x)
    ensures Filter(keep, xs + [x]) == Filter(keep, xs)
  {
    if xs != [] {
      FilterAppendDropped(keep, xs[1..], x);
      assert (xs + [x])[1..] == xs[1..] + [x];
    } else {
      assert [x][1..] == [];
    }
  }

  /**
   * `UPDATE_SHEET` merges the data into the sheets with the id only; the
   * count and order are kept, and an empty update changes nothing.
   */
  lemma UpdateSheetSpec(state: EvaluatorState, id: string, p: SheetPatch)
    ensures var after := Reduce(state, UpdateSheet(id, p));
      after.question == state.question && after.isLocked == state.isLocked &&
      |after.sheets| == |state.sheets| &&
      forall i :: 0 <= i < |state.sheets| ==>
        after.sheets[i] == if state.sheets[i].id == id then Merge(state.sheets[i], p) else state.sheets[i]
    ensures Reduce(state, UpdateSheet(id, EmptyPatch)) == state
  {
    assert MergeWhere(state.sheets, id, EmptyPatch) == state.sheets;
  }

  /**
   * `SET_SHEET_STATUS` and `SET_SHEET_SAVE_STATE` are the updates that set
   * one field: they change only `status` or only `isEvaluationSaved`, and
   * only in the sheets with the id.
   */
  lemma SetFieldIsUpdate(state: EvaluatorState, id: string, st: string, saved: bool)
    ensures Reduce(state, SetSheetStatus(id, st)) ==
      Reduce(state, UpdateSheet(id, EmptyPatch.(status := Some(st))))
    ensures Reduce(state, SetSheetSaveState(id, saved)) ==
      Reduce(state, UpdateSheet(id, EmptyPatch.(isEvaluationSaved := Some(saved))))
  {
  }

  /** `SET_ALL_SHEETS_STATUS` gives every sheet the status and leaves the rest of each sheet alone. */
  lemma SetAllStatusSpec(state: EvaluatorState, st: string)
    ensures var after := Reduce(state, SetAllSheetsStatus(st));
      after.question == state.question && after.isLocked == state.isLocked &&
      |after.sheets| == |state.sheets| &&
      forall i :: 0 <= i < |state.sheets| ==> after.sheets[i] == state.sheets[i].(status := st)
    ensures forall s :: s in Reduce(state, SetAllSheetsStatus(st)).sheets ==> s.status == st
  {
  }

  /**
   * Locking and unlocking change only the flag, the reset returns the
   * initial state whatever came before, and an unknown action changes
   * nothing.
   */
  lemma LockResetOther(state: EvaluatorState, name: string)
    ensures Reduce(state, LockQuestion) == state.(isLocked := true)
    ensures Reduce(state, UnlockQuestion) == state.(isLocked := false)
    ensures Reduce(Reduce(state, LockQuestion), LockQuestion) == Reduce(state, LockQuestion)
    ensures Reduce(state, ResetEvaluator) == EvaluatorState("", false, [])
    ensures Reduce(state, Other(name)) == state
  {
  }

  /** Only `SET_QUESTION` and the reset touch the question: any run of other actions keeps it. */
  lemma {:induction false} QuestionKept(state: EvaluatorState, actions: seq<Action>)
    requires forall a :: a in actions ==> !a.SetQuestion? && !a.ResetEvaluator?
    ensures ReduceAll(state, actions).question == state.question
    decreases |actions|
  {
    if actions != [] {
      assert actions[0] in actions;
      QuestionKept(Reduce(state, actions[0]), actions[1..]);
    }
  }

  /** A run that ends with a reset ends in the initial state. */
  lemma {:induction false} ResetLast(state: EvaluatorState, actions: seq<Action>)
    requires actions != [] && actions[|actions| - 1] == ResetEvaluator
    ensures ReduceAll(state, actions) == InitialState
    decreases |actions|
  {
    if |actions| > 1 {
      ResetLast(Reduce(state, actions[0]), actions[1..]);
    }
  }
}
