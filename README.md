# Open2E in Dafny

Open2E is a desktop application for grading open-ended answers. A React
front end runs inside a Tauri shell written in Rust. This project models the
parts of it that hold logic of their own, and proves properties of that model.

- **The rubric bracket engine.** A rubric is a set of score brackets
  (`minScore`–`maxScore` with a criteria) over `0..totalScore`.
  - `src/utils/rubricUtils.ts`:
    - coverage validation and the uncovered ranges it reports;
    - the overlap check;
    - the coverage percentage;
    - the Markdown table a rubric is stored as, and the parser that reads it
      back.
  - `AddBracketModal.tsx`: the dialog that adds or edits one bracket, with its
    validation and its list of free ranges.
  - `ModalEdit.tsx`: the rubric editor that submits the whole rubric.
- **The application stores.**
  - The evaluator reducer (`EvaluatorProvider.tsx`).
  - The rubric list store (`RubricProvider.tsx`).
- **Data handling.**
  - `backup.ts`: the backup validator, the export, and the restore
    transaction.
  - `learner.ts`: the learner database's question normaliser and `add`.
- **Analytics.**
  - AI-detection categories (`aiDetectionUtils.ts`).
  - The AI-detection histogram (`AIDetectionDistribution.tsx`).
  - The CSV export (`ExportButton.tsx`).
- **Students.**
  - The student table's tag filter, search, selection and row clicks
    (`StudentTable.tsx`).
  - The column-filter search box (`SearchBox.tsx`).
  - The student selector dialog (`ModalStudentSelector.tsx`).
- **Dates and setup.**
  - The date range picker (`DateRangePicker.tsx`), over a Gregorian model of
    the JavaScript `Date` constructor (module `Calendar`).
  - The setup wizard's navigation (`SetupProvider.tsx`).
- **The Rust host.**
  - The memory-size command (`commands/system.rs`, `commands.rs`).
  - The window commands (`commands/window.rs`, `commands.rs`).
  - The registered migrations (`migrations.rs`).

How each kind of code is modelled:

- **Pure code becomes functions, with lemmas about them.** This covers the
  utilities, the reducers, the validators, the parsers and the formatters.
- **Code that updates state step by step becomes methods of classes.** Each
  class keeps its fields and carries `modifies` clauses:
  - the rubric store;
  - the setup wizard;
  - the student table's selection;
  - the selector dialog;
  - the date picker;
  - the learner database;
  - the database connection of a restore;
  - the Tauri app's window map.
- **Loops in the source become loops (`while` or `for`) proved against a
  specification function.** Examples are the coverage pass, the free-range walk, the backup
  key loops, the restore's insert loops and the histogram count.

Modules are shared across the project:

- `Wrappers`: `Option`/`Result`.
- `Lists`: filter, map, find and subsequence, with their lemmas.
- `Text`: ASCII lower-casing, trimming over Unicode whitespace, splitting,
  `parseInt` (decimal and `0x` hexadecimal) and integer printing.
- `Arith`: division helpers.
- `RubricTypes`: brackets and ranges.
- `JsonValue`: a parsed JSON value, used by the backup file and the host's
  settings store.

## Model

| member | source | states |
|---|---|---|
| BracketSort.Insert | src/utils/rubricUtils.ts:17 | inserting adds exactly the new bracket: one element more, and the multiset grows by that bracket alone |
| BracketSort.InsertSorted | src/utils/rubricUtils.ts:17 | inserting into a list sorted by minScore keeps it sorted |
| BracketSort.SortByMin | src/utils/rubricUtils.ts:17 | the sorted copy of the brackets is ordered by ascending minScore and is a permutation of the input |
| BracketSort.InsertWithMin | src/utils/rubricUtils.ts:17 | one insertion step puts the new bracket ahead of the brackets with its minScore and leaves the order of every other minScore alone |
| BracketSort.SortStable | src/utils/rubricUtils.ts:17 | the sort is stable, as JavaScript's is: for every minScore, the brackets with that minScore keep their input order |
| BracketSort.SameElements | src/utils/rubricUtils.ts:17 | lists with the same multiset hold the same brackets |
| BracketSort.SortKeepsElements | src/utils/rubricUtils.ts:17 | the sorted copy holds exactly the input's brackets |
| BracketSort.SortKeepsCoverage | src/utils/rubricUtils.ts:17-36 | a score is covered by the sorted copy iff it is covered by the input |
| BracketSort.SpliceDisjoint | src/utils/rubricUtils.ts:57-66 | splicing one bracket in gives a pairwise-disjoint list iff the list was one and the bracket is disjoint from all of it |
| BracketSort.PermutationKeepsDisjoint | src/utils/rubricUtils.ts:57-66 | pairwise disjointness does not depend on the order of the brackets |
| BracketSort.SortKeepsDisjoint | src/utils/rubricUtils.ts:57-66 | the sorted copy is pairwise disjoint iff the input is |
| RubricCoverage.ValidateCompleteCoverage | src/utils/rubricUtils.ts:6-51 | the loop over the sorted copy returns exactly the missing ranges (leading gap, gaps between brackets, trailing gap; the whole range for no brackets) and isValid iff there are none |
| RubricCoverage.ScannedIsGaps | src/utils/rubricUtils.ts:20-36 | what the pass has pushed after looking at bracket i is the leading gap followed by the gaps between the first i + 1 sorted brackets |
| RubricCoverage.AscendingPairwise | src/utils/rubricUtils.ts:17-45 | when each reported range is non-empty and ends below the next one, every range ends below every later one |
| RubricCoverage.MissingRangesAscending | src/utils/rubricUtils.ts:17-45 | for brackets with min <= max, the reported ranges are non-empty and strictly ascending, hence disjoint |
| RubricCoverage.DisjointSortedIsOrdered | src/utils/rubricUtils.ts:17 | sorted, well-formed, pairwise-disjoint brackets are strictly ordered |
| RubricCoverage.GapsExact | src/utils/rubricUtils.ts:26-36 | between the first bracket's start and bracket k's end, the interior gaps are exactly the uncovered scores |
| RubricCoverage.MissingRangesExact | src/utils/rubricUtils.ts:6-51 | for consistent brackets, a score of 0..total lies in a reported range iff no bracket contains it |
| RubricCoverage.SortedMissingExact | src/utils/rubricUtils.ts:17-45 | the same characterisation, stated on the sorted copy |
| RubricCoverage.MissingRangesInside | src/utils/rubricUtils.ts:21-45 | every reported range lies inside [0, total] when the brackets do |
| RubricCoverage.CompleteIffAllCovered | src/utils/rubricUtils.ts:47-50 | for consistent brackets, isValid holds iff every score 0..total lies in some bracket |
| RubricCoverage.SeparatedIffDisjoint | src/utils/rubricUtils.ts:56-69 | for well-formed brackets, each sorted bracket ending before the next starts is exactly pairwise disjointness of the input |
| RubricCoverage.ValidateNoOverlaps | src/utils/rubricUtils.ts:56-69 | the loop answers false as soon as a sorted bracket reaches the next one's minScore; for well-formed brackets its verdict is pairwise disjointness, so a shared end point is an overlap |
| RubricCoverage.NoOverlapsOrderFree | src/utils/rubricUtils.ts:56-69 | for well-formed brackets (min <= max) the overlap verdict does not depend on the input order |
| RubricCoverage.IllFormedOrderMatters | src/utils/rubricUtils.ts:56-69 | for ill-formed brackets it can: 0..-1 and 0..3 pass in one order and fail in the other |
| RubricCoverage.SumWidthsPermutation | src/utils/rubricUtils.ts:188-192 | the summed widths do not depend on the order of the brackets |
| RubricCoverage.GetCoveragePercentage | src/utils/rubricUtils.ts:183-197 | the loop computes 0 for no brackets, else the rounded percentage of the summed widths over totalScore + 1 (none when that is 0) |
| RubricCoverage.SumWidthsOrdered | src/utils/rubricUtils.ts:188-192 | strictly ordered brackets span at most the scores from the first start to the last end |
| RubricCoverage.SumWidthsContiguous | src/utils/rubricUtils.ts:188-192 | brackets that each start right after the previous one span exactly those scores |
| RubricCoverage.TiledCoverageIsWhole | src/utils/rubricUtils.ts:183-197 | brackets that tile 0..total without overlap give exactly 100 |
| RubricCoverage.DisjointCoverageAtMostWhole | src/utils/rubricUtils.ts:183-197 | without overlaps the percentage never passes 100 |
| RubricCoverage.OverlapCountsTwice | src/utils/rubricUtils.ts:188-192 | overlapping scores count once per bracket: two copies of a full bracket give 200 |
| RubricContent.ConvertBracketsToContent | src/utils/rubricUtils.ts:74-101 | the loop writes the preamble, one row per bracket of the sorted copy, then the note section when the note is not blank |
| RubricContent.TrimmedCellsClean | src/utils/rubricUtils.ts:141-144 | every cell the row reader keeps is non-empty and trimmed |
| RubricContent.NoteHeadingIff | src/utils/rubricUtils.ts:119 | a line is the note heading iff trimmed and lower-cased it is "note:" |
| RubricContent.ParseContentToBrackets | src/utils/rubricUtils.ts:106-178 | the loop over the lines computes the brackets and note that the line-by-line function Parse gives |
| RubricContent.ParseIsNumbered | src/utils/rubricUtils.ts:140-177 | whatever the text, parsed brackets are numbered bracket-0, bracket-1, ... in order, criteria are trimmed and non-empty, and a note is trimmed and non-empty |
| RubricContent.RangeTextShape | src/utils/rubricUtils.ts:88-94 | the score cell of a storable bracket is digits with at most one dash, which is there exactly when the ends differ; it starts and ends with a digit |
| RubricContent.RangeTextParses | src/utils/rubricUtils.ts:147-160 | the score cell of a storable bracket reads back as its two ends |
| RubricContent.ParseRangePair | src/utils/rubricUtils.ts:147-155 | "lo-hi" splits at its one dash into the two numbers |
| RubricContent.NoHeaderInRow | src/utils/rubricUtils.ts:134 | a written row is never taken for the table header unless its criteria is the header's bold title |
| RubricContent.RowCells | src/utils/rubricUtils.ts:141-144 | the cells of a written row are its bold score cell and its criteria |
| RubricContent.RowLineFacts | src/utils/rubricUtils.ts:119-140 | the row of a storable bracket is a table row: neither the note heading nor the header |
| RubricContent.ReadRowOfRow | src/utils/rubricUtils.ts:140-169 | the row of a storable bracket reads back as its two ends and its criteria |
| RubricContent.RowStep | src/utils/rubricUtils.ts:140-170 | reading a written row appends its bracket under the next id |
| RubricContent.RunRows | src/utils/rubricUtils.ts:88-94 | reading the rows of storable brackets appends them, renumbered, in order |
| RubricContent.ParseOfNoteOnly | src/utils/rubricUtils.ts:78-80 | with no brackets the content is the note section alone, and it parses back to no brackets and the note |
| RubricContent.ParseOfTail | src/utils/rubricUtils.ts:96-98 | after the rows, nothing or the note section reads back as the note |
| RubricContent.ParseOfContent | src/utils/rubricUtils.ts:74-178 | parsing undoes conversion: the brackets come back sorted by minScore with fresh ids, scores and criteria intact, and the note comes back unless it is empty |
| AddBracketModal.OtherBrackets | src/components/rubric/AddBracketModal.tsx:92-94 | the brackets checked against are exactly the existing ones whose id differs from the edited bracket's |
| AddBracketModal.ValidateForm | src/components/rubric/AddBracketModal.tsx:53-104 | the checks run in order and only the first failure's message is kept: blank field, not a number, out of range, min above max, overlap |
| AddBracketModal.ValidateFormAccepts | src/components/rubric/AddBracketModal.tsx:53-104 | the form passes iff the fields are non-blank integers with 0 <= min <= max <= totalScore and the range is disjoint from every other bracket |
| AddBracketModal.ValidateFormOrder | src/components/rubric/AddBracketModal.tsx:59-101 | a blank field hides every other problem, a non-number hides the range problems, an out-of-range score hides min > max, and an overlap is reported only for an ordered range inside the bounds |
| AddBracketModal.MessagesDiffer | src/components/rubric/AddBracketModal.tsx:62-99 | the five messages are distinct, so the message identifies the failed check |
| AddBracketModal.ResaveUnchanged | src/components/rubric/AddBracketModal.tsx:36-51 | re-saving the edited bracket unchanged passes, since its own id is left out of the overlap test |
| AddBracketModal.SubmitEmitsAcceptedBracket | src/components/rubric/AddBracketModal.tsx:106-129 | a bracket is emitted iff the form is acceptable; it is well-formed, inside [0, totalScore], disjoint from the others, carries the trimmed non-empty criteria, and keeps the edited bracket's id when that is not empty |
| AddBracketModal.WalkStep | src/components/rubric/AddBracketModal.tsx:137-143 | passing bracket i emits only the stretch below it that lies above the resume point |
| AddBracketModal.GetAvailableRanges | src/components/rubric/AddBracketModal.tsx:131-149 | the walk over the other brackets in ascending minScore returns the available ranges AvailableRanges describes, each non-empty |
| AddBracketModal.AvailableWhenAlone | src/components/rubric/AddBracketModal.tsx:145-147 | with no other bracket the only available range is 0..totalScore, none for a negative total |
| AddBracketModal.AvailableMatchesCoverage | src/components/rubric/AddBracketModal.tsx:131-149 | when adding, the dialog lists exactly the gaps the coverage validation reports, unless there are no brackets and the total is negative |
| AddBracketModal.AvailableRangesExact | src/components/rubric/AddBracketModal.tsx:131-149 | for consistent brackets, a score of 0..totalScore is listed iff no other bracket holds it, and the listed ranges ascend and are disjoint |
| AddBracketModal.OtherBracketsDisjoint | src/components/rubric/AddBracketModal.tsx:92-94 | dropping the edited bracket keeps the rest well-formed, inside the bounds and pairwise disjoint |
| ModalEdit.DeleteKeepsOthers | src/components/rubric/ModalEdit.tsx:152-157 | deleting removes every bracket with the id, keeps the others in order and number, leaves the other fields alone and keeps the rubric consistent |
| ModalEdit.FilterIsOtherBrackets | src/components/rubric/ModalEdit.tsx:152-157 | deleting by id drops the same brackets the bracket dialog leaves out of its overlap test |
| ModalEdit.AddAcceptedKeepsConsistent | src/components/rubric/ModalEdit.tsx:138-143 | appending a bracket the dialog accepted keeps the rubric consistent, and the bracket is the new last one |
| ModalEdit.EditAcceptedKeepsConsistent | src/components/rubric/ModalEdit.tsx:145-150 | with unique ids, an accepted edit replaces that bracket alone and keeps the length, the other brackets and consistency |
| ModalEdit.MissingTextReadsBack | src/components/rubric/ModalEdit.tsx:92-96 | the alert's list of missing ranges splits at the commas into pieces that, trimmed, parse back as the ranges in order |
| ModalEdit.SubmitChecksIff | src/components/rubric/ModalEdit.tsx:58-103 | a submission passes the checks iff a rubric is selected, the name is not blank, the total is positive and every score 0..total lies in a bracket |
| ModalEdit.Submit | src/components/rubric/ModalEdit.tsx:42-136 | a declined confirmation does nothing; a failed check raises its alert and stores nothing; otherwise the content is written and the update's answer decides the alert and the store update |
| ModalEdit.SubmittedContentReadsBack | src/components/rubric/ModalEdit.tsx:108-115 | the stored table reads back as the form's brackets sorted by minScore and renumbered, with the form's note |
| ModalEdit.CoverageAlertExact | src/components/rubric/ModalEdit.tsx:87-103 | the coverage alert's ranges read back in ascending order, and a score lies in one iff no bracket holds it |
| ModalEdit.SaveEnabledIff | src/components/rubric/ModalEdit.tsx:215-230 | an untouched form keeps Save disabled; for consistent brackets Save is enabled iff nothing loads, the form was modified and coverage is complete |
| ModalEdit.ReorderIsNoChange | src/components/rubric/ModalEdit.tsx:215-230 | reordering the brackets alone is no modification, since both lists are compared sorted by minScore |
| ModalEdit.TotalScoreEntryReads | src/components/rubric/ModalEdit.tsx:254 | the total field reads back any decimal integer, and anything parseInt cannot read becomes 0, which the submission rejects |
| ModalEdit.BarWidth | src/components/rubric/ModalEdit.tsx:327-329 | the bar width is the percentage when it is at most 100, and 99 when it is over 100 or not a number, so it never exceeds 100 |
| EvaluatorProvider.MergeFields | src/context/main/evaluator/EvaluatorProvider.tsx:33 | for each of the seven fields, merging a partial sheet takes the patch's value when it gives one and keeps the sheet's otherwise; an empty patch changes nothing; merging twice is merging once |
| EvaluatorProvider.SetQuestionOnly | src/context/main/evaluator/EvaluatorProvider.tsx:16-17 | SET_QUESTION changes only the question, and setting the old question back restores the state |
| EvaluatorProvider.AddSheetAppends | src/context/main/evaluator/EvaluatorProvider.tsx:19-20 | ADD_SHEET appends the sheet and leaves the existing sheets, the question and the lock alone |
| EvaluatorProvider.RemoveSheetSpec | src/context/main/evaluator/EvaluatorProvider.tsx:22-26 | REMOVE_SHEET removes every sheet with the id and keeps the others in order and number |
| EvaluatorProvider.AddThenRemove | src/context/main/evaluator/EvaluatorProvider.tsx:19-26 | adding a sheet with a fresh id and then removing it gives back the state |
| EvaluatorProvider.UpdateSheetSpec | src/context/main/evaluator/EvaluatorProvider.tsx:28-36 | UPDATE_SHEET merges the data into the sheets with the id only, keeps the count and order, and an empty update changes nothing |
| EvaluatorProvider.SetFieldIsUpdate | src/context/main/evaluator/EvaluatorProvider.tsx:38-56 | SET_SHEET_STATUS and SET_SHEET_SAVE_STATE are the updates that set the one field |
| EvaluatorProvider.SetAllStatusSpec | src/context/main/evaluator/EvaluatorProvider.tsx:58-65 | SET_ALL_SHEETS_STATUS gives every sheet the status and leaves the rest of each sheet alone |
| EvaluatorProvider.LockResetOther | src/context/main/evaluator/EvaluatorProvider.tsx:67-77 | lock and unlock change only the flag, reset gives the initial state, and an unknown action changes nothing |
| EvaluatorProvider.QuestionKept | src/context/main/evaluator/EvaluatorProvider.tsx:15-78 | any run of actions other than SET_QUESTION and the reset keeps the question |
| EvaluatorProvider.ResetLast | src/context/main/evaluator/EvaluatorProvider.tsx:73-74 | a run that ends with a reset ends in the initial state |
| RubricProvider.RubricStore.constructor | src/context/main/rubric/RubricProvider.tsx:6-7 | the store starts with no rubrics and loading set |
| RubricProvider.RubricStore.AddRubric | src/context/main/rubric/RubricProvider.tsx:29-31 | the rubric is appended at the end, loading unchanged |
| RubricProvider.RubricStore.RemoveRubric | src/context/main/rubric/RubricProvider.tsx:33-35 | the list becomes the old one without the id, loading unchanged |
| RubricProvider.RubricStore.UpdateRubric | src/context/main/rubric/RubricProvider.tsx:37-43 | every rubric with the id is replaced in place, loading unchanged |
| RubricProvider.RubricStore.LoadRubrics | src/context/main/rubric/RubricProvider.tsx:9-23 | the list is replaced only when the query reports no error, and loading is false afterwards either way |
| RubricProvider.RemoveKeepsOthers | src/context/main/rubric/RubricProvider.tsx:33-35 | removal keeps exactly the rubrics with another id, in order and as often as before |
| RubricProvider.UpdateReplacesInPlace | src/context/main/rubric/RubricProvider.tsx:37-43 | update keeps the length, puts the rubric at every position with its id and leaves the others alone |
| RubricProvider.UpdateAbsentOrRepeated | src/context/main/rubric/RubricProvider.tsx:37-43 | updating an absent id changes nothing, and repeating an update changes nothing more |
| RubricProvider.RemoveThenAdd | src/context/main/rubric/RubricProvider.tsx:29-35 | remove-then-add leaves the new rubric last and no other entry with the old id |
| Backup.ValidateBackupData | src/database/backup.ts:102-155 | the two key loops and the metadata check answer what the validation function gives |
| Backup.ValidIff | src/database/backup.ts:108-151 | a backup is valid iff it is an object with the six keys, the five collections are arrays, and the metadata has a truthy version and creation time |
| Backup.NotObjectRejected | src/database/backup.ts:110-115 | a non-object is refused with the object message, and an array misses "questions" |
| Backup.FirstMissingNamed | src/database/backup.ts:126-130 | the error names the first required key, in order, that is missing |
| Backup.FirstNonArrayNamed | src/database/backup.ts:140-144 | with all keys present, the error names the first collection, in order, that is not an array |
| Backup.NullMetadataCaught | src/database/backup.ts:147-154 | a null metadata makes the read throw, and the exception becomes a validation error |
| Backup.ExportIsValid | src/database/backup.ts:81-92 | every export passes the validation |
| Backup.Connection.constructor | src/database/backup.ts:164 | a new connection has an empty statement log |
| Backup.Connection.Execute | src/database/backup.ts:173-261 | a statement is appended to the log and succeeds unless it is the failing one |
| Backup.RunShape | src/database/backup.ts:185-261 | running statements sends a prefix of them with none built from a null row: all when it ran through, up to and including the failing one, or up to the row whose fields could not be read |
| Backup.RunOne | src/database/backup.ts:186-200 | a statement that can be built and does not fail is sent and the run goes on |
| Backup.RunAll | src/database/backup.ts:186-258 | each loop sends its statements in order, stops after the first that fails and before the first built from a null row, and reports which of the three happened |
| Backup.RunConcat | src/database/backup.ts:175-261 | running two lists one after the other, the second only after the first ran through, does what running their concatenation does |
| Backup.Restore | src/database/backup.ts:173-261 | BEGIN and, when it succeeds, the transaction's body send what running the whole plan sends |
| Backup.RestoreOrRollBack | src/database/backup.ts:173-268 | on success the whole plan is sent with no error; a failing BEGIN is sent alone; any other failure or a null row is followed by ROLLBACK, answering the failure's text or the TypeError (the ROLLBACK's failure if that fails too) |
| Backup.ImportAllData | src/database/backup.ts:157-274 | an open error or invalid data sends no statement; otherwise the restore ends as RestoreOrRollBack states and its error becomes the answer |
| Backup.InsertsReadNull | src/database/backup.ts:186-258 | one table's inserts read a null row exactly when its rows hold one |
| Backup.PlanReadsNull | src/database/backup.ts:183-258 | the restore builds an insert from a null row exactly when some collection holds one |
| Backup.NullRowNeverCommits | src/database/backup.ts:186-268 | a backup with a null row never commits; a throw means there was one; with no connection failure it throws exactly when there is one |
| Backup.NullRubricValid | src/database/backup.ts:132-151 | a backup whose only rubric is null passes the validation, which checks only that the collections are arrays |
| Backup.NullFirstRubricThrows | src/database/backup.ts:173-200 | when the first rubric is null and nothing fails, the restore sends BEGIN and the five deletes, then throws without sending the insert |
| Backup.PlanShape | src/database/backup.ts:173-181 | a restore issues BEGIN, then the deletes children first, then the inserts, then COMMIT |
| Backup.PlanRankSorted | src/database/backup.ts:183-258 | every insert follows every delete, and parent rows go in before their children's |
| Backup.CommitOnlyLast | src/database/backup.ts:261-268 | COMMIT is the plan's last statement and appears nowhere else, so a failed restore never commits |
| Learner.Strip | src/database/evaluation/learner.ts:15 | the result keeps only word and whitespace characters and is no longer than the input |
| Learner.CollapseShape | src/database/evaluation/learner.ts:16 | the result has no two whitespace characters in a row, every whitespace is a space, and no other character is invented |
| Learner.NormalizeIsNormal | src/database/evaluation/learner.ts:13-18 | a normalised question has only lower-case letters, digits, "_" and single inner spaces, and no space at either end |
| Learner.NormalizeIdempotent | src/database/evaluation/learner.ts:13-18 | normalising a normal question changes nothing, so normalising twice is normalising once |
| Learner.NormalizeOfLower | src/database/evaluation/learner.ts:13-18 | lower-casing first gives the same normal form |
| Learner.CaseIgnored | src/database/evaluation/learner.ts:18 | questions that differ only in letter case normalise alike |
| Learner.SymbolIgnored | src/database/evaluation/learner.ts:15 | deleting a symbol does not change the normal form |
| Learner.WhitespaceRunIgnored | src/database/evaluation/learner.ts:16-17 | widening a whitespace run does not change the normal form |
| Learner.LearnerDb.Add | src/database/evaluation/learner.ts:20-69 | as written: the question rows gain the question only when no stored row's SQL key `REPLACE(LOWER(TRIM(content)), '[^\w\s]', '')` equals its normal form, and the evaluation is filed under the found or new row id |
| Learner.AsWrittenRepeatsSymbols | src/database/evaluation/learner.ts:31-54 | as written, a stored question holding a symbol is never found, so a question with a symbol is stored again, under a new id, each time it is added |
| Learner.SymbolKeyNeverMatches | src/database/evaluation/learner.ts:34-37 | a stored question holding a symbol keeps it in its SQL key, which therefore equals no normalised question |
| Learner.AsWrittenReusesNormal | src/database/evaluation/learner.ts:31-54 | as written, a question first typed in normal form is reused by every later question with that normal form |
| Learner.SqlKeyOfNormal | src/database/evaluation/learner.ts:34-37 | a question in normal form is its own SQL key |
| Learner.RepeatedQuestionReused | src/database/evaluation/learner.ts:31-54 | with the intended lookup, adding a question whose normal form is stored adds no row and files under the stored id |
| Learner.AsWrittenStoresTwice | src/database/evaluation/learner.ts:34-37 | with the query as written, adding "Hi?" twice stores two rows |
| AIDetection.CategoryThresholds | src/utils/aiDetectionUtils.ts:8-15 | high iff the percentage is at least 85, medium iff 60..84, low iff below 60 |
| AIDetection.PercentMonotone | src/utils/aiDetectionUtils.ts:11 | rounding keeps the order of scores |
| AIDetection.CategoryMonotone | src/utils/aiDetectionUtils.ts:8-15 | a higher score never falls in a lower category |
| AIDetection.SameThresholds | src/utils/aiDetectionUtils.ts:1-50 | colour, tooltip, icon and label agree for two scores iff their categories do |
| AIDetection.FormatReadsBack | src/utils/aiDetectionUtils.ts:29-31 | the text is the rounded percentage followed by "%" and reads back as that number |
| AIDetection.BucketOf | src/components/analytics/charts/AIDetectionDistribution.tsx:34-44 | a percentage falls in one of five buckets |
| AIDetection.Histogram | src/components/analytics/charts/AIDetectionDistribution.tsx:23-45 | the chart has five counts |
| AIDetection.Distribution | src/components/analytics/charts/AIDetectionDistribution.tsx:23-45 | the counting loop fills a fresh five-slot array with the histogram of the scores |
| AIDetection.CountsSumToTotal | src/components/analytics/charts/AIDetectionDistribution.tsx:32-45 | the five counts add up to the number of scores |
| AIDetection.CountInRemove | src/components/analytics/charts/AIDetectionDistribution.tsx:32-45 | taking a score out takes it out of exactly its bucket's count |
| AIDetection.CountsOrderFree | src/components/analytics/charts/AIDetectionDistribution.tsx:32-45 | the counts do not depend on the order of the scores |
| AIDetection.BucketsAndCategories | src/components/analytics/charts/AIDetectionDistribution.tsx:34-44 | buckets are monotone in the percentage, high always lands in the top bucket, and 60% is medium yet sits in the 40-60 bucket |
| ExportCsv.Cells | src/components/analytics/ExportButton.tsx:48-49 | one value per column |
| ExportCsv.Labels | src/components/analytics/ExportButton.tsx:46 | one label per column |
| ExportCsv.RowTexts | src/components/analytics/ExportButton.tsx:47-55 | one field text per column |
| ExportCsv.FieldEncodes | src/components/analytics/ExportButton.tsx:51-54 | the text written for a value stands for the text join would show for it, quoted when needed |
| ExportCsv.ConvertToCsvReadsBack | src/components/analytics/ExportButton.tsx:45-58 | with line breaks quoted too, every export reads back as the labels line and one line per record with each value's text |
| ExportCsv.AsWrittenReadsBack | src/components/analytics/ExportButton.tsx:51-52 | as written, the export reads back the same way while no value holds a line break |
| ExportCsv.AsWrittenSplitsRecord | src/components/analytics/ExportButton.tsx:51-52 | as written, an answer "a", line feed, "b" reads back as two records |
| ExportCsv.CorrectedKeepsWhole | src/components/analytics/ExportButton.tsx:51-52 | corrected, the same answer reads back as one record |
| ExportCsv.Cents | src/components/analytics/ExportButton.tsx:64 | the hundredths are the nearest to the number |
| ExportCsv.ToFixed2Reads | src/components/analytics/ExportButton.tsx:64 | toFixed(2) reads back as the whole part, a point and the nearest hundredths |
| ExportCsv.SummaryReadsBack | src/components/analytics/ExportButton.tsx:60-69 | the summary reads back as the header and five metric rows with the total, the average's text, the question count and the date range ("N/A to N/A" with no dates) |
| ExportCsv.ExportFilesReadBack | src/components/analytics/ExportButton.tsx:16-43 | as written, while no exported value shows a line feed, the evaluations file and the question file read back as their labels and one row per record; the summary reads back as five rows |
| Calendar.NormalMonth | src/components/DateRangePicker.tsx:18 | a month number outside 1..12 rolls over to a month within 1..12 |
| Calendar.Civil | src/components/DateRangePicker.tsx:18 | the date computed for a day number has that day number |
| Calendar.ClosedForm | src/components/DateRangePicker.tsx:18 | the days before a year are 365 a year plus the Gregorian leap days |
| Calendar.ShiftNumber | src/components/DateRangePicker.tsx:64 | shifting a date by k days adds k to its day number |
| Calendar.OrderMatches | src/components/DateRangePicker.tsx:111-112 | day numbers order valid dates as the calendar does |
| Calendar.NumbersDiffer | src/components/DateRangePicker.tsx:18 | different valid dates have different day numbers |
| Calendar.CivilOfNumber | src/components/DateRangePicker.tsx:18 | every valid date is the date of its day number |
| Calendar.RollOver | src/components/DateRangePicker.tsx:18 | twelve more months is one more year, and one more day is the next day number, as the Date constructor rolls them over |
| DateRangePicker.LexTotal | src/components/DateRangePicker.tsx:93 | string order is asymmetric (so irreflexive) and total |
| DateRangePicker.LexTransitive | src/components/DateRangePicker.tsx:93 | string order is transitive, so with LexTotal a strict total order |
| DateRangePicker.DigitsOrder | src/components/DateRangePicker.tsx:104-105 | digit runs of equal length compare as text as their values do |
| DateRangePicker.FormatReadsBack | src/components/DateRangePicker.tsx:14-26 | parseIsoDate reads a written date's fields back exactly when its year is at least 1 |
| DateRangePicker.ParseIsoDateRoundTrip | src/components/DateRangePicker.tsx:14-26 | from year 100 on, parsing a written date gives back the date |
| DateRangePicker.TwoDigitYears | src/components/DateRangePicker.tsx:18 | years 1 to 99 come back 1900 years later |
| DateRangePicker.IsoOrder | src/components/DateRangePicker.tsx:104-109 | among texts new Date reads as dates, text order is day order |
| DateRangePicker.IsoDayOfFormat | src/components/DateRangePicker.tsx:108-109 | new Date reads a written date back exactly when its year has four digits |
| DateRangePicker.FormatOrder | src/components/DateRangePicker.tsx:93 | written dates with four-digit years compare as text in calendar order |
| DateRangePicker.OrderedSpec | src/components/DateRangePicker.tsx:104-105 | startIso and endIso are the two texts, the earlier first |
| DateRangePicker.ClampKeeps | src/components/DateRangePicker.tsx:108-124 | the start is kept; the end changes only for readable ends more than maxDays days apart |
| DateRangePicker.CommitEnds | src/components/DateRangePicker.tsx:102-124 | the committed start is the earlier of the chosen start and the pick; the end is the other unless clamped |
| DateRangePicker.FinalFromChoice | src/components/DateRangePicker.tsx:102 | the start is the pending start, else the current start, else the pick |
| DateRangePicker.CommitWithinMaxDays | src/components/DateRangePicker.tsx:107-124 | a committed range with readable ends spans at most maxDays days, exactly maxDays when the ordered pick was clamped; its ends are in text order iff it spans a day, which it does for maxDays >= 1 |
| DateRangePicker.ClampedDay | src/components/DateRangePicker.tsx:116-120 | a clamped end lies maxDays - 1 days after the start |
| DateRangePicker.DayOrder | src/components/DateRangePicker.tsx:116-120 | that clamped end follows the start in text order iff maxDays >= 1 |
| DateRangePicker.EnabledPickKept | src/components/DateRangePicker.tsx:194-198 | an end pick the end calendar enables commits the start and the pick unchanged |
| DateRangePicker.KeptRange | src/components/DateRangePicker.tsx:61-65 | a pending start and a pick no more than maxDays - 1 days later are committed as they are |
| DateRangePicker.Picker.constructor | src/components/DateRangePicker.tsx:45-53 | a fresh picker is closed, selecting a start, with nothing pending and maxDays 31 unless given |
| DateRangePicker.Picker.HandleStartSelect | src/components/DateRangePicker.tsx:89-95 | the pick becomes the pending start, a pending end before it is dropped, and the end is selected next |
| DateRangePicker.Picker.HandleEndSelect | src/components/DateRangePicker.tsx:97-129 | the committed range is what Commit gives, and the picker closes with nothing pending |
| DateRangePicker.Picker.HandleOpenChange | src/components/DateRangePicker.tsx:131-139 | opening keeps the selection; closing clears it and returns to the start |
| SetupProvider.Nexts | src/context/SetupProvider.tsx:54 | k presses of next, all of them next |
| SetupProvider.NextSteps | src/context/SetupProvider.tsx:54 | next moves one step on, except on the last step |
| SetupProvider.BackSteps | src/context/SetupProvider.tsx:55 | back moves one step back, except on the first step |
| SetupProvider.ToSteps | src/context/SetupProvider.tsx:56-58 | to reaches every step directly and ignores an index that names no step |
| SetupProvider.BackUndoesNext | src/context/SetupProvider.tsx:54-55 | back undoes next and next undoes back, away from the ends |
| SetupProvider.NavigateKeepsRange | src/context/SetupProvider.tsx:37-58 | one navigation never leaves the range of steps |
| SetupProvider.RunKeepsRange | src/context/SetupProvider.tsx:38-58 | from a step in range, any run of navigations stays in range |
| SetupProvider.NextsReach | src/context/SetupProvider.tsx:54 | k presses of next from the first step reach step min(k, 6) |
| SetupProvider.RunAppend | src/context/SetupProvider.tsx:53-59 | two runs of navigations one after the other are their concatenation |
| SetupProvider.Wizard.constructor | src/context/SetupProvider.tsx:38 | the wizard opens on the first step |
| SetupProvider.Wizard.Next | src/context/SetupProvider.tsx:54 | the step becomes Navigate of the old step by next |
| SetupProvider.Wizard.Back | src/context/SetupProvider.tsx:55 | the step becomes Navigate of the old step by back |
| SetupProvider.Wizard.To | src/context/SetupProvider.tsx:56-58 | the step becomes Navigate of the old step by to(index) |
| SearchBox.OnFilterChange | src/components/student/SearchBox.tsx:13-18 | the new filter is last, no earlier filter has its column, the other columns' filters are kept and nothing else appears |
| SearchBox.OthersKept | src/components/student/SearchBox.tsx:14-15 | the other columns' filters keep their order and number |
| SearchBox.OthersOfAnyValue | src/components/student/SearchBox.tsx:14-15 | the kept filters do not depend on the value typed |
| SearchBox.OnFilterChangeIdempotent | src/components/student/SearchBox.tsx:13-18 | typing the same value into the same column twice is the same as once |
| SearchBox.TaskName | src/components/student/SearchBox.tsx:10-11 | a shown name comes from a "name" filter, and with no such filter the box is empty |
| SearchBox.TaskNameFirst | src/components/student/SearchBox.tsx:10-11 | the box shows the value of the first "name" filter |
| SearchBox.TypedNameShows | src/components/student/SearchBox.tsx:10-18 | what is typed into the box is what it shows next |
| SearchBox.OtherColumnKeepsName | src/components/student/SearchBox.tsx:10-18 | changing another column's filter leaves the shown name alone |
| Students.TagFilter | src/components/table/StudentTable.tsx:71-74 | "All" passes the list through; any other value keeps exactly the students whose tag has that label |
| Students.TagFilterKeepsOrder | src/components/table/StudentTable.tsx:71-74 | the tag filter keeps the order and the multiplicity of the students it keeps |
| StudentTable.FilteredStudents | src/components/table/StudentTable.tsx:70-83 | a student is shown iff in the data, past the tag filter and matched by the search |
| StudentTable.FilteredKeepsOrder | src/components/table/StudentTable.tsx:70-83 | the shown rows are one filter of the data by both tests, in order and with the data's multiplicities |
| StudentTable.EmptySearchKeepsAll | src/components/table/StudentTable.tsx:76-82 | an empty search keeps everything the tag filter kept |
| StudentTable.SearchIgnoresCase | src/components/table/StudentTable.tsx:76-82 | a query and its lower-cased form find the same students |
| StudentTable.SingleSpaceMissesNoMiddleName | src/components/table/StudentTable.tsx:78 | without a middle name the searched name has two spaces, so "Ann Lee" does not find Ann Lee |
| StudentTable.SelectionEffect | src/components/table/StudentTable.tsx:174-180 | in single mode the selection is cut to at most its first key, empty only when it was; otherwise it is kept |
| StudentTable.SelectionEffectSettles | src/components/table/StudentTable.tsx:174-180 | running the effect again changes nothing more |
| StudentTable.Click | src/components/table/StudentTable.tsx:283-292 | a disabled row does nothing; otherwise the student is passed on; in selection mode the selection becomes the toggled one, in main mode it is kept |
| StudentTable.Table.constructor | src/components/table/StudentTable.tsx:64 | a table starts with no row selected |
| StudentTable.Table.SelectionChanged | src/components/table/StudentTable.tsx:174-180 | the selection becomes SelectionEffect of the old one |
| StudentTable.Table.RowClick | src/components/table/StudentTable.tsx:283-292 | the new selection and the clicked student are what Click gives |
| StudentSelector.FilteredByTag | src/components/evaluate/ModalStudentSelector.tsx:38-41 | the dialog's list is the whole list for "All", else exactly the students with that label, in order |
| StudentSelector.Ids | src/components/evaluate/ModalStudentSelector.tsx:47 | the ids of the students, in order |
| StudentSelector.SelectedIds | src/components/evaluate/ModalStudentSelector.tsx:43-49 | single mode keeps at most the first selected id, none iff nothing is selected; multiple mode keeps every id in order |
| StudentSelector.Submitted | src/components/evaluate/ModalStudentSelector.tsx:51-52 | exactly the listed students whose id is selected are submitted |
| StudentSelector.SubmittedInListOrder | src/components/evaluate/ModalStudentSelector.tsx:51-52 | the submitted students follow the list's order and multiplicities, whatever the order of the ids |
| StudentSelector.OneIdOneStudent | src/components/evaluate/ModalStudentSelector.tsx:51-52 | with unique ids, one selected id submits at most one student |
| StudentSelector.NoneSubmitted | src/components/evaluate/ModalStudentSelector.tsx:51-52 | with no listed student selected, nothing is submitted |
| StudentSelector.SingleSubmitsAtMostOne | src/components/evaluate/ModalStudentSelector.tsx:43-52 | in single mode, with unique ids, at most one student is submitted, the first selected one |
| StudentSelector.Dialog.constructor | src/components/evaluate/ModalStudentSelector.tsx:36 | the dialog starts with no selection |
| StudentSelector.Dialog.HandleSelectionChange | src/components/evaluate/ModalStudentSelector.tsx:43-49 | the selected ids become SelectedIds of the selection; visibility is kept |
| StudentSelector.Dialog.SetVisible | src/components/evaluate/ModalStudentSelector.tsx:57-59 | the visibility is set, and the selection is cleared iff the visibility changed |
| StudentSelector.Dialog.HandleSubmit | src/components/evaluate/ModalStudentSelector.tsx:51-55 | the submitted students are those with a selected id; the dialog hides, clearing the selection if it was shown |
| HostMemory.RoundedIsNearest | src-tauri/src/commands/system.rs:7 | the rounded GiB count is within half a GiB of the byte count, halves rounding up |
| HostMemory.RoundedIsUnique | src-tauri/src/commands/system.rs:7 | no other whole GiB count is that near |
| HostMemory.RoundedMonotone | src-tauri/src/commands/system.rs:7 | more memory never rounds to fewer GiB |
| HostMemory.AdjustedGiB | src-tauri/src/commands/system.rs:11-15 | the result is the rounded count below 15, else 16; it is never 15 and never above 16 |
| HostMemory.AdjustedMonotone | src-tauri/src/commands/system.rs:7-15 | the reported size never goes down as memory grows |
| HostMemory.LargeMachinesReportSixteen | src-tauri/src/commands/system.rs:11-13 | 15, 32 and 64 GiB machines are all reported as 16 |
| HostMemory.OlderCommandAgrees | src-tauri/src/commands.rs:70-76 | the older command agrees with the newer one iff the rounded count is below 15 or is 16 |
| HostWindows.Target | src-tauri/src/commands/window.rs:31-58 | main is opened iff is_initialized is JSON true; setup otherwise |
| HostWindows.OtherValuesOpenSetup | src-tauri/src/commands/window.rs:45-56 | a missing flag, false, the text "true", a number and null all open setup |
| HostWindows.Get | src-tauri/src/commands/window.rs:29-31 | a key's value is present iff the store holds the key, and it is the stored value |
| HostWindows.App.constructor | src-tauri/src/commands/window.rs:25-27 | an app with the given windows and no store held |
| HostWindows.App.Close | src-tauri/src/commands/window.rs:61-63 | the named window is gone and nothing else changes |
| HostWindows.App.LoadWindow | src-tauri/src/commands/window.rs:25-67 | a store error changes nothing; a build error leaves the windows and keeps the store held; success opens the chosen window, closes "index" and releases the store |
| HostWindows.App.LoadWindowCommand | src-tauri/src/commands.rs:26-68 | the older load_window takes the same steps with the same outcomes |
| HostWindows.App.ShowMain | src-tauri/src/commands/window.rs:4-23 | a build error changes nothing; otherwise main is open and setup is closed |
| HostWindows.App.InitializeApp | src-tauri/src/commands.rs:5-24 | the same outcome as show_main |
| HostWindows.StartUp | src-tauri/src/commands/window.rs:25-67 | after a successful load from the splash screen exactly one of main and setup is open, the one the flag selects, "index" is closed and the store is released |
| Migrations.IndexOf | src-tauri/src/migrations.rs:4-17 | the position of the migration that runs a file, -1 iff none does |
| Migrations.NumberedAscending | src-tauri/src/migrations.rs:6-12 | versions numbered in order are unique and strictly ascending |
| Migrations.RegisteredMigrations | src-tauri/src/migrations.rs:4-17 | two migrations, versions 1 and 2, both up, and the schema is created before the default rubric is inserted |

## Left out

- Floating point: scores, averages and percentages are exact reals or
  integers. `Math.round` is half-up on exact values, and `toFixed(2)` never
  switches to exponent form.
- RubricCoverage.GetCoveragePercentage: rounds the exact quotient half up, so
  at a tie it can differ from the floating-point result; 29 covered points of
  a total of 199 (200 points) give 15 here, while JavaScript computes
  14.499999999999998 and shows 14.
- AIDetection.Percent: rounds the exact score half up; for a score of 0.285
  the model gives 29, while JavaScript computes 28.499999999999996 and shows
  28.
- Text:
  - `toLowerCase` and `\w` cover ASCII only; no Unicode case folding.
    Whitespace (`\s` and `trim`) is the full ECMAScript set.
  - `Number()` in the date picker reads an optional sign and decimal digits,
    with no fractions, hexadecimal, exponent or `Infinity` forms: `"1.5"`
    reads as not a number, where JavaScript gives 1.5 and `new Date`
    truncates it. The picker's own dates never hold such a piece.
- RubricCoverage.NoOverlapsOrderFree: order independence is promised only
  for well-formed brackets; for a bracket with min > max the verdict can
  depend on the input order (`RubricCoverage.IllFormedOrderMatters`).
- ModalEdit: the in-place `sort`s of the modification check
  (`ModalEdit.tsx:222`) and of the render (`ModalEdit.tsx:271-272`) mutate
  the form's bracket array. The model compares and lists sorted copies and
  does not model that aliasing.
- The JavaScript engine's exact text for the `TypeError` raised on a `null`
  metadata or a `null` row of a collection is a constant
  (`Backup.NullAccess`); engines differ.
- Databases:
  - SQL statements, connections and the SQLite rowid are modelled only as far
    as the code observes them: the statement log, the failing statement, the
    next id.
  - The SQL files the migrations name are not part of this model.
  - Opening and closing a database are parameters or left out.
- The date picker:
  - `new Date()` ("today") and the local time zone are left out. Days are
    whole day numbers, so daylight-saving shifts do not arise.
  - `new Date(iso)` is modelled for the strict `YYYY-MM-DD` shape; any other
    text is an invalid date.
  - The parse round trip is proved from year 100 on, since the years 1 to 99
    become 1900 to 1999.
  - `formatDisplay` and its `toLocaleDateString` output are left out.
- DateRangePicker.MaxEndDate: the end calendar's `{ after: maxEndDateObj }`
  limit is a day number, not a `Date`.
- ExportCsv:
  - ExportCsv.ExportFiles writes the files with `convertToCSV` as it stands,
    so its read-back is promised only while no value shows a line feed; the
    quoting of line breaks is proved only for the corrected converter
    (`ExportCsv.ConvertToCsvReadsBack`).
  - A number cell is an integer, and `undefined`/`null` join as empty text.
  - The Blob, anchor and download steps (`downloadCSV`) are I/O and are left
    out.
- The learner database: errors raised by the database (the `catch` branch)
  are not modelled; the model's `add` always succeeds.
- Learner.LearnerDb.Add models the lookup query as written; the intended
  lookup on normal forms is proved only of the functions `Learner.AddedRows`
  and `Learner.QuestionIdFor` (`Learner.RepeatedQuestionReused`).
- The student table:
  - TanStack Table's `toggleSelected` is a parameter (the selection it
    leaves).
  - The row model passed to `onSelectionChange`, the column definitions and
    the drag-and-drop column reordering (`arrayMove`) are rendering concerns
    and are left out.
- Types files: `src/types/models.ts` and `src/components/student/types.ts`
  are not part of this model. The Student, Tag and evaluator Sheet shapes are
  taken from their uses.
- The other setup fields of SetupProvider (memory, mode, role, EULA, API
  key, name) are plain setters and are left out, as is the `invoke` call
  that fetches the memory size.
- The Rust host:
  - The system-information plugin query and its lock/`unwrap` panic are left
    out; the byte count is a parameter.
  - The `u64` to `f64` conversion loses precision above 2^53 bytes; this is
    not modelled.
  - Building a window and opening the store are calls into Tauri. Their
    outcomes are parameters, so a build error such as a duplicate window
    label is not derived from the app's state.
  - A JSON object is a map from key to value; the order of its keys is not
    modelled.
- Rendering: colours, icons, layout and chart drawing are only modelled where
  a function returns them as values.

## Findings

| source | as written | input that shows it | evidently intended | confidence | as-written member | corrected member |
|---|---|---|---|---|---|---|
| src/database/evaluation/learner.ts:35 | the duplicate lookup compares `REPLACE(LOWER(TRIM(content)), '[^\w\s]', '')` with the normalised question; SQLite's REPLACE takes the pattern literally, so stored symbols are never removed | adding "Hi?" twice: the stored key is "hi?", the normal form is "hi", so a second row is inserted | a stored question matches when its normal form equals the new question's, so a repeated question reuses its row | high (not executed) | Learner.AsWrittenStoresTwice | Learner.RepeatedQuestionReused |
| src/components/analytics/ExportButton.tsx:49-52 | a string value is quoted only when it holds a comma or a double quote | an answer "a", line feed, "b" is written unquoted, and the one record reads back as two | values holding a line break are quoted too, so every record reads back whole | high (not executed) | ExportCsv.AsWrittenSplitsRecord | ExportCsv.ConvertToCsvReadsBack |
