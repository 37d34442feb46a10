/**
 * The student selector dialog (`src/components/evaluate/ModalStudentSelector.tsx`):
 * its tag filter, the ids it keeps from the table's selection, the students
 * it submits, and the reset of the selection when the dialog shows or hides.
 */
module StudentSelector {
  import opened Lists
  import opened Students

  /** The `selectionMode` property of the dialog. */
  datatype Mode = Single | Multiple

  /** The dialog's `filteredStudents` is the tag filter over `students`. */
  lemma FilteredByTag(students: seq<Student>, tagFilter: string)
    ensures tagFilter == "All" ==> TagFilter(students, tagFilter) == students
    ensures tagFilter != "All" ==> forall s :: s in TagFilter(students, tagFilter) <==> s in students && HasLabel(s, tagFilter)
    ensures Subsequence(TagFilter(students, tagFilter), students)
  {
    TagFilterKeepsOrder(students, tagFilter);
  }

  /** The ids of a list of students, in order. */
  function Ids(students: seq<Student>): (r: seq<string>)
    ensures |r| == |students| && forall i :: 0 <= i < |r| ==> r[i] == students[i].id
  {
    Map((s: Student) => s.id, students)
  }

  /**
   * `handleSelectionChange`: in single mode the id of the first selected
   * student, or none; in multiple mode the ids of all selected students.
   */
  function SelectedIds(mode: Mode, selected: seq<Student>): (r: seq<string>)
    ensures mode == Single ==> |r| <= 1 && (r == [] <==> selected == [])
    ensures mode == Single && selected != [] ==> r[0] == selected[0].id
    ensures mode == Multiple ==> |r| == |selected| && forall i :: 0 <= i < |r| ==> r[i] == selected[i].id
  {
    if mode == Single then (if |selected| > 0 then [selected[0].id] else [])
    else Ids(selected)
  }

  /** The test `selectedIds.includes(s.id)`. */
  function SelectedTest(ids: seq<string>): Student -> bool {
    (s: Student) => s.id in ids
  }

  /** The students `handleSubmit` passes on: those of the full list whose id is selected. */
  function Submitted(students: seq<Student>, ids: seq<string>): (r: seq<Student>)
    ensures forall s :: s in r <==> s in students && s.id in ids
  {
    Filter(SelectedTest(ids), students)
  }

  /** The submitted students are in the full list's order, whatever the order of the ids. */
  lemma SubmittedInListOrder(students: seq<Student>, ids: seq<string>)
    ensures Subsequence(Submitted(students, ids), students)
    ensures forall s :: multiset(Submitted(students, ids))[s] == if s.id in ids then multiset(students)[s] else 0
  {
    FilterSpec(SelectedTest(ids), students);
  }

  /** No two students of the list share an id. */
  predicate UniqueIds(students: seq<Student>) {
    forall i, j :: 0 <= i < j < |students| ==> students[i].id != students[j].id
  }

  /** With unique ids, one selected id submits at most one student. */
  lemma {:induction false} OneIdOneStudent(students: seq<Student>, id: string)
    requires UniqueIds(students)
    ensures |Submitted(students, [id])| <= 1
  {
    if students != [] {
      var rest := students[1..];
      assert UniqueIds(rest) by {
        forall i, j | 0 <= i < j < |rest| ensures rest[i].id != rest[j].id {
          assert rest[i] == students[i + 1] && rest[j] == students[j + 1];
        }
      }
      if students[0].id == id {
        forall s | s in rest ensures s.id != id {
          var k :| 0 <= k < |rest| && rest[k] == s;
          assert students[k + 1] == s;
        }
        NoneSubmitted(rest, [id]);
      } else {
        OneIdOneStudent(rest, id);
      }
    }
  }

  /** When no student of the list is selected, nothing is submitted. */
  lemma {:induction false} NoneSubmitted(students: seq<Student>, ids: seq<string>)
    requires forall s :: s in students ==> s.id !in ids
    ensures Submitted(students, ids) == []
  {
    if students != [] {
      assert students[0] in students;
      NoneSubmitted(students[1..], ids);
    }
  }

  /** In single mode, with unique ids, at most one student is submitted: the first selected one, if it is in the list. */
  lemma SingleSubmitsAtMostOne(students: seq<Student>, selected: seq<Student>)
    requires UniqueIds(students)
    ensures |Submitted(students, SelectedIds(Single, selected))| <= 1
    ensures forall s :: s in Submitted(students, SelectedIds(Single, selected)) ==> s.id == selected[0].id
  {
    if selected == [] {
      NoneSubmitted(students, []);
    } else {
      OneIdOneStudent(students, selected[0].id);
    }
  }

  /** The dialog's state: the selected ids and whether it is shown. */
  class Dialog {
    const students: seq<Student>
    const mode: Mode
    var selectedIds: seq<string>
    var isVisible: bool

    /** On mount the reset effect leaves the selection empty. */
    constructor(students: seq<Student>, mode: Mode, isVisible: bool)
      ensures this.students == students && this.mode == mode
      ensures this.isVisible == isVisible && selectedIds == []
    {
      this.students := students;
      this.mode := mode;
      this.isVisible := isVisible;
      selectedIds := [];
    }

    /** `handleSelectionChange(selected)`. */
    method HandleSelectionChange(selected: seq<Student>)
      modifies this
      ensures selectedIds == SelectedIds(mode, selected) && isVisible == old(isVisible)
    {
      if mode == Single {
        selectedIds := if |selected| > 0 then [selected[0].id] else [];
      } else {
        selectedIds := Ids(selected);
      }
    }

    /** `setIsVisible(v)` followed by the reset effect, which runs when the visibility changes. */
    method SetVisible(v: bool)
      modifies this
      ensures isVisible == v
      ensures selectedIds == if v != old(isVisible) then [] else old(selectedIds)
    {
      if v != isVisible {
        selectedIds := [];
      }
      isVisible := v;
    }

    /**
     * `handleSubmit`: passes the selected students to `onSubmit` and hides
     * the dialog, which clears the selection when the dialog was shown.
     */
    method HandleSubmit() returns (submitted: seq<Student>)
      modifies this
      ensures submitted == Submitted(students, old(selectedIds))
      ensures !isVisible
      ensures selectedIds == if old(isVisible) then [] else old(selectedIds)
    {
      submitted := Filter(SelectedTest(selectedIds), students);
      SetVisible(false);
    }
  }
}
