/**
 * Students and their tags as the student table and the student selector
 * use them (`src/types/models.ts` is not part of this model: the fields are
 * the ones these components read), and the tag filter both components apply.
 */
module Students {
  import opened Wrappers
  import opened Lists

  /**
   * A student tag; `text` holds its `label` (a reserved word in Dafny), the
   * only part the components compare.
   */
  datatype Tag = Tag(id: string, text: string)

  /** A student: an optional middle name and an optional tag. */
  datatype Student = Student(
    id: string,
    firstName: string,
    middleName: Option<string>,
    lastName: string,
    tag: Option<Tag>)

  /** `s.tag?.label === wanted`: a student without a tag never matches. */
  predicate HasLabel(s: Student, wanted: string) {
    s.tag.Some? && s.tag.value.text == wanted
  }

  /**
   * The tag filter: "All" passes the list through, any other value keeps
   * the students whose tag label is exactly that value.
   */
  function TagFilter(students: seq<Student>, tagFilter: string): (r: seq<Student>)
    ensures tagFilter == "All" ==> r == students
    ensures tagFilter != "All" ==> forall s :: s in r <==> s in students && HasLabel(s, tagFilter)
  {
    if tagFilter == "All" then students else Filter((s: Student) => HasLabel(s, tagFilter), students)
  }

  /** The tag filter keeps the order of the list and every kept student as often as the list has it. */
  lemma TagFilterKeepsOrder(students: seq<Student>, tagFilter: string)
    ensures Subsequence(TagFilter(students, tagFilter), students)
    ensures forall s :: multiset(TagFilter(students, tagFilter))[s] ==
                        if tagFilter == "All" || HasLabel(s, tagFilter) then multiset(students)[s] else 0
  {
    FilterSpec((s: Student) => HasLabel(s, tagFilter), students);
    if tagFilter == "All" {
      SubsequenceOfSelf(students);
    }
  }
}
