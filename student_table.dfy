/**
 * The student table's own logic (`src/components/table/StudentTable.tsx`):
 * the rows it shows for a tag filter and a search text, the single-selection
 * rule, and what a click on a row does.
 */
module StudentTable {
  import opened Wrappers
  import opened Lists
  import opened Text
  import opened Students

  /** `${first_name} ${middle_name ?? ""} ${last_name}`: two spaces when there is no middle name. */
  function FullName(s: Student): string {
    s.firstName + " " + s.middleName.GetOr("") + " " + s.lastName
  }

  /** The search: the lowered full name or the lowered tag label contains the lowered query. */
  predicate MatchesSearch(s: Student, query: string) {
    Contains(Lower(FullName(s)), Lower(query)) ||
    (s.tag.Some? && Contains(Lower(s.tag.value.text), Lower(query)))
  }

  /** The search as a test on students. */
  function SearchTest(query: string): Student -> bool {
    (s: Student) => MatchesSearch(s, query)
  }

  /** `filteredStudents`: the tag filter, then the search over what it kept. */
  function FilteredStudents(data: seq<Student>, globalFilter: string, tagFilter: string): (r: seq<Student>)
    ensures forall s :: s in r <==>
      s in data && (tagFilter == "All" || HasLabel(s, tagFilter)) && MatchesSearch(s, globalFilter)
  {
    Filter(SearchTest(globalFilter), TagFilter(data, tagFilter))
  }

  /** A student the table shows: past the tag filter and found by the search. */
  predicate Shown(s: Student, globalFilter: string, tagFilter: string) {
    (tagFilter == "All" || HasLabel(s, tagFilter)) && MatchesSearch(s, globalFilter)
  }

  /** `Shown` as a test on students. */
  function ShownTest(globalFilter: string, tagFilter: string): Student -> bool {
    (s: Student) => Shown(s, globalFilter, tagFilter)
  }

  /**
   * The shown rows are `data` with some students dropped and the rest in
   * their order, each kept student as often as `data` has it: the same as one
   * filter by both tests.
   */
  lemma FilteredKeepsOrder(data: seq<Student>, globalFilter: string, tagFilter: string)
    ensures FilteredStudents(data, globalFilter, tagFilter) == Filter(ShownTest(globalFilter, tagFilter), data)
    ensures Subsequence(FilteredStudents(data, globalFilter, tagFilter), data)
    ensures forall s :: multiset(FilteredStudents(data, globalFilter, tagFilter))[s] ==
                        if Shown(s, globalFilter, tagFilter) then multiset(data)[s] else 0
  {
    var tagged := (s: Student) => tagFilter == "All" || HasLabel(s, tagFilter);
    var search := SearchTest(globalFilter);
    var shown := ShownTest(globalFilter, tagFilter);
    if tagFilter == "All" {
      FilterAll(tagged, data);
    } else {
      FilterSameTest((s: Student) => HasLabel(s, tagFilter), tagged, data);
    }
    assert TagFilter(data, tagFilter) == Filter(tagged, data);
    FilterFilter(tagged, search, shown, data);
    FilterSpec(shown, data);
  }

  /** Every text contains the empty text. */
  lemma ContainsEmpty(s: string)
    ensures Contains(s, "")
  {
    assert MatchAt(s, "", 0);
  }

  /** An empty search keeps every student the tag filter kept. */
  lemma EmptySearchKeepsAll(data: seq<Student>, tagFilter: string)
    ensures FilteredStudents(data, "", tagFilter) == TagFilter(data, tagFilter)
  {
    forall s: Student
      ensures MatchesSearch(s, "")
    {
      ContainsEmpty(Lower(FullName(s)));
    }
    FilterAll((s: Student) => MatchesSearch(s, ""), TagFilter(data, tagFilter));
  }

  /** The search ignores the case of the query: a query and its lowered form find the same students. */
  lemma SearchIgnoresCase(s: Student, query: string)
    ensures MatchesSearch(s, query) <==> MatchesSearch(s, Lower(query))
  {
    LowerIdempotent(query);
  }

  /**
   * A student without a middle name is not found by "first last" with one
   * space, since the shown name has two spaces there: "Ann Lee" does not
   * find Ann Lee.
   */
  lemma SingleSpaceMissesNoMiddleName()
    ensures !MatchesSearch(Student("1", "Ann", None, "Lee", None), "Ann Lee")
  {
    var s := Student("1", "Ann", None, "Lee", None);
    var name, query := "Ann  Lee", "Ann Lee";
    assert FullName(s) == name;
    LoweredNames();
    MissesAtBothStarts(Lower(name), Lower(query));
  }

  lemma LoweredNames()
    ensures Lower("Ann  Lee")[4] != Lower("Ann Lee")[4] && Lower("Ann  Lee")[1] != Lower("Ann Lee")[0]
  {
    LowerAt("Ann  Lee", 4);
    LowerAt("Ann Lee", 4);
    LowerAt("Ann  Lee", 1);
    LowerAt("Ann Lee", 0);
  }

  /** A text one longer than the query, differing from it at both places the query could start, does not contain it. */
  lemma MissesAtBothStarts(name: string, query: string)
    requires |name| == |query| + 1 && |query| > 4
    requires name[4] != query[4] && name[1] != query[0]
    ensures !Contains(name, query)
  {
    assert !MatchAt(name, query, 0) by {
      assert name[0..|query|][4] == name[4];
    }
    assert !MatchAt(name, query, 1) by {
      assert name[1..|query| + 1][0] == name[1];
    }
  }

  // ---------------------------------------------------------------------------
  // Row selection and clicks
  // ---------------------------------------------------------------------------

  /** The `selectionMode` property. */
  datatype SelectionMode = NoSelection | Single | Multiple

  /** The `mode` property. */
  datatype TableMode = Selection | Main

  /**
   * The selection effect: in single mode a selection of more than one row
   * is cut down to its first key; otherwise it is left as it is. The
   * selection is the list of selected row ids in key order.
   */
  function SelectionEffect(mode: SelectionMode, keys: seq<string>): (r: seq<string>)
    ensures mode != Single ==> r == keys
    ensures mode == Single ==> |r| <= 1 && r <= keys && (r == [] <==> keys == [])
  {
    if mode == Single && |keys| > 1 then [keys[0]] else keys
  }

  /** The effect, run again on the selection it produced, changes nothing more. */
  lemma SelectionEffectSettles(mode: SelectionMode, keys: seq<string>)
    ensures SelectionEffect(mode, SelectionEffect(mode, keys)) == SelectionEffect(mode, keys)
  {
  }

  /**
   * A click on the row of `student`: nothing when the row is disabled; in
   * selection mode the selection becomes the table library's toggled one
   * (`toggled`) and the student is passed to `onRowClick`; in main mode the
   * student is only passed on. The result is the new selection and the
   * student passed to `onRowClick`, if any.
   */
  function Click(mode: TableMode, disabledRowIds: seq<string>, selection: seq<string>,
                 toggled: seq<string>, student: Student): (r: (seq<string>, Option<Student>))
    ensures student.id in disabledRowIds ==> r == (selection, None)
    ensures student.id !in disabledRowIds ==> r.1 == Some(student)
    ensures r.0 != selection ==> mode == Selection && student.id !in disabledRowIds && r.0 == toggled
    ensures student.id !in disabledRowIds && mode == Selection ==> r.0 == toggled
    ensures mode == Main ==> r.0 == selection
  {
    if student.id in disabledRowIds then (selection, None)
    else if mode == Selection then (toggled, Some(student))
    else (selection, Some(student))
  }

  /** The table's selection state. */
  class Table {
    const mode: TableMode
    const selectionMode: SelectionMode
    const disabledRowIds: seq<string>
    var rowSelection: seq<string>

    /** A table starts with no row selected. */
    constructor(mode: TableMode, selectionMode: SelectionMode, disabledRowIds: seq<string>)
      ensures this.mode == mode && this.selectionMode == selectionMode
      ensures this.disabledRowIds == disabledRowIds && rowSelection == []
    {
      this.mode := mode;
      this.selectionMode := selectionMode;
      this.disabledRowIds := disabledRowIds;
      rowSelection := [];
    }

    /** The effect that runs when `rowSelection` changes. */
    method SelectionChanged()
      modifies this
      ensures rowSelection == SelectionEffect(selectionMode, old(rowSelection))
    {
      if selectionMode == Single && |rowSelection| > 1 {
        rowSelection := [rowSelection[0]];
      }
    }

    /** The row's `onClick`; `toggled` is the selection `row.toggleSelected()` leaves. */
    method RowClick(student: Student, toggled: seq<string>) returns (clicked: Option<Student>)
      modifies this
      ensures (rowSelection, clicked) == Click(mode, disabledRowIds, old(rowSelection), toggled, student)
    {
      if student.id in disabledRowIds {
        return None;
      }
      if mode == Selection {
        rowSelection := toggled;
        clicked := Some(student);
      } else {
        clicked := Some(student);
      }
    }
  }
}
