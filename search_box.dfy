/**
 * The column filters of the student search box
 * (`src/components/student/SearchBox.tsx`): typing a value replaces the
 * filter with the same column id, and the box shows the value of the
 * "name" filter.
 */
module SearchBox {
  import opened Wrappers
  import opened Lists

  /** A column filter: the column's id and the text it filters by. */
  datatype FilterProp = FilterProp(id: string, value: string)

  /** The filters kept when the filter of column `id` is replaced. */
  function Others(filters: seq<FilterProp>, id: string): seq<FilterProp> {
    Filter((f: FilterProp) => f.id != id, filters)
  }

  /**
   * `onFilterChange(id, value)`: the filters of other columns, followed by
   * the new filter of column `id`.
   */
  function OnFilterChange(filters: seq<FilterProp>, id: string, value: string): (r: seq<FilterProp>)
    ensures |r| > 0 && r[|r| - 1] == FilterProp(id, value)
    ensures forall i :: 0 <= i < |r| - 1 ==> r[i].id != id
    ensures forall f :: f in filters && f.id != id ==> f in r
    ensures forall f :: f in r ==> f in filters || f == FilterProp(id, value)
  {
    var r := Others(filters, id) + [FilterProp(id, value)];
    assert forall i :: 0 <= i < |r| - 1 ==> r[i] in Others(filters, id);
    r
  }

  /** The filters of other columns keep their order and their number: the prefix is `filters` without column `id`. */
  lemma OthersKept(filters: seq<FilterProp>, id: string)
    ensures var r := OnFilterChange(filters, id, ""); r[..|r| - 1] == Others(filters, id)
    ensures Subsequence(Others(filters, id), filters)
    ensures forall f: FilterProp :: f.id != id ==> multiset(Others(filters, id))[f] == multiset(filters)[f]
  {
    FilterSpec((f: FilterProp) => f.id != id, filters);
    var r := OnFilterChange(filters, id, "");
    assert r == Others(filters, id) + [FilterProp(id, "")];
  }

  /** The prefix does not depend on the value typed. */
  lemma OthersOfAnyValue(filters: seq<FilterProp>, id: string, value: string)
    ensures var r := OnFilterChange(filters, id, value); r[..|r| - 1] == Others(filters, id)
  {
    var r := OnFilterChange(filters, id, value);
    assert r == Others(filters, id) + [FilterProp(id, value)];
  }

  /** Typing the same value into the same column twice is the same as once. */
  lemma OnFilterChangeIdempotent(filters: seq<FilterProp>, id: string, value: string)
    ensures OnFilterChange(OnFilterChange(filters, id, value), id, value) == OnFilterChange(filters, id, value)
  {
    var keep := (f: FilterProp) => f.id != id;
    var once := OnFilterChange(filters, id, value);
    assert once == Others(filters, id) + [FilterProp(id, value)];
    FilterConcat(keep, Others(filters, id), [FilterProp(id, value)]);
    FilterIdempotent(keep, filters);
    assert Filter(keep, [FilterProp(id, value)]) == [];
  }

  /**
   * `taskName`: the value of the first filter of column "name", or `""`
   * when there is none (`undefined || ""`; the empty value is `""` either way).
   */
  function TaskName(filters: seq<FilterProp>): (r: string)
    ensures r != "" ==> FilterProp("name", r) in filters
    ensures (forall f :: f in filters ==> f.id != "name") ==> r == ""
  {
    var found := Find((f: FilterProp) => f.id == "name", filters);
    if found.Some? then found.value.value else ""
  }

  /** The box shows the value of the first "name" filter. */
  lemma TaskNameFirst(filters: seq<FilterProp>, i: nat)
    requires i < |filters| && filters[i].id == "name"
    requires forall j :: 0 <= j < i ==> filters[j].id != "name"
    ensures TaskName(filters) == filters[i].value
  {
    FindAt((f: FilterProp) => f.id == "name", filters, i);
  }

  /** What is typed into the box is what the box shows next. */
  lemma TypedNameShows(filters: seq<FilterProp>, value: string)
    ensures TaskName(OnFilterChange(filters, "name", value)) == value
  {
    var r := OnFilterChange(filters, "name", value);
    TaskNameFirst(r, |r| - 1);
  }

  /** Changing another column's filter leaves the shown name alone. */
  lemma OtherColumnKeepsName(filters: seq<FilterProp>, id: string, value: string)
    requires id != "name"
    ensures TaskName(OnFilterChange(filters, id, value)) == TaskName(filters)
  {
    NameFiltersKept(filters, id, value);
  }

  /** The first "name" filter is the same before and after another column changes. */
  lemma NameFiltersKept(filters: seq<FilterProp>, id: string, value: string)
    requires id != "name"
    ensures Find((f: FilterProp) => f.id == "name", OnFilterChange(filters, id, value)) ==
            Find((f: FilterProp) => f.id == "name", filters)
  {
    var p := (f: FilterProp) => f.id == "name";
    var keep := (f: FilterProp) => f.id != id;
    OthersOfAnyValue(filters, id, value);
    FindOfFilter(p, keep, filters);
    FindAppendMissing(p, Others(filters, id), FilterProp(id, value));
    assert OnFilterChange(filters, id, value) == Others(filters, id) + [FilterProp(id, value)];
  }

  /** Dropping elements that never pass `p` does not change what `find(p)` returns. */
  lemma {:induction false} FindOfFilter(p: FilterProp -> bool, keep: FilterProp -> bool, s: seq<FilterProp>)
    requires forall x :: p(x) ==> keep(x)
    ensures Find(p, Filter(keep, s)) == Find(p, s)
  {
    if s != [] {
      FindOfFilter(p, keep, s[1..]);
      var rest := Filter(keep, s[1..]);
      if keep(s[0]) {
        var r := [s[0]] + rest;
        assert Filter(keep, s) == r && r[0] == s[0] && r[1..] == rest;
      } else {
        assert Filter(keep, s) == rest;
      }
    }
  }

  /** Appending an element that does not pass `p` does not change what `find(p)` returns. */
  lemma {:induction false} FindAppendMissing(p: FilterProp -> bool, s: seq<FilterProp>, x: FilterProp)
    requires !p(x)
    ensures Find(p, s + [x]) == Find(p, s)
  {
    if s == [] {
      assert ([] + [x])[1..] == [];
    } else {
      FindAppendMissing(p, s[1..], x);
      assert (s + [x])[1..] == s[1..] + [x];
    }
  }
}
