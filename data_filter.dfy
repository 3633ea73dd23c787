/**
 * The `DataFilter` component (src/components/DataFilter.tsx): a list of
 * column/value filters edited by the user, and the conjunctive,
 * case-insensitive substring filter it applies to the rows of a dataset.
 */
module DataFilter {
  import opened Text
  import opened SeqOps

  /** One filter entry: `{ column, value }`. */
  datatype Filter = Filter(column: string, value: string)

  /** The two fields `updateFilter` can write. */
  datatype FilterField = Column | Value

  /**
   * A row as the filter sees it: each present cell already converted with
   * `String(...)`.
   */
  type Row = map<string, string>

  /** `String(row[column])`: a missing column reads as `undefined`, which stringifies to "undefined". */
  function CellText(row: Row, column: string): string
  {
    if column in row then row[column] else "undefined"
  }

  /** One filter keeps a row when the lower-cased cell contains the lower-cased filter value. */
  predicate Passes(row: Row, f: Filter): (b: bool)
    ensures f.value == "" ==> b
    ensures b <==> exists k :: OccursAt(Lower(CellText(row, f.column)), Lower(f.value), k)
  {
    Contains(Lower(CellText(row, f.column)), Lower(f.value))
  }

  /** `filters.every(...)`: the row passes every filter. */
  predicate PassesAll(row: Row, filters: seq<Filter>)
  {
    forall i :: 0 <= i < |filters| ==> Passes(row, filters[i])
  }

  /**
   * `data.filter(item => filters.every(...))`: a subsequence of the data
   * (order kept) holding every copy of each row that passes all filters
   * and no copy of any row that fails one.
   */
  function ApplyFilters(data: seq<Row>, filters: seq<Filter>): (r: seq<Row>)
    ensures IsSubseq(r, data)
    ensures forall x :: multiset(r)[x] == if PassesAll(x, filters) then multiset(data)[x] else 0
    decreases |data|
  {
    if |data| == 0 then []
    else
      var rest := ApplyFilters(data[1..], filters);
      assert data == [data[0]] + data[1..];
      if PassesAll(data[0], filters) then [data[0]] + rest else rest
  }

  /** With no filters every row passes, so the result is the data itself. */
  lemma {:induction false} NoFiltersKeepAll(data: seq<Row>)
    ensures ApplyFilters(data, []) == data
  {
    if |data| > 0 {
      NoFiltersKeepAll(data[1..]);
      assert data == [data[0]] + data[1..];
    }
  }

  /** A filter whose value is empty keeps every row. */
  lemma EmptyValuePasses(row: Row, column: string)
    ensures Passes(row, Filter(column, ""))
  {
    ContainsEmpty(Lower(CellText(row, column)));
  }

  /** Adding a filter with an empty value leaves the result as it was. */
  lemma {:induction false} EmptyValueFilterNeutral(data: seq<Row>, filters: seq<Filter>, column: string)
    ensures ApplyFilters(data, filters + [Filter(column, "")]) == ApplyFilters(data, filters)
  {
    if |data| > 0 {
      EmptyValueFilterNeutral(data[1..], filters, column);
      EmptyValuePasses(data[0], column);
      var all := filters + [Filter(column, "")];
      assert PassesAll(data[0], all) == PassesAll(data[0], filters) by {
        if PassesAll(data[0], filters) {
          forall i | 0 <= i < |all| ensures Passes(data[0], all[i]) {
            if i < |filters| { assert all[i] == filters[i]; }
          }
        }
        if PassesAll(data[0], all) {
          forall i | 0 <= i < |filters| ensures Passes(data[0], filters[i]) {
            assert all[i] == filters[i];
          }
        }
      }
    }
  }

  /** Filtering by two lists at once is filtering by the first and then by the second. */
  lemma {:induction false} FiltersCompose(data: seq<Row>, fs: seq<Filter>, gs: seq<Filter>)
    ensures ApplyFilters(data, fs + gs) == ApplyFilters(ApplyFilters(data, fs), gs)
  {
    if |data| > 0 {
      FiltersCompose(data[1..], fs, gs);
      var row := data[0];
      assert PassesAll(row, fs + gs) <==> PassesAll(row, fs) && PassesAll(row, gs) by {
        forall i | 0 <= i < |fs| ensures (fs + gs)[i] == fs[i] { }
        forall i | 0 <= i < |gs| ensures (fs + gs)[|fs| + i] == gs[i] { }
        if PassesAll(row, fs) && PassesAll(row, gs) {
          forall i | 0 <= i < |fs + gs| ensures Passes(row, (fs + gs)[i]) {
            if i >= |fs| { assert (fs + gs)[i] == gs[i - |fs|]; }
          }
        }
      }
      var once := ApplyFilters(data[1..], fs);
      if PassesAll(row, fs) {
        assert ApplyFilters(data, fs) == [row] + once;
        assert ([row] + once)[1..] == once;
      }
    }
  }

  /**
   * Monotonicity: when every filter of `fs` also appears in `gs`, the rows
   * `gs` keeps are a subsequence of the rows `fs` keeps. In particular
   * adding a filter never enlarges the result.
   */
  lemma {:induction false} MoreFiltersFewerRows(data: seq<Row>, fs: seq<Filter>, gs: seq<Filter>)
    requires forall f :: f in fs ==> f in gs
    ensures IsSubseq(ApplyFilters(data, gs), ApplyFilters(data, fs))
  {
    if |data| > 0 {
      MoreFiltersFewerRows(data[1..], fs, gs);
      var row := data[0];
      var small, large := ApplyFilters(data[1..], gs), ApplyFilters(data[1..], fs);
      if PassesAll(row, gs) {
        forall i | 0 <= i < |fs| ensures Passes(row, fs[i]) {
          assert fs[i] in gs;
          var j :| 0 <= j < |gs| && gs[j] == fs[i];
        }
        assert ApplyFilters(data, gs) == [row] + small;
        assert ApplyFilters(data, fs) == [row] + large;
        assert ([row] + small)[1..] == small && ([row] + large)[1..] == large;
      } else if PassesAll(row, fs) {
        assert ApplyFilters(data, fs) == [row] + large;
        assert ([row] + large)[1..] == large;
        SkipHead(small, row, large);
      }
    }
  }

  /**
   * The filter ignores case on both sides: cells equal up to case, and
   * filter values equal up to case, keep or drop rows alike.
   */
  lemma FilterIgnoresCase(row: Row, other: Row, column: string, v: string, w: string)
    requires SameIgnoringCase(CellText(row, column), CellText(other, column))
    requires SameIgnoringCase(v, w)
    ensures Passes(row, Filter(column, v)) == Passes(other, Filter(column, w))
  {
    LowerIgnoresCase(CellText(row, column), CellText(other, column));
    LowerIgnoresCase(v, w);
  }

  /**
   * A row without the filtered column is read as "undefined": it passes a
   * filter exactly when the lower-cased filter value is a piece of that
   * word.
   */
  lemma MissingColumnReadsUndefined(row: Row, column: string, v: string)
    requires column !in row
    ensures Passes(row, Filter(column, v)) <==> Contains("undefined", Lower(v))
  {
    var word := "undefined";
    forall k | 0 <= k < |word| ensures !IsCapital(word[k]) { }
    LowerNoCapitals(word);
  }

  /** `columns[0]`; an empty column list gives `undefined`, which as a property key reads "undefined". */
  function DefaultColumn(columns: seq<string>): string
  {
    if |columns| > 0 then columns[0] else "undefined"
  }

  /** The filter entry `f` with one field overwritten. */
  function Updated(f: Filter, field: FilterField, value: string): Filter
  {
    match field
    case Column => f.(column := value)
    case Value => f.(value := value)
  }

  /**
   * The component's state: the filter list, and `filtered`, the rows last
   * handed to `onFilterChange`. The effect on `filters` recomputes it after
   * every change of the list, so it always equals the filter of `data`.
   */
  class FilterPanel {
    const data: seq<Row>
    const columns: seq<string>
    var filters: seq<Filter>
    var filtered: seq<Row>

    ghost predicate Valid()
      reads this
    {
      filtered == ApplyFilters(data, filters)
    }

    /** Mounting: no filters, and the effect reports every row. */
    constructor (data: seq<Row>, columns: seq<string>)
      ensures this.data == data && this.columns == columns
      ensures filters == [] && filtered == data
      ensures Valid()
    {
      this.data := data;
      this.columns := columns;
      filters := [];
      filtered := ApplyFilters(data, []);
      NoFiltersKeepAll(data);
    }

    /** The effect that runs after `filters` changes: `applyFilters` and report. */
    method Refresh()
      modifies this`filtered
      ensures Valid()
      ensures filtered == ApplyFilters(data, filters)
    {
      filtered := ApplyFilters(data, filters);
    }

    /**
     * `addFilter`: appends a filter on the first column with an empty
     * value; the earlier entries are untouched and, since an empty value
     * matches everything, the reported rows stay the same.
     */
    method AddFilter()
      requires Valid()
      modifies this
      ensures filters == old(filters) + [Filter(DefaultColumn(columns), "")]
      ensures filtered == old(filtered)
      ensures Valid()
    {
      filters := filters + [Filter(DefaultColumn(columns), "")];
      Refresh();
      EmptyValueFilterNeutral(data, old(filters), DefaultColumn(columns));
    }

    /**
     * `removeFilter(index)`: `splice(index, 1)` on a copy. An index inside
     * the list removes exactly that entry and keeps the others in order;
     * an index at or past the end changes nothing. Removing a filter never
     * loses a row from the result.
     */
    method RemoveFilter(index: int)
      requires Valid()
      modifies this
      ensures filters == Splice(old(filters), index, 1)
      ensures 0 <= index < |old(filters)| ==> filters == old(filters)[..index] + old(filters)[index + 1..]
      ensures index >= |old(filters)| ==> filters == old(filters)
      ensures IsSubseq(old(filtered), filtered)
      ensures Valid()
    {
      var newFilters := Splice(filters, index, 1);
      if 0 <= index { SpliceAt(filters, index, 1); }
      SpliceKeepsElements(filters, index, 1);
      MoreFiltersFewerRows(data, newFilters, filters);
      filters := newFilters;
      Refresh();
    }

    /**
     * `updateFilter(index, field, value)`: writes one field of one entry.
     * For an index outside the list the entry is `undefined`, the write
     * throws a TypeError and nothing changes (`threw`).
     */
    method UpdateFilter(index: int, field: FilterField, value: string) returns (threw: bool)
      requires Valid()
      modifies this
      ensures threw <==> !(0 <= index < |old(filters)|)
      ensures threw ==> filters == old(filters) && filtered == old(filtered)
      ensures !threw ==> filters == old(filters)[index := Updated(old(filters)[index], field, value)]
      ensures Valid()
    {
      if !(0 <= index < |filters|) {
        return true;
      }
      filters := filters[index := Updated(filters[index], field, value)];
      Refresh();
      threw := false;
    }
  }
}
