/** The table component: its sort state machine (`handleSort`), the sorted
    view of the rows (`sortedData`), cell rendering (`renderCell`), row keys
    (`getRowKey`), the header's sort indicator and the choice between the
    empty placeholder and the row body. */
module Table {
  import opened Wrappers
  import opened Strings
  import opened Seqs
  import opened Sorting
  import opened TableSort

  /** `'asc' | 'desc' | null`. */
  datatype SortOrder = Asc | Desc | Unordered

  /** The component's sort state `{ key, order }`. */
  datatype SortState = SortState(key: string, order: SortOrder)

  /** The state the component starts in: `{ key: '', order: null }`. */
  const InitialSort := SortState("", Unordered)

  /** A column descriptor. `customRender` says whether the column has a
      `render` callback; the callback itself is a collaborator whose output is
      opaque, so a rendered cell records the arguments it was called with. */
  datatype Column = Column(key: string, title: string, dataIndex: Option<string>,
                           customRender: bool, sortable: bool)

  /** The `rowKey` prop: a field name, or a function of the record. */
  datatype RowKey = KeyField(name: string) | KeyFunction

  /** The key React receives for a row: a field value, or the value the
      `rowKey` function returns for that record. */
  datatype Key = KeyValue(value: Value) | Computed(record: Row)

  /** The content of one cell: a raw value, or the output of the column's
      `render` callback applied to a value, the record and a row index. */
  datatype Cell = Plain(value: Value) | Rendered(column: string, value: Value, record: Row, index: nat)

  /** A header's sort icon: up, down, both directions, or none at all (a
      header that is not sortable shows only its title). */
  datatype Indicator = Up | Down | Neutral | NoIcon

  datatype BodyRow = BodyRow(key: Key, cells: seq<Cell>)

  /** The table body: the single placeholder cell, or one row per record. */
  datatype Body = EmptyState(text: string) | Rows(rows: seq<BodyRow>)

  /** The default `emptyText`. */
  const DefaultEmptyText := "\U{6682}\U{65E0}\U{6570}\U{636E}"

  /** The default `rowKey`. */
  const DefaultRowKey := KeyField("id")

  /** A state in which the order is null only together with the empty key;
      the state machine never leaves such states. */
  predicate Consistent(state: SortState) {
    state.order == Unordered ==> state.key == ""
  }

  /** `handleSort(columnKey)`: another column starts ascending; the same
      column goes ascending, descending, then back to no sort. */
  function NextSortState(prev: SortState, columnKey: string): (next: SortState)
    ensures Consistent(next)
    ensures next.order != Unordered ==> next.key == columnKey
    ensures prev.key != columnKey ==> next == SortState(columnKey, Asc)
  {
    if prev.key != columnKey then SortState(columnKey, Asc)
    else if prev.order == Asc then SortState(columnKey, Desc)
    else if prev.order == Desc then SortState("", Unordered)
    else SortState(columnKey, Asc)
  }

  /** A click on a header: only a sortable header has a click handler. */
  function HeaderClick(state: SortState, column: Column): (next: SortState)
    ensures Consistent(state) ==> Consistent(next)
    ensures next != state ==> column.sortable
  {
    if column.sortable then NextSortState(state, column.key) else state
  }

  /** `n` clicks on the same header. */
  function Clicks(state: SortState, column: Column, n: nat): (r: SortState)
    ensures Consistent(state) ==> Consistent(r)
    ensures n > 0 && column.sortable && r.order != Unordered ==> r.key == column.key
  {
    if n == 0 then state else HeaderClick(Clicks(state, column, n - 1), column)
  }

  /** Switching to another sortable column always restarts at ascending,
      whatever the previous direction. */
  lemma SwitchColumnRestartsAscending(state: SortState, column: Column)
    requires column.sortable && state.key != column.key
    ensures HeaderClick(state, column) == SortState(column.key, Asc)
  {
  }

  /** On the active column, a click cycles ascending, descending, no sort. */
  lemma SameColumnCycles(column: Column)
    requires column.sortable
    ensures HeaderClick(SortState(column.key, Asc), column) == SortState(column.key, Desc)
    ensures HeaderClick(SortState(column.key, Desc), column) == InitialSort
    ensures HeaderClick(InitialSort, column) == SortState(column.key, Asc)
  {
  }

  /** Any number of clicks on a header that is not sortable changes nothing. */
  lemma {:induction false} NonSortableNeverChanges(state: SortState, column: Column, n: nat)
    requires !column.sortable
    ensures Clicks(state, column, n) == state
  {
    if n > 0 {
      NonSortableNeverChanges(state, column, n - 1);
    }
  }

  /** Three clicks on a sortable column return to the state they started
      from when that column was active or nothing was sorted; in particular
      from the initial state. */
  lemma ThreeClicksRestore(state: SortState, column: Column)
    requires column.sortable && Consistent(state)
    requires state.key == column.key || state.order == Unordered
    ensures Clicks(state, column, 3) == state
  {
    assert Clicks(state, column, 1) == HeaderClick(state, column);
    assert Clicks(state, column, 2) == HeaderClick(HeaderClick(state, column), column);
  }

  /** The header icon: none on a header that is not sortable; otherwise up
      when this column's key is active ascending, down when its key is active
      otherwise, both directions when not active. */
  function HeaderIndicator(state: SortState, column: Column): (ind: Indicator)
    ensures ind == NoIcon <==> !column.sortable
    ensures ind == Neutral <==> column.sortable && state.key != column.key
    ensures ind == Up <==> column.sortable && state.key == column.key && state.order == Asc
  {
    if !column.sortable then NoIcon
    else if state.key == column.key then (if state.order == Asc then Up else Down)
    else Neutral
  }

  /** In a consistent state the icon of a sortable column with a non-empty
      key shows exactly its sort: up iff sorted ascending by it, down iff
      descending. */
  lemma IndicatorShowsSort(state: SortState, column: Column)
    requires Consistent(state) && column.key != ""
    ensures HeaderIndicator(state, column) == Up <==> column.sortable && state == SortState(column.key, Asc)
    ensures HeaderIndicator(state, column) == Down <==> column.sortable && state == SortState(column.key, Desc)
    ensures HeaderIndicator(state, column) == Neutral <==> column.sortable && state.key != column.key
  {
  }

  /** A sortable column whose key is empty shares its key with the initial
      state: its icon shows descending while nothing is sorted, and after a
      click it shows ascending while the rows stay in their input order. */
  lemma EmptyKeyColumnLooksSorted(rows: seq<Row>, columns: seq<Column>, column: Column)
    requires column.key == "" && column.sortable
    ensures HeaderIndicator(InitialSort, column) == Down
    ensures HeaderClick(InitialSort, column) == SortState("", Asc)
    ensures HeaderIndicator(HeaderClick(InitialSort, column), column) == Up
    ensures SortedData(rows, columns, HeaderClick(InitialSort, column)) == rows
  {
  }

  /** The column's data field when `dataIndex` is truthy (present and not ''). */
  function DataField(column: Column): (f: Option<string>)
    ensures f.Some? <==> column.dataIndex.Some? && column.dataIndex.value != ""
    ensures f.Some? ==> f == column.dataIndex
  {
    if column.dataIndex.Some? && column.dataIndex.value != "" then column.dataIndex else None
  }

  function KeyIs(key: string): Column -> bool {
    (c: Column) => c.key == key
  }

  /** The field `sortedData` sorts by: none when the order is null, the key
      is empty, no column has the key, or the first column with the key has
      no data field. */
  function ActiveField(columns: seq<Column>, state: SortState): (f: Option<string>)
    ensures f.None? <==>
      || state.order == Unordered || state.key == ""
      || (forall i :: 0 <= i < |columns| ==> columns[i].key != state.key)
      || (exists i :: 0 <= i < |columns| && columns[i].key == state.key && DataField(columns[i]).None? &&
                      forall j :: 0 <= j < i ==> columns[j].key != state.key)
    ensures f.Some? ==> exists i :: 0 <= i < |columns| && columns[i].key == state.key &&
                                    DataField(columns[i]) == f && forall j :: 0 <= j < i ==> columns[j].key != state.key
  {
    if state.order == Unordered || state.key == "" then None
    else
      match Find(columns, KeyIs(state.key))
      case None => None
      case Some(column) => DataField(column)
  }

  /** `sortedData`: the input itself when nothing is sorted, else a sorted copy. */
  function SortedData(rows: seq<Row>, columns: seq<Column>, state: SortState): (r: seq<Row>)
    ensures ActiveField(columns, state).None? ==> r == rows
    ensures |r| == |rows|
  {
    match ActiveField(columns, state)
    case None => rows
    case Some(field) => StableSort(rows, RowComparator(field, state.order == Asc))
  }

  /** What `sortedData` guarantees for every input: a permutation of it, and
      when a field is sorted, for every value the rows holding it keep their
      input order. */
  lemma SortedDataPermutationStable(rows: seq<Row>, columns: seq<Column>, state: SortState, v: Value)
    ensures var r := SortedData(rows, columns, state);
            && multiset(r) == multiset(rows)
            && (ActiveField(columns, state).Some? ==>
                  var field := ActiveField(columns, state).value;
                  Filter(r, HasValue(field, v)) == Filter(rows, HasValue(field, v)))
  {
    match ActiveField(columns, state)
    case None =>
    case Some(field) =>
      SortColumn(rows, field, state.order == Asc, v);
  }

  /** What `sortedData` guarantees of two positions `i < j` of its output:
      when a field is sorted, null/undefined values go last ascending and
      first descending, and on a field that does not mix numbers with
      strings, numbers and strings follow the direction. */
  lemma SortedDataSpec(rows: seq<Row>, columns: seq<Column>, state: SortState, i: nat, j: nat)
    requires i < j < |rows|
    ensures var r := SortedData(rows, columns, state);
            ActiveField(columns, state).Some? ==>
                  var field, ascending := ActiveField(columns, state).value, state.order == Asc;
                  var a, b := Field(r[i], field), Field(r[j], field);
                  && (ascending && a.Absent? ==> b.Absent?)
                  && (!ascending && b.Absent? ==> a.Absent?)
                  && (Uniform(rows, field) && a.Num? && b.Num? ==> if ascending then a.n <= b.n else a.n >= b.n)
                  && (Uniform(rows, field) && a.Str? && b.Str? ==>
                        if ascending then LocaleCompare(a.s, b.s) <= 0 else LocaleCompare(b.s, a.s) <= 0)
  {
    match ActiveField(columns, state)
    case None =>
    case Some(field) =>
      var ascending := state.order == Asc;
      SortColumnAbsentPlacement(rows, field, ascending, i, j);
      if Uniform(rows, field) {
        SortColumnOrder(rows, field, ascending, i, j);
      }
  }

  /** Three clicks on a sortable header from the initial state show the rows
      in their original order again. */
  lemma ThreeClicksRestoreOriginalOrder(rows: seq<Row>, columns: seq<Column>, column: Column)
    requires column.sortable
    ensures SortedData(rows, columns, Clicks(InitialSort, column, 3)) == rows
  {
    ThreeClicksRestore(InitialSort, column);
  }

  /** A two-row table sorted by `age`: ascending, the row without an age
      goes last; descending, it goes first. */
  lemma NullPlacementExample(columns: seq<Column>, key: string)
    requires columns == [Column(key, "Age", Some("age"), false, true)] && key != ""
    ensures var known, unknown := map["age" := Num(30)], map["age" := Absent];
            && SortedData([unknown, known], columns, SortState(key, Asc)) == [known, unknown]
            && SortedData([known, unknown], columns, SortState(key, Desc)) == [unknown, known]
  {
    var known, unknown := map["age" := Num(30)], map["age" := Absent];
    assert Find(columns, KeyIs(key)) == Some(columns[0]);
    assert ActiveField(columns, SortState(key, Asc)) == Some("age");
    assert ActiveField(columns, SortState(key, Desc)) == Some("age");
    var asc, desc := RowComparator("age", true), RowComparator("age", false);
    assert [unknown, known][..1] == [unknown] && [known, unknown][..1] == [known];
    assert StableSort([unknown], asc) == Insert([], unknown, asc) == [unknown];
    assert asc(known, unknown) < 0;
    assert Insert([unknown], known, asc) == Insert([], known, asc) + [unknown];
    assert StableSort([known], desc) == Insert([], known, desc) == [known];
    assert desc(unknown, known) < 0;
    assert Insert([known], unknown, desc) == Insert([], unknown, desc) + [known];
  }

  /** Computes `sortedData`: copies the rows into a fresh array and sorts the
      copy in place, leaving the input untouched. */
  method ComputeSortedData(rows: seq<Row>, columns: seq<Column>, state: SortState) returns (r: seq<Row>)
    ensures r == SortedData(rows, columns, state)
  {
    var field := ActiveField(columns, state);
    if field.None? {
      return rows;
    }
    var copy := new Row[|rows|](i requires 0 <= i < |rows| => rows[i]);
    assert copy[..] == rows;
    SortInPlace(copy, RowComparator(field.value, state.order == Asc));
    r := copy[..];
  }

  /** The value a column reads from a record: `record[dataIndex]`, or
      null/undefined when the column has no data field. */
  function CellValue(column: Column, record: Row): (v: Value)
    ensures DataField(column).None? ==> v == Absent
    ensures DataField(column).Some? ==> v == Field(record, DataField(column).value)
  {
    match DataField(column)
    case None => Absent
    case Some(field) => Field(record, field)
  }

  /** `renderCell(column, record, index)`. */
  function RenderCell(column: Column, record: Row, index: nat): (cell: Cell)
    ensures cell.Rendered? <==> column.customRender
    ensures cell.value == CellValue(column, record)
    ensures cell.Rendered? ==> cell.column == column.key && cell.record == record && cell.index == index
  {
    if column.customRender then Rendered(column.key, CellValue(column, record), record, index)
    else Plain(CellValue(column, record))
  }

  /** A `render` callback receives exactly the value the column would show
      without it. */
  lemma RenderSeesPlainValue(column: Column, record: Row, index: nat)
    requires column.customRender
    ensures RenderCell(column, record, index).value == RenderCell(column.(customRender := false), record, index).value
  {
  }

  /** `getRowKey(record, index)`: the function's result, else the field's
      value, else the index as a string. */
  function GetRowKey(rowKey: RowKey, record: Row, index: nat): (k: Key)
    ensures k.KeyValue? ==> k.value != Absent
    ensures rowKey.KeyFunction? <==> k == Computed(record)
    ensures rowKey.KeyField? && Field(record, rowKey.name) != Absent ==> k == KeyValue(Field(record, rowKey.name))
    ensures rowKey.KeyField? && Field(record, rowKey.name) == Absent ==> k == KeyValue(Str(NatToString(index)))
  {
    match rowKey
    case KeyFunction => Computed(record)
    case KeyField(name) =>
      var v := Field(record, name);
      if v != Absent then KeyValue(v) else KeyValue(Str(NatToString(index)))
  }

  /** When no row has the key field, the positional keys are distinct. */
  lemma PositionalKeysDistinct(rows: seq<Row>, name: string, i: nat, j: nat)
    requires i < |rows| && j < |rows| && i != j
    requires forall k :: 0 <= k < |rows| ==> Field(rows[k], name) == Absent
    ensures GetRowKey(KeyField(name), rows[i], i) != GetRowKey(KeyField(name), rows[j], j)
  {
    if NatToString(i) == NatToString(j) {
      NatToStringInjective(i, j);
    }
  }

  /** The table body for the displayed rows: the placeholder exactly when
      there are none, else one row per record in display order, each with
      one cell per column rendered with its display index. */
  function RenderBody(sorted: seq<Row>, columns: seq<Column>, rowKey: RowKey, emptyText: string): (b: Body)
    ensures b.EmptyState? <==> |sorted| == 0
    ensures b.EmptyState? ==> b.text == emptyText
    ensures b.Rows? ==> |b.rows| == |sorted|
    ensures b.Rows? ==> forall i :: 0 <= i < |sorted| ==>
                          b.rows[i].key == GetRowKey(rowKey, sorted[i], i) && |b.rows[i].cells| == |columns|
  {
    if |sorted| == 0 then EmptyState(emptyText)
    else Rows(seq(|sorted|, i requires 0 <= i < |sorted| =>
           BodyRow(GetRowKey(rowKey, sorted[i], i),
                   seq(|columns|, j requires 0 <= j < |columns| => RenderCell(columns[j], sorted[i], i)))))
  }

  /** The cell in display row `i` and column `j` shows record `sorted[i]`,
      rendered with the post-sort index `i`. */
  lemma RenderBodyCell(sorted: seq<Row>, columns: seq<Column>, rowKey: RowKey, emptyText: string, i: nat, j: nat)
    requires i < |sorted| && j < |columns|
    ensures RenderBody(sorted, columns, rowKey, emptyText).rows[i].cells[j] == RenderCell(columns[j], sorted[i], i)
  {
  }

  /** One table instance: its props and its sort state. */
  class Table {
    const columns: seq<Column>
    const dataSource: seq<Row>
    const rowKey: RowKey
    const emptyText: string
    var sortState: SortState

    /** Mounting with the given props; missing props take their defaults. */
    constructor (columns: seq<Column>, dataSource: seq<Row>, rowKey: Option<RowKey>, emptyText: Option<string>)
      ensures this.columns == columns && this.dataSource == dataSource
      ensures this.rowKey == rowKey.GetOr(DefaultRowKey)
      ensures this.emptyText == emptyText.GetOr(DefaultEmptyText)
      ensures sortState == InitialSort
    {
      this.columns := columns;
      this.dataSource := dataSource;
      this.rowKey := rowKey.GetOr(DefaultRowKey);
      this.emptyText := emptyText.GetOr(DefaultEmptyText);
      sortState := InitialSort;
    }

    /** `handleSort(columnKey)`. */
    method HandleSort(columnKey: string)
      modifies this`sortState
      ensures sortState == NextSortState(old(sortState), columnKey)
      ensures Consistent(sortState)
    {
      sortState := NextSortState(sortState, columnKey);
    }

    /** A click on the header of column `j`. */
    method ClickHeader(j: nat)
      requires j < |columns|
      modifies this`sortState
      ensures sortState == HeaderClick(old(sortState), columns[j])
      ensures !columns[j].sortable ==> sortState == old(sortState)
    {
      if columns[j].sortable {
        HandleSort(columns[j].key);
      }
    }

    /** The rows in display order. */
    method SortedRows() returns (r: seq<Row>)
      ensures r == SortedData(dataSource, columns, sortState)
    {
      r := ComputeSortedData(dataSource, columns, sortState);
    }

    /** The rendered body. */
    method Render() returns (body: Body)
      ensures body == RenderBody(SortedData(dataSource, columns, sortState), columns, rowKey, emptyText)
    {
      var sorted := SortedRows();
      body := RenderBody(sorted, columns, rowKey, emptyText);
    }
  }
}
