/** The sort engine of the table component: the comparator that `sortedData`
    hands to `Array.prototype.sort`, and what sorting the rows by a column
    guarantees. */
module TableSort {
  import opened Strings
  import opened Seqs
  import opened Sorting

  /** A field value of a row: a number, a string, or null/undefined. */
  datatype Value = Num(n: int) | Str(s: string) | Absent

  /** A row record: field names to values. A missing field reads as `Absent`. */
  type Row = map<string, Value>

  /** `record[field]`. */
  function Field(record: Row, field: string): (v: Value)
    ensures field !in record ==> v == Absent
    ensures field in record ==> v == record[field]
  {
    if field in record then record[field] else Absent
  }

  /** `String(v)` for a defined value. */
  function ValueString(v: Value): (r: string)
    requires !v.Absent?
    ensures v.Str? ==> r == v.s
    ensures v.Num? ==> r == IntToString(v.n) && |r| >= 1 && (r[0] == '-' <==> v.n < 0)
  {
    match v
    case Num(n) => IntToString(n)
    case Str(s) => s
  }

  /** The comparator of `sortedData` on two extracted values: equal values
      compare equal; a null/undefined value goes after every defined value
      when ascending and before it when descending; two numbers compare by
      their difference; anything else compares as strings. */
  function CompareValues(a: Value, b: Value, ascending: bool): (r: int)
    ensures a == b ==> r == 0
    ensures a.Absent? && !b.Absent? ==> r != 0 && (r > 0 <==> ascending)
    ensures b.Absent? && !a.Absent? ==> r != 0 && (r < 0 <==> ascending)
    ensures a.Num? && b.Num? ==> (r == 0 <==> a.n == b.n) && (r < 0 <==> (if ascending then a.n < b.n else b.n < a.n))
    ensures !a.Absent? && !b.Absent? && !(a.Num? && b.Num?) ==>
              && -1 <= r <= 1 && (r == 0 <==> ValueString(a) == ValueString(b))
              && (r < 0 <==> if ascending then LocaleCompare(ValueString(a), ValueString(b)) < 0
                             else LocaleCompare(ValueString(b), ValueString(a)) < 0)
  {
    if a == b then 0
    else if a.Absent? then (if ascending then 1 else -1)
    else if b.Absent? then (if ascending then -1 else 1)
    else if a.Num? && b.Num? then (if ascending then a.n - b.n else b.n - a.n)
    else if ascending then LocaleCompare(ValueString(a), ValueString(b))
    else LocaleCompare(ValueString(b), ValueString(a))
  }

  /** The comparator of `sortedData` on rows, reading both values through the
      column's field. */
  function RowComparator(field: string, ascending: bool): (cmp: Comparator<Row>)
    ensures forall x, y :: Field(x, field) == Field(y, field) ==> cmp(x, y) == 0
  {
    (x: Row, y: Row) => CompareValues(Field(x, field), Field(y, field), ascending)
  }

  /** Swapping the arguments negates the comparison, in both directions. */
  lemma CompareAntisymmetric(a: Value, b: Value, ascending: bool)
    ensures CompareValues(a, b, ascending) == -CompareValues(b, a, ascending)
  {
    if a != b && !a.Absent? && !b.Absent? && !(a.Num? && b.Num?) {
      LocaleCompareAntisymmetric(ValueString(a), ValueString(b));
    }
  }

  /** Descending order is ascending order with the arguments swapped, null
      placement included: nulls come first when descending. */
  lemma DescendingSwapsAscending(a: Value, b: Value)
    ensures CompareValues(a, b, false) == CompareValues(b, a, true)
  {
  }

  /** True when a set of values does not mix numbers with strings; on such
      values the comparator is a total preorder. */
  ghost predicate NoMix(a: Value, b: Value, c: Value) {
    !((a.Num? || b.Num? || c.Num?) && (a.Str? || b.Str? || c.Str?))
  }

  lemma CompareAscendingTransitive(a: Value, b: Value, c: Value)
    requires NoMix(a, b, c)
    requires CompareValues(a, b, true) <= 0 && CompareValues(b, c, true) <= 0
    ensures CompareValues(a, c, true) <= 0
  {
    if a.Str? && b.Str? && c.Str? {
      LocaleCompareTransitive(a.s, b.s, c.s);
    }
  }

  /** Mixing numbers and strings breaks transitivity: 10 sorts before "5"
      and "5" before 9, both as strings, while 9 sorts before 10 as numbers. */
  lemma MixedColumnCycle()
    ensures CompareValues(Num(10), Str("5"), true) < 0
    ensures CompareValues(Str("5"), Num(9), true) < 0
    ensures CompareValues(Num(9), Num(10), true) < 0
  {
    assert ValueString(Num(10)) == "10" by {
      assert NatToString(10) == NatToString(1) + [DigitChar(0)];
    }
    assert ValueString(Num(9)) == "9";
    assert LocaleCompare("10", "5") == -1;
    assert LocaleCompare("5", "9") == -1;
  }

  /** On values that do not mix numbers and strings, "compares no greater"
      is transitive in either direction. */
  lemma CompareTransitive(a: Value, b: Value, c: Value, ascending: bool)
    requires NoMix(a, b, c)
    requires CompareValues(a, b, ascending) <= 0 && CompareValues(b, c, ascending) <= 0
    ensures CompareValues(a, c, ascending) <= 0
  {
    if ascending {
      CompareAscendingTransitive(a, b, c);
    } else {
      DescendingSwapsAscending(a, b);
      DescendingSwapsAscending(b, c);
      DescendingSwapsAscending(a, c);
      CompareAscendingTransitive(c, b, a);
    }
  }

  /** The column comparator is antisymmetric. */
  lemma RowComparatorAntisymmetric(field: string, ascending: bool)
    ensures Antisymmetric(RowComparator(field, ascending))
  {
    var cmp := RowComparator(field, ascending);
    forall x, y ensures cmp(x, y) == -cmp(y, x) {
      CompareAntisymmetric(Field(x, field), Field(y, field), ascending);
    }
  }

  /** The rows whose sort value is `===` to `v`. */
  function HasValue(field: string, v: Value): Row -> bool {
    (r: Row) => Field(r, field) == v
  }

  /** Rows holding `===` values tie under the column comparator. */
  lemma EqualValuesTie(field: string, ascending: bool, v: Value)
    ensures TiesWithin(RowComparator(field, ascending), HasValue(field, v))
  {
  }

  /** The sort field never mixes numbers with strings. */
  ghost predicate Uniform(s: seq<Row>, field: string) {
    (forall x :: x in s ==> !Field(x, field).Str?) || (forall x :: x in s ==> !Field(x, field).Num?)
  }

  /** On a field that does not mix numbers with strings, the column
      comparator is transitive. */
  lemma UniformTransitive(s: seq<Row>, field: string, ascending: bool)
    requires Uniform(s, field)
    ensures TransitiveOn(RowComparator(field, ascending), s)
  {
    var cmp := RowComparator(field, ascending);
    forall x, y, z | x in s && y in s && z in s && cmp(x, y) <= 0 && cmp(y, z) <= 0
      ensures cmp(x, z) <= 0
    {
      CompareTransitive(Field(x, field), Field(y, field), Field(z, field), ascending);
    }
  }

  /** Sorting a column: a permutation of the input, adjacent rows in order
      whatever the values, and, for every value, the rows holding it in their
      input order. */
  lemma SortColumn(s: seq<Row>, field: string, ascending: bool, v: Value)
    ensures var r := StableSort(s, RowComparator(field, ascending));
            && |r| == |s| && multiset(r) == multiset(s)
            && AdjacentOrdered(r, RowComparator(field, ascending))
            && Filter(r, HasValue(field, v)) == Filter(s, HasValue(field, v))
  {
    var cmp := RowComparator(field, ascending);
    StableSortPermutation(s, cmp);
    RowComparatorAntisymmetric(field, ascending);
    StableSortAdjacentOrdered(s, cmp);
    EqualValuesTie(field, ascending, v);
    StableSortStable(s, cmp, HasValue(field, v));
  }

  /** In a sequence whose neighbours are in order, a null/undefined value
      is followed only by nulls when ascending and preceded only by nulls
      when descending. */
  lemma {:induction false} AbsentSpreads(r: seq<Row>, field: string, ascending: bool, i: nat, j: nat)
    requires AdjacentOrdered(r, RowComparator(field, ascending))
    requires i < j < |r|
    ensures ascending && Field(r[i], field) == Absent ==> Field(r[j], field) == Absent
    ensures !ascending && Field(r[j], field) == Absent ==> Field(r[i], field) == Absent
    decreases j - i
  {
    var cmp := RowComparator(field, ascending);
    assert cmp(r[j - 1], r[j]) <= 0;
    assert cmp(r[i], r[i + 1]) <= 0;
    if j > i + 1 {
      AbsentSpreads(r, field, ascending, i, j - 1);
      AbsentSpreads(r, field, ascending, i + 1, j);
    }
  }

  /** Null placement, for every column: ascending puts every null/undefined
      value after every defined one; descending puts them before. */
  lemma SortColumnAbsentPlacement(s: seq<Row>, field: string, ascending: bool, i: nat, j: nat)
    requires i < j < |s|
    ensures var r := StableSort(s, RowComparator(field, ascending));
            && (ascending && Field(r[i], field) == Absent ==> Field(r[j], field) == Absent)
            && (!ascending && Field(r[j], field) == Absent ==> Field(r[i], field) == Absent)
  {
    var cmp := RowComparator(field, ascending);
    RowComparatorAntisymmetric(field, ascending);
    StableSortAdjacentOrdered(s, cmp);
    AbsentSpreads(StableSort(s, cmp), field, ascending, i, j);
  }

  /** What the order means on a field that does not mix numbers with
      strings: ascending, numbers rise, strings rise in string order and
      nulls come last; descending, numbers fall, strings fall and nulls come
      first. */
  lemma SortColumnOrder(s: seq<Row>, field: string, ascending: bool, i: nat, j: nat)
    requires Uniform(s, field)
    requires i < j < |s|
    ensures var r := StableSort(s, RowComparator(field, ascending));
            var a, b := Field(r[i], field), Field(r[j], field);
            && (a.Num? && b.Num? ==> if ascending then a.n <= b.n else a.n >= b.n)
            && (a.Str? && b.Str? ==> if ascending then LocaleCompare(a.s, b.s) <= 0 else LocaleCompare(b.s, a.s) <= 0)
            && (ascending && a.Absent? ==> b.Absent?)
            && (!ascending && b.Absent? ==> a.Absent?)
  {
    var cmp := RowComparator(field, ascending);
    RowComparatorAntisymmetric(field, ascending);
    UniformTransitive(s, field, ascending);
    StableSortOrdered(s, cmp);
    var r := StableSort(s, cmp);
    assert cmp(r[i], r[j]) <= 0;
  }

}
