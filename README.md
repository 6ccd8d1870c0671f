# Lu Design core, modelled in Dafny

Lu Design is a React component library with a documentation site. This
project models the parts of it with real logic and proves what they
guarantee:

- **The sortable `Table` component** (`src/components/Table.tsx`):
  - the three-state sort state machine behind `handleSort`;
  - `sortedData`: either the rows unchanged, or a copy sorted in place by
    the column comparator;
  - `renderCell`, `getRowKey`, the header's sort icon, and the choice
    between the empty placeholder and the row body.
- **The component documentation page** (`src/ComponentDocPage.tsx`):
  - `groupByCategory`;
  - the lookup of the component named by the route;
  - the active navigation item;
  - the cells and stripes of the API table.
- **Theme handling** (`src/App.tsx`): the initial theme, `toggleTheme`,
  the effect that applies and stores the theme, and the `useTheme` guard.
- **The blog page's category filter** (`src/BlogPage.tsx`).

Modules:

- `Wrappers`: `Option` and `Result`.
- `Seqs`: `Filter` and `Find` over sequences, with their lemmas. They stand
  for JavaScript's `Array.prototype.filter` and `find`.
- `Strings`: number-to-string conversion and the string order used for
  `localeCompare`.
- `Sorting`: what `Array.prototype.sort` with a comparator means: a stable
  insertion sort over sequences, its lemmas, and the in-place array sort
  that computes it.
- `TableSort`: the column comparator, and what sorting rows by a column
  guarantees.
- `Table`: the sort state machine, `sortedData`, rendering, row keys, and a
  `Table` class holding the props and the mutable `sortState`.
- `ComponentDoc`, `AppTheme` and `Blog`: the other three files.

The comparator at `src/components/Table.tsx:106-107` puts null values
last when ascending and **first** when descending.
`TableSort.SortColumnAbsentPlacement` and `Table.NullPlacementExample`
prove this behaviour.

The comparator is not a consistent order on a column that mixes numbers
with strings. Two numbers compare numerically, but a number and a string
compare by their string forms. For example, 10 sorts before "5" and "5"
before 9, both as strings, yet 9 sorts before 10 as numbers
(`TableSort.MixedColumnCycle`). ECMAScript promises only a permutation when
the comparator is inconsistent. Two things are therefore proved separately:

- **For every column:** the sort is a permutation of its input. On a
  column that mixes numbers and strings, this is all that `Array.prototype.sort`
  promises. The model's insertion sort also puts every adjacent pair of rows
  in comparator order, puts nulls at the right end, and keeps rows with
  `===`-equal values in their input order. These three are properties of the
  modelled sort; another engine may order a mixed column differently.
- **On columns that do not mix numbers and strings (`Uniform`):** the full
  pairwise order. Here every stable sort gives the same result.

`Array.prototype.sort` is stable. It is modelled as a stable insertion sort
(`Sorting.StableSort`). The copied array is sorted in place by
`Sorting.SortInPlace`.

## Model

| member | source | states |
|---|---|---|
| Table.NextSortState | src/components/Table.tsx:77-90 | the next state is consistent (a null order only with the empty key); a non-null order is on the clicked column; a different column always gives ascending on it |
| Table.HeaderClick | src/components/Table.tsx:198-201 | a click keeps the sort state consistent, and only a sortable header can change it |
| Table.Clicks | src/components/Table.tsx:198-201 | any number of clicks keeps the state consistent; after clicks on a sortable header, a non-null order is always on that header's column |
| Table.SwitchColumnRestartsAscending | src/components/Table.tsx:79-81 | clicking a sortable column other than the active one gives `{key: col, order: 'asc'}`, whatever the previous order |
| Table.SameColumnCycles | src/components/Table.tsx:82-88 | on the active column a click goes asc → desc → `{key: '', order: null}`, and from no sort a click gives `{key: col, order: 'asc'}` for every key, the empty key included |
| Table.NonSortableNeverChanges | src/components/Table.tsx:198-217 | any number of clicks on a header without `sortable` leaves the sort state unchanged |
| Table.ThreeClicksRestore | src/components/Table.tsx:65-90 | three clicks on one sortable column restore the state they started from, when that column was active or nothing was sorted; this includes the initial state |
| Table.HeaderIndicator | src/components/Table.tsx:198-216 | for every column and state: a header that is not sortable has no icon; on a sortable header the icon is neutral iff the state's key is not the column's key, and up iff the key matches and the order is 'asc' |
| Table.IndicatorShowsSort | src/components/Table.tsx:198-216 | for a column with a non-empty key, in a consistent state: the header icon is up iff the column is sortable and sorted ascending, down iff sortable and sorted descending, and neutral iff sortable and another key is active |
| Table.EmptyKeyColumnLooksSorted | src/components/Table.tsx:65-68 | a sortable column with key '' shows the descending icon while nothing is sorted; one click gives `{key: '', order: 'asc'}`, which shows the ascending icon, yet the rows stay in input order |
| Table.DataField | src/components/Table.tsx:97 | a column has a data field iff its `dataIndex` is present and non-empty (JavaScript truthiness) |
| Table.ActiveField | src/components/Table.tsx:94-97 | no field is sorted iff one of these holds: the order is null; the key is empty; no column has the key; the first column with the key has no data field. Otherwise the field is that first column's `dataIndex` |
| Table.SortedData | src/components/Table.tsx:93-117 | in every no-op case the output is the input sequence itself; it always has the input's length |
| Table.SortedDataPermutationStable | src/components/Table.tsx:93-117 | for every input the output is a permutation of it; when a field is sorted, the rows holding any one value keep their input order |
| Table.SortedDataSpec | src/components/Table.tsx:99-116 | for any two output positions `i < j`, when a field is sorted: a null at `i` ascending means a null at `j`, and a null at `j` descending means a null at `i`; on a uniform column numbers and strings at `i` and `j` follow the direction |
| Table.ThreeClicksRestoreOriginalOrder | src/components/Table.tsx:65-97 | after three clicks on a sortable header from the initial state, the rows show in their original order |
| Table.NullPlacementExample | src/components/Table.tsx:105-107 | on a two-row `age` column, the row without a value is last ascending and first descending |
| Table.ComputeSortedData | src/components/Table.tsx:93-117 | copying the rows into a fresh array and sorting it in place yields exactly `sortedData` |
| Table.CellValue | src/components/Table.tsx:123 | the value a column passes on is `record[dataIndex]`, or null/undefined without a data field |
| Table.RenderCell | src/components/Table.tsx:120-129 | a cell is rendered by the callback iff the column has `render`; either way the cell's value is the column's value (`record[dataIndex]`, or undefined without a data field); the callback also gets the record and the display index |
| Table.RenderSeesPlainValue | src/components/Table.tsx:121-128 | the value handed to `render` is the value the cell would show without `render` |
| Table.GetRowKey | src/components/Table.tsx:71-74 | a function `rowKey` gives `rowKey(record)`; a field name gives `record[rowKey]` when it is not null/undefined, and otherwise exactly `String(index)`; a field-based key is never null |
| Table.PositionalKeysDistinct | src/components/Table.tsx:73 | when no row has the key field, the fallback keys of different rows differ |
| Table.RenderBody | src/components/Table.tsx:225-262 | the body is the `emptyText` placeholder iff there are no rows; otherwise there is one row per record in display order, keyed by `getRowKey` with its display index, with one cell per column |
| Table.RenderBodyCell | src/components/Table.tsx:250-262 | the cell at row `i`, column `j` is `renderCell(columns[j], sorted[i], i)` |
| Table.Table.constructor | src/components/Table.tsx:54-68 | `rowKey` defaults to `'id'`, `emptyText` to `'暂无数据'`; the sort state starts as `{key: '', order: null}` |
| Table.Table.HandleSort | src/components/Table.tsx:77-90 | the new sort state is the state machine's transition from the old one, and stays consistent |
| Table.Table.ClickHeader | src/components/Table.tsx:198-201 | a click on a sortable header calls `handleSort` with its key; any other click changes nothing |
| Table.Table.SortedRows | src/components/Table.tsx:93-117 | the rows shown are `sortedData` of the props and the current sort state |
| Table.Table.Render | src/components/Table.tsx:225-262 | the body rendered from the current sort state |
| TableSort.Field | src/components/Table.tsx:100-101 | reading an own field: a field the record does not hold reads as undefined (inherited `Object.prototype` members excepted, see "## Left out"), a present one as its value |
| TableSort.ValueString | src/components/Table.tsx:112-113 | `String(v)`: a string is itself; a number gives its decimal form `IntToString` (digits, with a leading '-' iff negative) |
| TableSort.CompareValues | src/components/Table.tsx:103-115 | `===` values compare 0; a null against a defined value is positive ascending and negative descending, and the reverse when the null is second; two numbers compare 0 iff equal and negative iff in the direction's order; any other pair gives -1, 0 or 1, is 0 iff their string forms are equal, and is negative iff `aStr.localeCompare(bStr) < 0` ascending and `bStr.localeCompare(aStr) < 0` descending |
| TableSort.RowComparator | src/components/Table.tsx:99-116 | two rows whose field values are equal compare 0 |
| TableSort.MixedColumnCycle | src/components/Table.tsx:109-115 | on a mixed column the ascending comparator has a cycle: 10 before "5", "5" before 9, 9 before 10 |
| TableSort.CompareAntisymmetric | src/components/Table.tsx:103-115 | swapping the two values negates the comparator's result, in both directions |
| TableSort.DescendingSwapsAscending | src/components/Table.tsx:105-115 | the descending comparator is the ascending one with its arguments swapped, null placement included |
| TableSort.CompareAscendingTransitive | src/components/Table.tsx:103-115 | ascending, the comparator is transitive on values that do not mix numbers with strings |
| TableSort.CompareTransitive | src/components/Table.tsx:103-115 | the same transitivity, in both directions |
| TableSort.RowComparatorAntisymmetric | src/components/Table.tsx:99-116 | the row comparator is antisymmetric for every field and direction |
| TableSort.EqualValuesTie | src/components/Table.tsx:103 | rows whose field values are equal compare 0 |
| TableSort.UniformTransitive | src/components/Table.tsx:109-115 | on a column without mixed numbers and strings, the row comparator is transitive |
| Sorting.Insert | src/components/Table.tsx:99 | inserting one element lengthens the sequence by one |
| Sorting.StableSort | src/components/Table.tsx:99 | the sort keeps the length |
| Sorting.StableSortPermutation | src/components/Table.tsx:99 | the sort is a permutation of its input |
| Sorting.StableSortAdjacentOrdered | src/components/Table.tsx:99 | with an antisymmetric comparator, every adjacent pair of the output is in order |
| Sorting.StableSortStable | src/components/Table.tsx:99-103 | elements that tie with each other keep their input relative order |
| Sorting.StableSortOrdered | src/components/Table.tsx:99 | with an antisymmetric comparator that is transitive on the input, every pair of the output is in order |
| TableSort.SortColumn | src/components/Table.tsx:99-116 | sorting by a column: a permutation, adjacent rows in order, and equal-valued rows in input order |
| TableSort.SortColumnAbsentPlacement | src/components/Table.tsx:106-107 | for every column: ascending, a null is followed only by nulls; descending, it is preceded only by nulls |
| TableSort.SortColumnOrder | src/components/Table.tsx:103-115 | on a uniform column: numbers rise ascending and fall descending; strings likewise by string order; nulls last ascending, first descending |
| Sorting.ShiftGreater | src/components/Table.tsx:99 | the scan of one insertion step shifts right exactly the prefix elements the new one goes before, and returns the slot where the stable insertion puts it; the rest of the array is untouched |
| Sorting.InsertInPlace | src/components/Table.tsx:99 | shifting `a[i]` into the sorted prefix turns `a[..i+1]` into the stable insertion of that element and leaves the rest untouched |
| Sorting.SortInPlace | src/components/Table.tsx:99 | sorting the array in place leaves exactly the stable sort of its old contents |
| Strings.LocaleCompare | src/components/Table.tsx:115 | the string comparison returns -1, 0 or 1, and 0 iff the strings are equal |
| Strings.LocaleCompareAntisymmetric | src/components/Table.tsx:115 | swapping the strings negates the result |
| Strings.LocaleCompareTransitive | src/components/Table.tsx:115 | the string order is transitive |
| Strings.IntToString | src/components/Table.tsx:113 | `String(n)`: a negative number's string is '-' followed by the decimal digits of its absolute value; a non-negative number's string is its decimal digits |
| Strings.NatToStringInjective | src/components/Table.tsx:73 | different indices give different `String(index)` |
| Seqs.Find | src/components/Table.tsx:96 | `find`: nothing iff no element matches; otherwise the first matching element |
| Seqs.Filter | src/BlogPage.tsx:72 | `filter` never lengthens the list, and keeps only elements that satisfy the predicate |
| Seqs.FilterMembership | src/BlogPage.tsx:72 | `filter` keeps exactly the elements satisfying the predicate |
| Seqs.FilterAppend | src/BlogPage.tsx:72 | `filter` keeps the input order: filtering a concatenation concatenates the filtered parts |
| ComponentDoc.AddToGroupAppends | src/ComponentDocPage.tsx:29-31 | one `reduce` step adds the component's category to the keys, appends the component to the end of its group (a new group holds it alone), and leaves every other group unchanged |
| ComponentDoc.GroupByCategory | src/ComponentDocPage.tsx:28-34 | the loop that creates a category's list on first sight and pushes each component builds exactly the intended grouping |
| ComponentDoc.GroupedIsFilter | src/ComponentDocPage.tsx:28-34 | `Grouped`, the grouping has one key per category present, and each group holds exactly that category's components in input order |
| ComponentDoc.EachInExactlyItsGroup | src/ComponentDocPage.tsx:28-33 | every component is in the group of its category and in no other group |
| ComponentDoc.GroupsNonEmpty | src/ComponentDocPage.tsx:29-33 | the group keys are exactly the categories present, and no group is empty |
| ComponentDoc.GroupsKeepOrder | src/ComponentDocPage.tsx:30-31 | within a group, components keep their input order |
| ComponentDoc.GroupByCategoryAsWritten | src/ComponentDocPage.tsx:28-34 | the code as written over a `{}` accumulator: when it does not throw, its keys are the categories present |
| ComponentDoc.AsWrittenThrowsOnInheritedNames | src/ComponentDocPage.tsx:29-31 | the code as written throws iff some category names an `Object.prototype` member; otherwise it gives the intended grouping |
| ComponentDoc.ConstructorCategoryCounterexample | src/ComponentDocPage.tsx:30-31 | one component with the category "constructor" makes the code as written throw; the intended grouping has one group |
| ComponentDoc.DocPage | src/ComponentDocPage.tsx:75-85 | when the grouping does not throw: the page shows the first component whose id is the route id, and the not-found message iff there is none |
| ComponentDoc.IsActive | src/ComponentDocPage.tsx:153 | a navigation item is active iff its id is the shown component's id; the shown component's own item is active |
| ComponentDoc.ActiveIffRouteId | src/ComponentDocPage.tsx:153 | on a found page, with or without repeated ids, an item is active iff its id is the route's id |
| ComponentDoc.ExactlyOneActive | src/ComponentDocPage.tsx:153 | with unique ids, on a found page exactly one navigation item is active: the shown component |
| ComponentDoc.ApiCells | src/ComponentDocPage.tsx:398-414 | an API row shows name, description, type, default and version; a missing default or version shows as '-' |
| ComponentDoc.ApiRowStripe | src/ComponentDocPage.tsx:394-396 | a row gets the `bg-background` stripe iff its index is even |
| ComponentDoc.StripesAlternate | src/ComponentDocPage.tsx:395 | neighbouring API rows have different stripes |
| AppTheme.InitialTheme | src/App.tsx:102-110 | light without a window; a stored 'light' or 'dark' is used as is; otherwise dark iff the system prefers dark |
| AppTheme.StoredThemeRestored | src/App.tsx:104-105 | a stored theme name is restored whatever the system preference |
| AppTheme.Toggle | src/App.tsx:119-122 | the toggle always changes the theme |
| AppTheme.ToggleTwice | src/App.tsx:119-122 | toggling twice restores the theme |
| AppTheme.UseTheme | src/App.tsx:91-96 | `useTheme` fails, with its message, iff no provider value is present; otherwise it returns that value |
| AppTheme.ThemeProvider.constructor | src/App.tsx:102-117 | mounting takes the initial theme from storage and preference, then stores it and sets the root's `dark` class iff it is dark |
| AppTheme.ThemeProvider.ApplyTheme | src/App.tsx:112-117 | the effect adds `dark` to the root's classes for the dark theme, removes it for light, and stores the theme under 'lu-theme'; nothing else changes |
| AppTheme.ThemeProvider.ToggleTheme | src/App.tsx:112-122 | the theme becomes its toggle; the effect then stores it and updates the root's class |
| Blog.FilteredPosts | src/BlogPage.tsx:70-73 | with 'all' the list is the post list itself; a filtered list is never longer |
| Blog.FilteredPostsMembers | src/BlogPage.tsx:71-72 | a post is listed iff it belongs to the active category, or the category is 'all' |
| Blog.FilteredPostsKeepOrder | src/BlogPage.tsx:72 | the listed posts keep their original order |
| Blog.SingleCategoryListsAll | src/BlogPage.tsx:70-73 | when every post belongs to the active category, all posts are listed in their order |
| Blog.ShowsEmptyState | src/BlogPage.tsx:131 | an empty post list always shows the empty state; with 'all' the empty state shows only for an empty post list |
| Blog.EmptyStateIff | src/BlogPage.tsx:131 | the empty-state message shows iff no post matches the active category ('all' always matches a non-empty list) |
| Blog.ShippedPostsNeverEmpty | src/BlogPage.tsx:19-65 | with the five shipped posts, no category button leads to the empty state |
| Blog.BlogPage.constructor | src/BlogPage.tsx:68 | the active category starts as 'all' |
| Blog.BlogPage.SelectCategory | src/BlogPage.tsx:100-109 | clicking a category button sets the active category to that button's key |
| Blog.BlogPage.ListedPosts | src/BlogPage.tsx:70-73 | the posts listed are the filter of the posts by the active category |

## Left out

- JSX, Tailwind class strings, alignment, borders, the table's row striping, the loading overlay and every framer-motion animation are left out. They are presentation only.
- `Button` ripples, `Modal`, `Input`, clipboard copying and timers are left out. They depend on DOM geometry, timers and synthetic events.
- The static pages, routing (`AppRoutes`) and the build configuration are left out. They hold no logic beyond content.
- Strings.LocaleCompare: real `localeCompare` is locale-dependent. It is modelled as code-point lexicographic order, which is one total order.
- TableSort.CompareValues: numbers are integers. Floating point, `NaN` and the exponent notation of `String(n)` for large numbers are left out. Integer subtraction is exact, so `aVal - bVal` has the sign of the true difference.
- TableSort.Value: `null` and `undefined` are merged into one `Absent` value. The code's `aVal === bVal` test tells them apart, and the `== null` tests do not. That mismatch is left out.
- TableSort.Field: a record is modelled as its own fields only. In the code, `a[column.dataIndex!]`, `record[column.dataIndex]` and `record[rowKey]` on a plain object whose name is an inherited `Object.prototype` member (such as "toString" or "constructor") read the inherited function; the model reads `Absent` there, so for example `GetRowKey` gives `String(index)` where the code gives that function.
- TableSort.Value: values other than numbers and strings (booleans, objects) are left out.
- TableSort.SortColumnOrder: the full order is proved only for columns that do not mix numbers and strings. On a mixed column the comparator is not transitive (`TableSort.MixedColumnCycle`). ECMAScript then guarantees only that the result is a permutation; the adjacent order, null placement and stability proved there are properties of the modelled insertion sort.
- Sorting.StableSort: `Array.prototype.sort` is modelled as a stable insertion sort. Any stable sort gives the same result on a consistent comparator. On an inconsistent one, ECMAScript guarantees only a permutation, so the adjacent order and null placement proved for mixed columns (`TableSort.SortColumn`, `TableSort.SortColumnAbsentPlacement`) hold for the modelled insertion sort, not for every engine.
- Table.RenderCell, Table.GetRowKey: the outputs of `render` and of a function `rowKey` are opaque. The model records the arguments they receive (`Rendered`, `Computed`), not their results.
- Table.IndicatorShowsSort: proved only for columns with a non-empty key. A sortable column whose key is '' shares its key with the unsorted state `{key: '', order: null}`: its icon shows descending while nothing is sorted, and after one click it shows ascending while the rows stay unsorted (`Table.EmptyKeyColumnLooksSorted`). `Table.HeaderIndicator` states the icon for every key.
- Table.RenderBody: React's use of keys to match and reorder rows is left out.
- Table.Table.constructor: `striped`, `bordered`, `hoverable`, `loading` and `className` only affect presentation and are left out.
- ComponentDoc.DocPage: `groupByCategory` runs at `src/ComponentDocPage.tsx:70-73`, before the lookup. When it throws (see "## Findings"), the page renders neither the component nor the not-found message. `DocPage` models the lookup alone, so it describes the page only when the grouping does not throw.
- ComponentDoc: `Object.entries` key order for the navigation, and a route without any id, are left out.
- AppTheme.InitialTheme: a missing `matchMedia` counts as not preferring dark, since `undefined` is falsy.
- AppTheme.ThemeProvider: real `localStorage` and `matchMedia` I/O are modelled as a map, a set of classes and a boolean input. The provider models a page with a window; the no-window case exists only in `InitialTheme`. The React render and re-render cycle is left out: the effect runs right after each state change.
- Blog.Post: the title, excerpt and tags are display text and are left out.

## Findings

| source | as written | input that shows it | evidently intended | confidence | as-written member | corrected member |
|---|---|---|---|---|---|---|
| src/ComponentDocPage.tsx:29-31 | the accumulator is the plain object `{}`, and a category's list is created only when `acc[c.category]` is falsy | a component whose category is "constructor", "toString" or another inherited `Object.prototype` name. The inherited value is truthy, so no list is created, and `acc[c.category].push` throws a TypeError (`ComponentDoc.ConstructorCategoryCounterexample`). The grouping runs before the lookup, so the whole page fails to render: neither the component nor the not-found message appears | every category gets its own list, as with `Object.create(null)` or a `Map` | high, not executed | ComponentDoc.GroupByCategoryAsWritten | ComponentDoc.GroupByCategory |
