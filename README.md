# Food waste data page — a Dafny model

This project models the reporting page of a food-waste tracker (`src/pages/DataView.tsx`).
The page fetches every food entry once. The user types a search term and clicks column
headers. The page then shows a table with these parts:

- **Search**: an entry is kept when its lowercased food item or meal type includes the
  lowercased term.
- **Sort**: the kept entries are sorted with a comparator on the chosen column.
  - Two strings are compared with `localeCompare`.
  - Two numbers are compared by subtraction.
  - Anything else compares as 0. This happens only when a remaining weight is `null`.
  - `desc` swaps the operands.
- **Sort header**: clicking the current column flips its direction. Clicking another column
  selects it, ascending. The page starts on `date`, descending.
- **Waste %**: the cell is `N/A` when no remaining weight is recorded. Otherwise it is
  `(initial − remaining) / initial × 100`, with no clamping. Its badge is grey for `N/A`,
  red above 50, yellow above 25 and green otherwise.

Modules, leaf first:

- `FoodEntries` (`food_entries.dfy`): the entry record and the column and direction enumerations.
- `Text` (`text.dfy`): an ASCII case fold, substring search, and a string order that stands
  for `localeCompare`.
- `ArraySort` (`array_sort.dfy`): `Array.prototype.sort(comparefn)` as a stable insertion sort.
  ECMA-262 has required `sort` to be stable since its 2019 edition.
  - The output is a permutation of the input for every comparator.
  - It is sorted and stable whenever the comparator is consistent in the sense of ECMA-262.
- `Search` (`search.dfy`): the filter step.
- `Comparator` (`comparator.dfy`): the comparator, and what sorting with it gives.
- `SortHeader` (`sort_header.dfy`): the header state machine as a pure transition function.
- `Waste` (`waste.dfy`): the waste percentage and its colour band.
- `DataView` (`data_view.dfy`): the page. It is a class whose fields are the React state
  variables. `HandleSort`, `SetSearchTerm` and `SettleFetch` are methods that update them.
  Once loading has ended, the table it shows is the function `Table` of those fields. While
  `loading` is true the page shows only a spinner (`DataView.tsx:66-72`). `Rows()` does not
  look at `loading`: it is the table the page would show.

The waste percentage is computed as the code computes it. The code divides by the initial
weight whenever a remaining weight exists, and nothing in it keeps that weight away from 0.
The model leaves the zero case out by precondition; "## Left out" says what the page shows then.
The operations that record initial and remaining weights live in other pages, which are not
part of this model.

## Model

| member | source | states |
|---|---|---|
| `Text.Lower` | src/pages/DataView.tsx:46-47 | the folded string has the same length, folds each character, and has no upper-case ASCII letter left |
| `Text.LowerIdempotent` | src/pages/DataView.tsx:46-47 | folding twice is folding once |
| `Text.Includes` | src/pages/DataView.tsx:46-47 | `includes`: the empty term is always included, and an included term is no longer than the string; `IncludesIffOccurs` gives its full meaning |
| `Text.IncludesIffOccurs` | src/pages/DataView.tsx:46-47 | `includes` holds exactly when the term occurs at some index of the string |
| `Text.IncludesEmpty` | src/pages/DataView.tsx:46-47 | every string includes the empty term |
| `Text.LocaleCompare` | src/pages/DataView.tsx:55-56 | the string order returns -1, 0 or 1 |
| `Text.LocaleCompareZero` | src/pages/DataView.tsx:55-56 | the string order returns 0 exactly for equal strings |
| `Text.LocaleCompareAntisymmetric` | src/pages/DataView.tsx:54-56 | swapping the strings negates the result |
| `Text.LocaleCompareTransitive` | src/pages/DataView.tsx:55-56 | "not after" is transitive |
| `ArraySort.Insert` | src/pages/DataView.tsx:49-64 | insertion adds exactly the one element |
| `ArraySort.Sort` | src/pages/DataView.tsx:44-64 | the sorted copy is a permutation of the input, whatever the comparator |
| `ArraySort.SortSorted` | src/pages/DataView.tsx:49-64 | with a consistent comparator, every earlier element compares not after every later one |
| `ArraySort.SortStable` | src/pages/DataView.tsx:49-64 | with a consistent comparator, the elements tied with any value keep their input order |
| `ArraySort.SortOfSorted` | src/pages/DataView.tsx:49-64 | sorting a sequence already in comparator order leaves it unchanged |
| `ArraySort.SortIdempotent` | src/pages/DataView.tsx:49-64 | with a consistent comparator, sorting twice gives the order of sorting once |
| `Search.Matches` | src/pages/DataView.tsx:45-47 | the filter predicate: the empty term matches every entry, and a match needs a searched field at least as long as the term; `MatchesIgnoresCase` states the case folding |
| `Search.Filter` | src/pages/DataView.tsx:44-48 | every kept entry comes from the input and matches the term; no more entries than the input |
| `Search.FilterKeepsExactlyMatches` | src/pages/DataView.tsx:44-48 | each matching entry is kept as often as it occurs; each other entry is dropped |
| `Search.FilterConcat` | src/pages/DataView.tsx:44-48 | filtering a concatenation concatenates the filtered parts, so relative order is kept |
| `Search.FilterEmptyTerm` | src/pages/DataView.tsx:44-48 | an empty term keeps every entry, in order |
| `Search.MatchesIgnoresCase` | src/pages/DataView.tsx:46-47 | matching is unchanged by folding the term or the two searched fields |
| `Comparator.Get` | src/pages/DataView.tsx:50-51 | `entry[sortField]`: a string exactly for the date, meal type and food item columns, and `null` exactly for a missing remaining weight |
| `Comparator.Compare` | src/pages/DataView.tsx:49-64 | the comparator: 0 for mixed values; for two strings 0 exactly when equal; for two numbers 0 exactly when equal and negative exactly when the first is smaller (`asc`) or larger (`desc`); `DescSwapsOperands`, `DescNegatesAsc`, `MixedOnlyWithNull` and `SameKindConsistent` carry the rest |
| `Comparator.DescSwapsOperands` | src/pages/DataView.tsx:53-61 | `desc` on (a, b) equals `asc` on (b, a) |
| `Comparator.DescNegatesAsc` | src/pages/DataView.tsx:53-61 | `desc` is the negation of `asc`, for strings as well as numbers |
| `Comparator.MixedOnlyWithNull` | src/pages/DataView.tsx:50-63 | the values are neither both strings nor both numbers exactly when the column is remaining weight and one of them is `null`; then the result is 0 |
| `Comparator.CompareSign` | src/pages/DataView.tsx:53-61 | a non-positive result means "not greater" for numbers and "not after" for strings, reversed for `desc` |
| `Comparator.SameKindIff` | src/pages/DataView.tsx:50-51 | a column holds one kind of value over a set of entries unless it is remaining weight with a `null` among them |
| `Comparator.SameKindConsistent` | src/pages/DataView.tsx:53-61 | on one kind of value the comparator is consistent in both directions |
| `Comparator.SameKindSorted` | src/pages/DataView.tsx:44-64 | on one kind of value the sorted entries are in comparator order |
| `Comparator.NullBreaksConsistency` | src/pages/DataView.tsx:59-63 | with a `null` among the remaining weights, some input makes the comparator inconsistent |
| `Comparator.OneNullLeavesWeightsUnsorted` | src/pages/DataView.tsx:59-63 | sorting weights 1, `null`, 0 ascending leaves them as they are, so 1 stays ahead of 0 |
| `Comparator.SortedByNumber` | src/pages/DataView.tsx:59-61 | a numeric column comes out non-decreasing for `asc` and non-increasing for `desc`, as a permutation of the input |
| `Comparator.SortedByString` | src/pages/DataView.tsx:53-57 | a string column comes out in string order for `asc` and in reverse order for `desc`, as a permutation of the input |
| `Comparator.TiesSameBothWays` | src/pages/DataView.tsx:54-60 | `asc` and `desc` tie exactly the same entries |
| `Comparator.ToggleKeepsTieOrder` | src/pages/DataView.tsx:35-64 | flipping the direction keeps every group of tied entries in its input order |
| `Comparator.RiceAndBread` | src/pages/DataView.tsx:53-57 | by food item, Rice and Bread sort as Bread, Rice ascending and Rice, Bread descending |
| `SortHeader.Flip` | src/pages/DataView.tsx:37 | flipping always changes the direction |
| `SortHeader.Click` | src/pages/DataView.tsx:35-42 | a click selects the clicked column; the same column changes direction, another column starts ascending |
| `SortHeader.FirstClickAscending` | src/pages/DataView.tsx:11-12 | from the initial state (`date`, descending) the first click on any column sorts that column ascending |
| `SortHeader.ClickCurrentTwice` | src/pages/DataView.tsx:36-37 | two clicks on the current column restore the state |
| `SortHeader.RepeatedClicks` | src/pages/DataView.tsx:35-42 | n clicks on one column alternate its direction by the parity of n |
| `SortHeader.LastClickPicksField` | src/pages/DataView.tsx:35-42 | after any clicks the table is sorted by the column clicked last |
| `Waste.WastePercentage` | src/pages/DataView.tsx:121-123 | `N/A` exactly when no remaining weight is recorded; otherwise the remaining weight is the initial weight times (1 − waste/100) |
| `Waste.WasteEndpoints` | src/pages/DataView.tsx:121-123 | nothing left over is 100, everything left over is 0 |
| `Waste.WasteWithinRange` | src/pages/DataView.tsx:121-123 | a remaining weight between 0 and a positive initial weight gives a value from 0 to 100 |
| `Waste.WasteNegativeWhenOverweight` | src/pages/DataView.tsx:121-123 | more left over than served gives a negative value, not clamped |
| `Waste.WasteDecreasesWithRemaining` | src/pages/DataView.tsx:121-123 | more left over means no more waste |
| `Waste.RiceExample` | src/pages/DataView.tsx:121-123 | 2.0 served and 0.5 left is 75; no remaining weight is `N/A` |
| `Waste.BandOf` | src/pages/DataView.tsx:143-151 | the badge is grey exactly for `N/A`, and a zero or negative waste is green; `BandRanges` gives every range |
| `Waste.BandRanges` | src/pages/DataView.tsx:143-151 | grey exactly for `N/A`, red exactly above 50, yellow exactly in (25, 50], green exactly at 25 or below |
| `Waste.BandByRemainingShare` | src/pages/DataView.tsx:121-151 | for a positive initial weight: red when less than half is left, yellow from half up to three quarters, green from three quarters on |
| `DataView.Table` | src/pages/DataView.tsx:44-64 | every row comes from the entries and matches the search |
| `DataView.TableShowsExactlyMatches` | src/pages/DataView.tsx:44-64 | the table shows each matching entry as often as it was fetched, and no other entry |
| `DataView.EmptySearchShowsAll` | src/pages/DataView.tsx:44-48 | with an empty search the table holds all entries |
| `DataView.TableSorted` | src/pages/DataView.tsx:44-64 | when the shown entries hold one kind of value in the sort column, the table is in comparator order |
| `DataView.TableKeepsTieOrder` | src/pages/DataView.tsx:44-64 | when they and `y` hold one kind of value, the shown entries tied with `y` keep their fetched order |
| `DataView.DataViewPage.constructor` | src/pages/DataView.tsx:8-12 | no entries, loading, empty search, sorted by date descending |
| `DataView.DataViewPage.HandleSort` | src/pages/DataView.tsx:35-42 | the header state makes the `Click` transition; nothing else changes, and the table shows the same rows |
| `DataView.DataViewPage.SetSearchTerm` | src/pages/DataView.tsx:88 | the term is replaced and every shown row matches it |
| `DataView.DataViewPage.SettleFetch` | src/pages/DataView.tsx:25-31 | rows replace the entries (`null` gives none), an error keeps them; loading ends either way |

## Left out

- The table query itself (`DataView.tsx:18-23`) is network I/O. Its outcome is the parameter of `SettleFetch`. The server-side `order('date', desc)` is not modelled: the entries arrive in whatever order the outcome holds.
- Logging and the error alert (`DataView.tsx:28-29`) are I/O.
- The rendering is left out: the JSX, the spinner, the CSS class strings and the `date-fns` date formatting (`DataView.tsx:128`).
- Waste.WastePercentage: the `toFixed(1)` rounding (`DataView.tsx:122`) and the `parseFloat` before banding (`DataView.tsx:146-148`) are IEEE-754 formatting. The model computes and bands the exact real value. This ignores an edge: 50.04 rounds to "50.0" and is shown yellow, while the model bands it red.
- Waste.WastePercentage: the case of a zero initial weight with a remaining weight is excluded by precondition. The code does not guard it: a positive remaining weight gives `-Infinity` and a zero one gives `NaN`. Neither passes the `> 50` or `> 25` tests, so such a row shows "-Infinity%" or "NaN%" in a green badge.
- Text.LocaleCompare: locale collation rules are not modelled. The order is lexicographic on character codes.
- Text.Lower: Unicode case mapping is not modelled. Only ASCII letters are folded.
- ArraySort.Sort: this is one concrete stable algorithm. When the comparator is inconsistent, which happens with `null` remaining weights, ECMA-262 leaves the order implementation-defined. There the model proves only that the output is a permutation of the input.
- `Home.tsx`, `Navbar.tsx` and `App.tsx` are not part of this model. They hold static content, the active-link highlight and the anonymous sign-in at start-up.
- The pages that record initial and remaining weights are not part of this model.
