# Excel formulas dashboard: the formula evaluators in Dafny

The Excel learning dashboard (`src/ExcelDashboard.jsx`) is a single React
component. Besides its markup it holds four small evaluators. Each one reruns
over a fixed in-memory table every time an input changes:

- **VLOOKUP** with an exact match (`calculateVlookup`). It returns the price of
  the first product whose id equals the lookup value. If no product has that
  id it returns `"N/A"`.
- **IF**, a nested threshold ladder (`calculateIf`). A score that is not a
  number gives `"Invalid input"`. Otherwise the bands are ≥ 90 A, ≥ 80 B,
  ≥ 70 C, ≥ 60 D, and F for anything lower.
- **COUNTIF** (`calculateCountIf`). It counts the sales rows whose region
  equals the chosen region exactly.
- **Pivot table**. A `forEach` loop builds a dictionary of sales per category.
  The dashboard renders the entries in the dictionary's insertion order, which
  is the order in which each category first appears.

All of it lives in the module `ExcelDashboard` in `excel_dashboard.dfy`.

- The tables are parameters of the evaluators. The dashboard's own sample
  tables are the constants `ProductTable`, `SalesData` and `SamplePivotData`.
- The three pure evaluators are functions.
  - `Vlookup`'s contract characterises its result: the first matching row's
    price, or `NotAvailable`.
  - `FilterRegion` models `Array.prototype.filter`. Its contract says the
    result keeps only matching rows of the input. The lemmas
    `FilterRegionMultiset` and `FilterRegionAppend` add that every match is
    kept as often as it occurs, in table order.
  - `CountIf`'s contract bounds the count and gives the zero case. The lemma
    `CountIfIsMultiplicity` pins its value.
- The pivot loop is a method, `PivotByCategory`. It has a `while` loop over
  the rows and updates two locals:
  - an ordered key list, which stands for the insertion order of the
    JavaScript object;
  - a `map<string, int>` of totals.

  The loop body is the method `AddRow`, one call per `forEach` callback. The
  loop is proved against the specification functions `Categories` (the
  categories in first-occurrence order), `SalesFor` (one category's sales)
  and `TotalSales`.

Results the source returns as strings have their own datatypes:
- the lookup result is `LookupResult`, where `NotAvailable` is the `"N/A"`;
- the grade result is `GradeResult`. `GradeText` gives the exact strings the
  dashboard displays.

The source refers to `parseFloat(inputValues.ifValue)`, a call into the
JavaScript runtime. The model takes what it returns as a parameter of type
`Option<real>`: `None` stands for `NaN`.

Details of the code the model follows:
- The pivot's "missing key" test is JavaScript truthiness
  (`!pivotByCategory[category]`). That test is also true when a category's
  running total is exactly 0. The code then resets the entry to 0, which
  changes neither its value nor its position in the order. `AddRow` models
  that branch literally.

## Model

| member | source | states |
|---|---|---|
| ExcelDashboard.Vlookup | src/ExcelDashboard.jsx:49-50 | if row i is the first row whose id equals the key exactly, the result is that row's price; if no row has the key, the result is NotAvailable |
| ExcelDashboard.VlookupNotAvailable | src/ExcelDashboard.jsx:49-50 | the lookup gives NotAvailable if and only if no row has the key, so a present key always gives a price |
| ExcelDashboard.VlookupUniqueIds | src/ExcelDashboard.jsx:41-49 | when ids are unique (as in the product table), any row carrying the key is the one whose price is returned |
| ExcelDashboard.VlookupAppend | src/ExcelDashboard.jsx:49 | looking up in t1 + t2 gives t1's price if t1 has the key, otherwise t2's result: the scan honours table order |
| ExcelDashboard.CalculateVlookup | src/ExcelDashboard.jsx:40-51 | on the fixed product table the result is "N/A" exactly for keys other than B001…B005 |
| ExcelDashboard.ProductTablePrices | src/ExcelDashboard.jsx:41-47 | B001, B002, B003, B004 and B005 give 999, 299, 89, 49 and 129 |
| ExcelDashboard.CalculateIf | src/ExcelDashboard.jsx:54-62 | an unparseable score, and only that, gives Invalid input; otherwise A iff score ≥ 90, B iff 80 ≤ score < 90, C iff 70 ≤ score < 80, D iff 60 ≤ score < 70, F iff score < 60 |
| ExcelDashboard.GradeText | src/ExcelDashboard.jsx:56-61 | the displayed text is "Invalid input" exactly for the invalid result, and a one-character text for a grade (which letter is stated by GradeTextOfScore) |
| ExcelDashboard.GradeTextOfScore | src/ExcelDashboard.jsx:57-61 | a parsed score displays "A" iff it is at least 90, "B" iff in [80, 90), "C" iff in [70, 80), "D" iff in [60, 70), "F" iff below 60 |
| ExcelDashboard.GradeTextInjective | src/ExcelDashboard.jsx:56-61 | different results are displayed as different texts |
| ExcelDashboard.GradeRankIsMarksReached | src/ExcelDashboard.jsx:57-61 | a parsed score always gets a letter, whose rank equals the number of pass marks 60, 70, 80, 90 the score reaches |
| ExcelDashboard.MarksReachedMonotone | src/ExcelDashboard.jsx:57-61 | a higher score reaches at least as many pass marks |
| ExcelDashboard.GradeMonotone | src/ExcelDashboard.jsx:57-61 | if s1 ≤ s2 then the grade of s2 is not lower than the grade of s1 |
| ExcelDashboard.GradeSamples | src/ExcelDashboard.jsx:55-61 | 90 is A, 89.999 and 80 are B, 75 is C, 60 is D, -5 is F, and an unparseable score shows "Invalid input" |
| ExcelDashboard.FilterRegion | src/ExcelDashboard.jsx:76 | the result is no longer than the input, holds only rows of the input that have the region, and contains every such row |
| ExcelDashboard.FilterRegionMultiset | src/ExcelDashboard.jsx:76 | each row of the region occurs in the result exactly as often as in the input; rows of other regions do not occur |
| ExcelDashboard.FilterRegionAppend | src/ExcelDashboard.jsx:76 | the filter of two tables joined is the filter of the first followed by the filter of the second, so order is kept |
| ExcelDashboard.FilterRegionSingle | src/ExcelDashboard.jsx:76 | a one-row table keeps its row exactly when the row has the region |
| ExcelDashboard.CountIf | src/ExcelDashboard.jsx:76 | the count lies between 0 and the table length, and is 0 exactly when no row has the region (0, not an error) |
| ExcelDashboard.CountIfIsMultiplicity | src/ExcelDashboard.jsx:76 | the count equals the number of occurrences of the region in the region column |
| ExcelDashboard.CountIfAppend | src/ExcelDashboard.jsx:76 | the count over two tables is the sum of their counts |
| ExcelDashboard.CalculateCountIf | src/ExcelDashboard.jsx:65-77 | on the fixed sales table the count is East 3, West 2, North 1, South 1 and 0 for any other region, never more than its seven rows |
| ExcelDashboard.SalesDataCounts | src/ExcelDashboard.jsx:66-76 | on the sample table East gives 3, West 2, North 1, South 1 and any other region 0 |
| ExcelDashboard.CategoriesMembers | src/ExcelDashboard.jsx:92-97 | the pivot's key list holds exactly the categories occurring in the rows, each once |
| ExcelDashboard.CategoriesInFirstOccurrenceOrder | src/ExcelDashboard.jsx:92-97 | keys appear in the order of the first row of each category |
| ExcelDashboard.SalesForAbsent | src/ExcelDashboard.jsx:93-96 | a category with no rows has total 0 |
| ExcelDashboard.AddRow | src/ExcelDashboard.jsx:93-96 | one callback: the row's category is appended to the order only if absent; its entry becomes the old entry (0 if absent) plus the row's sales; no other entry changes |
| ExcelDashboard.PivotTotalsStep | src/ExcelDashboard.jsx:93-96 | after one callback every entry is still the sum of sales of its category over the rows seen, including a category seen for the first time |
| ExcelDashboard.PivotSumStep | src/ExcelDashboard.jsx:93-96 | one callback keeps every key backed by an entry and raises the sum of the entries by exactly that row's sales, whether its category is new or already present |
| ExcelDashboard.PivotStep | src/ExcelDashboard.jsx:92-97 | one callback keeps the loop invariant: keys are the categories of the rows seen so far in first-occurrence order, entries are exactly those keys with their category totals, and the entries add up to the total sales so far |
| ExcelDashboard.PivotByCategory | src/ExcelDashboard.jsx:91-97 | the keys are the categories in first-occurrence order; a category has an entry if and only if some row has it; each entry is the sum of sales over its rows; the entries add up to the total sales |
| ExcelDashboard.SamplePivotCategories | src/ExcelDashboard.jsx:80-88 | the sample rows have categories Electronics then Accessories |
| ExcelDashboard.SamplePivotTotals | src/ExcelDashboard.jsx:80-88 | the sample totals are Electronics 17600 and Accessories 5500 |
| ExcelDashboard.Entries | src/ExcelDashboard.jsx:700 | given distinct keys that are exactly the dictionary's keys, every listed pair is an entry of the dictionary, every entry is listed, no key is listed twice, and the pairs follow the insertion order of the keys |
| ExcelDashboard.SamplePivot | src/ExcelDashboard.jsx:80-97 | the rendered pivot of the sample rows (line 700) is Electronics 17600 followed by Accessories 5500 |

## Left out

- React state and rendering are not modelled: the `useState` hooks, `handleInputChange`, tab switching and all markup. They are the UI layer; the inputs it holds become parameters.
- The font loading in `useEffect` is not modelled, because it is browser I/O.
- The inline SUM, AVERAGE, MAX and MIN displays are not modelled. They are IEEE floating-point arithmetic with NaN propagation and `toFixed(2)` formatting.
- The internals of `parseFloat` (prefix parsing such as `"75abc"`) are not modelled, because they belong to the JavaScript runtime. The parsed score is the `Option<real>` parameter.
- CalculateIf: the score cannot be `Infinity` or `-Infinity`, which `parseFloat` can return: `real` has no infinities. In the code they would grade A and F.
- The formula label strings and the static explanation tables are not modelled, because they are presentation only.
- PivotByCategory: treats the dictionary as a plain insertion-ordered map. Two JavaScript object behaviours are outside it, and the sample data triggers neither. First, `Object.entries` lists keys that look like array indices (such as `"7"`) before the others. Second, a category named like an inherited property (`"toString"`, `"__proto__"`) reads the inherited value instead of a missing entry.
- Prices, sales and totals are unbounded integers. JavaScript numbers are doubles, which stay exact only up to 2^53; every sample value is far below that.
- Purity and idempotence (the same inputs give the same outputs) have no lemma. The three pure evaluators are Dafny functions, so for them this holds by construction. For the pivot, the ensures of `PivotByCategory` determine `keys` and `totals` from the rows alone, through `Categories` and `SalesFor`.
