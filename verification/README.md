# Alumni dashboard aggregation — a Dafny model

The alumni dashboard loads a table of alumni records and draws charts from it.
Each record has a batch (graduation year), a course and a university. The user
selects sets of years, courses and universities. The page then shows four
things:

- **Number of Alumni by Course.** The rows whose batch and course are both
  selected are grouped by (course, batch) and counted. Each group is joined
  with the number of selected rows of its course. Its count is also given as
  a percentage of the whole table.
- **Number of Alumni by University.** The same filter-then-count pattern,
  keyed by university, again with the whole table's size as the denominator.
- **Top 5 courses** and **top 3 universities.** These are the heads of a
  frequency table over the whole, unfiltered table: each distinct non-empty
  value with its number of occurrences, most frequent first.
- **Render guard.** Each breakdown chart is drawn only when at least three
  courses (or universities) are selected. Otherwise a caption is shown.

The model keeps the table as an immutable `seq<Record>`. A cell may be empty
(`Cell.Missing`). The selections are plain sets. The table operations are
given their standard meaning as pure functions:

| table operation | model |
|---|---|
| `isin` | `Records.Selected` |
| boolean mask | `Seqs.Filter` |
| `groupby(...).size()` | `Grouping.GroupSizes` |
| inner `merge` | `CourseBreakdown.MergeOnCourse` |
| `value_counts(dropna=True, sort=True)` | `ValueCounts.ValueCounts` |
| `head(n)` | `Seqs.Head` |

Percentages are exact rationals (`real`).

The modules follow the data flow:

- `Seqs`: counting, filtering and prefixes.
- `Orders`: the text order and strict total orders.
- `Records`: cells, records and columns.
- `Grouping`: group-by and size.
- `Shares`: percentages.
- `CourseBreakdown` and `UniversityBreakdown`: the two breakdowns.
- `ValueCounts`: the frequency table and the top-N views.
- `Dashboard`: one render pass.

Design notes:

- Grouping emits its groups in ascending key order, as a default group-by
  does. Text is ordered by character code, with a proper prefix first.
  (course, batch) pairs are ordered as tuples.
- Both percentages divide by the number of rows of the whole table. They do
  not divide by the filtered subset or by the group. This is the formula the
  dashboard uses, and the model keeps it. So the course percentages add up
  to the selected rows' share of the table, not to 100.
- Percentages are only computed for existing groups. So the table is never
  empty where a percentage is computed, and `Shares.Percent` requires a
  positive table size.

## Model

| member | source | states |
|---|---|---|
| CourseBreakdown.CourseSelection | app.py:33 | the selected rows come from the table (no more rows than it) and each has its batch among the selected years and its course among the selected courses |
| CourseBreakdown.CourseSelectionExact | app.py:33 | a row is selected iff its batch is a present selected year and its course a present selected course; it is kept exactly as often as it occurs in the table; an empty year or course selection selects nothing |
| Grouping.GroupSizes | app.py:35 | grouping yields a group for a key iff the key occurs; each group's size is the key's number of occurrences, hence at least 1 |
| Grouping.GroupSizesSorted | app.py:35 | under a strict total order the groups are in strictly ascending key order, so no key has two groups |
| Grouping.GroupSizesConserve | app.py:35 | the group sizes add up to the number of grouped elements |
| Grouping.GroupSizesWhere | app.py:37 | the groups whose key satisfies a predicate add up to the number of elements satisfying it (per-course conservation) |
| CourseBreakdown.MergeKeepsEveryRow | app.py:38 | the inner join on course against totals with unique keys covering every group's course keeps every group exactly once, in order, and attaches that course's total |
| CourseBreakdown.Breakdown | app.py:33-40 | the course chart's table has exactly one row per (course, batch) group of the selected rows: the join with the course totals in between loses no group |
| CourseBreakdown.MergeMatchesGroups | app.py:35-38 | after the join each (course, batch) group has exactly one row carrying its course's number of selected rows |
| CourseBreakdown.BreakdownMatchesGroups | app.py:33-40 | each chart row is its (course, batch) group: key, count, course total and count as a percentage of the whole table |
| CourseBreakdown.BreakdownKeysUnique | app.py:35 | rows come in strictly ascending (course, batch) order, so each (course, batch) key appears once |
| CourseBreakdown.BreakdownKeysComplete | app.py:33-35 | every selected row of the table has a chart row for its (course, batch) |
| CourseBreakdown.BreakdownKeysSound | app.py:33-35 | every chart row's (course, batch) is that of some selected row of the table |
| CourseBreakdown.BreakdownCounts | app.py:35 | every count is at least 1 and equals the number of selected rows with that key; the counts add up to the number of selected rows |
| CourseBreakdown.BreakdownCourseTotals | app.py:37-38 | each row's course total is the number of selected rows of its course, equals the sum of the counts of the rows of that course, and is at least the row's count |
| CourseBreakdown.BreakdownPercentages | app.py:40 | each percentage is count * 100 / (rows in the whole table) and lies in (0, 100] |
| CourseBreakdown.BreakdownPercentagesSum | app.py:40 | the percentages add up to (selected rows) * 100 / (rows in the whole table), which is at most 100 |
| Shares.Percent | app.py:40 | the percentage times the table size is the count times 100; it is positive for a positive count and at most 100 when the count does not exceed the table size |
| Shares.PercentsAddUp | app.py:40 | percentages of one table add up to the percentage of the summed counts |
| UniversityBreakdown.UniversitySelection | app.py:63 | the selected rows come from the table and each has its batch among the selected years and its university among the selected universities |
| UniversityBreakdown.UniversitySelectionExact | app.py:63 | a row is selected iff its batch is a present selected year and its university a present selected university, as often as it occurs in the table; an empty selection selects nothing |
| UniversityBreakdown.UniversityGroupsMeaning | app.py:65 | the university groups of the selected rows come in strictly ascending university order, and each group's size is the number of selected rows of its university, at least 1 |
| UniversityBreakdown.Breakdown | app.py:63-68 | one row per university group of the selected rows, in strictly ascending university order; each row's count is the number of selected rows of its university (at least 1) and its percentage is that count * 100 / (rows in the whole table) |
| UniversityBreakdown.BreakdownKeysUnique | app.py:65 | rows come in strictly ascending university order, so each university appears once |
| UniversityBreakdown.BreakdownKeysComplete | app.py:63-65 | every selected row of the table has the row of its university |
| UniversityBreakdown.BreakdownKeysSound | app.py:63-65 | every row's university is that of some selected row of the table |
| UniversityBreakdown.BreakdownCounts | app.py:65 | every count is at least 1 and equals the number of selected rows of that university; the counts add up to the number of selected rows |
| UniversityBreakdown.BreakdownPercentages | app.py:67-68 | each percentage is count * 100 / (rows in the whole table) and lies in (0, 100] |
| UniversityBreakdown.BreakdownPercentagesSum | app.py:67-68 | the percentages add up to (selected rows) * 100 / (rows in the whole table), at most 100 |
| Records.PresentValuesCount | app.py:20-21 | dropping empty cells keeps every present value's number of occurrences |
| Records.PresentValuesLength | app.py:20-21 | dropping empty cells leaves as many values as there are non-empty cells |
| ValueCounts.SortBySize | app.py:21 | the count-ordered table is a permutation of the grouped table |
| ValueCounts.SortBySizeOrdered | app.py:21 | after sorting, counts never increase along the table |
| ValueCounts.ValueCounts | app.py:19-24 | a value has a row iff it occurs in a non-empty cell of the column, and its count is its number of occurrences in the column (at least 1) |
| ValueCounts.ValueCountsOrdered | app.py:21 | the frequency table is in non-increasing count order |
| ValueCounts.ValueCountsUnique | app.py:19-24 | no value has two rows |
| ValueCounts.ValueCountsConserve | app.py:19-24 | the counts add up to the number of non-empty cells of the column |
| ValueCounts.ValueCountsLength | app.py:19-24 | the table has one row per distinct non-empty value |
| Seqs.Head | app.py:92 | the head of a table has min(n, table length) rows and is a prefix of the table |
| ValueCounts.TopValues | app.py:92 | the top-n view has min(n, distinct values) rows, is a prefix of the frequency table, is in non-increasing order, and no row left out has a larger count than a row kept |
| ValueCounts.TopCourses | app.py:91-92 | the top-courses view has min(5, distinct courses) rows, each with its course's number of occurrences in the whole table |
| ValueCounts.TopUniversities | app.py:97-98 | the top-universities view has min(3, distinct universities) rows, each with its university's number of occurrences in the whole table |
| Dashboard.Guard | app.py:53-56 | a chart is shown iff at least 3 values are selected, and then shows exactly its table; otherwise only the caption |
| Dashboard.Render | app.py:31-99 | the course chart is drawn iff at least 3 courses are selected, the university chart iff at least 3 universities are, each with its breakdown; the top views have min(5, distinct courses) and min(3, distinct universities) rows |
| Dashboard.GuardThreshold | app.py:53-56 | with exactly two courses selected only the caption is shown; with three the chart is drawn |
| Dashboard.TopViewsIgnoreSelection | app.py:89-99 | the top-N views are the same for every selection |

## Left out

- Page setup, headers, markdown, columns and the multiselect widgets (app.py:10-15, 26-29, 84-90, 93, 95-96, 99). They are presentation; the selections are the plain sets given to `Dashboard.Render`.
- Plotly figures, hover and text templates, colours, and `%.2f` formatting (app.py:42-51, 70-72, 92-93, 98-99). They are presentation; the model ends at the tables the charts are drawn from.
- Loading the favicon and reading the CSV file (app.py:7, 17). This is file I/O; the table is taken as a given sequence of records.
- Floating point. Percentages are exact rationals, so the rounding of the division and of the multiplication by 100 is not modelled.
- Column types. Batch is modelled as an integer year and course and university as text; the dtype handling of the table library is not modelled.
- Tie order of the frequency table. Values of equal count are kept in ascending text order; the dashboard promises only non-increasing counts.
- Selecting the empty-cell option. The year, course and university options are drawn from the column's unique values, which may include the empty marker; the model's selections contain only present values, so an empty cell never matches.
- Caption wording. The caption asks for "two" courses or universities while the guard needs three; only the numeric guard is modelled.
- Dashboard.TopViewsIgnoreSelection: holds by construction, since the top views take no selection; it records the independence rather than proving work.
