# GitHub trends dashboard — a Dafny model of its aggregation pipeline

The dashboard reads three tables:

- yearly star and fork counts per programming language;
- the same counts per topic;
- a list of top repositories, each with a language and a selected year.

It filters them by the sidebar choices: a set of languages, an inclusive year range and the metric (stars or forks). It then derives the tables behind every chart:

- the summary's top-1 and top-10 lists;
- the per-year dense rank of each language and topic, with the legend ordered by the latest year's rank;
- the per-year percentage share of each language and topic;
- each language's running total over the years;
- the year selector and the 20 largest repositories of the chosen year;
- in the notebook copy of the script, the "race" tables: the ten largest rows of every year.

This project models those pandas pipelines as pure Dafny functions over sequences of rows and proves what each stage promises.

Module layout:

- `tables.dfy` (`Tables`): the rows. `Stat` is a language or topic row. `Repo` is a repository. `Entry<K>` is a key with a summed value. `YearCat` is the (year, category) key. `Option` stands for pandas results that can be missing.
- `ordering.dfy` (`Ordering`): the orders `groupby` sorts its keys by. Python string order is code-point lexicographic (`StrLess`). Integers use their usual order. (year, category) pairs are ordered lexicographically. Each is proved a strict total order.
- `relational.dfy` (`Relational`): the pandas building blocks.
  - Boolean-mask filtering (`Where`).
  - `groupby(key).sum()` (`GroupSum`): an insertion into groups kept in key order.
  - The right-hand side of `merge(..., on=key)` (`Lookup`).
- `topk.dfy` (`TopK`): `nlargest` as a stable descending sort followed by a prefix, and `idxmax`.
- `rank.dfy` (`DenseRanking`): `rank(method='dense', ascending=False)` within each year.
- `percentage.dfy` (`Percentages`): year totals, the merge and the percentage column.
- `cumulative.dfy` (`Cumulative`): `groupby(category).cumsum()`.
- `dashboard.dfy` (`Dashboard`): the pipelines of `src/app.py`, built from the modules above.
- `race.dfy` (`RaceChart`): the race tables of `src/.ipynb_checkpoints/app-checkpoint.py`.

How pandas semantics are represented:

- A metric column is selected by `Metric`, through `StatValue` and `RepoValue`.
- Counts are `nat`.
- Percentages are exact `real`s. A year whose total is 0 has no percentage (`None`), standing for pandas' 0/0 = NaN.
- `idxmax` on an empty series raises in pandas. Here it is `None`.
- Ties in `nlargest` and `idxmax` are resolved as pandas does with its default `keep='first'`: the earlier row wins. The contract of `idxmax` states this; no property proved about `nlargest` depends on its tie order.

The notebook copy repeats several stages of `src/app.py`, and the same members model both copies:

- the filters (`src/.ipynb_checkpoints/app-checkpoint.py:108-123`);
- the language percentages (`:187-191`);
- the cumulative chart (`:230-231`);
- the top-20 repositories and the year selector (`:376-380`).

## Model

| member | source | states |
|---|---|---|
| Dashboard.FilterLanguages | src/app.py:110-114 | a language row is kept, with its multiplicity, iff its language is selected and its year is within the inclusive range; no rows when nothing is selected or the range is empty |
| Dashboard.FilterTopics | src/app.py:116-119 | a topic row is kept iff its year is within the inclusive range, with no language condition; no rows when the range is empty |
| Dashboard.FilterRepos | src/app.py:121-125 | a repository is kept iff its language is selected and its selected year is within the range; no rows when nothing is selected or the range is empty |
| Relational.Where | src/app.py:110-125 | a mask keeps each row as often as it occurs iff the predicate holds, and never lengthens the table |
| Relational.GroupSum | src/app.py:194 | grouping yields exactly one row per key present (no zero-filled keys), keys strictly increasing, each key's sum unchanged, the grand total unchanged |
| Relational.GroupSumValues | src/app.py:194 | each grouped row's value is the sum of the input rows with that key |
| Relational.Insert | src/app.py:194 | adding one row into sorted groups keeps them sorted, adds its key, adds its value to that key's sum only, and raises the total by the value |
| Dashboard.GroupByYearCategory | src/app.py:194 | `groupby(['year', category])[metric].sum()`: rows in (year, category) order, exactly the pairs present in the filtered rows, each value the metric summed over that pair, the metric's total preserved |
| Dashboard.LanguageCells | src/app.py:194 | the grouped language table has, in (year, language) order, exactly one row per (year, language) pair of the filtered rows (so only selected languages in the year range), each value the metric summed over that pair, and the filtered rows' total preserved |
| Dashboard.TopicCells | src/app.py:254 | the grouped topic table has, in (year, topic) order, exactly one row per (year, topic) pair of the year-filtered rows, each value the metric summed over that pair, and the filtered rows' total preserved |
| Dashboard.CategoryTotals | src/app.py:142 | `groupby(category)[metric].sum()` has one row per category present, in string order, each value the category's total |
| Ordering.StrOrder | src/app.py:142 | Python's code-point string order, by which `groupby` sorts its keys, is a strict total order |
| Ordering.YearCatOrder | src/app.py:194 | the (year, category) key order is a strict total order |
| DenseRanking.DenseRank | src/app.py:197 | each row keeps its cell; its rank lies between 1 and the number of distinct values in its year |
| DenseRanking.DenseRankOrder | src/app.py:197 | within a year, a strictly larger value has a strictly smaller rank and equal values have equal ranks, both as iff |
| DenseRanking.DenseRankRange | src/app.py:197 | the ranks used in a year are exactly 1..m, where m is the number of distinct values in that year |
| Dashboard.LanguageRanks | src/app.py:194-197 | the language rank table ranks every grouped row, in order; ranks within a year follow values (iff) and fill 1..m exactly |
| Dashboard.TopCategories | src/app.py:257 | the top-n categories are min(n, number of categories) categories present, each with a total at least that of every category left out |
| Dashboard.KeepTopCategories | src/app.py:258 | `isin(top)` keeps exactly the rows of the top categories, each as often as it occurs, and every top category keeps its rows |
| Dashboard.TopicRanks | src/app.py:254-261 | the topic rank table has one ranked row per grouped row of the ten largest topics, in the same order, and no other rows; ranks follow values within a year (iff) and fill 1..m, where m counts the distinct values among the kept topics only |
| Dashboard.RankTop | src/app.py:257-261 | ranking the rows of the n largest categories: one ranked row per kept row, in order; every kept row ranked, no other row; ranks follow values within a year and are dense among the kept rows |
| Dashboard.RankWithin | src/app.py:258-261 | ranking after a category filter yields one ranked row per kept row, in order (so each kept row exactly once and no other row), with ranks following values within a year and dense among the kept rows alone |
| Dashboard.MaxYear | src/app.py:201 | `year.max()` is a year present and no row has a later year |
| Dashboard.FinalRanks | src/app.py:201-202 | the legend's rows are exactly the rows of the latest year, with their multiplicities, in non-decreasing rank order |
| Dashboard.LegendOrder | src/app.py:200-204 | no legend order (None) iff the rank table is empty; otherwise the categories of the latest year, one per row of `FinalRanks`, so in non-decreasing rank order |
| Percentages.YearTotals | src/app.py:303-304 | `groupby('year').sum()` gives one row per year present, in ascending order, each value that year's total |
| Percentages.MergeFindsYear | src/app.py:305 | the merge on year finds, for every row, its year's total |
| Percentages.Shares | src/app.py:302-306 | each row is kept with its year's total as the total column; the percentage is value/total*100, undefined when the total is 0 |
| Percentages.SharesBounded | src/app.py:306 | a percentage is missing iff its year's total is 0 (and then the value is 0); otherwise it lies in [0, 100] |
| Percentages.SharesSumTo100 | src/app.py:303-306 | in a year with a positive total, the percentages of that year add up to exactly 100 |
| Dashboard.LanguageShares | src/app.py:302-306 | one row per grouped language row, in order, with its year's total over the selected languages and percentage value/total*100; a percentage is missing iff that total is 0, otherwise it lies in [0, 100]; each year with a positive total sums to 100 |
| Dashboard.ShareColumn | src/app.py:303-306 | the share table of grouped rows: each row kept in order with its year's total and value/total*100, missing iff the total is 0, otherwise in [0, 100], and each year with a positive total summing to 100 |
| Dashboard.TopicShares | src/app.py:323-332 | one row per grouped row of the ten largest topics, in order; the year totals are taken after that restriction, each percentage is value/total*100, missing iff the total is 0, otherwise in [0, 100], and each year with a positive total sums to 100 |
| Cumulative.CumSum | src/app.py:372 | the running value of a row is the sum of its category's values over the rows up to and including it |
| Cumulative.Running | src/app.py:372 | the running sums from a starting accumulator add that category's earlier rows to the accumulator's entry |
| Cumulative.CumSumIsUpToYear | src/app.py:371-372 | on the grouped table, a row's running total is its category's total over all years up to the row's year; other categories do not enter it |
| Cumulative.CumSumMonotone | src/app.py:372 | a later row of the same category is in a later year and its running total is not smaller |
| Cumulative.CumSumLast | src/app.py:372 | at a category's last row the running total equals the category's whole total |
| Dashboard.LanguageCumulative | src/app.py:371-372 | every row of the cumulative chart is its language's total over the years up to its own |
| TopK.SortDesc | src/app.py:142 | the stable sort yields the same rows (as a multiset), in non-increasing key order |
| TopK.InsertDesc | src/app.py:142 | inserting into a non-increasing sequence keeps it non-increasing and adds exactly that row |
| TopK.NLargest | src/app.py:142 | `nlargest(n)` returns min(n, len) rows taken from the input, in non-increasing order, each at least every row left out |
| TopK.IdxMax | src/app.py:46 | `idxmax` is missing iff the series is empty; otherwise it is the key of the first row with the largest value |
| TopK.ArgMaxIndex | src/app.py:46 | the position of the first maximum: no value exceeds it and every earlier value is strictly smaller |
| Dashboard.TopLabel | src/app.py:46-49 | the top language or topic is missing iff the table is empty; otherwise it is a category present whose total is at least every other category's total |
| Dashboard.TopTotals | src/app.py:142 | the n largest category totals: min(n, categories) distinct categories with their true totals, largest first, none below a category left out |
| Dashboard.TopTen | src/app.py:142-182 | the four summary lists hold min(10, categories) distinct categories with their true totals (taken from the per-category totals), largest first, none below a category left out |
| Dashboard.YearOptions | src/app.py:431 | the year selector lists every selected year present in the filtered repository table exactly once, strictly decreasing |
| Dashboard.InsertYear | src/app.py:431 | adding a year to a strictly decreasing list keeps it strictly decreasing and adds exactly that year |
| Dashboard.ReposOfYear | src/app.py:435 | the filtered repositories of the chosen year: each repository with that selected year as often as it occurs, and no other |
| Dashboard.TopRepos | src/app.py:435 | min(20, repositories of that year) repositories of that year, none listed more often than it occurs, by non-increasing metric, none below a repository left out |
| RaceChart.YearSlice | src/.ipynb_checkpoints/app-checkpoint.py:316 | a year's group holds exactly that year's rows, with their multiplicities |
| RaceChart.RaceFrames | src/.ipynb_checkpoints/app-checkpoint.py:316-318 | every row of the race table is of a year present in the input |
| RaceChart.RaceYear | src/.ipynb_checkpoints/app-checkpoint.py:316-318 | the race table restricted to any year is exactly `nlargest(n)` of that year's rows |
| RaceChart.RaceYearTop | src/.ipynb_checkpoints/app-checkpoint.py:316-318 | a year shows min(n, its rows) rows, largest first, none smaller than a row of that year left out |
| RaceChart.RaceRows | src/.ipynb_checkpoints/app-checkpoint.py:316-318 | the race shows only input rows, each at most as often as it occurs |
| RaceChart.RaceKeepsYears | src/.ipynb_checkpoints/app-checkpoint.py:316-318 | with n >= 1 every year of the input keeps at least one row |
| RaceChart.FramesOrdered | src/.ipynb_checkpoints/app-checkpoint.py:313-318 | the concatenated frames are ordered by year ascending, then by value descending |
| RaceChart.RaceFacts | src/.ipynb_checkpoints/app-checkpoint.py:312-318 | the race table is ordered by year then value, and each year's part is that year's n largest rows |
| RaceChart.RaceBounded | src/.ipynb_checkpoints/app-checkpoint.py:316-318 | every row comes from the grouped table and no year shows more than n rows |
| RaceChart.LanguageRace | src/.ipynb_checkpoints/app-checkpoint.py:312-319 | the language race: year-then-value order, each year exactly the ten largest grouped languages of that year, at most ten per year, all from the grouped table |
| RaceChart.TopicRace | src/.ipynb_checkpoints/app-checkpoint.py:343-348 | the topic race: the same, over the grouped topics of the year range |

## Left out

- Loading the CSV files, the HTTP source and `on_bad_lines`. Rows are parameters.
- Parsing the `topics` column with `ast.literal_eval` (`src/app.py:40-42`). `Repo` has no topics field, because no modelled stage reads it.
- Streamlit widgets and Plotly figure layout, including the race chart's axis range (maximum × 1.1). The sidebar choices are parameters: the selected languages, the year range, the metric and the selected year.
- The float formatting of the summary percentages (`src/app.py:143-148`) and the date in the download file name. Both are presentation only.
- The sort of the raw-data explorer table by the chosen column, ascending or descending as the radio button says (`src/app.py:475-480`), which is presentation only.
- RaceChart.RaceFrames: the pre-sort by (year ascending, value descending) is a stable two-column sort, so each year's group reaches `nlargest` in value-descending order with ties in (year, category) order. That is the order `SortDesc` produces from the grouped rows, so the pre-sort is folded into `NLargest` rather than modelled as a separate stage. Only `nlargest`'s own tie handling remains (see the TopK.NLargest line).
- TopK.NLargest: the order among equal values is fixed (the earlier row first) but not stated as a property. (`TopK.IdxMax` does state that it returns the first maximum.)
- Dashboard.TopicRanks: the bound of ten is stated on the topics (`TopCategories`), not as a bound on rank values.
