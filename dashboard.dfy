/** The pipelines of the live dashboard script: sidebar filters, the grouped tables behind each
    chart, the summary top lists, the legend order and the top-repository bar chart. */
module Dashboard {
  import opened Tables
  import opened Ordering
  import opened Relational
  import opened TopK
  import opened DenseRanking
  import opened Cumulative
  import opened Percentages

  // ---------------------------------------------------------------- filters

  /** Language-year rows kept by the sidebar: language selected and year inside the slider range, both ends included. */
  function FilterLanguages(stats: seq<Stat>, selected: set<string>, lo: int, hi: int): (r: seq<Stat>)
    ensures forall s :: multiset(r)[s] == if s.category in selected && lo <= s.year <= hi then multiset(stats)[s] else 0
    ensures forall s :: s in r <==> s in stats && s.category in selected && lo <= s.year <= hi
    ensures selected == {} || lo > hi ==> r == []
  {
    var r := Where(stats, (s: Stat) => s.category in selected && lo <= s.year <= hi);
    assert selected == {} || lo > hi ==> multiset(r) == multiset{};
    r
  }

  /** Topic-year rows are filtered on the year range alone. */
  function FilterTopics(stats: seq<Stat>, lo: int, hi: int): (r: seq<Stat>)
    ensures forall s :: multiset(r)[s] == if lo <= s.year <= hi then multiset(stats)[s] else 0
    ensures forall s :: s in r <==> s in stats && lo <= s.year <= hi
    ensures lo > hi ==> r == []
  {
    var r := Where(stats, (s: Stat) => lo <= s.year <= hi);
    assert lo > hi ==> multiset(r) == multiset{};
    r
  }

  /** Repositories are filtered on their language and their selected year. */
  function FilterRepos(repos: seq<Repo>, selected: set<string>, lo: int, hi: int): (r: seq<Repo>)
    ensures forall p :: multiset(r)[p] == if p.language in selected && lo <= p.selectedYear <= hi then multiset(repos)[p] else 0
    ensures forall p :: p in r <==> p in repos && p.language in selected && lo <= p.selectedYear <= hi
    ensures selected == {} || lo > hi ==> r == []
  {
    var r := Where(repos, (p: Repo) => p.language in selected && lo <= p.selectedYear <= hi);
    assert selected == {} || lo > hi ==> multiset(r) == multiset{};
    r
  }

  // ---------------------------------------------------------------- grouping

  /** The (year, category) pairs present. */
  function StatKeys(stats: seq<Stat>): set<YearCat> {
    set s | s in stats :: YearCat(s.year, s.category)
  }

  /** The metric summed over the rows of one (year, category) pair. */
  function StatSum(stats: seq<Stat>, k: YearCat, m: Metric): nat {
    if |stats| == 0 then 0
    else (if stats[0].year == k.year && stats[0].category == k.category then StatValue(stats[0], m) else 0)
         + StatSum(stats[1..], k, m)
  }

  /** The metric summed over all rows. */
  function StatTotal(stats: seq<Stat>, m: Metric): nat {
    if |stats| == 0 then 0 else StatValue(stats[0], m) + StatTotal(stats[1..], m)
  }

  /** Each row reduced to its (year, category) key and the chosen metric. */
  function Project(stats: seq<Stat>, m: Metric): (r: seq<Entry<YearCat>>)
    ensures |r| == |stats|
    ensures KeysOf(r) == StatKeys(stats)
    ensures forall k :: SumOf(r, k) == StatSum(stats, k, m)
    ensures Total(r) == StatTotal(stats, m)
  {
    if |stats| == 0 then []
    else
      assert stats == [stats[0]] + stats[1..];
      assert StatKeys(stats) == {YearCat(stats[0].year, stats[0].category)} + StatKeys(stats[1..]);
      var r := [Entry(YearCat(stats[0].year, stats[0].category), StatValue(stats[0], m))] + Project(stats[1..], m);
      assert KeysOf(r) == {r[0].key} + KeysOf(r[1..]);
      r
  }

  /** `groupby(['year', category])[metric].sum().reset_index()`: exactly one row per (year, category)
      pair present, in key order, holding the sum of the metric over that pair's rows; no zero-fill,
      and the grand total is unchanged. */
  function GroupByYearCategory(stats: seq<Stat>, m: Metric): (r: seq<Entry<YearCat>>)
    ensures SortedKeys(r, YearCatLess)
    ensures KeysOf(r) == StatKeys(stats)
    ensures forall i :: 0 <= i < |r| ==> r[i].value == StatSum(stats, r[i].key, m)
    ensures Total(r) == StatTotal(stats, m)
  {
    YearCatOrder();
    GroupSumValues(Project(stats, m), YearCatLess);
    GroupSum(Project(stats, m), YearCatLess)
  }

  /** The categories present. */
  function Categories(cells: seq<Entry<YearCat>>): set<string> {
    set e | e in cells :: e.key.category
  }

  /** Rows keyed by category alone. */
  function CategoryPairs(cells: seq<Entry<YearCat>>): (r: seq<Entry<string>>)
    ensures KeysOf(r) == Categories(cells)
    ensures forall c :: SumOf(r, c) == CategorySum(cells, c)
  {
    if |cells| == 0 then []
    else
      assert cells == [cells[0]] + cells[1..];
      assert Categories(cells) == {cells[0].key.category} + Categories(cells[1..]);
      var r := [Entry(cells[0].key.category, cells[0].value)] + CategoryPairs(cells[1..]);
      assert KeysOf(r) == {r[0].key} + KeysOf(r[1..]);
      r
  }

  /** `groupby(category)[metric].sum()`: one total per category present, in name order. */
  function CategoryTotals(cells: seq<Entry<YearCat>>): (r: seq<Entry<string>>)
    ensures SortedKeys(r, StrLess)
    ensures KeysOf(r) == Categories(cells)
    ensures forall i :: 0 <= i < |r| ==> r[i].value == CategorySum(cells, r[i].key)
  {
    StrOrder();
    GroupSumValues(CategoryPairs(cells), StrLess);
    GroupSum(CategoryPairs(cells), StrLess)
  }

  function EntryValue<K>(e: Entry<K>): int {
    e.value
  }

  // ---------------------------------------------------------------- summary tab

  /** The `idxmax` of the per-category totals: None when there are no rows (pandas raises),
      otherwise a present category whose total no other category exceeds. */
  function TopLabel(stats: seq<Stat>, m: Metric): (r: Option<string>)
    ensures r.None? <==> |stats| == 0
    ensures r.Some? ==> r.value in Categories(Project(stats, m))
    ensures r.Some? ==> forall c :: c in Categories(Project(stats, m)) ==>
      CategorySum(Project(stats, m), c) <= CategorySum(Project(stats, m), r.value)
  {
    var cells := Project(stats, m);
    var totals := CategoryTotals(cells);
    assert |stats| > 0 ==> cells[0] in cells;
    IdxMaxOfTotals(totals, cells);
    IdxMax(totals)
  }

  /** The idxmax of rows that hold every category's total is a category with the largest total. */
  lemma IdxMaxOfTotals(totals: seq<Entry<string>>, cells: seq<Entry<YearCat>>)
    requires KeysOf(totals) == Categories(cells)
    requires forall i :: 0 <= i < |totals| ==> totals[i].value == CategorySum(cells, totals[i].key)
    ensures IdxMax(totals).None? <==> Categories(cells) == {}
    ensures IdxMax(totals).Some? ==> IdxMax(totals).value in Categories(cells)
    ensures IdxMax(totals).Some? ==> forall c :: c in Categories(cells) ==>
      CategorySum(cells, c) <= CategorySum(cells, IdxMax(totals).value)
  {
    if |totals| > 0 {
      assert totals[0] in totals;
      assert totals[0].key in Categories(cells);
      var i := ArgMaxIndex(totals);
      assert IdxMax(totals).value == totals[i].key;
      assert totals[i] in totals;
      forall c | c in Categories(cells) ensures CategorySum(cells, c) <= CategorySum(cells, totals[i].key) {
        var e :| e in totals && e.key == c;
        var j :| 0 <= j < |totals| && totals[j] == e;
      }
    } else {
      assert KeysOf(totals) == {};
    }
  }

  /** `groupby(category)[metric].sum().nlargest(n)`: min(n, number of categories) totals, largest first,
      each a category's total, and none below a category left out. */
  function TopTotals(cells: seq<Entry<YearCat>>, n: nat): (r: seq<Entry<string>>)
    ensures |r| == if n < |Categories(cells)| then n else |Categories(cells)|
    ensures Descending(r, EntryValue)
    ensures multiset(r) <= multiset(CategoryTotals(cells))
    ensures forall x :: x in r ==> x.key in Categories(cells) && x.value == CategorySum(cells, x.key)
    ensures forall x, c :: x in r && c in Categories(cells) - KeysOf(r) ==> x.value >= CategorySum(cells, c)
  {
    var totals := CategoryTotals(cells);
    StrOrder();
    SortedDistinct(totals, StrLess);
    SubDistinctCard(totals, totals);
    NLargestOfTotals(totals, cells, n);
    NLargest(totals, n, EntryValue)
  }

  /** The n largest of rows that hold every category's total dominate every category left out. */
  lemma NLargestOfTotals(totals: seq<Entry<string>>, cells: seq<Entry<YearCat>>, n: nat)
    requires KeysOf(totals) == Categories(cells)
    requires forall i :: 0 <= i < |totals| ==> totals[i].value == CategorySum(cells, totals[i].key)
    ensures forall x :: x in NLargest(totals, n, EntryValue) ==> x.key in Categories(cells) && x.value == CategorySum(cells, x.key)
    ensures forall x, c :: x in NLargest(totals, n, EntryValue) && c in Categories(cells) - KeysOf(NLargest(totals, n, EntryValue)) ==>
      x.value >= CategorySum(cells, c)
  {
    var r := NLargest(totals, n, EntryValue);
    forall x | x in r ensures x.key in Categories(cells) && x.value == CategorySum(cells, x.key) {
      assert x in multiset(totals);
      var i :| 0 <= i < |totals| && totals[i] == x;
    }
    forall x, c | x in r && c in Categories(cells) - KeysOf(r) ensures x.value >= CategorySum(cells, c) {
      var e :| e in totals && e.key == c;
      assert e in multiset(totals) - multiset(r);
      var j :| 0 <= j < |totals| && totals[j] == e;
    }
  }

  /** The four summary lists: the ten largest per-language or per-topic totals over the whole table. */
  function TopTen(stats: seq<Stat>, m: Metric): (r: seq<Entry<string>>)
    ensures |r| == if 10 < |Categories(Project(stats, m))| then 10 else |Categories(Project(stats, m))|
    ensures Descending(r, EntryValue)
    ensures multiset(r) <= multiset(CategoryTotals(Project(stats, m)))
    ensures forall x :: x in r ==> x.key in Categories(Project(stats, m)) && x.value == CategorySum(Project(stats, m), x.key)
    ensures forall x, c :: x in r && c in Categories(Project(stats, m)) - KeysOf(r) ==>
      x.value >= CategorySum(Project(stats, m), c)
  {
    TopTotals(Project(stats, m), 10)
  }

  // ---------------------------------------------------------------- top-10 topic restriction

  /** `groupby('topic')[metric].sum().nlargest(n).index`: at most n categories, all of them when there are
      no more than n, and each kept category's total is at least every dropped category's total. */
  function TopCategories(cells: seq<Entry<YearCat>>, n: nat): (r: set<string>)
    ensures r <= Categories(cells)
    ensures |r| == if n < |Categories(cells)| then n else |Categories(cells)|
    ensures forall a, b :: a in r && b in Categories(cells) - r ==> CategorySum(cells, a) >= CategorySum(cells, b)
  {
    var top := TopTotals(cells, n);
    var r := KeysOf(top);
    assert |r| == |top| by {
      TopTotalsDistinct(cells, n);
    }
    forall a, b | a in r && b in Categories(cells) - r ensures CategorySum(cells, a) >= CategorySum(cells, b) {
      var x :| x in top && x.key == a;
    }
    r
  }

  lemma TopTotalsDistinct(cells: seq<Entry<YearCat>>, n: nat)
    ensures |KeysOf(TopTotals(cells, n))| == |TopTotals(cells, n)|
  {
    var totals := CategoryTotals(cells);
    StrOrder();
    SortedDistinct(totals, StrLess);
    SubDistinctCard(TopTotals(cells, n), totals);
  }

  /** `df[df[category].isin(keep)]`. */
  function KeepCategories(cells: seq<Entry<YearCat>>, keep: set<string>): (r: seq<Entry<YearCat>>)
    ensures forall e :: multiset(r)[e] == if e.key.category in keep then multiset(cells)[e] else 0
    ensures keep <= Categories(cells) ==> Categories(r) == keep
  {
    var r := Where(cells, (e: Entry<YearCat>) => e.key.category in keep);
    KeptCategories(cells, keep, r);
    r
  }

  lemma KeptCategories(cells: seq<Entry<YearCat>>, keep: set<string>, r: seq<Entry<YearCat>>)
    requires forall e :: e in r <==> e in cells && e.key.category in keep
    ensures keep <= Categories(cells) ==> Categories(r) == keep
  {
    if keep <= Categories(cells) {
      forall c | c in keep ensures c in Categories(r) {
        var e :| e in cells && e.key.category == c;
        assert e in r;
      }
    }
  }

  /** The grouped rows of the n categories with the largest totals, and no others. */
  function KeepTopCategories(cells: seq<Entry<YearCat>>, n: nat): (r: seq<Entry<YearCat>>)
    ensures forall e :: multiset(r)[e] == if e.key.category in TopCategories(cells, n) then multiset(cells)[e] else 0
    ensures Categories(r) == TopCategories(cells, n)
  {
    KeepCategories(cells, TopCategories(cells, n))
  }

  // ---------------------------------------------------------------- trends tab

  /** `df_lang_filtered.groupby(['year', 'language'])[metric].sum()`. */
  function LanguageCells(stats: seq<Stat>, selected: set<string>, lo: int, hi: int, m: Metric): (r: seq<Entry<YearCat>>)
    ensures SortedKeys(r, YearCatLess)
    ensures KeysOf(r) == StatKeys(FilterLanguages(stats, selected, lo, hi))
    ensures Total(r) == StatTotal(FilterLanguages(stats, selected, lo, hi), m)
    ensures forall e :: e in r ==> e.key.category in selected && lo <= e.key.year <= hi
    ensures forall i :: 0 <= i < |r| ==> r[i].value == StatSum(FilterLanguages(stats, selected, lo, hi), r[i].key, m)
  {
    var f := FilterLanguages(stats, selected, lo, hi);
    var r := GroupByYearCategory(f, m);
    forall e | e in r ensures e.key.category in selected && lo <= e.key.year <= hi {
      assert e.key in StatKeys(f);
    }
    r
  }

  /** `df_topics_filtered.groupby(['year', 'topic'])[metric].sum()`. */
  function TopicCells(stats: seq<Stat>, lo: int, hi: int, m: Metric): (r: seq<Entry<YearCat>>)
    ensures SortedKeys(r, YearCatLess)
    ensures KeysOf(r) == StatKeys(FilterTopics(stats, lo, hi))
    ensures Total(r) == StatTotal(FilterTopics(stats, lo, hi), m)
    ensures forall e :: e in r ==> lo <= e.key.year <= hi
    ensures forall i :: 0 <= i < |r| ==> r[i].value == StatSum(FilterTopics(stats, lo, hi), r[i].key, m)
  {
    var f := FilterTopics(stats, lo, hi);
    var r := GroupByYearCategory(f, m);
    forall e | e in r ensures lo <= e.key.year <= hi {
      assert e.key in StatKeys(f);
    }
    r
  }

  /** The language rank chart: dense rank per year over the filtered, grouped rows. */
  function LanguageRanks(stats: seq<Stat>, selected: set<string>, lo: int, hi: int, m: Metric): (r: seq<Ranked>)
    ensures |r| == |LanguageCells(stats, selected, lo, hi, m)|
    ensures forall i :: 0 <= i < |r| ==> r[i].cell == LanguageCells(stats, selected, lo, hi, m)[i]
    ensures forall x :: x in r ==> x.cell.key.category in selected && lo <= x.cell.key.year <= hi && x.rank >= 1
    ensures RankFollowsValue(r)
    ensures DenseInYears(r, LanguageCells(stats, selected, lo, hi, m))
  {
    var cells := LanguageCells(stats, selected, lo, hi, m);
    var r := DenseRank(cells);
    DenseRankFacts(cells, r);
    RankedRows(cells, r);
    r
  }

  /** Each ranked row carries one of the grouped rows, and each grouped row is ranked. */
  lemma RankedRows(cells: seq<Entry<YearCat>>, r: seq<Ranked>)
    requires |r| == |cells| && forall i :: 0 <= i < |r| ==> r[i].cell == cells[i] && r[i].rank >= 1
    ensures forall x :: x in r ==> x.cell in cells && x.rank >= 1
    ensures forall e :: e in cells ==> exists x :: x in r && x.cell == e
  {
    forall x | x in r ensures x.cell in cells && x.rank >= 1 {
      var i :| 0 <= i < |r| && r[i] == x;
    }
    forall e | e in cells ensures exists x :: x in r && x.cell == e {
      var i :| 0 <= i < |cells| && cells[i] == e;
      assert r[i] in r;
    }
  }

  /** The topic rank chart: the ten largest topics only, ranked per year among themselves. */
  function TopicRanks(stats: seq<Stat>, lo: int, hi: int, m: Metric): (r: seq<Ranked>)
    ensures |r| == |KeepTopCategories(TopicCells(stats, lo, hi, m), 10)|
    ensures forall i :: 0 <= i < |r| ==> r[i].cell == KeepTopCategories(TopicCells(stats, lo, hi, m), 10)[i]
    ensures forall x :: x in r ==>
      x.cell in TopicCells(stats, lo, hi, m) && x.cell.key.category in TopCategories(TopicCells(stats, lo, hi, m), 10) && x.rank >= 1
    ensures forall e :: e in TopicCells(stats, lo, hi, m) && e.key.category in TopCategories(TopicCells(stats, lo, hi, m), 10) ==>
      exists x :: x in r && x.cell == e
    ensures RankFollowsValue(r)
    ensures DenseInYears(r, KeepTopCategories(TopicCells(stats, lo, hi, m), 10))
  {
    RankTop(TopicCells(stats, lo, hi, m), 10)
  }

  /** Dense rank of the rows of the n categories with the largest totals, among themselves. */
  function RankTop(cells: seq<Entry<YearCat>>, n: nat): (r: seq<Ranked>)
    ensures |r| == |KeepTopCategories(cells, n)|
    ensures forall i :: 0 <= i < |r| ==> r[i].cell == KeepTopCategories(cells, n)[i]
    ensures forall x :: x in r ==> x.cell in cells && x.cell.key.category in TopCategories(cells, n) && x.rank >= 1
    ensures forall e :: e in cells && e.key.category in TopCategories(cells, n) ==> exists x :: x in r && x.cell == e
    ensures RankFollowsValue(r)
    ensures DenseInYears(r, KeepTopCategories(cells, n))
  {
    var top := TopCategories(cells, n);
    assert KeepTopCategories(cells, n) == KeepCategories(cells, top);
    RankWithin(cells, top)
  }

  /** Dense rank of the rows of the categories in `keep` only. */
  function RankWithin(cells: seq<Entry<YearCat>>, keep: set<string>): (r: seq<Ranked>)
    ensures |r| == |KeepCategories(cells, keep)|
    ensures forall i :: 0 <= i < |r| ==> r[i].cell == KeepCategories(cells, keep)[i]
    ensures forall x :: x in r ==> x.cell in cells && x.cell.key.category in keep && x.rank >= 1
    ensures forall e :: e in cells && e.key.category in keep ==> exists x :: x in r && x.cell == e
    ensures RankFollowsValue(r)
    ensures DenseInYears(r, KeepCategories(cells, keep))
  {
    var kept := KeepCategories(cells, keep);
    var r := DenseRank(kept);
    DenseRankFacts(kept, r);
    RankedKept(cells, keep, kept, r);
    r
  }

  /** Ranking the rows a category filter kept ranks exactly the input rows of the kept categories. */
  lemma RankedKept(cells: seq<Entry<YearCat>>, keep: set<string>, kept: seq<Entry<YearCat>>, r: seq<Ranked>)
    requires forall e :: multiset(kept)[e] == if e.key.category in keep then multiset(cells)[e] else 0
    requires |r| == |kept| && forall i :: 0 <= i < |r| ==> r[i].cell == kept[i] && r[i].rank >= 1
    ensures forall x :: x in r ==> x.cell in cells && x.cell.key.category in keep && x.rank >= 1
    ensures forall e :: e in cells && e.key.category in keep ==> exists x :: x in r && x.cell == e
  {
    RankedRows(kept, r);
    forall x | x in r ensures x.cell in cells && x.cell.key.category in keep {
      assert multiset(kept)[x.cell] > 0;
    }
    forall e | e in cells && e.key.category in keep ensures exists x :: x in r && x.cell == e {
      assert multiset(kept)[e] > 0;
      assert e in kept;
    }
  }

  /** The latest year among the ranked rows. */
  function MaxYear(r: seq<Ranked>): (y: int)
    requires |r| > 0
    ensures exists i :: 0 <= i < |r| && r[i].cell.key.year == y
    ensures forall i :: 0 <= i < |r| ==> r[i].cell.key.year <= y
  {
    if |r| == 1 then r[0].cell.key.year
    else
      var y := MaxYear(r[1..]);
      if r[0].cell.key.year >= y then r[0].cell.key.year else y
  }

  function NegRank(x: Ranked): int {
    -(x.rank as int)
  }

  /** `final_ranks.sort_values()`: the rows of the latest year, in non-decreasing rank order. */
  function FinalRanks(r: seq<Ranked>): (f: seq<Ranked>)
    requires |r| > 0
    ensures forall x :: multiset(f)[x] == if x.cell.key.year == MaxYear(r) then multiset(r)[x] else 0
    ensures forall i, j :: 0 <= i < j < |f| ==> f[i].rank <= f[j].rank
  {
    var y := MaxYear(r);
    var f := SortDesc(Where(r, (x: Ranked) => x.cell.key.year == y), NegRank);
    assert forall i, j :: 0 <= i < j < |f| ==> NegRank(f[i]) >= NegRank(f[j]);
    f
  }

  /** The category column of ranked rows, in row order. */
  function CategoryColumn(f: seq<Ranked>): (o: seq<string>)
    ensures |o| == |f| && forall i :: 0 <= i < |f| ==> o[i] == f[i].cell.key.category
  {
    if |f| == 0 then [] else [f[0].cell.key.category] + CategoryColumn(f[1..])
  }

  /** The legend order: None when the table is empty, else the categories of the latest year by rank. */
  function LegendOrder(r: seq<Ranked>): (o: Option<seq<string>>)
    ensures o.None? <==> |r| == 0
    ensures o.Some? ==> forall c :: c in o.value <==> exists x :: x in r && x.cell.key.year == MaxYear(r) && x.cell.key.category == c
    ensures o.Some? ==> |o.value| == |FinalRanks(r)|
    ensures o.Some? ==> forall i :: 0 <= i < |o.value| ==> o.value[i] == FinalRanks(r)[i].cell.key.category
  {
    if |r| == 0 then None
    else
      var o := CategoryColumn(FinalRanks(r));
      LegendCategories(r, MaxYear(r), FinalRanks(r), o);
      Some(o)
  }

  lemma LegendCategories(r: seq<Ranked>, y: int, f: seq<Ranked>, o: seq<string>)
    requires forall x :: multiset(f)[x] == if x.cell.key.year == y then multiset(r)[x] else 0
    requires |o| == |f| && forall i :: 0 <= i < |f| ==> o[i] == f[i].cell.key.category
    ensures forall c :: c in o <==> exists x :: x in r && x.cell.key.year == y && x.cell.key.category == c
  {
    forall c | c in o ensures exists x :: x in r && x.cell.key.year == y && x.cell.key.category == c {
      var i :| 0 <= i < |o| && o[i] == c;
      assert f[i] in multiset(f);
      assert f[i] in r;
    }
    forall x | x in r && x.cell.key.year == y ensures x.cell.key.category in o {
      assert x in multiset(f);
      var i :| 0 <= i < |f| && f[i] == x;
      assert o[i] == x.cell.key.category;
    }
  }

  /** The language percentage chart: each row's share of its year's total over the selected languages. */
  function LanguageShares(stats: seq<Stat>, selected: set<string>, lo: int, hi: int, m: Metric): (r: seq<Share>)
    ensures |r| == |LanguageCells(stats, selected, lo, hi, m)|
    ensures forall i :: 0 <= i < |r| ==> r[i].cell == LanguageCells(stats, selected, lo, hi, m)[i]
    ensures forall i :: 0 <= i < |r| ==> r[i].total == YearSum(LanguageCells(stats, selected, lo, hi, m), r[i].cell.key.year)
    ensures forall i :: 0 <= i < |r| ==> r[i].percentage == Percent(r[i].cell.value, r[i].total)
    ensures forall i :: 0 <= i < |r| ==> (r[i].percentage.None? <==> r[i].total == 0)
    ensures forall i :: 0 <= i < |r| && r[i].percentage.Some? ==> 0.0 <= r[i].percentage.value <= 100.0
    ensures forall y :: YearSum(LanguageCells(stats, selected, lo, hi, m), y) > 0 ==> PercentSum(r, y) == 100.0
  {
    ShareColumn(LanguageCells(stats, selected, lo, hi, m))
  }

  /** The share table of grouped rows, with each percentage bounded and each year's percentages adding up to 100. */
  function ShareColumn(cells: seq<Entry<YearCat>>): (r: seq<Share>)
    ensures |r| == |cells|
    ensures forall i :: 0 <= i < |r| ==> r[i].cell == cells[i]
    ensures forall i :: 0 <= i < |r| ==> r[i].total == YearSum(cells, r[i].cell.key.year)
    ensures forall i :: 0 <= i < |r| ==> r[i].percentage == Percent(r[i].cell.value, r[i].total)
    ensures forall i :: 0 <= i < |r| ==> (r[i].percentage.None? <==> r[i].total == 0)
    ensures forall i :: 0 <= i < |r| && r[i].percentage.Some? ==> 0.0 <= r[i].percentage.value <= 100.0
    ensures forall y :: YearSum(cells, y) > 0 ==> PercentSum(r, y) == 100.0
  {
    var r := Shares(cells);
    forall y | YearSum(cells, y) > 0 ensures PercentSum(r, y) == 100.0 {
      SharesSumTo100(cells, y);
    }
    forall i | 0 <= i < |r| ensures (r[i].percentage.None? <==> r[i].total == 0)
      && (r[i].percentage.Some? ==> 0.0 <= r[i].percentage.value <= 100.0)
    {
      SharesBounded(cells, i);
    }
    r
  }

  /** The topic percentage chart: shares of the year's total over the ten kept topics only. */
  function TopicShares(stats: seq<Stat>, lo: int, hi: int, m: Metric): (r: seq<Share>)
    ensures |r| == |KeepTopCategories(TopicCells(stats, lo, hi, m), 10)|
    ensures forall i :: 0 <= i < |r| ==> r[i].cell == KeepTopCategories(TopicCells(stats, lo, hi, m), 10)[i]
    ensures forall i :: 0 <= i < |r| ==> r[i].cell.key.category in TopCategories(TopicCells(stats, lo, hi, m), 10)
    ensures forall i :: 0 <= i < |r| ==> r[i].total == YearSum(KeepTopCategories(TopicCells(stats, lo, hi, m), 10), r[i].cell.key.year)
    ensures forall i :: 0 <= i < |r| ==> r[i].percentage == Percent(r[i].cell.value, r[i].total)
    ensures forall i :: 0 <= i < |r| ==> (r[i].percentage.None? <==> r[i].total == 0)
    ensures forall i :: 0 <= i < |r| && r[i].percentage.Some? ==> 0.0 <= r[i].percentage.value <= 100.0
    ensures forall y :: YearSum(KeepTopCategories(TopicCells(stats, lo, hi, m), 10), y) > 0 ==> PercentSum(r, y) == 100.0
  {
    var kept := KeepTopCategories(TopicCells(stats, lo, hi, m), 10);
    var r := ShareColumn(kept);
    forall i | 0 <= i < |r| ensures r[i].cell.key.category in TopCategories(TopicCells(stats, lo, hi, m), 10) {
      assert kept[i] in multiset(kept);
    }
    r
  }

  /** The cumulative chart: per language, its running total across ascending years. */
  function LanguageCumulative(stats: seq<Stat>, selected: set<string>, lo: int, hi: int, m: Metric): (r: seq<nat>)
    ensures |r| == |LanguageCells(stats, selected, lo, hi, m)|
    ensures forall i :: 0 <= i < |r| ==>
      var e := LanguageCells(stats, selected, lo, hi, m)[i];
      r[i] == CategorySumUpTo(LanguageCells(stats, selected, lo, hi, m), e.key.category, e.key.year)
  {
    var cells := LanguageCells(stats, selected, lo, hi, m);
    forall i | 0 <= i < |cells| ensures CumSum(cells)[i] == CategorySumUpTo(cells, cells[i].key.category, cells[i].key.year) {
      CumSumIsUpToYear(cells, i);
    }
    CumSum(cells)
  }

  // ---------------------------------------------------------------- top repositories tab

  predicate StrictlyDecreasing(s: seq<int>) {
    forall i, j :: 0 <= i < j < |s| ==> s[i] > s[j]
  }

  function InsertYear(ys: seq<int>, y: int): (r: seq<int>)
    requires StrictlyDecreasing(ys)
    ensures StrictlyDecreasing(r)
    ensures forall z :: z in r <==> z in ys || z == y
  {
    if |ys| == 0 then [y]
    else if y == ys[0] then ys
    else if y > ys[0] then [y] + ys
    else
      var rest := InsertYear(ys[1..], y);
      assert forall z :: z in ys[1..] ==> z < ys[0];
      PrependLarger(ys[0], rest);
      [ys[0]] + rest
  }

  /** A year above every year of a decreasing list goes in front of it. */
  lemma PrependLarger(y: int, ys: seq<int>)
    requires StrictlyDecreasing(ys) && forall z :: z in ys ==> z < y
    ensures StrictlyDecreasing([y] + ys)
  {
    var r := [y] + ys;
    forall i, j | 0 <= i < j < |r| ensures r[i] > r[j] {
      assert r[j] == ys[j - 1];
      if i > 0 { assert r[i] == ys[i - 1]; } else { assert ys[j - 1] in ys; }
    }
  }

  /** `sorted(selected_year.unique(), reverse=True)`: each year present once, latest first. The dashboard
      applies it to the filtered repository table, `FilterRepos(..)`. */
  function YearOptions(repos: seq<Repo>): (r: seq<int>)
    ensures StrictlyDecreasing(r)
    ensures forall y :: y in r <==> exists p :: p in repos && p.selectedYear == y
  {
    if |repos| == 0 then []
    else
      assert repos == [repos[0]] + repos[1..];
      InsertYear(YearOptions(repos[1..]), repos[0].selectedYear)
  }

  /** The repositories of one selected year; `repos` is the filtered repository table, `FilterRepos(..)`. */
  function ReposOfYear(repos: seq<Repo>, year: int): (r: seq<Repo>)
    ensures forall p :: multiset(r)[p] == if p.selectedYear == year then multiset(repos)[p] else 0
    ensures forall p :: p in r <==> p in repos && p.selectedYear == year
  {
    Where(repos, (p: Repo) => p.selectedYear == year)
  }

  function RepoKey(m: Metric): Repo -> int {
    (p: Repo) => RepoValue(p, m)
  }

  /** `nlargest(20, metric)` among the repositories of the chosen year, taken from the filtered
      repository table `FilterRepos(..)` passed as `repos`. */
  function TopRepos(repos: seq<Repo>, year: int, m: Metric): (r: seq<Repo>)
    ensures |r| == if 20 < |ReposOfYear(repos, year)| then 20 else |ReposOfYear(repos, year)|
    ensures multiset(r) <= multiset(ReposOfYear(repos, year))
    ensures forall p :: p in r ==> p in repos && p.selectedYear == year
    ensures forall i, j :: 0 <= i < j < |r| ==> RepoValue(r[i], m) >= RepoValue(r[j], m)
    ensures forall p, q :: p in r && q in multiset(ReposOfYear(repos, year)) - multiset(r) ==> RepoValue(p, m) >= RepoValue(q, m)
  {
    TopReposFacts(repos, year, m);
    NLargest(ReposOfYear(repos, year), 20, RepoKey(m))
  }

  lemma TopReposFacts(repos: seq<Repo>, year: int, m: Metric)
    ensures var r := NLargest(ReposOfYear(repos, year), 20, RepoKey(m));
      && (forall p :: p in r ==> p in repos && p.selectedYear == year)
      && (forall i, j :: 0 <= i < j < |r| ==> RepoValue(r[i], m) >= RepoValue(r[j], m))
      && (forall p, q :: p in r && q in multiset(ReposOfYear(repos, year)) - multiset(r) ==> RepoValue(p, m) >= RepoValue(q, m))
  {
    var key := RepoKey(m);
    var pool := ReposOfYear(repos, year);
    var r := NLargest(pool, 20, key);
    forall p | p in r ensures p in repos && p.selectedYear == year {
      assert p in multiset(pool);
    }
    assert forall i, j :: 0 <= i < j < |r| ==> key(r[i]) >= key(r[j]);
  }
}
