/** Per-year totals merged back on `year`, and each row's percentage of its year's total. */
module Percentages {
  import opened Tables
  import opened Ordering
  import opened Relational

  /** A grouped row with the merged `total` column and the `percentage` column;
      None stands for the NaN of 0 / 0 in a year whose total is zero. */
  datatype Share = Share(cell: Entry<YearCat>, total: nat, percentage: Option<real>)

  /** The metric summed over the rows of year `y`. */
  function YearSum(cells: seq<Entry<YearCat>>, y: int): nat {
    if |cells| == 0 then 0 else (if cells[0].key.year == y then cells[0].value else 0) + YearSum(cells[1..], y)
  }

  /** The years present. */
  function Years(cells: seq<Entry<YearCat>>): set<int> {
    set e | e in cells :: e.key.year
  }

  /** The rows keyed by year alone. */
  function YearPairs(cells: seq<Entry<YearCat>>): (r: seq<Entry<int>>)
    ensures |r| == |cells|
    ensures forall y :: SumOf(r, y) == YearSum(cells, y)
    ensures KeysOf(r) == Years(cells)
  {
    if |cells| == 0 then []
    else
      assert cells == [cells[0]] + cells[1..];
      assert Years(cells) == {cells[0].key.year} + Years(cells[1..]);
      var r := [Entry(cells[0].key.year, cells[0].value)] + YearPairs(cells[1..]);
      assert KeysOf(r) == {cells[0].key.year} + KeysOf(YearPairs(cells[1..]));
      r
  }

  /** `groupby('year')[metric].sum()`: one total per year present, in year order. */
  function YearTotals(cells: seq<Entry<YearCat>>): (r: seq<Entry<int>>)
    ensures SortedKeys(r, IntLess)
    ensures KeysOf(r) == Years(cells)
    ensures forall i :: 0 <= i < |r| ==> r[i].value == YearSum(cells, r[i].key)
  {
    IntOrder();
    GroupSumValues(YearPairs(cells), IntLess);
    GroupSum(YearPairs(cells), IntLess)
  }

  /** `(metric / total) * 100`. */
  function Percent(v: nat, t: nat): Option<real> {
    if t == 0 then None else Some((v as real / t as real) * 100.0)
  }

  /** The `total` column contributed by `merge(year_totals, on='year')`. */
  function MergedTotal(totals: seq<Entry<int>>, y: int): nat {
    match Lookup(totals, y)
    case Some(t) => t
    case None => 0
  }

  /** Every row gets its year's total and its share of it. */
  function Shares(cells: seq<Entry<YearCat>>): (r: seq<Share>)
    ensures |r| == |cells|
    ensures forall i :: 0 <= i < |r| ==> r[i].cell == cells[i]
    ensures forall i :: 0 <= i < |r| ==> r[i].total == YearSum(cells, cells[i].key.year)
    ensures forall i :: 0 <= i < |r| ==> r[i].percentage == Percent(cells[i].value, r[i].total)
  {
    var totals := YearTotals(cells);
    MergeFindsYear(cells, totals);
    seq(|cells|, i requires 0 <= i < |cells| =>
      var t := MergedTotal(totals, cells[i].key.year);
      Share(cells[i], t, Percent(cells[i].value, t)))
  }

  lemma MergeFindsYear(cells: seq<Entry<YearCat>>, totals: seq<Entry<int>>)
    requires totals == YearTotals(cells)
    ensures forall i :: 0 <= i < |cells| ==> MergedTotal(totals, cells[i].key.year) == YearSum(cells, cells[i].key.year)
  {
    IntOrder();
    forall i | 0 <= i < |cells| ensures MergedTotal(totals, cells[i].key.year) == YearSum(cells, cells[i].key.year) {
      assert cells[i] in cells;
      LookupGroupSum(YearPairs(cells), IntLess, cells[i].key.year);
    }
  }

  lemma {:induction false} ValueBelowYearSum(cells: seq<Entry<YearCat>>, i: nat)
    requires i < |cells|
    ensures cells[i].value <= YearSum(cells, cells[i].key.year)
  {
    if i > 0 { ValueBelowYearSum(cells[1..], i - 1); }
  }

  lemma PercentBounded(v: nat, t: nat)
    requires v <= t
    ensures Percent(v, t).None? <==> t == 0
    ensures Percent(v, t).Some? ==> 0.0 <= Percent(v, t).value <= 100.0
  {
    if t > 0 {
      var q := v as real / t as real;
      assert q * t as real == v as real;
      assert q <= 1.0;
    }
  }

  /** A percentage is missing exactly when its year's total is zero (so the row's own value is zero),
      and otherwise lies in [0, 100]. */
  lemma SharesBounded(cells: seq<Entry<YearCat>>, i: nat)
    requires i < |cells|
    ensures Shares(cells)[i].percentage.None? <==> YearSum(cells, cells[i].key.year) == 0
    ensures Shares(cells)[i].percentage.None? ==> cells[i].value == 0
    ensures Shares(cells)[i].percentage.Some? ==> 0.0 <= Shares(cells)[i].percentage.value <= 100.0
  {
    var r := Shares(cells);
    ValueBelowYearSum(cells, i);
    PercentBounded(cells[i].value, r[i].total);
  }

  /** The percentages of year `y` added up (a missing one adds nothing). */
  function PercentSum(r: seq<Share>, y: int): real {
    if |r| == 0 then 0.0
    else
      (if r[0].cell.key.year == y && r[0].percentage.Some? then r[0].percentage.value else 0.0)
      + PercentSum(r[1..], y)
  }

  /** The values of year `y` added up. */
  function ValueSum(r: seq<Share>, y: int): nat {
    if |r| == 0 then 0 else (if r[0].cell.key.year == y then r[0].cell.value else 0) + ValueSum(r[1..], y)
  }

  lemma {:induction false} PercentSumScaled(r: seq<Share>, y: int, t: nat)
    requires t > 0
    requires forall i :: 0 <= i < |r| && r[i].cell.key.year == y ==> r[i].percentage == Percent(r[i].cell.value, t)
    ensures PercentSum(r, y) == (ValueSum(r, y) as real / t as real) * 100.0
  {
    if |r| > 0 {
      PercentSumScaled(r[1..], y, t);
      var v := if r[0].cell.key.year == y then r[0].cell.value else 0;
      ScaledAdd(v, ValueSum(r[1..], y), t);
    }
  }

  /** Percentages of one total add like the values they come from. */
  lemma ScaledAdd(a: nat, b: nat, t: nat)
    requires t > 0
    ensures (a as real / t as real) * 100.0 + (b as real / t as real) * 100.0 == ((a + b) as real / t as real) * 100.0
  {
  }

  lemma {:induction false} ValueSumAligned(r: seq<Share>, cells: seq<Entry<YearCat>>, y: int)
    requires |r| == |cells| && forall i :: 0 <= i < |r| ==> r[i].cell == cells[i]
    ensures ValueSum(r, y) == YearSum(cells, y)
  {
    if |r| > 0 { ValueSumAligned(r[1..], cells[1..], y); }
  }

  /** In a year with a positive total the percentages of that year add up to exactly 100. */
  lemma SharesSumTo100(cells: seq<Entry<YearCat>>, y: int)
    requires YearSum(cells, y) > 0
    ensures PercentSum(Shares(cells), y) == 100.0
  {
    ColumnSumTo100(Shares(cells), cells, y);
  }

  lemma ColumnSumTo100(r: seq<Share>, cells: seq<Entry<YearCat>>, y: int)
    requires YearSum(cells, y) > 0
    requires |r| == |cells|
    requires forall i :: 0 <= i < |r| ==> r[i].cell == cells[i]
    requires forall i :: 0 <= i < |r| ==> r[i].total == YearSum(cells, cells[i].key.year)
    requires forall i :: 0 <= i < |r| ==> r[i].percentage == Percent(cells[i].value, r[i].total)
    ensures PercentSum(r, y) == 100.0
  {
    var t := YearSum(cells, y);
    PercentSumScaled(r, y, t);
    ValueSumAligned(r, cells, y);
    WholeIsHundred(t);
  }

  lemma WholeIsHundred(t: nat)
    requires t > 0
    ensures (t as real / t as real) * 100.0 == 100.0
  {
  }
}
