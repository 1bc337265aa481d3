/** `groupby(category)[metric].cumsum()` over rows grouped by (year, category). */
module Cumulative {
  import opened Tables
  import opened Ordering
  import opened Relational

  /** The metric summed over the rows of category `c`. */
  function CategorySum(s: seq<Entry<YearCat>>, c: string): nat {
    if |s| == 0 then 0 else (if s[0].key.category == c then s[0].value else 0) + CategorySum(s[1..], c)
  }

  /** The metric summed over the rows of category `c` whose year is at most `y`. */
  function CategorySumUpTo(s: seq<Entry<YearCat>>, c: string, y: int): nat {
    if |s| == 0 then 0
    else (if s[0].key.category == c && s[0].key.year <= y then s[0].value else 0) + CategorySumUpTo(s[1..], c, y)
  }

  function Get(acc: map<string, nat>, c: string): nat {
    if c in acc then acc[c] else 0
  }

  /** The running totals, one per row, carrying the total so far of every category in `acc`. */
  function Running(cells: seq<Entry<YearCat>>, acc: map<string, nat>): (r: seq<nat>)
    ensures |r| == |cells|
    ensures forall i :: 0 <= i < |cells| ==>
      r[i] == Get(acc, cells[i].key.category) + CategorySum(cells[..i + 1], cells[i].key.category)
  {
    if |cells| == 0 then []
    else
      var c := cells[0].key.category;
      var t := Get(acc, c) + cells[0].value;
      var rest := Running(cells[1..], acc[c := t]);
      var r := [t] + rest;
      assert forall i :: 0 < i < |cells| ==> cells[..i + 1][1..] == cells[1..][..i];
      r
  }

  /** The `cumulative` column: row i gets the total of its category over rows 0..i. */
  function CumSum(cells: seq<Entry<YearCat>>): (r: seq<nat>)
    ensures |r| == |cells|
    ensures forall i :: 0 <= i < |cells| ==> r[i] == CategorySum(cells[..i + 1], cells[i].key.category)
  {
    Running(cells, map[])
  }

  lemma {:induction false} SumUpToConcat(a: seq<Entry<YearCat>>, b: seq<Entry<YearCat>>, c: string, y: int)
    ensures CategorySumUpTo(a + b, c, y) == CategorySumUpTo(a, c, y) + CategorySumUpTo(b, c, y)
  {
    if |a| == 0 {
      assert a + b == b;
    } else {
      assert (a + b)[1..] == a[1..] + b;
      SumUpToConcat(a[1..], b, c, y);
    }
  }

  lemma {:induction false} SumConcat(a: seq<Entry<YearCat>>, b: seq<Entry<YearCat>>, c: string)
    ensures CategorySum(a + b, c) == CategorySum(a, c) + CategorySum(b, c)
  {
    if |a| == 0 {
      assert a + b == b;
    } else {
      assert (a + b)[1..] == a[1..] + b;
      SumConcat(a[1..], b, c);
    }
  }

  lemma {:induction false} SumUpToAll(s: seq<Entry<YearCat>>, c: string, y: int)
    requires forall e :: e in s ==> e.key.year <= y
    ensures CategorySumUpTo(s, c, y) == CategorySum(s, c)
  {
    if |s| > 0 { SumUpToAll(s[1..], c, y); }
  }

  lemma {:induction false} SumUpToNone(s: seq<Entry<YearCat>>, c: string, y: int)
    requires forall e :: e in s && e.key.category == c ==> e.key.year > y
    ensures CategorySumUpTo(s, c, y) == 0
  {
    if |s| > 0 { SumUpToNone(s[1..], c, y); }
  }

  lemma {:induction false} SumNone(s: seq<Entry<YearCat>>, c: string)
    requires forall e :: e in s ==> e.key.category != c
    ensures CategorySum(s, c) == 0
  {
    if |s| > 0 { SumNone(s[1..], c); }
  }

  /** On rows grouped and ordered by (year, category), the running total of a row is its
      category's total over all years up to the row's year; no other category enters it. */
  lemma CumSumIsUpToYear(cells: seq<Entry<YearCat>>, i: nat)
    requires SortedKeys(cells, YearCatLess) && i < |cells|
    ensures CumSum(cells)[i] == CategorySumUpTo(cells, cells[i].key.category, cells[i].key.year)
  {
    var c, y := cells[i].key.category, cells[i].key.year;
    var pre, post := cells[..i + 1], cells[i + 1..];
    assert cells == pre + post;
    SortedSplit(cells, i);
    SumUpToConcat(pre, post, c, y);
    SumUpToAll(pre, c, y);
    SumUpToNone(post, c, y);
  }

  /** In (year, category) order, no row up to row i is of a later year, and no later row of the
      same category is of the same or an earlier year. */
  lemma SortedSplit(cells: seq<Entry<YearCat>>, i: nat)
    requires SortedKeys(cells, YearCatLess) && i < |cells|
    ensures forall e :: e in cells[..i + 1] ==> e.key.year <= cells[i].key.year
    ensures forall e :: e in cells[i + 1..] && e.key.category == cells[i].key.category ==> e.key.year > cells[i].key.year
  {
    var c, y := cells[i].key.category, cells[i].key.year;
    forall e | e in cells[..i + 1] ensures e.key.year <= y {
      var pre := cells[..i + 1];
      var j :| 0 <= j < |pre| && pre[j] == e;
      if j < i { assert YearCatLess(cells[j].key, cells[i].key); }
    }
    forall e | e in cells[i + 1..] && e.key.category == c ensures e.key.year > y {
      var post := cells[i + 1..];
      var j :| 0 <= j < |post| && post[j] == e;
      assert YearCatLess(cells[i].key, cells[i + 1 + j].key);
      StrLessIrreflexive(c);
    }
  }

  /** A category's running total never decreases, and its later rows lie in later years. */
  lemma CumSumMonotone(cells: seq<Entry<YearCat>>, i: nat, j: nat)
    requires SortedKeys(cells, YearCatLess) && i < j < |cells|
    requires cells[i].key.category == cells[j].key.category
    ensures cells[i].key.year < cells[j].key.year
    ensures CumSum(cells)[i] <= CumSum(cells)[j]
  {
    assert YearCatLess(cells[i].key, cells[j].key);
    StrLessIrreflexive(cells[i].key.category);
    var c := cells[i].key.category;
    assert cells[..j + 1] == cells[..i + 1] + cells[i + 1..j + 1];
    SumConcat(cells[..i + 1], cells[i + 1..j + 1], c);
  }

  /** At a category's last row the running total is the category's total. */
  lemma CumSumLast(cells: seq<Entry<YearCat>>, i: nat)
    requires i < |cells|
    requires forall j :: i < j < |cells| ==> cells[j].key.category != cells[i].key.category
    ensures CumSum(cells)[i] == CategorySum(cells, cells[i].key.category)
  {
    var c := cells[i].key.category;
    assert cells == cells[..i + 1] + cells[i + 1..];
    SumConcat(cells[..i + 1], cells[i + 1..], c);
    SumNone(cells[i + 1..], c);
  }
}
