/** The race charts of the notebook copy of the dashboard: per year, the ten largest grouped rows,
    the years one after another in ascending order, each year's rows largest first. */
module RaceChart {
  import opened Tables
  import opened Ordering
  import opened Relational
  import opened TopK
  import opened Percentages
  import opened Dashboard

  /** Row filter of one year. */
  function InYear(y: int): Entry<YearCat> -> bool {
    (e: Entry<YearCat>) => e.key.year == y
  }

  /** The rows of year `y`, in their order: the group `groupby('year')` hands to `apply`. */
  function YearSlice(cells: seq<Entry<YearCat>>, y: int): (r: seq<Entry<YearCat>>)
    ensures forall e :: e in r <==> e in cells && e.key.year == y
    ensures forall e :: multiset(r)[e] == if e.key.year == y then multiset(cells)[e] else 0
  {
    Where(cells, InYear(y))
  }

  /** `nlargest(n)` applied to each group in turn, the results concatenated in group order. */
  function Frames(cells: seq<Entry<YearCat>>, groups: seq<Entry<int>>, n: nat): seq<Entry<YearCat>> {
    if |groups| == 0 then []
    else NLargest(YearSlice(cells, groups[0].key), n, EntryValue) + Frames(cells, groups[1..], n)
  }

  /** The frame of one group holds rows of that group's year only. */
  lemma TopInYear(cells: seq<Entry<YearCat>>, y: int, n: nat)
    ensures forall e :: e in NLargest(YearSlice(cells, y), n, EntryValue) ==> e.key.year == y
  {
    forall e | e in NLargest(YearSlice(cells, y), n, EntryValue) ensures e.key.year == y {
      assert e in multiset(YearSlice(cells, y));
    }
  }

  /** Every row of the frames has the year of one of the groups. */
  lemma {:induction false} FramesYears(cells: seq<Entry<YearCat>>, groups: seq<Entry<int>>, n: nat)
    ensures forall e :: e in Frames(cells, groups, n) ==> e.key.year in KeysOf(groups)
  {
    if |groups| > 0 {
      TopInYear(cells, groups[0].key, n);
      FramesYears(cells, groups[1..], n);
      forall e | e in Frames(cells, groups[1..], n) ensures e.key.year in KeysOf(groups) {
        var g :| g in groups[1..] && g.key == e.key.year;
      }
    }
  }

  /** `groupby('year').apply(lambda x: x.nlargest(n, metric)).reset_index(drop=True)`: the years in
      ascending order, as `groupby` sorts its keys. */
  function RaceFrames(cells: seq<Entry<YearCat>>, n: nat): (r: seq<Entry<YearCat>>)
    ensures forall e :: e in r ==> e.key.year in Years(cells)
  {
    FramesYears(cells, YearTotals(cells), n);
    Frames(cells, YearTotals(cells), n)
  }

  /** A group's own year slice is all of it; any other year's is empty. */
  lemma SliceOfFrame(top: seq<Entry<YearCat>>, g: int, y: int)
    requires forall e :: e in top ==> e.key.year == g
    ensures YearSlice(top, y) == if y == g then top else []
  {
    if y == g {
      WhereAll(top, InYear(y));
    } else {
      WhereNone(top, InYear(y));
    }
  }

  /** Sorted group keys: the first key is not among the rest, and the rest stay sorted. */
  lemma FirstKey(groups: seq<Entry<int>>)
    requires |groups| > 0 && SortedKeys(groups, IntLess)
    ensures SortedKeys(groups[1..], IntLess)
    ensures KeysOf(groups) == {groups[0].key} + KeysOf(groups[1..])
    ensures forall k :: k in KeysOf(groups[1..]) ==> groups[0].key < k
  {
    assert groups == [groups[0]] + groups[1..];
    forall k | k in KeysOf(groups[1..]) ensures groups[0].key < k {
      var h :| h in groups[1..] && h.key == k;
      var j :| 0 <= j < |groups[1..]| && groups[1..][j] == h;
      assert IntLess(groups[0].key, groups[j + 1].key);
    }
  }

  /** Each year's frame is the n largest rows of that year, and a year absent from the groups has none. */
  lemma {:induction false} FramesSlice(cells: seq<Entry<YearCat>>, groups: seq<Entry<int>>, n: nat, y: int)
    requires SortedKeys(groups, IntLess)
    ensures YearSlice(Frames(cells, groups, n), y)
      == if y in KeysOf(groups) then NLargest(YearSlice(cells, y), n, EntryValue) else []
  {
    if |groups| > 0 {
      var g := groups[0].key;
      var top := NLargest(YearSlice(cells, g), n, EntryValue);
      var rest := Frames(cells, groups[1..], n);
      FirstKey(groups);
      FramesSlice(cells, groups[1..], n, y);
      WhereConcat(top, rest, InYear(y));
      TopInYear(cells, g, n);
      SliceOfFrame(top, g, y);
    }
  }

  /** The race table restricted to one year is that year's n largest rows. */
  lemma RaceYear(cells: seq<Entry<YearCat>>, n: nat, y: int)
    ensures YearSlice(RaceFrames(cells, n), y) == NLargest(YearSlice(cells, y), n, EntryValue)
  {
    AllYearsSlice(cells, YearTotals(cells), n, y);
  }

  /** With one group per year present, each year's frame is that year's n largest rows. */
  lemma AllYearsSlice(cells: seq<Entry<YearCat>>, groups: seq<Entry<int>>, n: nat, y: int)
    requires SortedKeys(groups, IntLess) && KeysOf(groups) == Years(cells)
    ensures YearSlice(Frames(cells, groups, n), y) == NLargest(YearSlice(cells, y), n, EntryValue)
  {
    FramesSlice(cells, groups, n, y);
    if y !in Years(cells) {
      WhereNone(cells, InYear(y));
    }
  }

  /** What one year of the race shows: min(n, rows of that year) rows, largest first, none smaller
      than a row of that year left out. */
  lemma RaceYearTop(cells: seq<Entry<YearCat>>, n: nat, y: int)
    ensures |YearSlice(RaceFrames(cells, n), y)| == if n < |YearSlice(cells, y)| then n else |YearSlice(cells, y)|
    ensures Descending(YearSlice(RaceFrames(cells, n), y), EntryValue)
    ensures forall a, b ::
      (a in RaceFrames(cells, n) && a.key.year == y
       && b in multiset(YearSlice(cells, y)) - multiset(YearSlice(RaceFrames(cells, n), y)))
      ==> a.value >= b.value
  {
    RaceYear(cells, n, y);
    var shown := YearSlice(RaceFrames(cells, n), y);
    forall a, b | a in RaceFrames(cells, n) && a.key.year == y && b in multiset(YearSlice(cells, y)) - multiset(shown)
      ensures a.value >= b.value
    {
      assert a in shown;
      assert EntryValue(a) >= EntryValue(b);
    }
  }

  /** Every row of the race is a grouped row, shown at most as often as it occurs. */
  lemma RaceRows(cells: seq<Entry<YearCat>>, n: nat)
    ensures multiset(RaceFrames(cells, n)) <= multiset(cells)
  {
    var r := RaceFrames(cells, n);
    forall e ensures multiset(r)[e] <= multiset(cells)[e] {
      var y := e.key.year;
      RaceYear(cells, n, y);
      assert multiset(YearSlice(r, y))[e] == multiset(r)[e];
      assert multiset(YearSlice(cells, y))[e] == multiset(cells)[e];
    }
  }

  /** Every year with a row keeps at least one row in the race when n >= 1. */
  lemma RaceKeepsYears(cells: seq<Entry<YearCat>>, n: nat)
    requires n >= 1
    ensures forall y :: y in Years(cells) ==> exists e :: e in RaceFrames(cells, n) && e.key.year == y
  {
    forall y | y in Years(cells) ensures exists e :: e in RaceFrames(cells, n) && e.key.year == y {
      var c :| c in cells && c.key.year == y;
      assert c in YearSlice(cells, y);
      RaceYearTop(cells, n, y);
      var shown := YearSlice(RaceFrames(cells, n), y);
      assert shown[0] in shown;
    }
  }

  /** Ordered by year ascending and, within a year, by value descending. */
  ghost predicate YearThenValue(s: seq<Entry<YearCat>>) {
    forall i, j :: 0 <= i < j < |s| ==>
      s[i].key.year <= s[j].key.year && (s[i].key.year == s[j].key.year ==> s[i].value >= s[j].value)
  }

  /** One year's frame, largest first, followed by ordered rows of later years stays ordered. */
  lemma FrameThenLater(top: seq<Entry<YearCat>>, g: int, rest: seq<Entry<YearCat>>)
    requires forall e :: e in top ==> e.key.year == g
    requires Descending(top, EntryValue)
    requires forall e :: e in rest ==> g < e.key.year
    requires YearThenValue(rest)
    ensures YearThenValue(top + rest)
  {
    var r := top + rest;
    forall i, j | 0 <= i < j < |r|
      ensures r[i].key.year <= r[j].key.year && (r[i].key.year == r[j].key.year ==> r[i].value >= r[j].value)
    {
      if j < |top| {
        assert top[i] in top && top[j] in top;
        assert EntryValue(top[i]) >= EntryValue(top[j]);
      } else if i >= |top| {
        assert r[i] == rest[i - |top|] && r[j] == rest[j - |top|];
      } else {
        assert top[i] in top && rest[j - |top|] in rest;
      }
    }
  }

  /** Rows of the frames are ordered by year ascending and, within a year, by value descending. */
  lemma {:induction false} FramesOrdered(cells: seq<Entry<YearCat>>, groups: seq<Entry<int>>, n: nat)
    requires SortedKeys(groups, IntLess)
    ensures YearThenValue(Frames(cells, groups, n))
  {
    if |groups| > 0 {
      var g := groups[0].key;
      FirstKey(groups);
      FramesOrdered(cells, groups[1..], n);
      TopInYear(cells, g, n);
      FramesYears(cells, groups[1..], n);
      FrameThenLater(NLargest(YearSlice(cells, g), n, EntryValue), g, Frames(cells, groups[1..], n));
    }
  }

  /** The language race: the ten largest selected languages of every year in range. */
  function LanguageRace(stats: seq<Stat>, selected: set<string>, lo: int, hi: int, m: Metric): (r: seq<Entry<YearCat>>)
    ensures YearThenValue(r)
    ensures forall y :: YearSlice(r, y) == NLargest(YearSlice(LanguageCells(stats, selected, lo, hi, m), y), 10, EntryValue)
    ensures forall y :: |YearSlice(r, y)| <= 10
    ensures forall e :: e in r ==> e in LanguageCells(stats, selected, lo, hi, m)
  {
    var cells := LanguageCells(stats, selected, lo, hi, m);
    RaceFacts(cells, 10);
    RaceBounded(cells, 10);
    RaceFrames(cells, 10)
  }

  /** The topic race: the ten largest topics of every year in range. */
  function TopicRace(stats: seq<Stat>, lo: int, hi: int, m: Metric): (r: seq<Entry<YearCat>>)
    ensures YearThenValue(r)
    ensures forall y :: YearSlice(r, y) == NLargest(YearSlice(TopicCells(stats, lo, hi, m), y), 10, EntryValue)
    ensures forall y :: |YearSlice(r, y)| <= 10
    ensures forall e :: e in r ==> e in TopicCells(stats, lo, hi, m)
  {
    var cells := TopicCells(stats, lo, hi, m);
    RaceFacts(cells, 10);
    RaceBounded(cells, 10);
    RaceFrames(cells, 10)
  }

  /** The race table, in one statement: ordered, and each year its n largest rows. */
  lemma RaceFacts(cells: seq<Entry<YearCat>>, n: nat)
    ensures YearThenValue(RaceFrames(cells, n))
    ensures forall y :: YearSlice(RaceFrames(cells, n), y) == NLargest(YearSlice(cells, y), n, EntryValue)
  {
    FramesOrdered(cells, YearTotals(cells), n);
    forall y ensures YearSlice(RaceFrames(cells, n), y) == NLargest(YearSlice(cells, y), n, EntryValue) {
      RaceYear(cells, n, y);
    }
  }

  /** Every row of the race comes from the grouped table, at most n per year. */
  lemma RaceBounded(cells: seq<Entry<YearCat>>, n: nat)
    ensures forall e :: e in RaceFrames(cells, n) ==> e in cells
    ensures forall y :: |YearSlice(RaceFrames(cells, n), y)| <= n
  {
    RaceRows(cells, n);
    SubMultisetMembers(RaceFrames(cells, n), cells);
    forall y ensures |YearSlice(RaceFrames(cells, n), y)| <= n {
      RaceYear(cells, n, y);
    }
  }

  lemma SubMultisetMembers(r: seq<Entry<YearCat>>, cells: seq<Entry<YearCat>>)
    requires multiset(r) <= multiset(cells)
    ensures forall e :: e in r ==> e in cells
  {
    forall e | e in r ensures e in cells {
      assert e in multiset(r);
    }
  }
}
