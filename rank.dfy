/** `groupby('year')[metric].rank(method='dense', ascending=False)`. */
module DenseRanking {
  import opened Tables

  /** A grouped row with the rank column added. */
  datatype Ranked = Ranked(cell: Entry<YearCat>, rank: nat)

  /** The distinct metric values of one year. */
  function ValuesIn(cells: seq<Entry<YearCat>>, year: int): set<nat> {
    set e | e in cells && e.key.year == year :: e.value
  }

  /** The distinct values strictly above `v`. */
  function Above(values: set<nat>, v: nat): set<nat> {
    set x | x in values && x > v
  }

  /** Rank 1 for the largest value of the year, ties share a rank, no gaps. */
  function DenseRank(cells: seq<Entry<YearCat>>): (r: seq<Ranked>)
    ensures |r| == |cells|
    ensures forall i :: 0 <= i < |r| ==> r[i].cell == cells[i]
    ensures forall i :: 0 <= i < |r| ==> 1 <= r[i].rank <= |ValuesIn(cells, cells[i].key.year)|
  {
    RankBounds(cells);
    seq(|cells|, i requires 0 <= i < |cells| =>
      Ranked(cells[i], 1 + |Above(ValuesIn(cells, cells[i].key.year), cells[i].value)|))
  }

  lemma SubsetCard(a: set<nat>, b: set<nat>)
    requires a <= b
    ensures |a| <= |b|
  {
    assert b == a + (b - a);
  }

  lemma StrictSubsetCard(a: set<nat>, b: set<nat>, x: nat)
    requires a <= b && x in b && x !in a
    ensures |a| < |b|
  {
    assert b == a + (b - a);
    assert x in b - a;
  }

  lemma RankBounds(cells: seq<Entry<YearCat>>)
    ensures forall i :: 0 <= i < |cells| ==>
      |Above(ValuesIn(cells, cells[i].key.year), cells[i].value)| < |ValuesIn(cells, cells[i].key.year)|
  {
    forall i | 0 <= i < |cells|
      ensures |Above(ValuesIn(cells, cells[i].key.year), cells[i].value)| < |ValuesIn(cells, cells[i].key.year)|
    {
      var vs := ValuesIn(cells, cells[i].key.year);
      assert cells[i] in cells;
      StrictSubsetCard(Above(vs, cells[i].value), vs, cells[i].value);
    }
  }

  /** Within a year, a larger value has a strictly smaller rank, and equal values share a rank; both ways. */
  lemma DenseRankOrder(cells: seq<Entry<YearCat>>, i: nat, j: nat)
    requires i < |cells| && j < |cells| && cells[i].key.year == cells[j].key.year
    ensures DenseRank(cells)[i].rank < DenseRank(cells)[j].rank <==> cells[i].value > cells[j].value
    ensures DenseRank(cells)[i].rank == DenseRank(cells)[j].rank <==> cells[i].value == cells[j].value
  {
    var vs := ValuesIn(cells, cells[i].key.year);
    var vi, vj := cells[i].value, cells[j].value;
    assert cells[i] in cells && cells[j] in cells;
    if vi > vj {
      StrictSubsetCard(Above(vs, vi), Above(vs, vj), vi);
    } else if vi < vj {
      StrictSubsetCard(Above(vs, vj), Above(vs, vi), vj);
    }
  }

  /** The set {1, ..., m}. */
  function OneTo(m: nat): (r: set<nat>)
    ensures forall k :: k in r <==> 1 <= k <= m
  {
    if m == 0 then {} else OneTo(m - 1) + {m}
  }

  /** The ranks used in a year. */
  function RanksIn(r: seq<Ranked>, year: int): set<nat> {
    set x | x in r && x.cell.key.year == year :: x.rank
  }

  lemma {:induction false} MaxExists(s: set<nat>)
    requires s != {}
    ensures exists m :: m in s && forall y :: y in s ==> y <= m
  {
    var x :| x in s;
    if s != {x} {
      MaxExists(s - {x});
      var m :| m in s - {x} && forall y :: y in s - {x} ==> y <= m;
      var top := if x > m then x else m;
      forall y | y in s ensures y <= top {
        if y != x { assert y in s - {x}; }
      }
      assert top in s;
    }
  }

  /** For every k in 1..|s| some element of `s` has exactly k - 1 distinct elements above it. */
  lemma {:induction false} RankWitness(s: set<nat>, k: nat)
    requires 1 <= k <= |s|
    ensures exists x :: x in s && |Above(s, x)| == k - 1
  {
    MaxExists(s);
    var m :| m in s && forall y :: y in s ==> y <= m;
    if k == 1 {
      assert Above(s, m) == {};
    } else {
      var s' := s - {m};
      RankWitness(s', k - 1);
      var x :| x in s' && |Above(s', x)| == k - 2;
      assert x < m;
      assert Above(s, x) == Above(s', x) + {m};
    }
  }

  /** The ranks used in a year are exactly 1..m, m the number of distinct values of that year. */
  lemma DenseRankRange(cells: seq<Entry<YearCat>>, year: int)
    ensures RanksIn(DenseRank(cells), year) == OneTo(|ValuesIn(cells, year)|)
  {
    var r := DenseRank(cells);
    var vs := ValuesIn(cells, year);
    forall k | k in RanksIn(r, year) ensures k in OneTo(|vs|) {
      var x :| x in r && x.cell.key.year == year && x.rank == k;
      var i :| 0 <= i < |r| && r[i] == x;
    }
    forall k | 1 <= k <= |vs| ensures k in RanksIn(r, year) {
      RankWitness(vs, k);
      var v :| v in vs && |Above(vs, v)| == k - 1;
      var e :| e in cells && e.key.year == year && e.value == v;
      var i :| 0 <= i < |cells| && cells[i] == e;
      assert r[i] in r;
    }
  }

  /** Within each year a row has a strictly smaller rank than another exactly when its value is strictly larger. */
  ghost predicate RankFollowsValue(r: seq<Ranked>) {
    forall i, j :: 0 <= i < |r| && 0 <= j < |r| && r[i].cell.key.year == r[j].cell.key.year ==>
      (r[i].rank < r[j].rank <==> r[i].cell.value > r[j].cell.value)
  }

  /** In every year the ranks used are exactly 1..m, m the number of distinct values of `cells` in that year. */
  ghost predicate DenseInYears(r: seq<Ranked>, cells: seq<Entry<YearCat>>) {
    forall year :: RanksIn(r, year) == OneTo(|ValuesIn(cells, year)|)
  }

  /** Every pair of one year ordered by value, and every year's ranks dense, at once. */
  lemma DenseRankFacts(cells: seq<Entry<YearCat>>, r: seq<Ranked>)
    requires r == DenseRank(cells)
    ensures |r| == |cells| && forall i :: 0 <= i < |r| ==> r[i].cell == cells[i] && r[i].rank >= 1
    ensures RankFollowsValue(r)
    ensures DenseInYears(r, cells)
  {
    forall i, j | 0 <= i < |r| && 0 <= j < |r| && r[i].cell.key.year == r[j].cell.key.year
      ensures r[i].rank < r[j].rank <==> r[i].cell.value > r[j].cell.value
    {
      DenseRankOrder(cells, i, j);
    }
    forall year ensures RanksIn(r, year) == OneTo(|ValuesIn(cells, year)|) {
      DenseRankRange(cells, year);
    }
  }
}
