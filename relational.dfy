/** Boolean-mask selection and `groupby(key).sum()` over keyed rows. */
module Relational {
  import opened Tables
  import opened Ordering

  /** `df[mask]`: the rows satisfying `p`, each as often as it occurs; `WhereConcat` shows that the
      mask commutes with concatenation, so the kept rows stay in their relative order. */
  function Where<T(==,!new)>(s: seq<T>, p: T -> bool): (r: seq<T>)
    ensures |r| <= |s|
    ensures forall x :: multiset(r)[x] == if p(x) then multiset(s)[x] else 0
    ensures forall x :: x in r <==> x in s && p(x)
  {
    if |s| == 0 then []
    else
      assert s == [s[0]] + s[1..];
      if p(s[0]) then [s[0]] + Where(s[1..], p) else Where(s[1..], p)
  }

  lemma {:induction false} WhereConcat<T(!new)>(a: seq<T>, b: seq<T>, p: T -> bool)
    ensures Where(a + b, p) == Where(a, p) + Where(b, p)
  {
    if |a| > 0 {
      var ab := a + b;
      assert ab[0] == a[0] && ab[1..] == a[1..] + b;
      WhereConcat(a[1..], b, p);
      if p(a[0]) {
        calc {
          Where(ab, p);
          [a[0]] + Where(a[1..] + b, p);
          [a[0]] + (Where(a[1..], p) + Where(b, p));
          ([a[0]] + Where(a[1..], p)) + Where(b, p);
        }
      }
    } else {
      assert a + b == b;
    }
  }

  lemma {:induction false} WhereAll<T(!new)>(s: seq<T>, p: T -> bool)
    requires forall x :: x in s ==> p(x)
    ensures Where(s, p) == s
  {
    if |s| > 0 { WhereAll(s[1..], p); }
  }

  lemma {:induction false} WhereNone<T(!new)>(s: seq<T>, p: T -> bool)
    requires forall x :: x in s ==> !p(x)
    ensures Where(s, p) == []
  {
    if |s| > 0 { WhereNone(s[1..], p); }
  }

  /** The metric summed over all rows: `df[metric].sum()`. */
  function Total<K>(s: seq<Entry<K>>): nat {
    if |s| == 0 then 0 else s[0].value + Total(s[1..])
  }

  /** The metric summed over the rows whose key is `k`. */
  function SumOf<K(==)>(s: seq<Entry<K>>, k: K): nat {
    if |s| == 0 then 0 else (if s[0].key == k then s[0].value else 0) + SumOf(s[1..], k)
  }

  function KeysOf<K>(s: seq<Entry<K>>): set<K> {
    set e | e in s :: e.key
  }

  /** Keys strictly increasing, hence pairwise distinct. */
  ghost predicate SortedKeys<K>(s: seq<Entry<K>>, less: (K, K) -> bool) {
    forall i, j :: 0 <= i < j < |s| ==> less(s[i].key, s[j].key)
  }

  lemma {:induction false} SumOfAbsent<K>(s: seq<Entry<K>>, k: K)
    requires k !in KeysOf(s)
    ensures SumOf(s, k) == 0
  {
    if |s| > 0 {
      assert s[0] in s;
      assert KeysOf(s[1..]) <= KeysOf(s) by {
        forall x | x in KeysOf(s[1..]) ensures x in KeysOf(s) {
          var e :| e in s[1..] && e.key == x;
          assert e in s;
        }
      }
      SumOfAbsent(s[1..], k);
    }
  }

  /** In a sequence with distinct keys, the sum under a row's key is that row's value. */
  lemma {:induction false} SumOfDistinct<K(!new)>(s: seq<Entry<K>>, less: (K, K) -> bool, i: nat)
    requires StrictTotalOrder(less) && SortedKeys(s, less) && i < |s|
    ensures SumOf(s, s[i].key) == s[i].value
  {
    if i == 0 {
      forall x | x in KeysOf(s[1..]) ensures x != s[0].key {
        var e :| e in s[1..] && e.key == x;
        var j :| 0 <= j < |s[1..]| && s[1..][j] == e;
        assert less(s[0].key, s[j + 1].key);
      }
      SumOfAbsent(s[1..], s[0].key);
    } else {
      assert less(s[0].key, s[i].key);
      SumOfDistinct(s[1..], less, i - 1);
    }
  }

  /** Adds one row into groups kept in key order: to its group if it exists, else as a new group in place. */
  function Insert<K(==,!new)>(groups: seq<Entry<K>>, e: Entry<K>, less: (K, K) -> bool): (r: seq<Entry<K>>)
    requires StrictTotalOrder(less) && SortedKeys(groups, less)
    ensures SortedKeys(r, less)
    ensures KeysOf(r) == KeysOf(groups) + {e.key}
    ensures forall k :: SumOf(r, k) == SumOf(groups, k) + (if k == e.key then e.value else 0)
    ensures Total(r) == Total(groups) + e.value
    ensures |r| <= |groups| + 1
  {
    if |groups| == 0 then [e]
    else
      var g, tail := groups[0], groups[1..];
      assert groups == [g] + tail;
      assert KeysOf(groups) == {g.key} + KeysOf(tail);
      assert SortedKeys(tail, less) by { SortedTail(groups, less); }
      if g.key == e.key then
        var r := [Entry(e.key, g.value + e.value)] + tail;
        assert KeysOf(r) == {e.key} + KeysOf(tail);
        SortedMerged(groups, e, less);
        r
      else if less(e.key, g.key) then
        var r := [e] + groups;
        assert KeysOf(r) == {e.key} + KeysOf(groups);
        SortedPrepend(groups, e, less);
        r
      else
        var rest := Insert(tail, e, less);
        var r := [g] + rest;
        assert KeysOf(r) == {g.key} + KeysOf(rest);
        SortedCons(groups, rest, e, less);
        r
  }

  /** Folding a row into the first group keeps the keys sorted. */
  lemma SortedMerged<K(!new)>(groups: seq<Entry<K>>, e: Entry<K>, less: (K, K) -> bool)
    requires |groups| > 0 && groups[0].key == e.key && SortedKeys(groups, less)
    ensures SortedKeys([Entry(e.key, groups[0].value + e.value)] + groups[1..], less)
  {
    var r := [Entry(e.key, groups[0].value + e.value)] + groups[1..];
    forall i, j | 0 <= i < j < |r| ensures less(r[i].key, r[j].key) {
      assert less(groups[i].key, groups[j].key);
    }
  }

  /** A row whose key is below the first group goes in front. */
  lemma SortedPrepend<K(!new)>(groups: seq<Entry<K>>, e: Entry<K>, less: (K, K) -> bool)
    requires StrictTotalOrder(less) && SortedKeys(groups, less)
    requires |groups| > 0 && less(e.key, groups[0].key)
    ensures SortedKeys([e] + groups, less)
  {
    var r := [e] + groups;
    forall j | 1 <= j < |r| ensures less(e.key, r[j].key) {
      if j > 1 { assert less(groups[0].key, groups[j - 1].key); }
    }
  }

  /** The first group stays in front of the rest with a row inserted above it. */
  lemma SortedCons<K(!new)>(groups: seq<Entry<K>>, rest: seq<Entry<K>>, e: Entry<K>, less: (K, K) -> bool)
    requires StrictTotalOrder(less) && SortedKeys(groups, less) && SortedKeys(rest, less)
    requires |groups| > 0 && less(groups[0].key, e.key)
    requires KeysOf(rest) == KeysOf(groups[1..]) + {e.key}
    ensures SortedKeys([groups[0]] + rest, less)
  {
    var r := [groups[0]] + rest;
    InsertBelow(groups, rest, e);
    forall j | 1 <= j < |r| ensures less(groups[0].key, r[j].key) {
      assert r[j] in rest;
    }
  }

  lemma SortedTail<K(!new)>(s: seq<Entry<K>>, less: (K, K) -> bool)
    requires |s| > 0 && SortedKeys(s, less)
    ensures SortedKeys(s[1..], less)
  {
    forall i, j | 0 <= i < j < |s| - 1 ensures less(s[1..][i].key, s[1..][j].key) {
      assert less(s[i + 1].key, s[j + 1].key);
    }
  }

  lemma InsertBelow<K(!new)>(groups: seq<Entry<K>>, rest: seq<Entry<K>>, e: Entry<K>)
    requires |groups| > 0 && KeysOf(rest) == KeysOf(groups[1..]) + {e.key}
    ensures forall x :: x in rest ==> x.key == e.key || exists j :: 1 <= j < |groups| && groups[j].key == x.key
  {
    forall x | x in rest ensures x.key == e.key || exists j :: 1 <= j < |groups| && groups[j].key == x.key {
      assert x.key in KeysOf(rest);
      if x.key != e.key {
        var y :| y in groups[1..] && y.key == x.key;
        var j :| 0 <= j < |groups[1..]| && groups[1..][j] == y;
        assert groups[j + 1].key == x.key;
      }
    }
  }

  /** `groupby(key)[metric].sum().reset_index()`: one row per distinct key, in key order. */
  function GroupSum<K(==,!new)>(rows: seq<Entry<K>>, less: (K, K) -> bool): (r: seq<Entry<K>>)
    requires StrictTotalOrder(less)
    ensures SortedKeys(r, less)
    ensures KeysOf(r) == KeysOf(rows)
    ensures forall k :: SumOf(r, k) == SumOf(rows, k)
    ensures Total(r) == Total(rows)
    ensures |r| <= |rows|
  {
    if |rows| == 0 then []
    else
      assert KeysOf(rows) == KeysOf(rows[1..]) + {rows[0].key} by {
        assert rows == [rows[0]] + rows[1..];
      }
      Insert(GroupSum(rows[1..], less), rows[0], less)
  }

  /** Each group produced by GroupSum holds the sum of the input rows under its key. */
  lemma GroupSumValues<K(!new)>(rows: seq<Entry<K>>, less: (K, K) -> bool)
    requires StrictTotalOrder(less)
    ensures forall i :: 0 <= i < |GroupSum(rows, less)| ==>
      GroupSum(rows, less)[i].value == SumOf(rows, GroupSum(rows, less)[i].key)
  {
    var r := GroupSum(rows, less);
    forall i | 0 <= i < |r| ensures r[i].value == SumOf(rows, r[i].key) {
      SumOfDistinct(r, less, i);
    }
  }

  /** The value of the first row under key `k`: the right-hand side of `merge(..., on=key)`. */
  function Lookup<K(==)>(groups: seq<Entry<K>>, k: K): (r: Option<nat>)
    ensures r.None? <==> k !in KeysOf(groups)
    ensures r.Some? ==> exists i :: 0 <= i < |groups| && groups[i].key == k && groups[i].value == r.value
  {
    if |groups| == 0 then None
    else if groups[0].key == k then Some(groups[0].value)
    else
      assert groups == [groups[0]] + groups[1..];
      assert KeysOf(groups) == KeysOf(groups[1..]) + {groups[0].key};
      var r := Lookup(groups[1..], k);
      assert r.Some? ==> exists i :: 1 <= i < |groups| && groups[i].key == k && groups[i].value == r.value by {
        if r.Some? {
          var i :| 0 <= i < |groups[1..]| && groups[1..][i].key == k && groups[1..][i].value == r.value;
          assert groups[i + 1] == groups[1..][i];
        }
      }
      r
  }

  /** Looking a key up in grouped rows yields the sum of the input rows under it. */
  lemma LookupGroupSum<K(!new)>(rows: seq<Entry<K>>, less: (K, K) -> bool, k: K)
    requires StrictTotalOrder(less) && k in KeysOf(rows)
    ensures Lookup(GroupSum(rows, less), k) == Some(SumOf(rows, k))
  {
    LookupSorted(GroupSum(rows, less), less, k);
  }

  /** In groups with sorted keys, looking a present key up yields the sum under it. */
  lemma LookupSorted<K(!new)>(g: seq<Entry<K>>, less: (K, K) -> bool, k: K)
    requires StrictTotalOrder(less) && SortedKeys(g, less) && k in KeysOf(g)
    ensures Lookup(g, k) == Some(SumOf(g, k))
  {
    var i :| 0 <= i < |g| && g[i].key == k && g[i].value == Lookup(g, k).value;
    SumOfDistinct(g, less, i);
  }

  /** No two rows share a key. */
  ghost predicate DistinctKeys<K>(s: seq<Entry<K>>) {
    forall i, j :: 0 <= i < |s| && 0 <= j < |s| && i != j ==> s[i].key != s[j].key
  }

  lemma SortedDistinct<K(!new)>(s: seq<Entry<K>>, less: (K, K) -> bool)
    requires StrictTotalOrder(less) && SortedKeys(s, less)
    ensures DistinctKeys(s)
  {
    forall i, j | 0 <= i < |s| && 0 <= j < |s| && i != j ensures s[i].key != s[j].key {
      if i < j { assert less(s[i].key, s[j].key); } else { assert less(s[j].key, s[i].key); }
    }
  }

  /** Removing the row at position k keeps the other rows' keys distinct, and no other row has its key. */
  lemma RemoveAt<K>(g: seq<Entry<K>>, k: nat)
    requires DistinctKeys(g) && k < |g|
    ensures DistinctKeys(g[..k] + g[k + 1..])
    ensures multiset(g) == multiset(g[..k] + g[k + 1..]) + multiset{g[k]}
    ensures g[k].key !in KeysOf(g[..k] + g[k + 1..])
  {
    var g' := g[..k] + g[k + 1..];
    assert forall i :: 0 <= i < |g'| ==> g'[i] == g[if i < k then i else i + 1];
    assert g == g[..k] + [g[k]] + g[k + 1..];
    forall e | e in g' ensures e.key != g[k].key {
      var j :| 0 <= j < |g'| && g'[j] == e;
      assert e == g[if j < k then j else j + 1];
    }
  }

  /** A sub-multiset of rows with distinct keys has as many keys as rows. */
  lemma {:induction false} SubDistinctCard<K>(r: seq<Entry<K>>, g: seq<Entry<K>>)
    requires DistinctKeys(g) && multiset(r) <= multiset(g)
    ensures |KeysOf(r)| == |r|
    decreases |r|
  {
    if |r| > 0 {
      var x := r[0];
      assert x in multiset(g);
      var k :| 0 <= k < |g| && g[k] == x;
      var g' := g[..k] + g[k + 1..];
      RemoveAt(g, k);
      DropMatched(r, g, g');
      SubDistinctCard(r[1..], g');
      KeyOfHead(r, g');
    }
  }

  /** Matching the first row against one copy in `g` leaves the rest within what remains of `g`. */
  lemma DropMatched<K>(r: seq<Entry<K>>, g: seq<Entry<K>>, g': seq<Entry<K>>)
    requires |r| > 0 && multiset(r) <= multiset(g) && multiset(g) == multiset(g') + multiset{r[0]}
    ensures multiset(r[1..]) <= multiset(g')
  {
    assert r == [r[0]] + r[1..];
    assert multiset(r) == multiset(r[1..]) + multiset{r[0]};
    forall z ensures multiset(r[1..])[z] <= multiset(g')[z] {
      assert multiset(r)[z] <= multiset(g)[z];
    }
  }

  /** A head whose key none of the rows it may be drawn from has adds one key. */
  lemma KeyOfHead<K>(r: seq<Entry<K>>, g': seq<Entry<K>>)
    requires |r| > 0 && multiset(r[1..]) <= multiset(g') && r[0].key !in KeysOf(g')
    ensures KeysOf(r) == {r[0].key} + KeysOf(r[1..]) && r[0].key !in KeysOf(r[1..])
  {
    assert r == [r[0]] + r[1..];
    forall e | e in r[1..] ensures e.key in KeysOf(g') {
      assert e in multiset(g');
    }
  }
}
