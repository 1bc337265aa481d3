/** `nlargest` and `idxmax`. */
module TopK {
  import opened Tables

  ghost predicate Descending<T>(s: seq<T>, key: T -> int) {
    forall i, j :: 0 <= i < j < |s| ==> key(s[i]) >= key(s[j])
  }

  /** Places `x` after every element with a strictly larger key: earlier rows stay first among ties. */
  function InsertDesc<T(==)>(x: T, s: seq<T>, key: T -> int): (r: seq<T>)
    requires Descending(s, key)
    ensures Descending(r, key)
    ensures multiset(r) == multiset(s) + multiset{x}
  {
    if |s| == 0 || key(x) >= key(s[0]) then [x] + s
    else
      assert s == [s[0]] + s[1..];
      var rest := InsertDesc(x, s[1..], key);
      HeadStaysFirst(s, x, rest, key);
      [s[0]] + rest
  }

  /** The head of a descending sequence stays in front of its tail with a smaller `x` inserted. */
  lemma HeadStaysFirst<T>(s: seq<T>, x: T, rest: seq<T>, key: T -> int)
    requires Descending(s, key) && |s| > 0 && key(x) < key(s[0])
    requires Descending(rest, key) && multiset(rest) == multiset(s[1..]) + multiset{x}
    ensures Descending([s[0]] + rest, key)
  {
    forall y | y in rest ensures key(s[0]) >= key(y) {
      assert y in multiset(rest);
      if y != x {
        assert y in multiset(s[1..]);
        var j :| 0 <= j < |s[1..]| && s[1..][j] == y;
        assert s[j + 1] == y;
      }
    }
    var r := [s[0]] + rest;
    assert forall j :: 1 <= j < |r| ==> r[j] in rest;
  }

  /** A stable sort by `key`, largest first. */
  function SortDesc<T(==)>(s: seq<T>, key: T -> int): (r: seq<T>)
    ensures Descending(r, key)
    ensures multiset(r) == multiset(s)
  {
    if |s| == 0 then []
    else
      assert s == [s[0]] + s[1..];
      InsertDesc(s[0], SortDesc(s[1..], key), key)
  }

  /** `nlargest(n, key)`: the first `n` rows of the rows sorted by `key`, largest first. */
  function NLargest<T(==)>(s: seq<T>, n: nat, key: T -> int): (r: seq<T>)
    ensures |r| == if n < |s| then n else |s|
    ensures Descending(r, key)
    ensures multiset(r) <= multiset(s)
    ensures forall x, y :: x in r && y in multiset(s) - multiset(r) ==> key(x) >= key(y)
  {
    var sorted := SortDesc(s, key);
    var m := if n < |s| then n else |s|;
    assert |sorted| == |s| by { assert |multiset(sorted)| == |multiset(s)|; }
    TakeDominates(sorted, m, key);
    sorted[..m]
  }

  lemma TakeDominates<T>(s: seq<T>, m: nat, key: T -> int)
    requires Descending(s, key) && m <= |s|
    ensures multiset(s[..m]) <= multiset(s)
    ensures forall x, y :: x in s[..m] && y in multiset(s) - multiset(s[..m]) ==> key(x) >= key(y)
  {
    assert s == s[..m] + s[m..];
    assert multiset(s) == multiset(s[..m]) + multiset(s[m..]);
    forall x, y | x in s[..m] && y in multiset(s) - multiset(s[..m]) ensures key(x) >= key(y) {
      assert y in multiset(s[m..]);
      var i :| 0 <= i < m && s[i] == x;
      var j :| 0 <= j < |s[m..]| && s[m..][j] == y;
      assert s[m + j] == y;
    }
  }

  /** Position of the first largest value. */
  function ArgMaxIndex<K>(s: seq<Entry<K>>): (i: nat)
    requires |s| > 0
    ensures i < |s|
    ensures forall j :: 0 <= j < |s| ==> s[j].value <= s[i].value
    ensures forall j :: 0 <= j < i ==> s[j].value < s[i].value
  {
    if |s| == 1 then 0
    else
      var j := 1 + ArgMaxIndex(s[1..]);
      if s[0].value >= s[j].value then 0 else j
  }

  /** `idxmax()`: the key of the first largest value; pandas raises on an empty series, modelled as None. */
  function IdxMax<K>(s: seq<Entry<K>>): (r: Option<K>)
    ensures r.None? <==> |s| == 0
    ensures r.Some? ==>
              exists i :: 0 <= i < |s| && s[i].key == r.value
                          && (forall j :: 0 <= j < |s| ==> s[j].value <= s[i].value)
                          && (forall j :: 0 <= j < i ==> s[j].value < s[i].value)
  {
    if |s| == 0 then None else Some(s[ArgMaxIndex(s)].key)
  }
}
