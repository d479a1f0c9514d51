/**
 The selection of the most frequent words in `visualize_top_words`: the
 dict's items in a stable sort by descending count, then sliced by
 `top_n`.
 The bar chart drawn from the selection is not modelled.
 */
module TopWords {
  import opened Dicts

  /** An item of the result dict: a word and its count. */
  type Entry = (string, int)

  predicate Descending(s: seq<Entry>) {
    forall i, j :: 0 <= i < j < |s| ==> s[i].1 >= s[j].1
  }

  /** Places `e` in front of the first entry whose count is not larger
      than its own. */
  function InsertByCount(e: Entry, s: seq<Entry>): (r: seq<Entry>)
    ensures |r| == |s| + 1
  {
    if s == [] || s[0].1 <= e.1 then [e] + s
    else [s[0]] + InsertByCount(e, s[1..])
  }

  /** Inserting adds exactly the one entry. */
  lemma {:induction false} InsertByCountPerm(e: Entry, s: seq<Entry>)
    ensures multiset(InsertByCount(e, s)) == multiset(s) + multiset{e}
  {
    if s != [] && s[0].1 > e.1 {
      InsertByCountPerm(e, s[1..]);
      assert s == [s[0]] + s[1..];
    }
  }

  lemma {:induction false} InsertKeepsDescending(e: Entry, s: seq<Entry>)
    requires Descending(s)
    ensures Descending(InsertByCount(e, s))
  {
    if s != [] && s[0].1 > e.1 {
      var u := InsertByCount(e, s[1..]);
      InsertKeepsDescending(e, s[1..]);
      InsertByCountPerm(e, s[1..]);
      var r := [s[0]] + u;
      forall k | 0 <= k < |u| ensures s[0].1 >= u[k].1 {
        assert u[k] in multiset(u);
        if u[k] != e {
          assert u[k] in multiset(s[1..]);
          var b :| 0 <= b < |s[1..]| && s[1..][b] == u[k];
          assert s[b + 1] == u[k];
        }
      }
      forall i, j | 0 <= i < j < |r| ensures r[i].1 >= r[j].1 {
        if i > 0 {
          assert r[i] == u[i - 1] && r[j] == u[j - 1];
        } else {
          assert r[j] == u[j - 1];
        }
      }
    }
  }

  /** Python's `sorted` by count with `reverse=True`: an insertion sort by
      descending count. An entry is inserted in front of the entries of
      equal count that came after it, so equal counts keep their order
      (Python's sort is stable, also with `reverse=True`). */
  function SortByCount(s: seq<Entry>): (r: seq<Entry>)
    ensures multiset(r) == multiset(s)
    ensures Descending(r)
  {
    if s == [] then []
    else
      assert s == [s[0]] + s[1..];
      InsertKeepsDescending(s[0], SortByCount(s[1..]));
      InsertByCountPerm(s[0], SortByCount(s[1..]));
      InsertByCount(s[0], SortByCount(s[1..]))
  }

  /** A list already in descending order is left exactly as it is, ties
      included; hence sorting twice is sorting once. */
  lemma {:induction false} SortDescending(s: seq<Entry>)
    requires Descending(s)
    ensures SortByCount(s) == s
  {
    if s != [] {
      assert Descending(s[1..]) by {
        forall i, j | 0 <= i < j < |s[1..]| ensures s[1..][i].1 >= s[1..][j].1 {
          assert s[1..][i] == s[i + 1] && s[1..][j] == s[j + 1];
        }
      }
      SortDescending(s[1..]);
      assert s == [s[0]] + s[1..];
    }
  }

  lemma SortByCountIdempotent(s: seq<Entry>)
    ensures SortByCount(SortByCount(s)) == SortByCount(s)
  {
    SortDescending(SortByCount(s));
  }

  /** The entries of `s` with count `c`, in order. */
  function WithCount(s: seq<Entry>, c: int): seq<Entry> {
    if s == [] then []
    else (if s[0].1 == c then [s[0]] else []) + WithCount(s[1..], c)
  }

  lemma {:induction false} InsertWithCount(e: Entry, s: seq<Entry>, c: int)
    ensures WithCount(InsertByCount(e, s), c) ==
              (if e.1 == c then [e] + WithCount(s, c) else WithCount(s, c))
  {
    if s == [] || s[0].1 <= e.1 {
      var r := [e] + s;
      assert r[0] == e && r[1..] == s;
    } else {
      var u := InsertByCount(e, s[1..]);
      var r := [s[0]] + u;
      assert InsertByCount(e, s) == r;
      assert r[0] == s[0] && r[1..] == u;
      InsertWithCount(e, s[1..], c);
      var head := if s[0].1 == c then [s[0]] else [];
      calc {
        WithCount(r, c);
        head + WithCount(u, c);
        head + (if e.1 == c then [e] + WithCount(s[1..], c) else WithCount(s[1..], c));
      }
    }
  }

  /** The sort is stable: for every count, the entries with that count
      come out in the order they went in. */
  lemma {:induction false} SortByCountStable(s: seq<Entry>, c: int)
    ensures WithCount(SortByCount(s), c) == WithCount(s, c)
  {
    if s != [] {
      SortByCountStable(s[1..], c);
      InsertWithCount(s[0], SortByCount(s[1..]), c);
    }
  }

  /** Taking a prefix of a sequence takes a prefix of its entries of each
      count. */
  lemma {:induction false} WithCountPrefix(s: seq<Entry>, m: nat, c: int)
    requires m <= |s|
    ensures var w := WithCount(s[..m], c); |w| <= |WithCount(s, c)| && w == WithCount(s, c)[..|w|]
  {
    if m > 0 {
      assert s[..m][1..] == s[1..][..m - 1];
      WithCountPrefix(s[1..], m - 1, c);
    }
  }

  /** `s[:n]` with Python's slice bounds: a negative `n` counts from the
      end, a bound past the end stops at the end. */
  function Prefix(s: seq<Entry>, n: int): (r: seq<Entry>)
    ensures |r| == if n >= 0 then (if n <= |s| then n else |s|) else (if |s| + n >= 0 then |s| + n else 0)
    ensures r == s[..|r|]
  {
    if n >= 0 then (if n <= |s| then s[..n] else s)
    else (if |s| + n >= 0 then s[..|s| + n] else [])
  }

  /** The entries whose bars `visualize_top_words` draws for the counts `d`
      and the bound `n`. */
  function TopItems(d: Dict<int>, n: int): (r: seq<Entry>)
    requires d.Valid()
    ensures |r| <= |d.keys|
    ensures Descending(r)
  {
    var sorted := SortByCount(d.Items());
    assert |sorted| == |d.keys| by {
      assert |multiset(sorted)| == |multiset(d.Items())|;
    }
    Prefix(sorted, n)
  }

  /** Sorting entries with distinct keys keeps the keys distinct. */
  lemma {:induction false} SortKeepsDistinct(s: seq<Entry>)
    requires DistinctKeys(s)
    ensures DistinctKeys(SortByCount(s))
  {
    if s != [] {
      var t := SortByCount(s[1..]);
      SortKeepsDistinct(s[1..]);
      var r := SortByCount(s);
      assert forall x :: x in t ==> x in s[1..] by {
        assert forall x :: x in t ==> x in multiset(t);
      }
      forall i, j | 0 <= i < j < |r| ensures r[i].0 != r[j].0 {
        InsertDistinct(s[0], t, i, j);
      }
    }
  }

  lemma {:induction false} InsertDistinct(e: Entry, t: seq<Entry>, i: nat, j: nat)
    requires DistinctKeys(t)
    requires forall x :: x in t ==> x.0 != e.0
    requires i < j < |InsertByCount(e, t)|
    ensures InsertByCount(e, t)[i].0 != InsertByCount(e, t)[j].0
  {
    var r := InsertByCount(e, t);
    if t == [] || t[0].1 <= e.1 {
      assert r[1..] == t;
      if i > 0 {
        assert r[i] == t[i - 1] && r[j] == t[j - 1];
      } else {
        assert r[j] in t;
      }
    } else {
      var u := InsertByCount(e, t[1..]);
      assert r == [t[0]] + u;
      assert DistinctKeys(t[1..]) by {
        forall a, b | 0 <= a < b < |t[1..]| ensures t[1..][a].0 != t[1..][b].0 {
          assert t[1..][a] == t[a + 1] && t[1..][b] == t[b + 1];
        }
      }
      if i > 0 {
        InsertDistinct(e, t[1..], i - 1, j - 1);
      } else {
        InsertByCountPerm(e, t[1..]);
        assert r[j] in multiset(u);
        assert r[j] == e || r[j] in t[1..];
        if r[j] != e {
          var b :| 0 <= b < |t[1..]| && t[1..][b] == r[j];
          assert t[b + 1] == r[j];
        }
      }
    }
  }

  /** The sorted items are the dict's items: as many, each a key with
      its own count, no key twice, every key present. */
  lemma SortedItems(d: Dict<int>)
    requires d.Valid()
    ensures var sorted := SortByCount(d.Items());
      && |sorted| == |d.keys|
      && DistinctKeys(sorted)
      && (forall i :: 0 <= i < |sorted| ==> sorted[i].0 in d.values && d.values[sorted[i].0] == sorted[i].1)
      && (forall k :: k in d.values ==> (k, d.values[k]) in sorted)
  {
    var items := d.Items();
    var sorted := SortByCount(items);
    SortKeepsDistinct(items);
    SortedMembers(items);
    forall i | 0 <= i < |sorted| ensures sorted[i].0 in d.values && d.values[sorted[i].0] == sorted[i].1 {
      assert sorted[i] in sorted;
      var j :| 0 <= j < |items| && items[j] == sorted[i];
    }
    forall k | k in d.values ensures (k, d.values[k]) in sorted {
      var j :| 0 <= j < |d.keys| && d.keys[j] == k;
      assert items[j] in items;
    }
  }

  /** The sort keeps the length and the members of the list. */
  lemma SortedMembers(s: seq<Entry>)
    ensures |SortByCount(s)| == |s|
    ensures forall x :: x in SortByCount(s) <==> x in s
  {
    var r := SortByCount(s);
    assert |multiset(r)| == |multiset(s)|;
    forall x ensures x in r <==> x in s {
      assert x in r <==> x in multiset(r);
      assert x in s <==> x in multiset(s);
    }
  }

  /** The selection has `min(n, len(d))` entries for `n >= 0` (Python's
      slice rule otherwise), taken from `d` with their counts, no word
      twice, by non-increasing count. */
  lemma TopItemsShape(d: Dict<int>, n: int)
    requires d.Valid()
    ensures var r := TopItems(d, n);
      && |r| == (if n >= 0 then (if n <= |d.keys| then n else |d.keys|)
                 else (if |d.keys| + n >= 0 then |d.keys| + n else 0))
      && Descending(r)
      && DistinctKeys(r)
      && (forall i :: 0 <= i < |r| ==> r[i].0 in d.values && d.values[r[i].0] == r[i].1)
  {
    var sorted := SortByCount(d.Items());
    var r := TopItems(d, n);
    SortedItems(d);
    assert forall i :: 0 <= i < |r| ==> r[i] == sorted[i];
  }

  /** No word left out of the selection has a larger count than a
      selected one. */
  lemma TopItemsAreTop(d: Dict<int>, n: int, k: string)
    requires d.Valid()
    requires k in d.values
    requires forall l :: 0 <= l < |TopItems(d, n)| ==> TopItems(d, n)[l].0 != k
    ensures forall i :: 0 <= i < |TopItems(d, n)| ==> TopItems(d, n)[i].1 >= d.values[k]
  {
    var sorted := SortByCount(d.Items());
    var r := TopItems(d, n);
    SortedItems(d);
    var m :| 0 <= m < |sorted| && sorted[m] == (k, d.values[k]);
    assert forall i :: 0 <= i < |r| ==> r[i] == sorted[i];
  }

  /** Words of equal count are selected in the dict's order: for every
      count, the selected words with it are the first ones of the dict's
      words with it. */
  lemma TopItemsKeepTieOrder(d: Dict<int>, n: int, c: int)
    requires d.Valid()
    ensures var w := WithCount(TopItems(d, n), c);
      |w| <= |WithCount(d.Items(), c)| && w == WithCount(d.Items(), c)[..|w|]
  {
    var sorted := SortByCount(d.Items());
    WithCountPrefix(sorted, |TopItems(d, n)|, c);
    SortByCountStable(d.Items(), c);
  }

  /** An empty dict gives an empty selection. */
  lemma TopItemsOfEmpty(n: int)
    ensures TopItems(Dict([], map[]), n) == []
  {
    TopItemsShape(Dict([], map[]), n);
  }

  // ---------------------------------------------------------------------
  // The example {"a": 5, "b": 3, "c": 3, "d": 1} with top_n = 2

  function ExampleCounts(): (d: Dict<int>)
    ensures d.Valid()
  {
    Dict(["a", "b", "c", "d"], map["a" := 5, "b" := 3, "c" := 3, "d" := 1])
  }

  lemma ExampleItems()
    ensures ExampleCounts().Items() == [("a", 5), ("b", 3), ("c", 3), ("d", 1)]
  {
  }

  /** Already in descending order, the items come out of the sort as they
      went in: "b" stays ahead of "c", which has the same count. */
  lemma ExampleSorted()
    ensures SortByCount([("a", 5), ("b", 3), ("c", 3), ("d", 1)]) == [("a", 5), ("b", 3), ("c", 3), ("d", 1)]
  {
    SortDescending([("a", 5), ("b", 3), ("c", 3), ("d", 1)]);
  }

  lemma ExampleSortedItems()
    ensures SortByCount(ExampleCounts().Items()) == [("a", 5), ("b", 3), ("c", 3), ("d", 1)]
  {
    ExampleItems();
    ExampleSorted();
  }

  /** The two most frequent words are "a" and "b": of the tied "b" and
      "c", the first one in the dict is taken. */
  lemma ExampleTopTwo()
    ensures TopItems(ExampleCounts(), 2) == [("a", 5), ("b", 3)]
  {
    ExampleSortedItems();
    ExampleSlice();
  }

  lemma ExampleSlice()
    ensures Prefix([("a", 5), ("b", 3), ("c", 3), ("d", 1)], 2) == [("a", 5), ("b", 3)]
  {
  }
}
