/**
 Python's `dict` with string keys, as far as the word counter uses it: keys
 remembered in insertion order, `dict(items)` built from a list of pairs.
 */
module Dicts {

  predicate Distinct(keys: seq<string>) {
    forall i, j :: 0 <= i < j < |keys| ==> keys[i] != keys[j]
  }

  /** No key occurs twice among the pairs. */
  predicate DistinctKeys<V>(items: seq<(string, V)>) {
    forall i, j :: 0 <= i < j < |items| ==> items[i].0 != items[j].0
  }

  /** A dict: its keys in iteration (insertion) order and the value of each. */
  datatype Dict<V> = Dict(keys: seq<string>, values: map<string, V>)
  {
    predicate Valid() {
      && Distinct(keys)
      && (forall k :: k in values ==> k in keys)
      && (forall k :: k in keys ==> k in values)
    }

    /** `d.items()`: the pairs in iteration order. */
    function Items(): (items: seq<(string, V)>)
      requires Valid()
      ensures |items| == |keys|
      ensures forall i :: 0 <= i < |items| ==> items[i].0 == keys[i] && items[i].1 == values[keys[i]]
    {
      seq(|keys|, i requires 0 <= i < |keys| => (keys[i], values[keys[i]]))
    }
  }

  /** `d[k] = v`: a new key goes to the end of the order, an existing key
      keeps its place and takes the new value. */
  function Store<V>(d: Dict<V>, k: string, v: V): (r: Dict<V>)
    requires d.Valid()
    ensures r.Valid()
    ensures r.values == d.values[k := v]
    ensures r.keys == if k in d.values then d.keys else d.keys + [k]
  {
    if k in d.values then Dict(d.keys, d.values[k := v])
    else Dict(d.keys + [k], d.values[k := v])
  }

  /** `dict(items)`: the pairs stored one after the other, from the left. */
  function FromItems<V>(items: seq<(string, V)>): (d: Dict<V>)
    ensures d.Valid()
  {
    if items == [] then Dict([], map[])
    else Store(FromItems(items[..|items| - 1]), items[|items| - 1].0, items[|items| - 1].1)
  }

  /** From pairs whose keys are distinct, `dict` keeps the pairs' order and
      gives each key its own value. */
  lemma {:induction false} FromDistinctItems<V>(items: seq<(string, V)>)
    requires DistinctKeys(items)
    ensures |FromItems(items).keys| == |items|
    ensures forall i :: 0 <= i < |items| ==>
      FromItems(items).keys[i] == items[i].0 && FromItems(items).values[items[i].0] == items[i].1
  {
    if items != [] {
      var n := |items| - 1;
      var init, k, v := items[..n], items[n].0, items[n].1;
      assert DistinctKeys(init);
      FromDistinctItems(init);
      var d0 := FromItems(init);
      assert k !in d0.values by {
        forall i | 0 <= i < n ensures d0.keys[i] != k {
          assert init[i] == items[i];
        }
      }
      var d := Store(d0, k, v);
      forall i | 0 <= i < |items|
        ensures d.keys[i] == items[i].0 && d.values[items[i].0] == items[i].1
      {
        if i < n {
          assert init[i] == items[i];
        }
      }
    }
  }

  /** The sum of the values, taken in key order. */
  function SumAt(keys: seq<string>, values: map<string, int>): int
    requires forall i :: 0 <= i < |keys| ==> keys[i] in values
  {
    if keys == [] then 0
    else SumAt(keys[..|keys| - 1], values) + values[keys[|keys| - 1]]
  }

  /** `sum(d.values())`. */
  function Total(d: Dict<int>): int
    requires d.Valid()
  {
    SumAt(d.keys, d.values)
  }

  /** The sum of the second components of a list of pairs. */
  function SumSeconds(items: seq<(string, int)>): int {
    if items == [] then 0 else SumSeconds(items[..|items| - 1]) + items[|items| - 1].1
  }

  /** `dict` of pairs with distinct keys loses no value: its values sum to
      the pairs' second components. */
  lemma {:induction false} TotalFromDistinctItems(items: seq<(string, int)>)
    requires DistinctKeys(items)
    ensures Total(FromItems(items)) == SumSeconds(items)
  {
    var d := FromItems(items);
    FromDistinctItems(items);
    SumAtItems(d.keys, items, d.values);
  }

  lemma {:induction false} SumAtItems(keys: seq<string>, items: seq<(string, int)>, values: map<string, int>)
    requires |keys| == |items|
    requires forall i :: 0 <= i < |items| ==> keys[i] == items[i].0 && items[i].0 in values && values[items[i].0] == items[i].1
    ensures SumAt(keys, values) == SumSeconds(items)
  {
    if items != [] {
      var n := |items| - 1;
      SumAtItems(keys[..n], items[..n], values);
    }
  }
}
