/**
 The word-counting pipeline: vocabulary filter, map, shuffle, reduce and
 their composition `map_reduce`. The worker pools of `map_reduce` only run
 order-preserving maps over independent items, so each pool stage is a plain
 sequential map here.
 */
module WordCount {
  import opened Text
  import opened Dicts

  datatype Option<T> = None | Some(value: T)

  /** A mapped pair `(key, value)`. */
  type Pair = (string, int)

  /** A shuffled group `(key, values)`. */
  type Group = (string, seq<int>)

  // ---------------------------------------------------------------------
  // Vocabulary filter

  /** The set of the lower-cased search words. */
  function Vocabulary(search: seq<string>): (vocab: set<string>)
    ensures forall w :: w in search ==> Lower(w) in vocab
    ensures forall k :: k in vocab ==> exists w :: w in search && Lower(w) == k
    ensures forall k :: k in vocab ==> IsLower(k)
  {
    set w | w in search :: Lower(w)
  }

  /** Python's truth test on the search list: only a non-empty list
      filters; `None` and the empty list leave the tokens unfiltered. */
  predicate Restricts(search: Option<seq<string>>): (b: bool)
    ensures search == None ==> !b
    ensures search == Some([]) ==> !b
    ensures search.Some? && |search.value| > 0 ==> b
  {
    search.Some? && search.value != []
  }

  /** The tokens whose lower-case form is in `vocab`, in their order. */
  function KeepListed(words: seq<string>, vocab: set<string>): (r: seq<string>)
    ensures |r| <= |words|
    ensures forall i :: 0 <= i < |r| ==> Lower(r[i]) in vocab
  {
    if words == [] then []
    else
      var n := |words| - 1;
      KeepListed(words[..n], vocab) + (if Lower(words[n]) in vocab then [words[n]] else [])
  }

  /** The filter keeps every occurrence of a word whose lower-case form is
      in the vocabulary and no occurrence of any other word. */
  lemma {:induction false} KeepListedExact(words: seq<string>, vocab: set<string>)
    ensures forall w ::
              multiset(KeepListed(words, vocab))[w] == if Lower(w) in vocab then multiset(words)[w] else 0
  {
    if words != [] {
      var n := |words| - 1;
      assert words == words[..n] + [words[n]];
      KeepListedExact(words[..n], vocab);
    }
  }

  /** The filter keeps the relative order of the tokens it keeps: it
      distributes over concatenation. */
  lemma {:induction false} KeepListedAppend(a: seq<string>, b: seq<string>, vocab: set<string>)
    ensures KeepListed(a + b, vocab) == KeepListed(a, vocab) + KeepListed(b, vocab)
    decreases |b|
  {
    if b == [] {
      assert a + b == a;
    } else {
      var n := |b| - 1;
      var last := if Lower(b[n]) in vocab then [b[n]] else [];
      assert (a + b)[..|a| + n] == a + b[..n];
      assert (a + b)[|a| + n] == b[n];
      KeepListedAppend(a, b[..n], vocab);
      calc {
        KeepListed(a + b, vocab);
        KeepListed(a + b[..n], vocab) + last;
        KeepListed(a, vocab) + KeepListed(b[..n], vocab) + last;
        KeepListed(a, vocab) + (KeepListed(b[..n], vocab) + last);
      }
    }
  }

  /** The tokens that reach the map stage. */
  function FilterWords(words: seq<string>, search: Option<seq<string>>): (r: seq<string>)
    ensures |r| <= |words|
    ensures !Restricts(search) ==> r == words
    ensures forall w ::
              multiset(r)[w] == if Restricts(search) && Lower(w) !in Vocabulary(search.value) then 0 else multiset(words)[w]
    ensures Restricts(search) ==> forall w :: w in r <==> w in words && Lower(w) in Vocabulary(search.value)
  {
    if Restricts(search) then
      KeepListedExact(words, Vocabulary(search.value));
      KeepListed(words, Vocabulary(search.value))
    else words
  }

  // ---------------------------------------------------------------------
  // Map

  /** `map_function`: the lower-cased word with the count 1. */
  function MapFunction(w: string): (p: Pair)
    ensures |p.0| == |w| && IsLower(p.0)
    ensures p.1 == 1
  {
    (Lower(w), 1)
  }

  /** The order-preserving pool map of `MapFunction` over the tokens. */
  function MapAll(words: seq<string>): (ps: seq<Pair>)
    ensures |ps| == |words|
    ensures forall i :: 0 <= i < |words| ==> ps[i].0 == Lower(words[i]) && ps[i].1 == 1
  {
    if words == [] then [] else [MapFunction(words[0])] + MapAll(words[1..])
  }

  // ---------------------------------------------------------------------
  // Shuffle

  predicate HasKey(ps: seq<Pair>, k: string) {
    exists i :: 0 <= i < |ps| && ps[i].0 == k
  }

  /** The distinct keys of `ps`, in the order in which they are first seen. */
  function FirstOccurrences(ps: seq<Pair>): (keys: seq<string>)
    ensures Distinct(keys)
    ensures forall k :: k in keys <==> HasKey(ps, k)
  {
    if ps == [] then []
    else
      var n := |ps| - 1;
      var keys := FirstOccurrences(ps[..n]);
      assert forall k :: HasKey(ps, k) <==> HasKey(ps[..n], k) || ps[n].0 == k by {
        forall k | HasKey(ps, k) ensures HasKey(ps[..n], k) || ps[n].0 == k {
          var i :| 0 <= i < |ps| && ps[i].0 == k;
          if i < n { assert ps[..n][i] == ps[i]; }
        }
        forall k | HasKey(ps[..n], k) ensures HasKey(ps, k) {
          var i :| 0 <= i < n && ps[..n][i].0 == k;
          assert ps[i] == ps[..n][i];
        }
      }
      if ps[n].0 in keys then keys else keys + [ps[n].0]
  }

  /** The values of the pairs with key `k`, in input order. */
  function ValuesFor(ps: seq<Pair>, k: string): (vs: seq<int>)
    ensures vs != [] <==> HasKey(ps, k)
  {
    if ps == [] then []
    else
      var n := |ps| - 1;
      assert HasKey(ps[..n], k) ==> HasKey(ps, k) by {
        if HasKey(ps[..n], k) {
          var i :| 0 <= i < n && ps[..n][i].0 == k;
          assert ps[i] == ps[..n][i];
        }
      }
      assert HasKey(ps, k) ==> HasKey(ps[..n], k) || ps[n].0 == k by {
        if HasKey(ps, k) {
          var i :| 0 <= i < |ps| && ps[i].0 == k;
          if i < n { assert ps[..n][i] == ps[i]; }
        }
      }
      ValuesFor(ps[..n], k) + (if ps[n].0 == k then [ps[n].1] else [])
  }

  /** Collecting the values of one key keeps their order: it distributes
      over concatenation. */
  lemma {:induction false} ValuesForAppend(a: seq<Pair>, b: seq<Pair>, k: string)
    ensures ValuesFor(a + b, k) == ValuesFor(a, k) + ValuesFor(b, k)
    decreases |b|
  {
    if b == [] {
      assert a + b == a;
    } else {
      var n := |b| - 1;
      var last := if b[n].0 == k then [b[n].1] else [];
      assert (a + b)[..|a| + n] == a + b[..n];
      assert (a + b)[|a| + n] == b[n];
      ValuesForAppend(a, b[..n], k);
      calc {
        ValuesFor(a + b, k);
        ValuesFor(a + b[..n], k) + last;
        ValuesFor(a, k) + ValuesFor(b[..n], k) + last;
        ValuesFor(a, k) + (ValuesFor(b[..n], k) + last);
      }
    }
  }

  lemma ValuesForLast(ps: seq<Pair>, p: Pair, k: string)
    ensures ValuesFor(ps + [p], k) == ValuesFor(ps, k) + (if p.0 == k then [p.1] else [])
  {
    assert (ps + [p])[..|ps|] == ps;
  }

  /** The position of the first pair with key `k`. */
  function FirstIndex(ps: seq<Pair>, k: string): (i: nat)
    requires HasKey(ps, k)
    ensures i < |ps| && ps[i].0 == k
    ensures forall j :: 0 <= j < i ==> ps[j].0 != k
  {
    if ps[0].0 == k then 0
    else
      assert HasKey(ps[1..], k) by {
        var i :| 0 <= i < |ps| && ps[i].0 == k;
        assert ps[1..][i - 1] == ps[i];
      }
      1 + FirstIndex(ps[1..], k)
  }

  /** An appended pair moves no first position and gives a new key the
      last position. */
  lemma FirstIndexAppend(ps: seq<Pair>, p: Pair, k: string)
    requires HasKey(ps + [p], k)
    ensures HasKey(ps, k) ==> FirstIndex(ps + [p], k) == FirstIndex(ps, k)
    ensures !HasKey(ps, k) ==> FirstIndex(ps + [p], k) == |ps|
  {
    var ps' := ps + [p];
    var i := FirstIndex(ps', k);
    if HasKey(ps, k) {
      var i0 := FirstIndex(ps, k);
      assert ps'[i0] == ps[i0];
      assert i <= i0;
      assert ps'[i] == ps[i];
    }
  }

  /** The keys come out in the order in which they are first seen. */
  lemma {:induction false} FirstOccurrencesOrder(ps: seq<Pair>)
    ensures forall i, j :: 0 <= i < j < |FirstOccurrences(ps)| ==>
              FirstIndex(ps, FirstOccurrences(ps)[i]) < FirstIndex(ps, FirstOccurrences(ps)[j])
  {
    if ps != [] {
      var n := |ps| - 1;
      var init, p := ps[..n], ps[n];
      assert ps == init + [p];
      var keys := FirstOccurrences(init);
      FirstOccurrencesOrder(init);
      var keys' := FirstOccurrences(ps);
      forall i, j | 0 <= i < j < |keys'|
        ensures FirstIndex(ps, keys'[i]) < FirstIndex(ps, keys'[j])
      {
        assert keys'[i] == keys[i];
        FirstIndexAppend(init, p, keys[i]);
        FirstIndexAppend(init, p, keys'[j]);
        if j < |keys| {
          assert keys'[j] == keys[j];
        }
      }
    }
  }

  /** The groups `(k, values of k)` for the keys `keys`. */
  function GroupsOf(keys: seq<string>, ps: seq<Pair>): (gs: seq<Group>)
    ensures |gs| == |keys|
    ensures forall i :: 0 <= i < |keys| ==> gs[i] == (keys[i], ValuesFor(ps, keys[i]))
  {
    seq(|keys|, i requires 0 <= i < |keys| => (keys[i], ValuesFor(ps, keys[i])))
  }

  /** What `shuffle_function` returns: the group of every key, keys in
      the order they are first seen. */
  function Shuffled(ps: seq<Pair>): (gs: seq<Group>)
    ensures DistinctKeys(gs)
    ensures forall i :: 0 <= i < |gs| ==> gs[i].1 == ValuesFor(ps, gs[i].0) && gs[i].1 != []
  {
    GroupsOf(FirstOccurrences(ps), ps)
  }

  /** The shuffle has one group per key of the input and no other; each
      group holds all values of its key in input order (so it is never
      empty); the groups come in the order their keys are first seen. */
  lemma ShuffledSpec(ps: seq<Pair>)
    ensures var gs := Shuffled(ps);
      && DistinctKeys(gs)
      && (forall k :: HasKey(ps, k) <==> exists i :: 0 <= i < |gs| && gs[i].0 == k)
      && (forall i :: 0 <= i < |gs| ==> gs[i].1 == ValuesFor(ps, gs[i].0) && gs[i].1 != [])
      && (forall i, j :: 0 <= i < j < |gs| ==> FirstIndex(ps, gs[i].0) < FirstIndex(ps, gs[j].0))
  {
    var keys := FirstOccurrences(ps);
    FirstOccurrencesOrder(ps);
    var gs := Shuffled(ps);
    forall k | HasKey(ps, k) ensures exists i :: 0 <= i < |gs| && gs[i].0 == k {
      var i :| 0 <= i < |keys| && keys[i] == k;
      assert gs[i].0 == k;
    }
  }

  /** `shuffle_function`: a `defaultdict(list)` filled in one pass, each
      value appended to the list of its key. */
  method Shuffle(mapped: seq<Pair>) returns (items: seq<Group>)
    ensures items == Shuffled(mapped)
  {
    var keys: seq<string> := [];
    var lists: map<string, seq<int>> := map[];
    for i := 0 to |mapped|
      invariant Grouped(mapped[..i], keys, lists)
    {
      var (key, value) := mapped[i];
      assert mapped[..i + 1] == mapped[..i] + [mapped[i]];
      GroupedStep(mapped[..i], keys, lists, mapped[i]);
      if key in lists {
        lists := lists[key := lists[key] + [value]];
      } else {
        keys := keys + [key];
        lists := lists[key := [value]];
      }
    }
    assert mapped[..|mapped|] == mapped;
    GroupedItems(mapped, keys, lists);
    items := seq(|keys|, j requires 0 <= j < |keys| => (keys[j], lists[keys[j]]));
  }

  /** `keys` (the dict's key order) and `lists` (its lists) are the state
      of the shuffle after the pairs `ps`. */
  ghost predicate Grouped(ps: seq<Pair>, keys: seq<string>, lists: map<string, seq<int>>) {
    && keys == FirstOccurrences(ps)
    && (forall k :: k in lists <==> k in keys)
    && (forall k :: k in lists ==> lists[k] == ValuesFor(ps, k))
  }

  /** One more pair appends its value to the list of its key, creating the
      list (and a new last key) when the key is new. */
  lemma GroupedStep(ps: seq<Pair>, keys: seq<string>, lists: map<string, seq<int>>, p: Pair)
    requires Grouped(ps, keys, lists)
    ensures p.0 in lists ==> Grouped(ps + [p], keys, lists[p.0 := lists[p.0] + [p.1]])
    ensures p.0 !in lists ==> Grouped(ps + [p], keys + [p.0], lists[p.0 := [p.1]])
  {
    assert (ps + [p])[..|ps|] == ps;
    forall k {
      ValuesForLast(ps, p, k);
    }
  }

  /** The groups read off the final state are the shuffle's result. */
  lemma GroupedItems(ps: seq<Pair>, keys: seq<string>, lists: map<string, seq<int>>)
    requires Grouped(ps, keys, lists)
    ensures seq(|keys|, j requires 0 <= j < |keys| => (keys[j], lists[keys[j]])) == Shuffled(ps)
  {
  }

  // ---------------------------------------------------------------------
  // Reduce

  /** Python's `sum` of a list of integers, added up from the left. */
  function Sum(vs: seq<int>): (r: int)
    ensures vs == [] ==> r == 0
    ensures |vs| == 1 ==> r == vs[0]
  {
    if vs == [] then 0 else Sum(vs[..|vs| - 1]) + vs[|vs| - 1]
  }

  lemma {:induction false} SumAppend(a: seq<int>, b: seq<int>)
    ensures Sum(a + b) == Sum(a) + Sum(b)
    decreases |b|
  {
    if b == [] {
      assert a + b == a;
    } else {
      var n := |b| - 1;
      assert (a + b)[..|a| + n] == a + b[..n];
      SumAppend(a, b[..n]);
    }
  }

  /** `reduce_function`: the key with the sum of its values. */
  function ReduceFunction(g: Group): (p: Pair)
    ensures p.0 == g.0
    ensures (forall i :: 0 <= i < |g.1| ==> g.1[i] == 1) ==> p.1 == |g.1|
  {
    SumOfOnes(g.1);
    (g.0, Sum(g.1))
  }

  /** A list of ones sums to its length. */
  lemma {:induction false} SumOfOnes(vs: seq<int>)
    ensures (forall i :: 0 <= i < |vs| ==> vs[i] == 1) ==> Sum(vs) == |vs|
  {
    if vs != [] {
      SumOfOnes(vs[..|vs| - 1]);
    }
  }

  /** The order-preserving pool map of `ReduceFunction` over the groups. */
  function ReduceAll(gs: seq<Group>): (rs: seq<Pair>)
    ensures |rs| == |gs|
    ensures forall i :: 0 <= i < |gs| ==> rs[i].0 == gs[i].0 && rs[i].1 == Sum(gs[i].1)
  {
    if gs == [] then [] else [ReduceFunction(gs[0])] + ReduceAll(gs[1..])
  }

  /** The sum of the group sums for the keys `keys`. */
  function GroupSums(keys: seq<string>, ps: seq<Pair>): int {
    if keys == [] then 0
    else GroupSums(keys[..|keys| - 1], ps) + Sum(ValuesFor(ps, keys[|keys| - 1]))
  }

  lemma {:induction false} ReduceAllTotal(keys: seq<string>, ps: seq<Pair>)
    ensures SumSeconds(ReduceAll(GroupsOf(keys, ps))) == GroupSums(keys, ps)
  {
    if keys != [] {
      var n := |keys| - 1;
      ReduceAllTotal(keys[..n], ps);
      assert ReduceAll(GroupsOf(keys, ps))[..n] == ReduceAll(GroupsOf(keys[..n], ps));
    }
  }

  /** One more pair adds its value to the group sum of its key, if that key
      is among `keys`. */
  lemma {:induction false} GroupSumsAppend(keys: seq<string>, ps: seq<Pair>, p: Pair)
    requires Distinct(keys)
    ensures GroupSums(keys, ps + [p]) == GroupSums(keys, ps) + (if p.0 in keys then p.1 else 0)
  {
    if keys != [] {
      var n := |keys| - 1;
      var k, init := keys[n], keys[..n];
      var vs := ValuesFor(ps, k);
      ValuesForLast(ps, p, k);
      GroupSumsAppend(init, ps, p);
      assert p.0 in keys <==> p.0 in init || p.0 == k by {
        assert keys == init + [k];
      }
      if p.0 == k {
        SumAppend(vs, [p.1]);
        assert p.0 !in init;
      } else {
        assert vs + [] == vs;
      }
    }
  }

  /** Shuffling and then reducing loses no value and counts none twice: the
      sums of the groups add up to the sum of all input values. */
  lemma {:induction false} ShuffleReduceConserves(ps: seq<Pair>)
    ensures SumSeconds(ReduceAll(Shuffled(ps))) == SumSeconds(ps)
  {
    ReduceAllTotal(FirstOccurrences(ps), ps);
    GroupSumsOfFirstOccurrences(ps);
  }

  lemma {:induction false} GroupSumsOfFirstOccurrences(ps: seq<Pair>)
    ensures GroupSums(FirstOccurrences(ps), ps) == SumSeconds(ps)
  {
    if ps != [] {
      var n := |ps| - 1;
      var init, p := ps[..n], ps[n];
      var keys := FirstOccurrences(init);
      assert ps == init + [p];
      assert SumSeconds(ps) == SumSeconds(init) + p.1;
      GroupSumsOfFirstOccurrences(init);
      GroupSumsAppend(keys, init, p);
      if p.0 !in keys {
        var keys' := keys + [p.0];
        assert FirstOccurrences(ps) == keys';
        assert keys'[..|keys|] == keys;
        assert ValuesFor(init, p.0) == [];
        ValuesForLast(init, p, p.0);
        assert Sum([p.1]) == p.1;
        calc {
          GroupSums(keys', ps);
          GroupSums(keys, ps) + Sum(ValuesFor(ps, p.0));
          GroupSums(keys, init) + Sum([p.1]);
        }
      }
    }
  }

  // ---------------------------------------------------------------------
  // map_reduce

  /** The tokens of `text` that pass the filter. */
  function Counted(text: string, search: Option<seq<string>>): (ws: seq<string>)
    ensures |ws| <= |Tokens(text)|
    ensures !Restricts(search) ==> ws == Tokens(text)
    ensures Restricts(search) ==> forall w :: w in ws <==> w in Tokens(text) && Lower(w) in Vocabulary(search.value)
    ensures forall i :: 0 <= i < |ws| ==> IsWord(ws[i]) && NoPunctuation(ws[i])
  {
    var ws := FilterWords(Tokens(text), search);
    assert forall i :: 0 <= i < |ws| ==> ws[i] in Tokens(text) by {
      forall i | 0 <= i < |ws| ensures ws[i] in Tokens(text) {
        assert ws[i] in ws;
      }
    }
    ws
  }

  /** Map, shuffle and reduce over the filtered tokens, then `dict(...)`. */
  function CountWords(words: seq<string>): (d: Dict<int>)
    ensures d.Valid()
  {
    FromItems(ReduceAll(Shuffled(MapAll(words))))
  }

  /** `map_reduce`: the counts of the tokens of `text` that pass the
      filter given by `search`. */
  function MapReduce(text: string, search: Option<seq<string>>): (d: Dict<int>)
    ensures d.Valid()
  {
    CountWords(Counted(text, search))
  }

  /** The number of words whose lower-case form is `k`. */
  function Occurrences(words: seq<string>, k: string): nat {
    if words == [] then 0
    else Occurrences(words[..|words| - 1], k) + (if Lower(words[|words| - 1]) == k then 1 else 0)
  }

  /** A key occurs exactly when some word lower-cases to it. */
  lemma {:induction false} OccurrencesPositive(words: seq<string>, k: string)
    ensures Occurrences(words, k) > 0 <==> exists i :: 0 <= i < |words| && Lower(words[i]) == k
  {
    if words != [] {
      var n := |words| - 1;
      OccurrencesPositive(words[..n], k);
      if Occurrences(words[..n], k) > 0 {
        var i :| 0 <= i < n && Lower(words[..n][i]) == k;
        assert words[i] == words[..n][i];
      }
      if exists i :: 0 <= i < |words| && Lower(words[i]) == k {
        var i :| 0 <= i < |words| && Lower(words[i]) == k;
        if i < n { assert words[..n][i] == words[i]; }
      }
    }
  }

  /** After the map stage the group of `k` is one 1 per word lower-casing
      to `k`. */
  lemma {:induction false} ValuesForMapAll(words: seq<string>, k: string)
    ensures |ValuesFor(MapAll(words), k)| == Occurrences(words, k)
    ensures Sum(ValuesFor(MapAll(words), k)) == Occurrences(words, k)
  {
    if words != [] {
      var n := |words| - 1;
      ValuesForMapAll(words[..n], k);
      MapAllLast(words);
      ValuesForLast(MapAll(words[..n]), MapFunction(words[n]), k);
      var vs := ValuesFor(MapAll(words[..n]), k);
      if Lower(words[n]) == k {
        SumAppend(vs, [1]);
      } else {
        assert vs + [] == vs;
      }
    }
  }

  /** Mapping a list is mapping all but its last word, then that word. */
  lemma MapAllLast(words: seq<string>)
    requires words != []
    ensures MapAll(words) == MapAll(words[..|words| - 1]) + [MapFunction(words[|words| - 1])]
  {
    var n := |words| - 1;
    assert forall i :: 0 <= i < n ==> words[..n][i] == words[i];
  }

  lemma {:induction false} SumSecondsOfMapAll(words: seq<string>)
    ensures SumSeconds(MapAll(words)) == |words|
  {
    if words != [] {
      var n := |words| - 1;
      SumSecondsOfMapAll(words[..n]);
      assert MapAll(words)[..n] == MapAll(words[..n]);
    }
  }

  /** The value of `k` in a dict of counts, 0 when `k` is not a key. */
  function CountOf(d: Dict<int>, k: string): int {
    if k in d.values then d.values[k] else 0
  }

  /** The dict holds the reduced groups in shuffle order. */
  lemma CountWordsEntries(words: seq<string>)
    ensures var ps, d := MapAll(words), CountWords(words);
      var keys := FirstOccurrences(ps);
      && |d.keys| == |keys|
      && forall i :: 0 <= i < |keys| ==> d.keys[i] == keys[i] && d.values[keys[i]] == Sum(ValuesFor(ps, keys[i]))
  {
    var ps := MapAll(words);
    var keys := FirstOccurrences(ps);
    var gs := Shuffled(ps);
    var rs := ReduceAll(gs);
    assert DistinctKeys(rs) by {
      assert forall i :: 0 <= i < |rs| ==> rs[i].0 == keys[i];
    }
    FromDistinctItems(rs);
  }

  lemma CountWordsAt(words: seq<string>, k: string)
    ensures CountOf(CountWords(words), k) == Occurrences(words, k)
    ensures k in CountWords(words).values <==> Occurrences(words, k) > 0
    ensures k in CountWords(words).values ==> IsLower(k)
  {
    var ps := MapAll(words);
    var keys := FirstOccurrences(ps);
    var d := CountWords(words);
    CountWordsEntries(words);
    ValuesForMapAll(words, k);
    assert k in d.values <==> k in keys by {
      assert k in d.values <==> k in d.keys;
      assert d.keys == keys;
    }
    if k in d.values {
      var i :| 0 <= i < |keys| && keys[i] == k;
      assert HasKey(ps, k);
      var b :| 0 <= b < |ps| && ps[b].0 == k;
      assert IsLower(ps[b].0);
    }
  }

  /** Each key of the result is a lower-case word that the filtered text
      contains, and its value is the number of filtered tokens that
      lower-case to it; a key is present exactly when that number is
      positive. */
  lemma MapReduceCounts(text: string, search: Option<seq<string>>)
    ensures forall k :: CountOf(MapReduce(text, search), k) == Occurrences(Counted(text, search), k)
    ensures forall k :: k in MapReduce(text, search).values <==> Occurrences(Counted(text, search), k) > 0
    ensures forall k :: k in MapReduce(text, search).values ==> IsLower(k)
  {
    forall k
      ensures CountOf(MapReduce(text, search), k) == Occurrences(Counted(text, search), k)
      ensures k in MapReduce(text, search).values <==> Occurrences(Counted(text, search), k) > 0
      ensures k in MapReduce(text, search).values ==> IsLower(k)
    {
      CountWordsAt(Counted(text, search), k);
    }
  }

  /** With a non-empty vocabulary, every key of the result is a lower-cased
      vocabulary word; tokens outside the vocabulary contribute nothing.
      Without one (`None` or an empty list), every token is counted. */
  lemma MapReduceFilter(text: string, search: Option<seq<string>>)
    ensures Restricts(search) ==> forall k :: k in MapReduce(text, search).values ==> k in Vocabulary(search.value)
    ensures forall k ::
              CountOf(MapReduce(text, search), k) ==
              if Restricts(search) && k !in Vocabulary(search.value) then 0 else Occurrences(Tokens(text), k)
  {
    MapReduceCounts(text, search);
    var words := Counted(text, search);
    if Restricts(search) {
      var vocab := Vocabulary(search.value);
      forall k ensures CountOf(MapReduce(text, search), k) ==
        if k !in vocab then 0 else Occurrences(Tokens(text), k)
      {
        OccurrencesKeepListed(Tokens(text), vocab, k);
      }
    }
  }

  lemma {:induction false} OccurrencesKeepListed(words: seq<string>, vocab: set<string>, k: string)
    ensures Occurrences(KeepListed(words, vocab), k) == if k in vocab then Occurrences(words, k) else 0
  {
    if words != [] {
      var n := |words| - 1;
      OccurrencesKeepListed(words[..n], vocab, k);
      var kept := KeepListed(words[..n], vocab);
      if Lower(words[n]) in vocab {
        var r := kept + [words[n]];
        assert r[..|kept|] == kept;
      } else {
        assert kept + [] == kept;
      }
    }
  }

  /** Count conservation: the counts of the result add up to the number of
      tokens that passed the filter. */
  lemma MapReduceConserves(text: string, search: Option<seq<string>>)
    ensures Total(MapReduce(text, search)) == |Counted(text, search)|
  {
    CountWordsConserves(Counted(text, search));
  }

  lemma CountWordsConserves(words: seq<string>)
    ensures Total(CountWords(words)) == |words|
  {
    var ps := MapAll(words);
    var gs := Shuffled(ps);
    var rs := ReduceAll(gs);
    assert DistinctKeys(rs) by {
      assert forall i :: 0 <= i < |rs| ==> rs[i].0 == gs[i].0;
    }
    TotalFromDistinctItems(rs);
    ShuffleReduceConserves(ps);
    SumSecondsOfMapAll(words);
  }

  /** The keys of the result come in the order in which their first token
      appears in the filtered text. */
  lemma MapReduceKeyOrder(text: string, search: Option<seq<string>>)
    ensures forall i, j, b ::
      var keys, words := MapReduce(text, search).keys, Counted(text, search);
      0 <= i < j < |keys| && 0 <= b < |words| && Lower(words[b]) == keys[j] ==>
        exists a :: 0 <= a < b && Lower(words[a]) == keys[i]
  {
    CountWordsKeyOrder(Counted(text, search));
  }

  lemma CountWordsKeyOrder(words: seq<string>)
    ensures forall i, j, b ::
      var keys := CountWords(words).keys;
      0 <= i < j < |keys| && 0 <= b < |words| && Lower(words[b]) == keys[j] ==>
        exists a :: 0 <= a < b && Lower(words[a]) == keys[i]
  {
    var ps := MapAll(words);
    var keys := FirstOccurrences(ps);
    CountWordsEntries(words);
    assert CountWords(words).keys == keys;
    forall i, j, b | 0 <= i < j < |keys| && 0 <= b < |words| && Lower(words[b]) == keys[j]
      ensures exists a :: 0 <= a < b && Lower(words[a]) == keys[i]
    {
      var a := EarlierKey(ps, i, j, b);
      assert Lower(words[a]) == ps[a].0;
    }
  }

  /** For first-seen keys `i < j` and a pair `b` with key `j`, a pair
      before `b` has key `i`. */
  lemma EarlierKey(ps: seq<Pair>, i: nat, j: nat, b: nat) returns (a: nat)
    requires i < j < |FirstOccurrences(ps)|
    requires b < |ps| && ps[b].0 == FirstOccurrences(ps)[j]
    ensures a < b && ps[a].0 == FirstOccurrences(ps)[i]
  {
    var keys := FirstOccurrences(ps);
    FirstOccurrencesOrder(ps);
    a := FirstIndex(ps, keys[i]);
    assert a < FirstIndex(ps, keys[j]) <= b;
  }

  /** Empty text, or text of only whitespace and punctuation, gives an
      empty dict. */
  lemma MapReduceBlank(text: string, search: Option<seq<string>>)
    requires forall i :: 0 <= i < |text| ==> IsSpace(text[i]) || IsPunctuation(text[i])
    ensures MapReduce(text, search) == Dict([], map[])
  {
    TokensOfBlank(text);
    assert Counted(text, search) == [];
  }
}
