# Word counter: MapReduce over a text

This project models the word-counting core of `task_02/main.py` in Dafny
and proves properties of it. The program works in these stages:

1. It deletes the punctuation of Python's `string.punctuation` from a text.
2. It splits the text on whitespace.
3. If a non-empty list of search words is given, it keeps only the tokens
   whose lower-case form is one of the lower-cased search words.
4. It maps every token to `(token.lower(), 1)`.
5. It groups the pairs by key in a `defaultdict(list)`.
6. It sums every group and builds a `dict` of the results.
7. For the chart, it picks the `top_n` entries with the highest counts.

Modules:

- `Text` (`text.dfy`): punctuation removal, `str.split()`, ASCII `str.lower()`.
- `Dicts` (`dicts.dfy`): a Python `dict` as a value. It keeps its keys in
  insertion order and supports `dict(items)`, `d.items()` and
  `sum(d.values())`.
- `WordCount` (`word_count.dfy`): the vocabulary filter, `map_function`,
  `shuffle_function`, `reduce_function` and `map_reduce`.
- `TopWords` (`top_words.dfy`): the stable sort by descending count and the
  `[:top_n]` slice of `visualize_top_words`.

`shuffle_function` fills a dictionary in a loop, so it is a method with a
loop (`WordCount.Shuffle`). That method is proved equal to the declarative
`WordCount.Shuffled`: one group per key, in the order the keys are first
seen, holding that key's values in input order. `map_reduce` is modelled as
a pure function (`WordCount.MapReduce`) and uses `Shuffled`.

The optional `search_words` argument is an `Option<seq<string>>`. Python's
`if search_words:` is false for both `None` and the empty list, so neither
filters anything (`WordCount.Restricts`).

## Model

| member | source | states |
|---|---|---|
| Text.PunctuationChars | task_02/main.py:19 | the model's punctuation test holds for exactly the 32 characters of `string.punctuation` |
| Text.SpaceChars | task_02/main.py:40 | the model's whitespace test holds for exactly the characters on which `str.split()` splits, and no punctuation character is whitespace |
| Text.RemovePunctuation | task_02/main.py:18-19 | the result holds no character of `string.punctuation` and is no longer than the text |
| Text.RemovePunctuationChars | task_02/main.py:18-19 | a character occurs in the result exactly when it occurs in the text and is not punctuation |
| Text.RemovePunctuationAppend | task_02/main.py:18-19 | punctuation is deleted character by character: removal distributes over concatenation, so kept characters stay in order |
| Text.RemovePunctuationKeeps | task_02/main.py:18-19 | a text without punctuation is returned unchanged |
| Text.RemovePunctuationIdempotent | task_02/main.py:18-19 | removing punctuation twice equals removing it once |
| Text.Split | task_02/main.py:40 | `split()` yields no more tokens than the text has characters; together with SplitBlank, SplitSkipsSpace and SplitWord this fully determines the tokens |
| Text.SplitWords | task_02/main.py:40 | every token of `split()` is non-empty and contains no whitespace |
| Text.SplitJoin | task_02/main.py:40 | `split()` undoes `" ".join` on any list of tokens |
| Text.SplitChars | task_02/main.py:40 | every character of every token comes from the split text |
| Text.SplitBlank | task_02/main.py:40 | text of only whitespace has no tokens |
| Text.SplitSkipsSpace | task_02/main.py:40 | whitespace before the first token is skipped: a leading whitespace character does not change the tokens |
| Text.SplitWord | task_02/main.py:40 | a word followed by whitespace or by the end of the text is split off whole |
| Text.Lower | task_02/main.py:23 | `lower()` keeps the length, lower-cases each ASCII capital and leaves every other character as it is |
| Text.LowerFixed | task_02/main.py:23 | a string equals its lower-case form exactly when it has no capital letter; lower-casing is idempotent |
| Text.Tokens | task_02/main.py:39-40 | every token of the normalised text is a whitespace-free word without punctuation |
| Text.TokensIdempotent | task_02/main.py:39-40 | normalising the space-joined tokens again yields the same tokens |
| Text.TokensOfBlank | task_02/main.py:39-40 | a text of only whitespace and punctuation, the empty text among them, has no tokens |
| Dicts.Dict.Items | task_02/main.py:58 | `items()` lists each key with its own value, in insertion order |
| Dicts.Store | task_02/main.py:54 | `d[k] = v` keeps the dict well formed; a new key goes last, an existing key keeps its place |
| Dicts.FromItems | task_02/main.py:54 | `dict(pairs)` is a well-formed dict: distinct keys, each with a value |
| Dicts.FromDistinctItems | task_02/main.py:54 | for pairs with distinct keys, `dict` keeps the pairs' order and gives each key its own value |
| Dicts.TotalFromDistinctItems | task_02/main.py:54 | for pairs with distinct keys, the dict's values add up to the sum of the pairs' values |
| WordCount.Restricts | task_02/main.py:42 | `if search_words:` is false for `None` and for the empty list and true for a non-empty list |
| WordCount.Vocabulary | task_02/main.py:43 | the set is exactly the lower-cased forms of the search words: each search word's lower-case form is in it, and each member is the lower-case form of some search word (hence lower-case) |
| WordCount.KeepListed | task_02/main.py:44 | the filter yields no more tokens than it gets, and every kept token's lower-case form is in the vocabulary |
| WordCount.KeepListedExact | task_02/main.py:43-44 | the filter keeps every occurrence of a word whose lower-case form is in the vocabulary and drops every other occurrence |
| WordCount.KeepListedAppend | task_02/main.py:44 | the filter keeps the relative order of the tokens it keeps |
| WordCount.FilterWords | task_02/main.py:42-44 | without a non-empty search list the tokens pass unchanged; with one, each word occurs as often as before if its lower-case form is listed and not at all otherwise |
| WordCount.MapFunction | task_02/main.py:22-23 | the key has the word's length and is lower-case; the value is 1 |
| WordCount.MapAll | task_02/main.py:22-23 | the map stage yields one pair per token, in order: the lower-cased token and 1 |
| WordCount.FirstOccurrences | task_02/main.py:26-30 | the shuffle keys are distinct, and a string is one of them exactly when some pair has it as key |
| WordCount.ValuesFor | task_02/main.py:26-30 | a key's list of values is non-empty exactly when some pair has that key |
| WordCount.ValuesForAppend | task_02/main.py:28-29 | appending to a key's list keeps the values in input order |
| WordCount.FirstOccurrencesOrder | task_02/main.py:26-30 | keys come out of the shuffle in the order they are first seen |
| WordCount.Shuffled | task_02/main.py:26-30 | the groups have distinct keys; each group is non-empty and holds the values of its key |
| WordCount.ShuffledSpec | task_02/main.py:26-30 | one group per key that occurs and no other; each group holds all values of its key in input order and is non-empty; groups are ordered by first occurrence |
| WordCount.Shuffle | task_02/main.py:26-30 | the `defaultdict(list)` loop returns exactly the groups of `Shuffled` |
| WordCount.GroupedStep | task_02/main.py:28-29 | one loop step keeps the dictionary equal to the grouping of the pairs seen so far: a new key is added last with a one-element list, a known key's list is extended |
| WordCount.Sum | task_02/main.py:35 | `sum` of the empty list is 0 and of a one-element list is that element; with SumAppend (sum distributes over concatenation) this determines `sum` |
| WordCount.SumAppend | task_02/main.py:35 | the sum of two concatenated lists is the sum of their sums |
| WordCount.ReduceFunction | task_02/main.py:33-35 | the key is kept; for a group of ones the value is the group's size |
| WordCount.SumOfOnes | task_02/main.py:35 | `sum` of a list of ones is its length |
| WordCount.ReduceAll | task_02/main.py:33-35 | the reduce stage yields one pair per group, in order: the group's key and the sum of its values |
| WordCount.ShuffleReduceConserves | task_02/main.py:26-35 | shuffling and reducing loses no value and counts none twice: the group sums add up to the sum of all mapped values |
| WordCount.ValuesForMapAll | task_02/main.py:22-30 | after mapping, a key's group has one 1 for each token that lower-cases to that key |
| WordCount.OccurrencesKeepListed | task_02/main.py:43-44 | after filtering, a key's occurrences are unchanged if the key is in the vocabulary and zero otherwise |
| WordCount.Counted | task_02/main.py:39-44 | the tokens that reach the map stage: no more than the text's tokens; all of them without a non-empty search list; otherwise exactly the tokens whose lower-case form is a lower-cased search word; each a whitespace-free word without punctuation |
| WordCount.CountWords | task_02/main.py:46-54 | the map, shuffle and reduce stages produce a well-formed dict |
| WordCount.MapReduce | task_02/main.py:38-54 | `map_reduce` returns a well-formed dict |
| WordCount.CountWordsEntries | task_02/main.py:46-54 | the result dict holds the reduced groups in shuffle order |
| WordCount.CountWordsAt | task_02/main.py:46-54 | the count of a key is the number of tokens that lower-case to it; a key is present exactly when that count is positive; keys are lower-case |
| WordCount.MapReduceCounts | task_02/main.py:38-54 | `map_reduce` gives each key the number of filtered tokens that lower-case to it; a key is present exactly when that number is positive; every key is lower-case |
| WordCount.MapReduceFilter | task_02/main.py:42-54 | with a non-empty search list every key is a lower-cased search word; a listed word's count equals its count in the unfiltered tokens; unlisted words count 0 |
| WordCount.CountWordsConserves | task_02/main.py:46-54 | the counts add up to the number of tokens counted |
| WordCount.MapReduceConserves | task_02/main.py:38-54 | count conservation: the values of the result add up to the number of tokens that passed the filter |
| WordCount.CountWordsKeyOrder | task_02/main.py:46-54 | keys come in the order of their first token |
| WordCount.EarlierKey | task_02/main.py:26-30 | if key `i` is first seen before key `j`, then some pair before any pair with key `j` has key `i` |
| WordCount.MapReduceKeyOrder | task_02/main.py:38-54 | the result's keys come in the order their first token appears in the filtered text |
| WordCount.MapReduceBlank | task_02/main.py:38-54 | empty text, or text of only whitespace and punctuation, gives an empty dict |
| TopWords.InsertByCount | task_02/main.py:58 | inserting an entry lengthens the list by one |
| TopWords.InsertByCountPerm | task_02/main.py:58 | inserting an entry adds exactly that entry and changes no other |
| TopWords.SortByCount | task_02/main.py:58 | `sorted(..., key=count, reverse=True)` is a permutation of the items in non-increasing count order |
| TopWords.InsertKeepsDescending | task_02/main.py:58 | inserting an entry into a descending list keeps it descending |
| TopWords.SortDescending | task_02/main.py:58 | a list already in descending count order is left exactly as it is |
| TopWords.SortByCountIdempotent | task_02/main.py:58 | sorting a sorted list changes nothing |
| TopWords.InsertWithCount | task_02/main.py:58 | inserting an entry puts it ahead of the entries with its own count and leaves the entries of every other count as they were |
| TopWords.SortByCountStable | task_02/main.py:58 | the sort is stable: for every count, the entries with that count keep their relative order |
| TopWords.WithCountPrefix | task_02/main.py:58 | a prefix of a list takes a prefix of its entries of each count |
| TopWords.SortKeepsDistinct | task_02/main.py:58 | sorting items with distinct keys keeps the keys distinct |
| TopWords.InsertDistinct | task_02/main.py:58 | inserting an entry with a new key into a list with distinct keys keeps the keys distinct |
| TopWords.SortedMembers | task_02/main.py:58 | the sort keeps the length and the set of entries |
| TopWords.SortedItems | task_02/main.py:58 | the sorted items are the dict's items: as many, no key twice, each key with its own count, every key present |
| TopWords.Prefix | task_02/main.py:58 | the slice `[:n]` is the first `min(n, len)` entries for `n >= 0`; for negative `n` it drops `-n` entries from the end, leaving at least none |
| TopWords.TopItems | task_02/main.py:58 | the selection holds no more entries than the dict and is in non-increasing count order |
| TopWords.TopItemsShape | task_02/main.py:58 | the selection has the slice's length, is in non-increasing count order, repeats no word and takes each entry from the dict with its count |
| TopWords.TopItemsAreTop | task_02/main.py:58 | no word left out of the selection has a larger count than a selected word |
| TopWords.TopItemsKeepTieOrder | task_02/main.py:58 | ties are broken by dict order: for each count, the selected words with it are the first words of the dict with that count |
| TopWords.TopItemsOfEmpty | task_02/main.py:58-59 | an empty result gives an empty selection |
| TopWords.ExampleItems | task_02/main.py:58 | the items of `{"a": 5, "b": 3, "c": 3, "d": 1}` come in insertion order |
| TopWords.ExampleSorted | task_02/main.py:58 | the example's items are already in descending order, and the sort leaves them as they are |
| TopWords.ExampleSortedItems | task_02/main.py:58 | sorting the example dict's items gives them back in insertion order |
| TopWords.ExampleTopTwo | task_02/main.py:58 | with `top_n = 2` the example selects `("a", 5)` and `("b", 3)`: "b" wins its tie with "c" because it comes first |

## Left out

- `get_text` (`task_02/main.py:8-15`) makes an HTTP request. Its text is a parameter of `MapReduce` instead.
- The bar chart (`task_02/main.py:59-68`) draws with matplotlib. The model stops at the selected entries.
- The `__main__` block (`task_02/main.py:71-82`) only connects I/O and printing to the functions above. Its fixed word list is one value of the `search` parameter.
- The `ThreadPoolExecutor` pools (`task_02/main.py:46-47`, `51-52`) are modelled as sequential maps. `executor.map` returns results in input order, and the mapped functions share no state.
- A pool failure is not modelled. Python would raise it out of `map_reduce`.
- Text.Lower: only ASCII capitals are lower-cased. Python's `str.lower()` also maps non-ASCII letters, and some of them to several characters. With text that has non-ASCII capitals, the model's keys differ from Python's.
- `task_01` (an asynchronous file sorter) is not part of this model.
- Nothing about order is left out. The counts alone would not depend on order. The code keeps input order everywhere: `executor.map` preserves order, and `defaultdict` and `dict` keep insertion order. The model keeps it too, which is why key order and tie order are provable.
- `top_n` is any integer, as in Python. A negative value slices from the end. No check for `top_n >= 0` is modelled, because the source has none.
