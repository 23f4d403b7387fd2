# Indexing utilities of a small boolean search engine

This project models, in Dafny, the helper functions from which the search
engine's indexing pipeline is built (`index/utility.py`): tokenising document
text into lower-cased words, removing stop words, counting terms per document,
merging term-count dictionaries, flattening nested dictionaries into dotted
keys, and the tf-idf weight of a term. Each helper is a pure function (or, for
the in-place merge, a method returning the merged dictionary) with a contract,
and lemmas relate the helpers to independent characterisations of what they
compute.

Files, one module each:

- `tokenizer.dfy` (`Tokenizer`): `splitContent` (all matches of `[\w]+`)
  and `getWordList`, with word characters and lower-casing defined on ASCII.
- `stop_words.dfy` (`StopWords`): `filterWords`.
- `term_counts.dfy` (`TermCounts`): `countTokens`, `mergeDictionaries` and
  the sum of a count dictionary.
- `flatten.dfy` (`Flatten`): `flatten` over a `Value` tree whose dictionaries
  are insertion-ordered entry lists, as Python dictionaries are.
- `tf_idf.dfy` (`TfIdf`): `tf_idf`, with the base-10 logarithm as a parameter.

Where the code and its own doc comments differ, the model follows the code:
the doc comment of `splitContent` (index/utility.py:8) speaks of splitting
around non-alphanumeric characters, but tokens are runs of `\w` characters,
which include `_`; `mergeDictionaries` updates and returns its first argument;
and `flatten` resolves a clash between a literal dotted key and a nested path
by the later assignment, so the dotted keys are not injective
(`Flatten.FlattenCollision`).

## Model

| member | source | states |
|---|---|---|
| `Tokenizer.SplitContent` | index/utility.py:7-9 | every token found is non-empty and made only of word characters |
| `Tokenizer.SplitNoWords` | index/utility.py:7-9 | text without word characters (in particular empty text) yields no tokens |
| `Tokenizer.SplitLayout` | index/utility.py:7-9 | the tokens are the maximal word-character runs, left to right: for a gap, then a run that ends at a word boundary, then a rest, the first token is that run and the others are the tokens of the rest |
| `Tokenizer.SplitSkipGap` | index/utility.py:7-9 | separators in front of a text change none of its tokens |
| `Tokenizer.SplitJoinSpaces` | index/utility.py:7-9 | round trip: words joined by single spaces split back into the same list |
| `Tokenizer.SplitKeepsWordChars` | index/utility.py:7-9 | the tokens laid end to end are exactly the word characters of the input, in order |
| `Tokenizer.GetWordList` | index/utility.py:21-25 | one word per token of `splitContent`, in order, each the token lower-cased; every word is non-empty, made of word characters and unchanged by lower-casing |
| `Tokenizer.LowerThenSplit` | index/utility.py:21-25 | lower-casing the whole text and then splitting gives the same words as `getWordList` |
| `Tokenizer.EmptyText` | index/utility.py:21-25 | empty text gives an empty word list |
| `StopWords.FilterWords` | index/utility.py:4-5 | the result contains exactly the words not in the stop set, each as often as the input does, and no stop word |
| `StopWords.FilterIsSubsequence` | index/utility.py:4-5 | the result is a subsequence of the input: words are only deleted, and the kept ones keep their relative order |
| `StopWords.FilterUnique` | index/utility.py:4-5 | any subsequence of the words with those element counts equals the filtered list, so the contract fixes the result and its order |
| `StopWords.FilterAppend` | index/utility.py:4-5 | filtering a concatenation is concatenating the filtered parts |
| `StopWords.FilterSingle` | index/utility.py:4-5 | a single word is kept exactly when it is not a stop word |
| `StopWords.FilterNoStopWords` | index/utility.py:4-5 | with an empty stop set the filter is the identity |
| `StopWords.FilterKeepsClean` | index/utility.py:4-5 | a list holding no stop word is returned unchanged |
| `StopWords.FilterTwice` | index/utility.py:4-5 | filtering by one stop set and then another is filtering by their union |
| `StopWords.FilterIdempotent` | index/utility.py:4-5 | filtering twice with the same stop set is filtering once |
| `StopWords.FilterExample` | index/utility.py:4-5 | `["the","cat","a","dog"]` without `{"the","a"}` is `["cat","dog"]` |
| `StopWords.SubsequenceCounts` | index/utility.py:4-5 | a subsequence never holds an element more often than its source |
| `TermCounts.CountTokens` | index/utility.py:27-35 | the keys are exactly the distinct tokens and each value is that token's number of occurrences, hence at least 1 |
| `TermCounts.CountGet` | index/utility.py:27-35 | looking up any token in the counts, a missing one counting as 0, gives its number of occurrences |
| `TermCounts.CountSum` | index/utility.py:27-35 | the counts add up to the number of tokens |
| `TermCounts.MergeDictionaries` | index/utility.py:11-19 | the returned dictionary (the updated first argument) has the union of both key sets, and each value is the sum of the two sides with a missing side counting as 0 |
| `TermCounts.MergeCommutative` | index/utility.py:11-19 | merging is commutative as a value |
| `TermCounts.MergeAssociative` | index/utility.py:11-19 | merging is associative |
| `TermCounts.MergeEmpty` | index/utility.py:11-19 | merging in an empty dictionary changes nothing |
| `TermCounts.CountAppend` | index/utility.py:11-35 | counting a concatenation of token lists equals merging their separate counts |
| `TermCounts.CountFiltered` | index/utility.py:4-35 | counting the stop-filtered words equals counting all words and dropping the stop words' entries |
| `TermCounts.SumOverRemove` | index/utility.py:27-35 | any key can be taken out of a sum of counts first |
| `TermCounts.SumValuesIncrement` | index/utility.py:31-34 | one step of the counting loop (add 1 to an entry or create it with 1) raises the total by exactly 1 |
| `Flatten.Put` | index/utility.py:60-63 | dictionary assignment adds the key to the key set, appends a new key at the end, and leaves only entries that were there before or the assigned one |
| `Flatten.PutInPlace` | index/utility.py:60-63 | assigning to a key that is present replaces its entry where it stands and changes no other entry |
| `Flatten.PutLookup` | index/utility.py:60-63 | after `d[k] = v`, `d[k]` is `v` and every other key keeps its value |
| `Flatten.PutKeepsDistinct` | index/utility.py:60-63 | assignment keeps the keys of a dictionary distinct |
| `Flatten.Flatten` | index/utility.py:48-64 | a non-dictionary is returned unchanged; a dictionary becomes a dictionary with distinct keys in which no value is a dictionary |
| `Flatten.AssembleLeaves` | index/utility.py:62-63 | on entries that are not dictionaries, the loop of `flatten` is plain assignment of each entry in turn |
| `Flatten.FlattenAssigns` | index/utility.py:48-64 | flattening a dictionary performs, in entry order, the assignments its entries contribute: its own key and value for a non-dictionary, `key.deeper` with the value of `deeper` in the flattened nested dictionary otherwise |
| `Flatten.FlattenEntries` | index/utility.py:56-63 | every entry of the result is one of those contributions, and the result has exactly the contributed keys |
| `Flatten.FlattenValues` | index/utility.py:56-63 | each key of the result holds the value of the last contribution with that key |
| `Flatten.FlattenDistinct` | index/utility.py:48-64 | when no two contributions share a key, the result is exactly the contributions, in order |
| `Flatten.FlattenKeys` | index/utility.py:56-63 | the result's keys are exactly the own keys of non-dictionary entries together with `key.deeper` for every key `deeper` of a flattened nested dictionary |
| `Flatten.FlattenFlat` | index/utility.py:56-63 | a dictionary that is already flat is returned unchanged |
| `Flatten.FlattenIdempotent` | index/utility.py:48-64 | flattening twice is flattening once |
| `Flatten.FlattenDropsEmpty` | index/utility.py:57-61 | a key whose value is an empty dictionary contributes no entries |
| `Flatten.FlattenExample` | index/utility.py:50-51 | `{"a": {"b": 0, "c": 1}}` flattens to `{"a.b": 0, "a.c": 1}` |
| `Flatten.FlattenCollision` | index/utility.py:56-63 | `{"a.b": 1, "a": {"b": 2}}` flattens to `{"a.b": 2}`: the later assignment wins |
| `Flatten.AssembleAppend` | index/utility.py:56-63 | the loop over the entries can be split at any point |
| `TfIdf.TfIdf` | index/utility.py:37-46 | weight exactly 0 when `tf == 0`; otherwise the math domain error when `tf + 1` or `doc_nbr / df` is not positive and the division error when `df == 0`, in the source's evaluation order, and else the product of the two logarithms |
| `TfIdf.ZeroFrequency` | index/utility.py:44-45 | `tf_idf(0, df, n)` is exactly 0 for every `df` and `n` |
| `TfIdf.InEveryDocument` | index/utility.py:46 | a term in every document (`df == doc_nbr`) has weight 0 |
| `TfIdf.WeightNonNegative` | index/utility.py:46 | for `0 < df <= doc_nbr` the weight is defined and not negative |
| `TfIdf.WeightMonotone` | index/utility.py:46 | for fixed `df` and `doc_nbr` the weight does not decrease as `tf` grows |

## Left out

- `index/repl_client.py`: the interactive read-eval-print loop (console input and output, wall-clock timing, command dispatch). It is glue around the `Index`, `IndexConfig` and `BooleanQuery` classes, which are not part of this model; the boolean query parser and evaluator are therefore not modelled either.
- `index/index_serializer.py`: saving and loading an index with `pickle` is file I/O with no logic of its own.
- `norm` (index/utility.py:66-73): a square root of a floating-point sum.
- Tokenizer.IsWordChar: Python's `\w` on `str` is Unicode-aware; here only ASCII letters, digits and `_` are word characters, so non-ASCII letters count as separators.
- Tokenizer.Lower: Python's `str.lower` is Unicode-aware (and can change a string's length); here only `A`..`Z` are mapped. Two facts hold only under this restriction: `Tokenizer.LowerThenSplit` and the clause of `Tokenizer.GetWordList` that every word is made of word characters. Python lower-cases `İ` (U+0130) to `i` followed by the combining dot U+0307, which `\w` does not match, so under Python `getWordList("İ")` is `["i̇"]` while splitting the lower-cased text gives `["i"]`.
- TfIdf.TfIdf: floating point is replaced by exact reals, and `log(x) / log(10)` by a base-10 logarithm given as a parameter; the weight lemmas assume of it only that `log10(1) == 0` and that it is non-negative and monotone from 1 on.
- TermCounts.CountTokens: the result is a Dafny `map`, which has no key order; the order in which the source's dictionary iterates its keys (first occurrence of each token) is not modelled. Nothing in the modelled code iterates the result.
- TermCounts.MergeDictionaries: the result is a Dafny `map`, so the source's key order (the keys of `a` first, then the new keys of `b` in `b`'s iteration order) is not modelled, and the loop takes `b`'s keys in an arbitrary order. The source aliases and mutates its first argument, so the caller's dictionary changes too; the model returns the updated dictionary as a new value. Values are integers, the only kind the counting code produces.
- Flatten.Flatten: its own contract states only the shape of the result (flat, distinct keys); which value each key receives is stated by `Flatten.FlattenAssigns`, `Flatten.FlattenValues` and `Flatten.FlattenDistinct`. The `Value` datatype is finite, so a dictionary that contains itself, or nesting deeper than Python's recursion limit, which make the source raise `RecursionError`, cannot be expressed. Keys are strings: the source also accepts a non-string key on an entry that is not a dictionary, so `flatten({1: "x"})` returns `{1: "x"}`, which the string-keyed `Value` cannot express; and a nested dictionary under a non-string key would make `key + '.'` raise `TypeError`, which is not modelled. Python dictionaries of other kinds (subclasses of `dict`) are not distinguished from `dict`.
- StopWords.FilterWords: the stop words are a set; the source accepts any container supporting `in`, with the same membership meaning.
