# NYT Spelling Bee solver: a verified model of the word-matching engine

A Spelling Bee query is a center letter and six other letters. A dictionary
word solves it when it contains the center letter and uses no letter outside
the seven. The Python repository `nyt-spelling-bee-solver` answers queries in
five interchangeable ways:

- a naive scan of the word list;
- a bitwise solver over 26-bit letter-set keys;
- a flat prefix tree (a dict from prefix to the set of next characters);
- a nested prefix tree (nested dicts keyed by whole prefixes);
- a radix tree (nested dicts keyed by single characters).

Each tree ends words with `'$'`. One shared validator checks the query first.
The repository also has word-list utilities: three filters and a
dedupe/filter/sort/lowercase pipeline, with add and delete operations built
on it. The last part is the `NYTBeePuzzle` record.

This Dafny project models those parts, module by module:

| module | file | models |
|---|---|---|
| `Outcomes` | outcomes.dfy | the exceptions the code raises, as `Result`/`Outcome` values |
| `Alphabet` | alphabet.dfy | `string.ascii_lowercase`, `set(word)` |
| `Seqs` | seqs.dfy | list comprehensions as `Filter`, subsequences, `list(set(...))` |
| `StringOrder` | string_order.dfy | Python's `<=` on `str` and `sorted` on a list of strings |
| `QueryValidator` | query_validator.dfy | `validate_character_args` |
| `NaiveSolver` | naive_solver.dfy | `get_bee_solutions_naive`, the reference oracle |
| `BitMasks` | bit_masks.dfy | the bit strings, `int(..., 2)`, `~`, `&`, `\|` on Python's unbounded ints |
| `BitwiseSolver` | bitwise_solver.dfy | `preprocess_get_bit_to_word_dict`, `get_bee_solutions_bitwise` |
| `FlatPrefixTree` | flat_prefix_tree.dfy | `preprocess_get_prefix_tree`, `_traverse_prefix_tree`, `get_bee_solutions_prefix_tree` |
| `NestedDicts` | nested_dicts.dfy | the `NestedStrDict` type: a dict, or `None` |
| `NestedPrefixTree` | nested_prefix_tree.dfy | `preprocess_get_nested_prefix_tree` and its traversal and solver |
| `RadixTree` | radix_tree.dfy | `preprocess_get_radix_tree` and its traversal and solver |
| `DictionaryUtils` | dictionary_utils.dfy | the filters and the write/add/delete pipeline of both `dictionary_utils.py` copies |
| `PuzzlesUtils` | puzzles_utils.dfy | the `NYTBeePuzzle` class |

The headline theorems state that every solver agrees with the naive scan:
- `BitwiseSolver.BitwiseMatchesNaive`: the bitwise solver returns the same
  multiset of words.
- `NestedPrefixTree.NestedPrefixTreeMatchesNaive` and
  `RadixTree.RadixTreeMatchesNaive`: each naive solution is returned exactly
  once, and nothing else is returned.
- `FlatPrefixTree.PrefixTreeMatchesNaive`: the same, for the corrected flat
  traversal (see Findings).

On an invalid query, every solver fails with the validator's error.

Modelling choices:
- Exceptions are `Failure` values carrying an `Error`.
- Masks are `nat`. Letter `a` is bit 25, because the source builds the bit
  string left to right and reads it in base 2. The 26-bit `not_mask` is
  applied explicitly.
- The traversals visit a Python set or dict in an order the model leaves
  open. A ghost `Pick` chooses the next key, so their results are stated as
  multisets.
- The bitwise dict keeps insertion order (`keys`), as Python dicts do.
- The naive solver and the bitwise preprocessor and solver are methods with
  loops. The flat preprocessor is a method with two nested loops. The nested
  and radix preprocessors are recursive methods that loop over the suffix list. Each
  method is proved equal to a specification function, and the properties
  are proved about those functions.

## Model

| member | source | states |
|---|---|---|
| QueryValidator.Validate | spelling_bee_solvers.py:6-14 | passes iff the others are 6 distinct characters, the center has length 1 and is not among them; otherwise fails with the first failing check's error, in the source's order (repeats, count, center length, center in others) |
| QueryValidator.DistinctIffNoCollapse | spelling_bee_solvers.py:7-8 | `len(set(others)) <= len(others)`, with equality exactly when no character repeats |
| QueryValidator.RejectedQueries | spelling_bee_solvers.py:6-14 | each of the four rejections on a concrete query, and a valid query passing |
| NaiveSolver.SolveNaive | spelling_bee_solvers.py:28-37 | the loop returns the validator's error, or the dictionary words holding the center whose letters lie within the query letters, in dictionary order |
| NaiveSolver.NaiveOracle | spelling_bee_solvers.py:30-37 | on a valid query, the result is a subsequence of the dictionary; a word is in it iff it is a dictionary word holding the center with letters in `others ∪ {center}`; each such word occurs as often as in the dictionary |
| NaiveSolver.NaiveScenarioCenterT | spelling_bee_solvers.py:28-37 | on `[rot, rob, rat, art, tar, too]` with center `t` and others `orabyz`, the result is every word but `rob` |
| NaiveSolver.NaiveScenarioCenterB | spelling_bee_solvers.py:28-37 | on the same list with center `b` and others `oratyz`, the result is exactly `rob` |
| Alphabet.Index | spelling_bee_solvers.py:54 | `string.ascii_lowercase.index(c)` is below 26 and names `c` back |
| Alphabet.AllLetters | spelling_bee_solvers.py:165 | `set(string.ascii_lowercase)` holds exactly the lowercase letters |
| BitMasks.NotMaskIsAllOnes | spelling_bee_solvers.py:114 | `67108863` is the number with 26 one bits |
| BitMasks.NotMaskedBit | spelling_bee_solvers.py:121 | `~x & not_mask` on a 26-bit `x` flips exactly its 26 bits |
| BitMasks.AndBit | spelling_bee_solvers.py:128 | a bit of `a & b` is set iff it is set in both |
| BitMasks.OrBit | spelling_bee_solvers.py:128 | a bit of `a \| b` is set iff it is set in either |
| BitMasks.FromBinaryBit | spelling_bee_solvers.py:55 | `int(s, 2)` has bit `k` set iff the `k`-th character from the right is `'1'` |
| BitMasks.KeyBit | spelling_bee_solvers.py:51-55 | a word's key fits in 26 bits and has bit `25 - i` set iff letter `i` occurs in the word |
| BitMasks.CenterBitsBit | spelling_bee_solvers.py:116-118 | `center_bits` has exactly the center letter's bit set |
| BitMasks.OtherBitsNegatedBit | spelling_bee_solvers.py:122-123 | `other_bits_negated` has a letter's bit set iff the letter is not among the others |
| BitMasks.InvalidBit | spelling_bee_solvers.py:127-128 | a bit of the formula is set iff it is clear in `O` and the word and center bits differ, as in the truth table |
| BitMasks.ZeroIffNoBits | spelling_bee_solvers.py:129 | a 26-bit number is zero iff none of its 26 bits is set |
| BitwiseSolver.WordBits | spelling_bee_solvers.py:51-55 | the inner loop yields the word's key when every character is a lowercase letter, and the `index` error otherwise |
| BitwiseSolver.PreprocessBitToWordDict | spelling_bee_solvers.py:49-63 | the loop builds the bucket dict of the whole list, or fails on a non-lowercase word |
| BitwiseSolver.BitDictOfWellFormed | spelling_bee_solvers.py:58-61 | the dict's keys are distinct and are exactly the keys that have a bucket |
| BitwiseSolver.BitDictOfCovers | spelling_bee_solvers.py:50-61 | every input word's key is a key of the dict |
| BitwiseSolver.BitDictOfBuckets | spelling_bee_solvers.py:57-61 | the bucket of key `k` is the input words whose key is `k`, in input order |
| BitwiseSolver.BucketsNonEmpty | spelling_bee_solvers.py:58-61 | no bucket is empty |
| BitwiseSolver.BucketsPartition | spelling_bee_solvers.py:49-63 | the buckets together hold each input word as often as the input does, so their sizes sum to the input's length |
| BitwiseSolver.SolveBitwise | spelling_bee_solvers.py:84-132 | the loop returns the validator's error, the `index` error for a non-lowercase center, or the concatenation, in key order, of the buckets whose key passes the formula |
| BitwiseSolver.InvalidLetter | spelling_bee_solvers.py:98-111 | the formula flags letter `i` iff it is not among the others and it is in the word xor it is the center |
| BitwiseSolver.KeyValidIffBeeWord | spelling_bee_solvers.py:109-129 | for a lowercase word and a center not among the others, the formula is zero iff the word holds the center and uses only query letters |
| BitwiseSolver.GatherCount | spelling_bee_solvers.py:125-130 | the gathered buckets hold a word as often as the input does when its key is gathered, and never otherwise |
| BitwiseSolver.BitwiseMatchesNaive | spelling_bee_solvers.py:125-132 | on a lowercase dictionary and a valid query with a lowercase center, the bitwise result is the naive result up to order, with the same multiplicities |
| BitwiseSolver.BitwiseOtherCases | spelling_bee_solvers.py:84-117 | an invalid query fails in both solvers with the same error; a non-lowercase center makes the bitwise solver fail where the naive one returns no words |
| FlatPrefixTree.PreprocessPrefixTree | spelling_bee_solvers.py:152-167 | the two nested loops build the prefix dict of the word list, with the root's entry overwritten by the 26 letters |
| FlatPrefixTree.AddPrefixesSpec | spelling_bee_solvers.py:157-162 | the inner loop adds exactly the prefixes `word[:1]`..`word[:n]`, each with the character after it or `'$'` |
| FlatPrefixTree.WordsTreeSpec | spelling_bee_solvers.py:154-162 | a non-empty string is a key iff it starts some word, and `c` is in its set iff some word continues it with `c` (or ends there when `c` is `'$'`) |
| FlatPrefixTree.PrefixTreeOfSpec | spelling_bee_solvers.py:152-167 | the root holds all 26 letters; the other keys and next-sets are as the previous row says |
| FlatPrefixTree.ExploreOnlyExtensions | spelling_bee_solvers.py:181-191 | the corrected traversal (a missing prefix is a dead end) emits only words that extend its prefix |
| FlatPrefixTree.ExploreNextCount | spelling_bee_solvers.py:187-189 | in the corrected traversal, the loop over next characters counts a word only through its next character, when that character is valid |
| FlatPrefixTree.EndMeansWord | spelling_bee_solvers.py:184 | on a lowercase list, `'$'` follows a prefix iff the prefix is a word of the list |
| FlatPrefixTree.ExploreCount | spelling_bee_solvers.py:181-191 | below a non-empty prefix, the corrected traversal counts a word once iff it is a list word extending the prefix, holding the center, whose further letters are valid; otherwise not at all |
| FlatPrefixTree.ExploreRootCount | spelling_bee_solvers.py:207 | from the root, the corrected traversal counts a word once iff it is a list word holding the center whose letters are all valid (the source raises `KeyError` instead when a valid letter starts no word; see Findings) |
| FlatPrefixTree.PrefixTreeMatchesNaive | spelling_bee_solvers.py:205-207 | the corrected solver fails iff the naive one does, with the same error, and otherwise returns each naive solution exactly once and nothing else |
| FlatPrefixTree.PrefixTreeDescends | spelling_bee_solvers.py:152-167 | when every query letter starts a word, every valid continuation of a key is itself a key |
| FlatPrefixTree.AsWrittenAgrees | spelling_bee_solvers.py:181-191 | on a tree where every valid continuation is a key, the traversal as written succeeds and returns what the corrected one does |
| FlatPrefixTree.SolveAsWrittenAgrees | spelling_bee_solvers.py:205-207 | when every query letter starts a dictionary word, the solver as written equals the corrected one |
| FlatPrefixTree.AsWrittenOnlyKeyError | spelling_bee_solvers.py:182 | the only way the traversal as written fails is a missing prefix (`KeyError`) |
| FlatPrefixTree.AsWrittenFailsOnMissingLetter | spelling_bee_solvers.py:181-191 | for any dictionary and valid query, a lowercase query letter that starts no dictionary word makes the solver as written raise `KeyError`, because the root's set holds all 26 letters |
| FlatPrefixTree.AsWrittenFailsOnScenario | spelling_bee_solvers.py:181-191 | on `[rot, rob, rat, art, tar, too]` with center `t` and others `orabyz`, the solver as written raises `KeyError` where the naive solver succeeds |
| NestedPrefixTree.PreprocessNestedPrefixTree | spelling_bee_solvers.py:222-234 | the preprocessor returns what the specification `Preprocessed` gives: `['']` marks the end, and otherwise each suffix is inserted in list order |
| NestedPrefixTree.PreprocessedSingle | spelling_bee_solvers.py:222-232 | a one-suffix list is the single insertion of that suffix |
| NestedPrefixTree.InsertWellKeyed | spelling_bee_solvers.py:226-232 | inserting a lowercase suffix succeeds and keeps every child keyed by its parent's prefix plus one letter |
| NestedPrefixTree.InsertReaches | spelling_bee_solvers.py:222-234 | after inserting `s`, a lowercase word is reachable iff it was before or it is `s` |
| NestedPrefixTree.InsertExisting | spelling_bee_solvers.py:229-230 | re-inserting a word already in the tree leaves it unchanged |
| NestedPrefixTree.InsertEachSpec | spelling_bee_solvers.py:226-234 | the loop succeeds iff no suffix is empty (`suffix[0]` raises); on success the reachable words are the old ones plus the list |
| NestedPrefixTree.NestedPrefixTreeOfSpec | spelling_bee_solvers.py:210-234 | building from the root succeeds iff the list is `['']` or holds no empty word, and then a lowercase word is reachable iff it is in the list |
| NestedPrefixTree.ExploreSpec | spelling_bee_solvers.py:248-257 | on a well-keyed tree and valid letters without `'$'`, the traversal succeeds and counts a word once iff it extends the prefix, is in the tree, holds the center and continues with valid letters only |
| NestedPrefixTree.CountedStep | spelling_bee_solvers.py:249-255 | a word is counted at the node's own prefix when the node holds `'$'`, or else through the one child its next letter selects |
| NestedPrefixTree.ExploreChildrenSpec | spelling_bee_solvers.py:252-255 | the loop over the children counts a word only through the child keyed by its next prefix, when its last letter is valid |
| NestedPrefixTree.ExploreEndMarkerFails | spelling_bee_solvers.py:252-255 | with `'$'` among the valid letters, entering the `'$' -> None` child raises `TypeError` |
| NestedPrefixTree.ExploreChildrenFails | spelling_bee_solvers.py:252-255 | the children loop raises `TypeError` whenever it reaches the end marker with `'$'` valid |
| NestedPrefixTree.ExploreOnlyTypeError | spelling_bee_solvers.py:248-257 | the only exception the traversal raises is that `TypeError` |
| NestedPrefixTree.ExploreRootCount | spelling_bee_solvers.py:275 | from the root of a tree holding exactly a lowercase list, a word is counted once iff it is in the list, holds the center and uses only valid letters |
| NestedPrefixTree.NestedPrefixTreeMatchesNaive | spelling_bee_solvers.py:273-275 | on a lowercase list the tree builds; the solver fails iff the naive one does, with the same error, and otherwise returns each naive solution exactly once and nothing else |
| RadixTree.PreprocessRadixTree | spelling_bee_solvers.py:297-309 | the preprocessor returns what the specification `Preprocessed` gives: `['']` marks the end, and otherwise each suffix is inserted character by character, in list order |
| RadixTree.PreprocessedSingle | spelling_bee_solvers.py:297-307 | a one-suffix list is the single insertion of that suffix |
| RadixTree.InsertWellKeyed | spelling_bee_solvers.py:301-307 | inserting a lowercase suffix succeeds and keeps every key a lowercase letter or `'$' -> None` |
| RadixTree.InsertReaches | spelling_bee_solvers.py:297-309 | after inserting `s`, a lowercase word is reachable iff it was before or it is `s` |
| RadixTree.InsertExisting | spelling_bee_solvers.py:304-305 | re-inserting a word already in the tree leaves it unchanged |
| RadixTree.InsertEachSpec | spelling_bee_solvers.py:301-309 | the loop succeeds iff no suffix is empty; on success the reachable words are the old ones plus the list |
| RadixTree.RadixTreeOfSpec | spelling_bee_solvers.py:278-309 | building from an empty dict succeeds iff the list is `['']` or holds no empty word, and then a lowercase word is reachable iff it is in the list |
| RadixTree.ExploreSpec | spelling_bee_solvers.py:322-331 | on a well-keyed tree and valid letters without `'$'`, the traversal succeeds and counts a word once iff it extends the prefix, is in the tree, holds the center and continues with valid letters only |
| RadixTree.CountedStep | spelling_bee_solvers.py:324-329 | a word is counted at the current prefix when the node holds `'$'`, or else through the child its next letter selects |
| RadixTree.ExploreChildrenSpec | spelling_bee_solvers.py:327-329 | the loop over the letters counts a word only through the child of its next letter, when that letter is valid |
| RadixTree.ExploreEndMarkerFails | spelling_bee_solvers.py:327-329 | with `'$'` among the valid letters, entering the `'$' -> None` child raises `TypeError` |
| RadixTree.ExploreChildrenFails | spelling_bee_solvers.py:327-329 | the letter loop raises `TypeError` whenever it reaches the end marker with `'$'` valid |
| RadixTree.ExploreOnlyTypeError | spelling_bee_solvers.py:322-331 | the only exception the traversal raises is that `TypeError` |
| RadixTree.ExploreRootCount | spelling_bee_solvers.py:346 | from the root of a tree holding exactly a lowercase list, a word is counted once iff it is in the list, holds the center and uses only valid letters |
| RadixTree.RadixTreeMatchesNaive | spelling_bee_solvers.py:344-346 | on a lowercase list the tree builds; the solver fails iff the naive one does, with the same error, and otherwise returns each naive solution exactly once and nothing else |
| Seqs.SeqOfSet | data/dictionary_utils.py:40 | `list(set(word_list))` holds each distinct word exactly once |
| StringOrder.BelowTotal | data/dictionary_utils.py:45 | any two strings are comparable under Python's `<=` |
| StringOrder.BelowAntisymmetric | data/dictionary_utils.py:45 | two strings each `<=` the other are equal |
| StringOrder.BelowTransitive | data/dictionary_utils.py:45 | Python's `<=` on strings is transitive |
| StringOrder.Sorted | data/dictionary_utils.py:45 | `sorted(words)` is in order and a permutation of `words` |
| StringOrder.SortedUnique | data/dictionary_utils.py:45 | two sorted permutations of the same strings are equal, so `sorted` does not depend on input order |
| DictionaryUtils.RemoveSmallWords | data/dictionary_utils.py:55-59 | keeps exactly the words longer than 3 characters, in input order and with their multiplicities; the older copy at dictionaries/dictionary_utils.py:130-134 is identical |
| DictionaryUtils.RemoveLongWords | data/dictionary_utils.py:62-66 | keeps exactly the words shorter than 20 characters, in input order and with their multiplicities; the older copy at dictionaries/dictionary_utils.py:137-141 is identical |
| DictionaryUtils.RemoveImpossibleWords | data/dictionary_utils.py:69-73 | keeps exactly the words with at most 7 distinct characters, in input order and with their multiplicities; the older copy at dictionaries/dictionary_utils.py:144-148 is identical |
| DictionaryUtils.Filtered | data/dictionary_utils.py:41-43 | the three filters in turn keep exactly the words of length 4 to 19 with at most 7 distinct characters, as a subsequence of the input; the older copy at dictionaries/dictionary_utils.py:46-48 is identical |
| DictionaryUtils.LowerOfLowercase | data/dictionary_utils.py:45 | `word.lower()` leaves a lowercase word unchanged |
| DictionaryUtils.LowerEachOfLowercase | data/dictionary_utils.py:45 | lowercasing each word of a lowercase list leaves the list unchanged |
| DictionaryUtils.KeptWordsSpec | data/dictionary_utils.py:40-45 | the words kept from a set are sorted, each occurs once, and they are exactly the set's words of length 4 to 19 with at most 7 distinct characters |
| DictionaryUtils.KeptWordsAnyOrder | data/dictionary_utils.py:40-45 | the kept words do not depend on the order `list(set(...))` produces |
| DictionaryUtils.WrittenLinesOfLowercase | data/dictionary_utils.py:45 | for lowercase words, the written lines are the kept words themselves |
| DictionaryUtils.DictionaryLinesSpec | data/dictionary_utils.py:31-45 | for a lowercase word list, the lines written are sorted, each once, and are exactly its admissible words; the older copy at dictionaries/dictionary_utils.py:36-50 is identical |
| DictionaryUtils.AddWordsSpec | data/dictionary_utils.py:76-82 | for lowercase lists, adding writes the admissible words of `existing ∪ new`, sorted, each once |
| DictionaryUtils.AddPresentWords | data/dictionary_utils.py:80-82 | adding words already present rewrites the dictionary as the pipeline would on its own |
| DictionaryUtils.DeleteWordsSpec | data/dictionary_utils.py:85-91 | for lowercase lists, deleting writes the admissible words of `existing \ deleted`, sorted, each once |
| DictionaryUtils.DeleteAbsentWords | data/dictionary_utils.py:89-91 | deleting absent words is not an error and rewrites the dictionary as the pipeline would on its own |
| DictionaryUtils.MixedCaseDuplicateLines | data/dictionary_utils.py:44-45 | the pipeline as written writes `["Bead", "bead"]` as two `bead` lines |
| DictionaryUtils.MixedCaseUnsortedLines | data/dictionary_utils.py:44-45 | the pipeline as written writes `["able", "Zeal"]` as `zeal` before `able`, out of order |
| DictionaryUtils.LoweredLinesSpec | data/dictionary_utils.py:31-45 | lowercasing before deduplication writes sorted lines, each once, that are exactly the admissible lowercased words, whatever the input's case |
| DictionaryUtils.LoweredLinesAgree | data/dictionary_utils.py:44-45 | on lowercase input the corrected pipeline writes the same lines as the one written |
| PuzzlesUtils.SortedLetters | data/puzzles_utils.py:16 | `''.join(sorted(others))` is in order and a permutation of `others` |
| PuzzlesUtils.SortedLettersUnique | data/puzzles_utils.py:16 | two sorted strings with the same characters are equal |
| PuzzlesUtils.SortedLettersOfPermutation | data/puzzles_utils.py:16 | two orderings of the same letters sort to the same string |
| PuzzlesUtils.ValidatePermutation | data/puzzles_utils.py:16-18 | the validator gives the same verdict on a permutation of the others, so checking the sorted letters checks the given ones |
| PuzzlesUtils.NYTBeePuzzle.constructor | data/puzzles_utils.py:20-23 | the four fields hold the values assigned |
| PuzzlesUtils.NewPuzzle | data/puzzles_utils.py:14-23 | construction fails iff the validator rejects the query, with its error; otherwise the getters return the date and center given, the sorted others (a permutation of the given ones) and exactly the given solutions as a set |
| PuzzlesUtils.PermutedPuzzlesEqual | data/puzzles_utils.py:25-31 | puzzles built from the same date, center and solutions and from two orderings of the same others are equal, both ways |

## Left out

- File and directory access is not part of this model: `get_dictionary_from_path`, `get_custom_dictionary`, `get_benchmarking_dictionary`, `get_latest_custom_dictionary` (`os.listdir`), `write_words_to_custom_dictionary` (a fixed path), `get_puzzles_from_file` and `write_puzzles_to_file` (JSON). A file that is read becomes a parameter, and a file that is written becomes the returned list of lines, without the `'\n'`.
- `analyze_dictionary` (dictionaries/dictionary_utils.py:60-117) and `_convert_categorized_json_to_wordlist_file` only print or do file I/O.
- The scrapers, the CLI and interactive scripts, the benchmarks, the pruning script, the superseded `SpellingBeeSolver.py` and the tests are not part of this model.
- Python's iteration order over a set or dict is left open: the traversals pick their next key with a ghost choice, and their results are stated as multisets. The flat, nested and radix solvers are ghost functions for that reason.
- In-place mutation in the nested and radix preprocessors is modelled on values. Every sub-dict is either fresh (`{}`) or the caller's own entry, so no two entries share a dict and updating a value gives the same tree. Aliasing between the caller's dict and the returned one is not modelled.
- `str.lower` is modelled on ASCII letters only.
- `others` given as a list or set is modelled as a string.
- The `isinstance`/`NotImplemented` branch of `__eq__` is not modelled: `Equals` only compares puzzles.
- `get_solutions` returns a copy. Dafny sets are values, so the model returns the set itself.
- NestedPrefixTree.NestedPrefixTreeMatchesNaive: requires `'$'` not to be a query letter. With `'$'` valid, the traversal enters the `'$' -> None` entry and raises `TypeError`; `ExploreEndMarkerFails` and `ExploreOnlyTypeError` state this separately.
- RadixTree.RadixTreeMatchesNaive: requires `'$'` not to be a query letter, for the same reason (`RadixTree.ExploreEndMarkerFails`).
- The nested, radix and flat agreement theorems and `BitwiseSolver.BitwiseMatchesNaive` require a dictionary of lowercase letters. The bitwise preprocessor raises on anything else (`PreprocessBitToWordDict`). A `'$'` inside a word would be read as an end marker by the trees. The restriction also hides a difference of the flat tree: its root entry is overwritten with the 26 lowercase letters (`FlatPrefixTree.PrefixTreeOfSpec`), so the flat solver never finds a word whose first character is not a lowercase letter, while the naive, nested and radix solvers do (dictionary `["TORT"]`, center `T`, others `ORABYZ`).
- The solvers never check word length. Only the dictionary filters enforce the 4-letter minimum, and the model follows the code.

## Findings

| source | as written | input that shows it | evidently intended | confidence | as-written member | corrected member |
|---|---|---|---|---|---|---|
| spelling_bee_solvers.py:181-191 | `_traverse_prefix_tree` reads `prefix_tree[prefix]` for every valid letter it descends into. The root's set is all 26 letters, so a query letter that starts no dictionary word raises `KeyError`. | dictionary `[rot, rob, rat, art, tar, too]`, center `t`, others `orabyz`: no word starts with `b`, `y`, `z` or `o` | a prefix missing from the tree is a dead end with no words below it | not executed | FlatPrefixTree.AsWrittenFailsOnScenario | FlatPrefixTree.PrefixTreeMatchesNaive |
| data/dictionary_utils.py:44-45 | `write_words_to_dictionary` deduplicates and sorts before lowercasing. Mixed-case input gives duplicate or out-of-order lines. | `["Bead", "bead"]` writes `bead` twice; `["able", "Zeal"]` writes `zeal` before `able` | lowercase first, then deduplicate, filter and sort, so the lines are sorted and each occurs once | not executed | DictionaryUtils.MixedCaseDuplicateLines | DictionaryUtils.LoweredLinesSpec |
