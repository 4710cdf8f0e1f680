# Jumble solver, modelled in Dafny

The solver prints every word of a word list that is an anagram of a query
word or of some subset of the query's letters. The query word itself is
never printed. The pipeline has four steps:

1. `word_to_letters` lower-cases the query and splits it into characters.
2. `find_sub_versions` enumerates letter subsets by removing one letter at a
   time, by position. It keeps one-letter subsets only when the letter is
   `a` or `i`. `find_sorted_sub_versions` then sorts every subset and keeps
   the first occurrence of each sorted list.
3. `separate_words_by_len` files each lower-cased word of the list under its
   length. Lengths run from 1 to the query's length, and each length gets an
   insertion-ordered dictionary from the word to its sorted letters.
4. `find_anagrams` / `find_all_anagrams` look in the bucket of each subset's
   length. They collect the words whose sorted letters equal the subset,
   skip the query as typed, and concatenate the results in subset order.

The model has six modules:

- `Seqs`: duplicate-free sequences and "keep the first occurrence"
  de-duplication.
- `Letters`: ASCII lower-casing and sorting of characters.
- `Subsets`: steps 1 and 2.
- `WordIndex`: step 3.
- `Anagrams`: step 4.
- `Solver`: the three calls in the order `main` makes them.

Every loop of the modelled functions is a Dafny method with a loop, proved
equal to a recursive specification function. The properties are proved about those
functions.

Modelling decisions:

- An inner dictionary is modelled as a `Bucket`, a list of `Entry(word,
  letters)` whose words are distinct. Assigning `d[w] = v` keeps the
  position of an existing key and appends a new one, so iteration order is
  Python's.
- The outer dictionary is a `map<int, Bucket>`.
- Indexing a missing length raises a `KeyError`. It is modelled as a
  `Result` that is either `Success` or `Failure(MissingLength(n))`, and
  `FindAllAnagrams` returns at the first missing length.
- For a one-letter input that is `a` or `i`, `find_sub_versions` returns
  `letters` itself, a flat list (jumble_solver.py:59). The caller's `+=`
  then adds a bare one-character string, and `sorted` turns it back into a
  one-element list. The model returns `[letters]` here. A string is a
  `seq<char>` in Dafny, so after sorting the two agree.

Behaviour of the code worth knowing:

- Repeated words in the list are reported once, because the bucket is
  keyed by word (`WordIndex.BucketWords`, `Solver.JumbleNoDuplicates`).
- The query is excluded by a case-sensitive comparison with the query as
  typed, while listed words are lower-cased
  (`Solver.ExclusionIsCaseSensitive`).
- Other arrangements of all of the query's letters are reported: for the
  list [dog, god] and the query "god", "dog" is reported
  (`Solver.RearrangementReported`).
- Results come in the order of the recursive enumeration, in which the
  full query comes first, not grouped by length.
- An empty query raises a `KeyError` for length 0
  (`Solver.EmptyQueryFails`).
- Words of exactly the query's length are kept, although the docstring of
  `separate_words_by_len` says "shorter than n".

## Model

| member | source | states |
|---|---|---|
| `Letters.LowerChar` | jumble_solver.py:42 | a lower-cased character is never an upper-case ASCII letter |
| `Letters.WordToLetters` | jumble_solver.py:34-44 | one character per input character, each the lower-cased character at the same position, so the result is lower-case and has the lower-cased word's letters |
| `Letters.Lower` | jumble_solver.py:42 | `str.lower()` on ASCII, also applied at line 131; its contract gives the length and that the result is lower-case, and `LowerOfLowerWord` that lower-case words are unchanged |
| `Letters.Insert` | jumble_solver.py:92 | inserting into a sorted list gives a sorted list one longer, headed by the new or the old least element |
| `Letters.Sort` | jumble_solver.py:92 | `sorted` returns a sorted list of the same length |
| `Letters.InsertLetters` | jumble_solver.py:92 | insertion adds exactly one copy of the new letter |
| `Letters.SortLetters` | jumble_solver.py:92 | `sorted` returns a permutation of its input |
| `Letters.SortedUnique` | jumble_solver.py:92 | two sorted lists with the same letters are equal |
| `Letters.SortIsCanonical` | jumble_solver.py:136 | two words have the same stored signature exactly when they have the same letters |
| `Letters.SortOfSorted` | jumble_solver.py:92 | sorting a sorted list changes nothing |
| `Letters.LowerOfLowerWord` | jumble_solver.py:131 | lower-casing a lower-case word changes nothing |
| `Subsets.RemoveAt` | jumble_solver.py:67 | `letters[:i] + letters[i+1:]` is one shorter |
| `Subsets.RemoveAtLetters` | jumble_solver.py:67 | removing position i removes exactly one copy of the letter at i |
| `Subsets.SubVersions` | jumble_solver.py:57-69 | the result of find_sub_versions; described by `SubVersionsOfOneLetter`, `SubVersionsStartWithInput`, `SubVersionsSound` and `SubVersionsComplete` |
| `Subsets.Removals` | jumble_solver.py:66-68 | what the loop over positions adds; described by `RemovalsSound` and `RemovalsContain` |
| `Subsets.FindSubVersions` | jumble_solver.py:46-69 | the recursive method with its accumulating loop returns exactly `SubVersions(letters)` |
| `Subsets.SubVersionsOfOneLetter` | jumble_solver.py:57-61 | a one-letter input yields itself when it is `a` or `i`, and nothing otherwise |
| `Subsets.SubVersionsStartWithInput` | jumble_solver.py:63 | for any other input, the first element is the input itself |
| `Subsets.SubVersionsSound` | jumble_solver.py:46-69 | every element is a sub-multiset of the input; for a non-empty input it is two letters or longer, or one of `a` and `i`, at every recursion depth |
| `Subsets.RemovalsSound` | jumble_solver.py:66-68 | everything the loop adds is a sub-multiset of the input and, for inputs of two or more letters, a candidate |
| `Subsets.RemovalsContain` | jumble_solver.py:66-68 | every result of every one-letter removal is collected |
| `Subsets.SubVersionsComplete` | jumble_solver.py:46-55 | every candidate sub-multiset of the input letters is produced in some arrangement |
| `Subsets.SortAll` | jumble_solver.py:91-93 | the list built by the sorting loop; described by `SortAllSnoc` |
| `Subsets.SortedSubVersions` | jumble_solver.py:72-102 | the result of find_sorted_sub_versions; its contract says no list repeats, and `SortedSubVersionsDistinct`, `SortedSubVersionsExactly` and `OneLetterSubsets` describe it |
| `Subsets.FindSortedSubVersions` | jumble_solver.py:72-102 | the sorting loop and the de-duplicating loop return exactly `SortedSubVersions(word)` |
| `Subsets.SortAllSnoc` | jumble_solver.py:91-93 | each turn of the sorting loop appends the sorted form of the next subset |
| `Subsets.SortedSubVersionsDistinct` | jumble_solver.py:78-80 | every returned list is sorted, and no two are equal |
| `Subsets.SortedSubVersionsSound` | jumble_solver.py:72-102 | every returned list is a sorted candidate drawn from the word's lower-cased letters |
| `Subsets.SortedSubVersionsComplete` | jumble_solver.py:72-102 | every sorted candidate drawn from the word's lower-cased letters is returned |
| `Subsets.SortedSubVersionsExactly` | jumble_solver.py:72-102 | for a non-empty word, a list is returned exactly when it is a sorted candidate drawn from the lower-cased letters |
| `Subsets.ContainsEveryLargerSubset` | jumble_solver.py:73-80 | the sorted form of every sub-multiset of two or more of the letters is returned |
| `Subsets.OneLetterSubsets` | jumble_solver.py:57-61 | for a non-empty word, `[c]` is returned exactly when c is `a` or `i` and in the word; the empty list never is |
| `Subsets.SortedSubVersionsOfEmpty` | jumble_solver.py:63-69 | the empty word yields only the empty list |
| `Seqs.Dedup` | jumble_solver.py:95-100 | keeps exactly the elements of its input, each once, and is no longer than the input |
| `Seqs.DedupPrefix` | jumble_solver.py:98-100 | one turn of the de-duplicating loop appends the next list exactly when it is not yet present |
| `Seqs.DedupFirstOccurrenceOrder` | jumble_solver.py:95-102 | kept elements appear in the order of their first occurrence in the input |
| `WordIndex.Put` | jumble_solver.py:136 | `d[w] = v` keeps the key order and adds w at the end only when it is new; keys stay distinct |
| `WordIndex.PutEntries` | jumble_solver.py:136 | after `d[w] = v` the entries are (w, v) plus the old entries for other keys |
| `WordIndex.EmptyIndex` | jumble_solver.py:126-127 | the first loop gives an empty bucket for every length 1..n and no other key |
| `WordIndex.AddWord` | jumble_solver.py:130-136 | filing one word keeps the keys exactly 1..n and the words of every bucket distinct |
| `WordIndex.BuildIndex` | jumble_solver.py:123-138 | the built index has keys exactly 1..n and each word at most once per bucket |
| `WordIndex.AddWordValid` | jumble_solver.py:130-136 | filing a word keeps every stored word lower-case, of its bucket's length, and stored with its sorted letters |
| `WordIndex.BuildIndexValid` | jumble_solver.py:123-138 | the bucket invariant holds for the index built from any word list |
| `WordIndex.SeparateWordsByLen` | jumble_solver.py:105-138 | the two loops build exactly `BuildIndex(words, n)`, which satisfies the bucket invariant |
| `WordIndex.LoweredOfLength` | jumble_solver.py:130-135 | lists exactly the lower-cased source words of a given length |
| `WordIndex.AddWordWords` | jumble_solver.py:136 | filing a word changes only its own bucket, adding the word at the end if it is new |
| `WordIndex.BucketWords` | jumble_solver.py:123-138 | bucket k lists the distinct lower-cased words of length k in order of first occurrence, so a repeated word is stored once |
| `WordIndex.StoredWords` | jumble_solver.py:130-136 | a word is stored under k exactly when 1 <= k <= n, it has length k, and it is the lower-cased form of a listed word; words of length 0 or above n are dropped |
| `Anagrams.LettersMatch` | jumble_solver.py:141-143 | true exactly when the two lists have the same length and agree at every position |
| `Anagrams.MatchIsAnagram` | jumble_solver.py:141-143 | against a stored signature, a sorted subset matches exactly when it has the word's letters |
| `Anagrams.Matches` | jumble_solver.py:158-166 | a word is found exactly when a bucket entry holds it with letters equal to the subset and it differs from the query; a bucket with distinct words gives distinct results |
| `Anagrams.FindAnagrams` | jumble_solver.py:145-166 | the loop returns exactly `Matches` over the bucket in iteration order, and never the query |
| `Anagrams.AllAnagrams` | jumble_solver.py:183-191 | succeeds exactly when every subset's length is a key; on failure it carries the first missing length; on success a word is reported exactly when `Matches` finds it for some subset |
| `Anagrams.FindAllAnagrams` | jumble_solver.py:168-191 | the loop returns exactly `AllAnagrams`, stopping at the first missing length |
| `Anagrams.AllAnagramsFailureSticks` | jumble_solver.py:188 | a `KeyError` for a prefix of the subsets is the result for the whole list |
| `Anagrams.MatchesOneSignature` | jumble_solver.py:161-164 | a bucket with distinct words matches a word against one subset at most |
| `Anagrams.MatchedLength` | jumble_solver.py:186-188 | a word found in the bucket of length k has length k |
| `Anagrams.AllAnagramsNoDuplicates` | jumble_solver.py:183-191 | for distinct subsets and buckets of distinct words, no word is reported twice |
| `Solver.Jumble` | jumble_solver.py:209-218 | the anagrams `main` prints; described by `JumbleExactly`, `JumbleNoDuplicates`, `EmptyQueryFails` and `NonEmptyQuerySucceeds` |
| `Solver.Solve` | jumble_solver.py:208-218 | the three calls in `main`'s order compute `Jumble(words, word)` |
| `Solver.EmptyQueryFails` | jumble_solver.py:209-218 | an empty query fails with a `KeyError` for length 0 |
| `Solver.NonEmptyQuerySucceeds` | jumble_solver.py:209-218 | a non-empty query never raises a `KeyError` |
| `Solver.JumbleSound` | jumble_solver.py:1-5 | every reported word is a listed word, lower-cased, made of some of the query's letters, a candidate, and not the query |
| `Solver.JumbleComplete` | jumble_solver.py:1-5 | every such word is reported |
| `Solver.JumbleExactly` | jumble_solver.py:1-5 | for a non-empty query, both directions of the above |
| `Solver.QueryNeverReported` | jumble_solver.py:163 | the query as typed is never reported |
| `Solver.JumbleNoDuplicates` | jumble_solver.py:136 | no word is reported twice, even when the list repeats it |
| `Solver.EmptyWordList` | jumble_solver.py:209-218 | an empty word list yields no anagrams for a non-empty query |
| `Solver.RearrangementReported` | jumble_solver.py:163 | a listed word that rearranges all of the query's letters and differs from it is reported |
| `Solver.ExclusionIsCaseSensitive` | jumble_solver.py:131 | a query with an upper-case letter does not exclude its own lower-cased form |

## Left out

- `read_word_list`: file reading and the stripping of each line. The word
  list is a parameter of type `seq<string>`.
- `main`: command-line arguments, the usage message, the exit status and
  printing. `Solver.Solve` keeps only the three calls and their order.
- The running-time bound in the module docstring: running time is not
  modelled.
- Unicode: `str.lower()` is modelled on ASCII only (A-Z to a-z, everything
  else unchanged). Python's Unicode lower-casing, which can change a
  string's length, is not modelled. `sorted` orders characters by code
  point, which Dafny's `char` order matches.
- The dictionaries are modelled as values. Python's in-place updates of the
  nested dictionary share no object with anything else here, so no
  aliasing is lost.
- `Subsets.FindSubVersions`: returns `[letters]` for a one-letter `a` or
  `i`, where the source returns the flat list `letters`. The two are
  indistinguishable once `find_sorted_sub_versions` sorts each element.
