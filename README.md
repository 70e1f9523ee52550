# reverse_index in Dafny

A model of the `reverse_index` library: an in-memory reverse index that keeps
a buffer of strings and a map from keys to the buffer positions indexed under
them. The core (`ReverseIndex`) is driven by one of two index functions:

- the prefix split of `WordReverseIndex`, which files every word under each of
  its prefixes and so answers completion queries;
- the whitespace split of `DocumentReverseIndex`, which files every document
  under each of its words and answers multi-word searches.

It also models `RiIter`, a cursor over the buffer.

Modules, one concept each:

- `KeyMaps`: the `BTreeMap<String, Vec<usize>>` as `map<string, seq<nat>>`, and
  the single "push or create" step both index functions use.
- `StringOrder`: the `Ord` of `String`, and `sort` and `dedup` on a vector of
  strings.
- `PrefixIndexing`: the word index's `split_string_and_index`. It is a loop
  method, proved against a closed-form specification.
- `WhitespaceIndexing`: `split_whitespace` and the document index's
  `split_string_and_index`.
- `Core`: the `ReverseIndex` class (`from_buffer`, `add_word`, `get`,
  `eject_buffer`, `Index`, `concatonate_dedup_and_reindex`).
  - Its invariant `Valid()` says that every stored position is a position of
    the buffer and that every list is in build order.
  - The index function is the datatype `IndexFn`, with one constructor per
    strategy of the library.
- `WordIndex`, `DocumentIndex`: the two wrappers. Each keeps the core's map
  equal to a full build of its buffer with its own strategy. `DocumentIndex`
  also has the multi-word search (`get_raw_indicies`, `get`, `get_indices`).
- `Iteration`: `RiIter` with `next` and `next_back`, and `RiIndex` as a
  position handle.
- `DocumentTestText`, `DocumentTests`: the document index's unit tests, with
  their expected results proved.

Behaviour that the code shows and the model follows:

- **Search results are not ranked.** `get_raw_indicies` counts how many query
  words hit each position. It then drops the counts and yields the positions
  in ascending order, since that is how a `BTreeMap<usize, usize>` iterates.
  The doc comment on `get` describes ordering by the number of matched terms.
  The model follows the code: results come out in buffer order. The unit
  tests' expected results are still proved, because there the best document
  is also the first one in the buffer.
- **The prefix loop counts bytes but builds keys from characters.** For ASCII
  text, every non-empty prefix receives the position once. A word containing
  multi-byte characters makes the loop run past its last character, so the
  whole word is pushed once more for every extra byte.
  `WordIndex.TwoByteWordIndexedTwice` shows this on a one-character word.
- **`RiIter` has off-by-one guards.** It tests `index > len` where
  `index >= len` is needed, and `next_back` steps below zero. Both methods
  take these cases as preconditions.

## Model

| member | source | states |
|---|---|---|
| KeyMaps.Push | src/word_reverse_index.rs:22-32 | the entry of `k` becomes its old list (empty when absent) followed by `p`; no other key's list changes and only `k` can become a new key |
| StringOrder.BelowTotal | src/reverse_index.rs:26 | any two strings are comparable in the string order `Below`, which models `String`'s `Ord`: lexicographic on code points, a proper prefix first |
| StringOrder.BelowAntisymmetric | src/reverse_index.rs:26 | two strings each at most the other are equal |
| StringOrder.BelowTransitive | src/reverse_index.rs:26 | the string order is transitive |
| StringOrder.Sort | src/reverse_index.rs:92 | the result is sorted and is a permutation (same multiset) of the input |
| StringOrder.Dedup | src/reverse_index.rs:93 | the result has exactly the input's items, no two adjacent items equal, keeps the first item, and is the input itself when the input has no adjacent repeats |
| StringOrder.DedupAppend | src/reverse_index.rs:93 | `dedup` keeps the order and works run by run: where two parts meet on different items, deduplicating the whole deduplicates each part in place |
| StringOrder.DedupRun | src/reverse_index.rs:93 | two equal adjacent items collapse to one |
| StringOrder.DedupKeepsSeparatedRepeats | src/reverse_index.rs:93 | a repeat that is not adjacent stays: `["a", "b", "a"]` is unchanged |
| StringOrder.DedupSorted | src/reverse_index.rs:92-93 | deduplicating a sorted sequence gives a strictly sorted one (no two equal items anywhere) |
| StringOrder.SortDedup | src/reverse_index.rs:89-95 | sort then dedup gives a strictly sorted sequence whose items are exactly those of the input |
| PrefixIndexing.ByteLen | src/word_reverse_index.rs:18 | the UTF-8 byte length is never less than the character count |
| PrefixIndexing.AsciiByteLen | src/word_reverse_index.rs:18-20 | on ASCII text the byte length equals the character count |
| PrefixIndexing.PushPrefixesLookup | src/word_reverse_index.rs:19-33 | after the first `n` loop iterations each key's list is its old list plus one copy of `p` per iteration whose key it was; the key of iteration `i` is `PrefixKey(s, i)`, the first `min(i, |s|)` characters, as `chars().take(i).collect()` gives |
| PrefixIndexing.SplitPrefixesLookup | src/word_reverse_index.rs:16-34 | indexing `s` at `p` appends `PrefixHits(s, k)` copies of `p` to the list of every key `k`; keys that are not non-empty prefixes of `s` are unchanged; the empty string changes nothing |
| PrefixIndexing.AsciiPrefixHits | src/word_reverse_index.rs:18-20 | for ASCII `s`, each non-empty prefix receives `p` exactly once and no other key receives it |
| PrefixIndexing.IndexPrefixes | src/word_reverse_index.rs:16-34 | the `for i in 1..=len` loop with its entry update yields exactly the specified prefix split of `buffer[p]` |
| WhitespaceIndexing.WordLen | src/document_reverse_index.rs:24 | the leading run has no whitespace and ends at whitespace or at the end |
| WhitespaceIndexing.Words | src/document_reverse_index.rs:24 | every word that `split_whitespace` yields is non-empty and free of whitespace, where `IsWhitespace` is `char::is_whitespace` (the Unicode White_Space characters) |
| WhitespaceIndexing.WordsConcat | src/document_reverse_index.rs:24 | the words, joined without separators, are the document with its whitespace removed |
| WhitespaceIndexing.BlankHasNoWords | src/document_reverse_index.rs:24 | a document has no words exactly when it is empty or all whitespace |
| WhitespaceIndexing.JoinWords | src/document_reverse_index.rs:24 | splitting words joined by single spaces gives back the same words |
| WhitespaceIndexing.PushWordsLookup | src/document_reverse_index.rs:24-36 | pushing `p` under a sequence of words appends to each key one copy of `p` per occurrence of that key among the words |
| WhitespaceIndexing.SplitWordsLookup | src/document_reverse_index.rs:21-37 | indexing document `s` at `p` appends one `p` per occurrence of `k` in `s` to the list of each key `k`; other keys are unchanged; a blank document leaves the map unchanged |
| WhitespaceIndexing.IndexWords | src/document_reverse_index.rs:21-37 | the loop over `split_whitespace` with its entry update yields exactly the specified word split of `buffer[p]` |
| Core.StepLookup | src/reverse_index.rs:12-14 | either index function run for position `p` only appends copies of `p`, as many per key as that function's hit count |
| Core.StepKeepsInvariants | src/reverse_index.rs:36-38 | indexing position `p` in a map whose positions are below `p` keeps them below `p + 1` and keeps every list non-decreasing |
| Core.BuildInvariants | src/reverse_index.rs:36-38 | a map built from the buffer holds only positions of the buffer, each list non-decreasing |
| Core.BuildLookup | src/reverse_index.rs:28-40 | in a built map the list of `k` is every position in ascending order, repeated as often as its item is indexed under `k` |
| Core.OccurrencesMembership | src/reverse_index.rs:28-40 | a position occurs in that list exactly when it is in range and its item is indexed under `k` |
| Core.BuildAppend | src/reverse_index.rs:50-63 | appending an item and indexing only its position equals a full rebuild of the longer buffer |
| Core.ItemsAt | src/reverse_index.rs:69-74 | mapping positions to items keeps the length and gives `buffer[ps[i]]` at each `i` |
| Core.RunIndexFn | src/reverse_index.rs:37 | calling the index function for `p` gives the specified step for that function |
| Core.ReverseIndex.FromBuffer | src/reverse_index.rs:28-40 | the buffer is the input unchanged; the map is the ascending per-position build, empty for an empty input; the invariant holds |
| Core.ReverseIndex.Index | src/reverse_index.rs:17-23 | indexing gives `buffer[i]` |
| Core.ReverseIndex.AddWord | src/reverse_index.rs:50-63 | the buffer becomes old buffer plus `item`; the map gains only copies of the new position, one per hit under each key; the invariant is kept |
| Core.ReverseIndex.Get | src/reverse_index.rs:67-79 | the result has one item per stored position of `search`, in stored order, each `buffer[position]`; an absent key gives `[]` |
| Core.ReverseIndex.EjectBuffer | src/reverse_index.rs:82-84 | gives back exactly the buffer |
| Core.ReverseIndex.ConcatenateDedupAndReindex | src/reverse_index.rs:89-95 | a new index whose buffer is sorted with no equal items and holds exactly the old and added items, and whose map is a fresh build of that buffer |
| WordIndex.AsciiLookup | src/word_reverse_index.rs:16-37 | over ASCII items, the items held under `k` in a prefix build are exactly the items starting with `k`, in buffer order |
| WordIndex.WordReverseIndex.constructor | src/word_reverse_index.rs:37 | wrapping a core prefix-built from its buffer gives a valid word index |
| WordIndex.WordReverseIndex.FromBuffer | src/word_reverse_index.rs:36-38 | a valid word index whose buffer is the input |
| WordIndex.WordReverseIndex.AddWord | src/word_reverse_index.rs:40-44 | appends `s`; each key gains `PrefixHits(s, k)` copies of the new position; the map stays the prefix build of the buffer |
| WordIndex.WordReverseIndex.Get | src/word_reverse_index.rs:46-48 | the items at the positions the build stores under `search`; on ASCII buffers exactly the words starting with `search`, in buffer order |
| WordIndex.WordReverseIndex.ConcatenateDedupAndReindex | src/word_reverse_index.rs:50-54 | a valid word index over the strictly sorted union of old and added words |
| WordIndex.TwoByteWordIndexedTwice | src/word_reverse_index.rs:18-20 | the one-character, two-byte word "é" is stored twice under itself |
| WordIndex.TestWordsCompletions | src/word_reverse_index.rs:57-93 | among the test words, "app" completes to "app" and "apple", and "apple" completes to "apple" alone |
| WordIndex.RiSubstring | src/word_reverse_index.rs:57-74 | `get("app")` over the test words is `["app", "apple"]` (length 2) |
| WordIndex.RiFullstring | src/word_reverse_index.rs:76-93 | `get("apple")` over the test words is `["apple"]` (length 1) |
| WordIndex.RiAddWord | src/word_reverse_index.rs:95-111 | after adding "yeet" to ["app", "apple"], `get("ye")` is exactly `["yeet"]` |
| Iteration.RiIter.constructor | src/ri_iter.rs:3-6 | a cursor at `index` over the given index |
| Iteration.RiIter.Next | src/ri_iter.rs:11-19 | past the end: `None` with the cursor unchanged; before the end: `Some(buffer[index])` and the cursor moves up by one; the index itself is untouched |
| Iteration.RiIter.NextBack | src/ri_iter.rs:23-31 | past the end: `None` with the cursor unchanged; inside: `Some(buffer[index])` and the cursor moves down by one; the index itself is untouched |
| DocumentIndex.MatchedPositionsMembership | src/document_reverse_index.rs:59-63 | a position is matched exactly when it is in the list of some query word |
| DocumentIndex.Ascending | src/document_reverse_index.rs:64-74 | the set's members below the bound, strictly increasing, each once |
| DocumentIndex.SearchPositions | src/document_reverse_index.rs:55-75 | every position a search yields is below the bound |
| DocumentIndex.SearchPositionsMembership | src/document_reverse_index.rs:55-75 | with all positions in range, a search yields exactly the positions held under some query word |
| DocumentIndex.NoMatchFindsNothing | src/document_reverse_index.rs:56-62 | a query none of whose words is a key, blank queries included, yields nothing |
| DocumentIndex.Tally | src/document_reverse_index.rs:64-73 | the fold raises each listed position's count by its number of occurrences, adding positions seen for the first time |
| DocumentIndex.ItemsInBuffer | src/document_reverse_index.rs:87-89 | when all positions are in range, the result is `buffer[ps[i]]` for each `i`, same length |
| DocumentIndex.SearchFindsDocuments | src/document_reverse_index.rs:21-75 | over a whitespace build, a search yields exactly the documents that contain at least one query word |
| DocumentIndex.DocumentReverseIndex.constructor | src/document_reverse_index.rs:42 | wrapping a core whitespace-built from its buffer gives a valid document index |
| DocumentIndex.DocumentReverseIndex.FromBuffer | src/document_reverse_index.rs:41-43 | a valid document index whose buffer is the input, not deduplicated |
| DocumentIndex.DocumentReverseIndex.AddDocument | src/document_reverse_index.rs:50-52 | appends `s`; each word of `s` gains one copy of the new position per occurrence; the map stays the whitespace build |
| DocumentIndex.DocumentReverseIndex.GetRawIndices | src/document_reverse_index.rs:55-75 | the positions held under any query word, each once, strictly increasing; counts are not used |
| DocumentIndex.DocumentReverseIndex.Get | src/document_reverse_index.rs:85-92 | the first `min(n, matches)` documents at the search positions, in ascending position order |
| DocumentIndex.DocumentReverseIndex.GetIndices | src/document_reverse_index.rs:95-102 | handles to the same positions as `get`, same order and bound, all inside the buffer, bound to this index |
| DocumentIndex.DocumentReverseIndex.ConcatenateDedupAndReindex | src/document_reverse_index.rs:106-110 | a valid document index over the strictly sorted union of old and added documents |
| DocumentTestText.TestDocumentsSpelled | src/document_reverse_index.rs:132-136 | the test documents, built as their words joined by single spaces, are exactly the three literal strings of the tests |
| DocumentTests.TestSearch | src/document_reverse_index.rs:130-183 | on the test documents a search yields, in order, the positions of the documents sharing a word with the query |
| DocumentTests.GetThe | src/document_reverse_index.rs:130-144 | searching "the" finds one document, though that document contains "the" twice |
| DocumentTests.GetOrdered | src/document_reverse_index.rs:147-163 | searching "brown fox jumps" finds two documents, the first being "the quick brown fox jumps over the lazy dog" |
| DocumentTests.GetEqualQueryQuality | src/document_reverse_index.rs:167-183 | searching "brown jumps" finds the first and the third document, in that order |

## Left out

- `from_iter` (src/reverse_index.rs:42-44 and its document wrapper) only collects an iterator into a vector; `FromBuffer` on a sequence covers it.
- `Vec::with_capacity` sizing in both index functions is a performance hint with no observable effect.
- The `apply` crate's `.apply(Wrapper)` is function application; it is the wrappers' constructors.
- The wiring in src/lib.rs and the test-only `Document` struct are not part of this model.
- Lifetimes and borrowing: `RiIter` holds the index by reference; the model holds the object and proves it unchanged.
- Rust's sort algorithm: `Sort` is specified by its result (sorted and a permutation) and computed by insertion sort.
- In-place updates of the key map inside an index function are modelled on values: the strategies take and return the map, and the class field is reassigned. Aliasing of the map is not captured.
- `IndexFn` is closed to the library's two strategies, so an arbitrary user-supplied index function is not modelled.
- `RiIndex` is not defined in the repository's code; it is modelled as a position paired with the index it refers to, and its methods are not modelled.
- The `get_iters_forward` and `get_iters_backward` tests call `get_iters`, `forwards` and `backwards`, which do not exist in the repository's code.
- Count-based ranking of search results is not modelled because the code does not do it (the counts are dropped).
- Unicode: `IsWhitespace` lists the White_Space characters; strings are sequences of code points, and byte lengths are computed from them.
- Iteration.RiIter.Next: requires `index != len`; the code indexes out of bounds there and panics.
- Iteration.RiIter.NextBack: requires `index != len` and, inside the buffer, `index > 0`; the code panics out of bounds at `len` and underflows `usize` at 0.
- DocumentIndex.DocumentReverseIndex.GetRawIndices: requires the index invariant, which is what bounds the ascending enumeration by the buffer length.
