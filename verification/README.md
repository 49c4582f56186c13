# Spell-Checker-Pro-V4: prefix autocomplete and spell correction in Dafny

This project models the word-lookup engine of Spell-Checker-Pro-V4, and
proves properties of the model. The engine has two parts.

- **The dictionary loader** (`project/src/data/dictionaryLoader.ts`).
  - A `DictionaryTrie` holds the seed dictionary. Its parts are:
    - a trie of lower-cased words;
    - a `wordMap` from a lower-cased word to its record;
    - a `words` list;
    - a FIFO-evicting `searchCache` of at most 1000 answers.
  - `search` walks to the prefix, then runs a depth-first collection that
    stops at 50 records and visits the children by frequency. It then
    sorts by frequency and cuts at `limit`.
  - `getSpellingSuggestions` proceeds as follows:
    1. It filters the whole word list by length gap.
    2. It measures each word with `calculateEditDistance`, which takes
       shortcuts.
    3. It keeps the distances between 1 and the bound.
    4. It sorts by distance, then by frequency, and cuts the list.
    5. It caches the answer in a 500-entry FIFO table.
- **The user dashboard page** (`project/src/pages/UserDashboard.tsx`).
  - The page keeps its own small trie of words and frequencies. Its
    `search` returns the ten most frequent words under a prefix.
  - `fetchSuggestions` fills the suggestion list. It uses autocompletion
    first. When the trie holds no word under the query, it falls back to
    the five vocabulary words nearest the query, taking only those at
    Levenshtein distance at most 2. As written, the trie a fetch consults
    is always empty, so only the fallback ever runs (see "## Findings").
  - The handlers do the following:
    - selecting a suggestion records it in the five recent searches;
    - the arrow, Enter and Escape keys move the selection, pick the
      highlighted suggestion, or close the list.

## How the model is laid out

- **Tries as node sequences (`TrieArena`).** A trie is a `seq` of nodes,
  each with its child edges. Node 0 is the root, and every child has a
  larger index than its parent. A ghost sequence gives the path of every
  node. `Walk` follows a string from a node, and `FindNode` is its loop.
- **Shared word records (`WordRecords`, `DictionaryLoader`).**
  - In the source, one record object is held by `words`, `wordMap`, a trie
    node and the seed array at once.
  - The model keeps records in a store indexed by id, and the holders keep
    ids. An update through `wordMap` is therefore seen by every holder.
- **Pure pipelines as functions.** The array pipelines of `search`,
  `getSpellingSuggestions` and `fetchSuggestions` are functions.
  - `Seqs` gives `Filter`, `Map`, `Take` and the JavaScript `slice(0, limit)`.
  - `Ranking` gives a stable insertion sort on a key: ascending first
    component, then descending second component. This matches the stable
    `Array.prototype.sort` under the source's comparators.
- **Stateful parts as classes.**
  - `DictionaryLoader.DictionaryTrie`, `DictionaryLoader.SpellChecker` and
    `UserDashboard.Trie` have fields that their methods reassign. Their
    loops (`for` and `while`) carry the invariants their proofs need.
  - The two dynamic-programming edit distances fill an `array2`, as the
    source fills its nested arrays.
- **Page state as values (`UserDashboard`).** The React state of the page
  is a `PageState` value, and each handler is a function on it.

## Model

| member | source | states |
|---|---|---|
| Text.Lower | project/src/data/dictionaryLoader.ts:181 | `toLowerCase` keeps the length and lower-cases exactly the ASCII capitals, character by character |
| Text.LowerIsLower | project/src/data/dictionaryLoader.ts:181 | a lower-cased word has no capital, and lower-casing it again changes nothing |
| Text.LowerPrefix | project/src/data/dictionaryLoader.ts:216-219 | lower-casing keeps a prefix a prefix |
| TrieArena.Lookup | project/src/data/dictionaryLoader.ts:198-201 | `children.has(c)` fails exactly when no edge is labelled `c`; otherwise the child it finds is on an edge labelled `c` |
| TrieArena.FindNode | project/src/data/dictionaryLoader.ts:215-226 | the walk loop from the root finds the node the whole string leads to, or reports that some character is missing |
| TrieArena.WalkConcat | project/src/pages/UserDashboard.tsx:46-52 | walking `s + t` is walking `s` and then `t`; a walk that fails on `s` fails on `s + t` |
| TrieArena.WalkLabel | project/src/pages/UserDashboard.tsx:63-71 | the node a walk reaches is labelled with the start node's path followed by the walked string, the path `dfs` builds up |
| TrieArena.AddChildShaped | project/src/data/dictionaryLoader.ts:198-200 | adding a missing child keeps the tree shape and every earlier walk, and the new node is reached through its edge |
| TrieArena.SetTerminalShaped | project/src/data/dictionaryLoader.ts:204-205 | marking a node as a word end changes no edge, so every walk is unchanged |
| PrefixSearch.MapMatchesTrie | project/src/data/dictionaryLoader.ts:311-318 | `wordMap` has a word exactly when the word's trie path ends a word, and that node holds the record `wordMap` holds |
| PrefixSearch.ExtendPath | project/src/data/dictionaryLoader.ts:197-202 | one step of the insert walk, which adds the child if it is missing, keeps the trie invariant and extends the walked prefix by one character |
| PrefixSearch.SetTerminalConsistent | project/src/data/dictionaryLoader.ts:194-205 | ending a new word's path at its record while adding the word to `wordMap` keeps the trie invariant |
| PrefixSearch.StoreUpdateConsistent | project/src/data/dictionaryLoader.ts:185-189 | raising a stored record's frequency and commonality, or adding a record, keeps the trie invariant |
| PrefixSearch.SortedChildren | project/src/data/dictionaryLoader.ts:252-257 | the children `dfs` visits are a permutation of the node's children |
| PrefixSearch.CollectTruncates | project/src/data/dictionaryLoader.ts:243-263 | `dfs` with its early stop at 50 yields exactly the first 50 records of the same traversal without the stop |
| PrefixSearch.CollectAllSound | project/src/data/dictionaryLoader.ts:243-249 | every record the traversal finds below a node is a live record whose word starts with that node's path |
| PrefixSearch.CollectAllFinds | project/src/data/dictionaryLoader.ts:259-262 | the record at the end of every path below a node is found by the traversal from that node |
| PrefixSearch.WordsUnderExact | project/src/data/dictionaryLoader.ts:215-230 | the records under a prefix are exactly the live records whose lower-cased word starts with the prefix |
| PrefixSearch.SearchCandidates | project/src/data/dictionaryLoader.ts:228-230 | `search` sorts exactly the first 50 records under the prefix |
| PrefixSearch.SearchMissingPrefix | project/src/data/dictionaryLoader.ts:219-224 | when the prefix has no path, no stored word starts with it and the answer is empty |
| PrefixSearch.SearchRanked | project/src/data/dictionaryLoader.ts:232-235 | the answer has at most 50 records, at most `limit` when `limit` is not negative, and is ordered by decreasing frequency |
| PrefixSearch.SearchSound | project/src/data/dictionaryLoader.ts:208-241 | every record of the answer is the live record of a word that starts with the lower-cased prefix |
| PrefixSearch.SearchTopK | project/src/data/dictionaryLoader.ts:232-235 | when the prefix has at most 50 words, a word left out of the answer means `limit` records came back, none less frequent than it |
| PrefixSearch.SearchTiesInVisitOrder | project/src/data/dictionaryLoader.ts:233-235 | records of equal frequency come back in the order `dfs` visited them |
| Ranking.SortPermutes | project/src/data/dictionaryLoader.ts:233-234 | the sort returns a permutation of its input |
| Ranking.SortIsSorted | project/src/data/dictionaryLoader.ts:233-234 | no element of the sorted result ranks strictly before an element placed ahead of it |
| Ranking.SortIsStable | project/src/data/dictionaryLoader.ts:389-395 | elements with equal keys keep their input order |
| Ranking.TopOfSorted | project/src/data/dictionaryLoader.ts:396 | an element that the cut to `k` leaves out of a sorted list means `k` elements were kept, none ranking below it |
| FifoCache.Get | project/src/data/dictionaryLoader.ts:211-212 | a lookup misses exactly when no entry has the key; a hit returns the value bound to the key |
| FifoCache.EvictFirst | project/src/data/dictionaryLoader.ts:267-270 | deleting the first key of a table with distinct keys drops exactly the oldest entry |
| FifoCache.SetProperties | project/src/data/dictionaryLoader.ts:272 | `set` keeps keys distinct and binds the key to the value; a new key goes last, and an existing key keeps its place |
| FifoCache.PutProperties | project/src/data/dictionaryLoader.ts:265-273 | after the put, keys stay distinct, the size stays within capacity, the key maps to the new answer, and nothing else is invented; a new key drops the oldest entry when the table is full |
| FifoCache.GetAfterPut | project/src/data/dictionaryLoader.ts:265-273 | any other key keeps its answer, unless it was the oldest key and the table was full |
| WordRecords.ByCommonalityExact | project/src/data/dictionaryLoader.ts:286-288 | the filter keeps exactly the records of that commonality, with their multiplicities and in order, and counts as many as the matching `getStats` count |
| WordRecords.CommonalitiesPartition | project/src/data/dictionaryLoader.ts:286-295 | the three commonality filters together hold every record, each as often as the input does |
| WordRecords.StatsAddUp | project/src/data/dictionaryLoader.ts:292-295 | the common, uncommon and rare counts add up to the total |
| DictionaryLoader.Ids | project/src/data/dictionaryLoader.ts:168 | the copy of the seed list holds every seed record once, in order |
| DictionaryLoader.Records | project/src/data/dictionaryLoader.ts:281-282 | the records a list of ids names, position by position |
| DictionaryLoader.SeedKeysMembership | project/src/data/dictionaryLoader.ts:171-173 | a word is a key after loading some seed records exactly when one of those records lower-cases to it |
| DictionaryLoader.DistinctSeedsRepeat | project/src/data/dictionaryLoader.ts:166-174 | when no two seed words are equal up to case, every seed record is pushed again, so `words` lists each seed record twice |
| DictionaryLoader.FirstOccurrencesStep | project/src/data/dictionaryLoader.ts:171-173 | one more seed record adds one key and one pushed record exactly when its lower-cased word is new |
| DictionaryLoader.FirstOccurrencesCount | project/src/data/dictionaryLoader.ts:171-173 | the records the loop pushes are as many as the distinct lower-cased seed words, the unique count `getTotalWords` is documented to give |
| DictionaryLoader.SeedsCountedTwice | project/src/data/dictionaryLoader.ts:166-174 | after loading, `words` is as long as the seed list plus the number of distinct spellings, so a non-empty seed list gives more entries than unique words |
| DictionaryLoader.LoadFirstIds | project/src/data/dictionaryLoader.ts:171-173 | after each insertion, every loaded spelling maps to the index of its first occurrence in the seed list |
| DictionaryLoader.DistinctSeedIsNew | project/src/data/dictionaryLoader.ts:171-173 | when no two seed words are equal up to case, each seed word is new when its turn comes |
| DictionaryLoader.DistinctFirstIds | project/src/data/dictionaryLoader.ts:171-173 | when no two seed words are equal up to case, `wordMap` maps each lower-cased seed word to that seed's own record |
| DictionaryLoader.LoadSeedStep | project/src/data/dictionaryLoader.ts:171-173 | one pass of the loading loop keeps the spellings, extends `words` and the keys by first occurrences, and keeps the first-occurrence map |
| DictionaryLoader.LoadStep | project/src/data/dictionaryLoader.ts:171-173 | one seed insertion extends `words` by the record's id exactly when its lower-cased word is new, and adds that word to the keys |
| DictionaryLoader.AddPath | project/src/data/dictionaryLoader.ts:197-202 | the insert walk creates the missing children and ends at the node the word's path leads to, keeping the trie invariant |
| DictionaryLoader.NewWordIndexing | project/src/data/dictionaryLoader.ts:193-205 | adding a new word to `wordMap` and `words` while ending its path at its record keeps the trie, `wordMap`, `words` and the store in agreement |
| DictionaryLoader.StoreUpdateIndexing | project/src/data/dictionaryLoader.ts:185-189 | updating a record in place with the same spelling, or storing a new record, keeps that agreement |
| DictionaryLoader.DictionaryTrie.constructor | project/src/data/dictionaryLoader.ts:162-174 | after loading, the trie is valid and the cache is empty; the store keeps every seed's spelling; `words` is the seed list followed by the first record of each lower-cased spelling, so its length is the seed count plus the key count; the keys are the lower-cased seed words, each mapped to its first occurrence; when no two seeds are equal up to case, the store is the seed list unchanged and each seed's word maps to that seed |
| DictionaryLoader.LoadedAll | project/src/data/dictionaryLoader.ts:166-174 | a finished load gives the facts the constructor promises: spellings kept, `words` as the seed list plus first occurrences, the keys, the first-occurrence map, and the seed list unchanged when no two seeds are equal up to case |
| DictionaryLoader.DictionaryTrie.InsertSeed | project/src/data/dictionaryLoader.ts:171-173 | inserting the next seed record keeps the dictionary valid, the cache empty, and the load state one seed further |
| DictionaryLoader.DictionaryTrie.InsertSeeds | project/src/data/dictionaryLoader.ts:171-173 | the `forEach` over the seed list leaves the dictionary valid, the cache empty, and every seed loaded |
| DictionaryLoader.DictionaryTrie.ClearCache | project/src/data/dictionaryLoader.ts:276-278 | the cache is empty and nothing else changes |
| DictionaryLoader.DictionaryTrie.InsertStored | project/src/data/dictionaryLoader.ts:176-206 | for a known word, only a strictly higher frequency changes the stored record's frequency and commonality; a new word joins `wordMap`, `words` and the trie; the cache is emptied either way |
| DictionaryLoader.DictionaryTrie.Insert | project/src/data/dictionaryLoader.ts:176-206 | the same for a fresh record; afterwards the word in any casing is found by `hasWord` and `getWord`, and its trie path ends at the record `wordMap` holds |
| DictionaryLoader.DictionaryTrie.Dfs | project/src/data/dictionaryLoader.ts:243-263 | the recursive collection appends the records below the node in visiting order, stopping at 50 |
| DictionaryLoader.DictionaryTrie.CacheResult | project/src/data/dictionaryLoader.ts:265-273 | the oldest key is evicted when the table is full, then the answer is stored, and every cached answer stays current |
| DictionaryLoader.DictionaryTrie.Search | project/src/data/dictionaryLoader.ts:208-241 | a cache hit or a fresh search gives the answer an uncached search computes; a miss caches it with FIFO eviction; the dictionary is unchanged |
| DictionaryLoader.DictionaryTrie.AllWords | project/src/data/dictionaryLoader.ts:281-283 | every record `wordMap` holds appears in the copy of `words` |
| DictionaryLoader.DictionaryTrie.GetWordsByCommonality | project/src/data/dictionaryLoader.ts:286-288 | exactly the entries of `words` with that commonality, each exactly as often as in `words` |
| DictionaryLoader.DictionaryTrie.GetStats | project/src/data/dictionaryLoader.ts:291-308 | the total is the length of `words`; the common, uncommon and rare counts are the lengths of the three filters, whose entries together are the entries of `words`, copy for copy |
| DictionaryLoader.DictionaryTrie.HasWord | project/src/data/dictionaryLoader.ts:311-313 | true exactly when the lower-cased word's trie path ends a word |
| DictionaryLoader.DictionaryTrie.GetWord | project/src/data/dictionaryLoader.ts:316-318 | a record exactly when the path ends a word; it is the record stored at that node, and it is spelled like the query up to case |
| DictionaryLoader.DictionaryTrie.GetTotalWords | project/src/data/dictionaryLoader.ts:321-323 | equals the total of `getStats` |
| DictionaryLoader.PutKeepsSpellCacheValid | project/src/data/dictionaryLoader.ts:399-404 | evicting the oldest entry when 500 are held and then caching an answer shaped as its key demands keeps the keys distinct, at most 500, and every cached answer shaped as its key demands |
| DictionaryLoader.SpellChecker.constructor | project/src/data/dictionaryLoader.ts:364-365 | the spell-check cache starts empty over the loader's dictionary |
| DictionaryLoader.SpellChecker.GetSpellingSuggestions | project/src/data/dictionaryLoader.ts:367-407 | a hit returns the answer cached earlier, with the cache unchanged, and later insertions do not refresh it; a miss computes the pipeline as written over `getAllWords()`, with the shortcut distance, holds only records of `getAllWords()`, and is cached with FIFO eviction at 500; every answer has at most `limit` entries when `limit` is not negative, holds only words within the length gap at shortcut distance between 1 and `maxDistance`, and is ordered by that distance, then decreasing frequency; a miss with a bound of 2 or less gives exactly the answer with true edit distances |
| EditDistance.LevenshteinProperties | project/src/pages/UserDashboard.tsx:75-98 | the table distance is symmetric, is zero exactly on equal strings, lies between the length gap and the longer length, and is the other's length against the empty string |
| EditDistance.LevenshteinTable | project/src/pages/UserDashboard.tsx:75-98 | filling the table row by row returns the Levenshtein distance |
| EditDistance.PrunedDistanceProperties | project/src/data/dictionaryLoader.ts:330-337 | the shortcut distance is symmetric and zero exactly on equal strings; it is exact when the lengths are at most 2 apart or the result is at most 2; otherwise it only merges distances of 3 and above |
| EditDistance.CalculateEditDistance | project/src/data/dictionaryLoader.ts:330-361 | the shortcuts followed by the table compute the shortcut distance |
| SpellCheck.KeptExact | project/src/data/dictionaryLoader.ts:377-388 | the two filters keep exactly the records within the length gap whose distance is between 1 and the bound, each with its distance |
| SpellCheck.RankedExact | project/src/data/dictionaryLoader.ts:383-395 | the sort receives exactly those records and orders them by distance, then decreasing frequency |
| SpellCheck.SuggestShape | project/src/data/dictionaryLoader.ts:383-397 | every suggestion is an admitted dictionary record; there are at most `limit`; they come in rank order |
| SpellCheck.SuggestTopK | project/src/data/dictionaryLoader.ts:389-396 | an admitted record left out means `limit` suggestions came back, none ranking below it |
| SpellCheck.SpellingSuggestionsExact | project/src/data/dictionaryLoader.ts:337-388 | with a bound of at most 2, each suggestion's shortcut distance is its true distance, between 1 and the bound |
| SpellCheck.ExactSpellingSuggestionsWithinBound | project/src/data/dictionaryLoader.ts:383-388 | with the true distance, every suggestion is a dictionary record at distance 1 to the bound, whatever the bound |
| SpellCheck.ExactAgreesForSmallBounds | project/src/data/dictionaryLoader.ts:337-388 | for bounds of at most 2 the code as written gives exactly the corrected answer |
| SpellCheck.SentinelAdmitsFarWord | project/src/data/dictionaryLoader.ts:337-388 | with bound 3, "bcde" is suggested for "a" although its distance is 4 |
| UserDashboard.AddChildKeepsFrequency | project/src/pages/UserDashboard.tsx:36-38 | adding a child node changes no word's frequency |
| UserDashboard.AddChildRepresents | project/src/pages/UserDashboard.tsx:36-38 | adding a child node keeps the trie holding exactly the same words and frequencies |
| UserDashboard.DescendStep | project/src/pages/UserDashboard.tsx:35-40 | one step of the insert walk keeps the contents and extends the walked prefix |
| UserDashboard.Descend | project/src/pages/UserDashboard.tsx:34-40 | the insert walk ends at the node of the lower-cased word, with the same words held |
| UserDashboard.SetTerminalRepresents | project/src/pages/UserDashboard.tsx:41-42 | marking the node as a word end with the frequency sets that word's frequency and no other |
| UserDashboard.HitsSound | project/src/pages/UserDashboard.tsx:63-71 | every hit `dfs` finds below a node is a word the trie holds, under that node's path, with its frequency |
| UserDashboard.HitsComplete | project/src/pages/UserDashboard.tsx:63-71 | every word below a node is found by `dfs` from it |
| UserDashboard.SearchHitsSound | project/src/pages/UserDashboard.tsx:54-60 | the kept hits number at most ten, are sorted by decreasing frequency, and are held words under the prefix |
| UserDashboard.SearchSound | project/src/pages/UserDashboard.tsx:45-61 | `search` returns at most ten held words under the lower-cased prefix, in decreasing order of frequency |
| UserDashboard.SearchFinds | project/src/pages/UserDashboard.tsx:46-58 | every held word under the prefix is among the sorted hits that the cut to ten is taken from |
| UserDashboard.HitCutTopK | project/src/pages/UserDashboard.tsx:57-60 | a sorted hit left out by the cut to ten means ten words came back, none less frequent |
| UserDashboard.SearchTopK | project/src/pages/UserDashboard.tsx:45-61 | a held word under the prefix that `search` leaves out means ten words came back, none less frequent than it |
| UserDashboard.SearchEmpty | project/src/pages/UserDashboard.tsx:45-61 | `search` is empty exactly when the trie holds no word under the prefix |
| UserDashboard.EmptyTrieRepresents | project/src/pages/UserDashboard.tsx:30-31 | the root alone holds no word |
| UserDashboard.Trie.constructor | project/src/pages/UserDashboard.tsx:30-31 | a new trie is a root alone (`EmptyTrie`, the trie `FreshTrieAlwaysFallsBack` searches) and holds no word |
| UserDashboard.Trie.Insert | project/src/pages/UserDashboard.tsx:33-43 | the lower-cased word now has the given frequency, and every other word keeps its own |
| UserDashboard.Trie.Dfs | project/src/pages/UserDashboard.tsx:63-71 | the recursive collection appends every hit below the node, in child order |
| UserDashboard.Trie.Search | project/src/pages/UserDashboard.tsx:45-61 | the walk, the collection, the sort and the cut to ten return at most ten held words under the lower-cased prefix, and nothing exactly when there is no such word |
| UserDashboard.Trie.LoadVocabulary | project/src/pages/UserDashboard.tsx:110-115 | the mount effect inserts the word at index `i` with frequency `length - i`, in order |
| UserDashboard.LoadedKeys | project/src/pages/UserDashboard.tsx:112-114 | loading adds exactly the lower-cased vocabulary words, and a word no entry lower-cases to keeps its frequency |
| UserDashboard.LoadedLastWins | project/src/pages/UserDashboard.tsx:112-114 | a word entered more than once keeps the frequency of its last entry |
| UserDashboard.FetchSuggestions | project/src/pages/UserDashboard.tsx:117-121 | a query shorter than two characters gives no suggestions |
| UserDashboard.FetchAutocomplete | project/src/pages/UserDashboard.tsx:129-138 | when the trie holds a word under the query, between one and ten autocomplete suggestions come back, each a held word under the query |
| UserDashboard.FetchSpellcheck | project/src/pages/UserDashboard.tsx:139-156 | when the trie holds no word under the query, the list is the spell-check fallback |
| UserDashboard.FreshTrieAlwaysFallsBack | project/src/pages/UserDashboard.tsx:108-140 | over the unfilled trie a render builds, every query of two or more characters gets exactly the spell-check fallback |
| UserDashboard.CandidateSound | project/src/pages/UserDashboard.tsx:141-146 | a kept candidate is a vocabulary word carrying its Levenshtein distance, which is at most 2 |
| UserDashboard.CandidateComplete | project/src/pages/UserDashboard.tsx:141-146 | every vocabulary word within distance 2 is kept |
| UserDashboard.RankedCandidatesExact | project/src/pages/UserDashboard.tsx:141-147 | the sorted candidates are exactly the vocabulary words within distance 2, nearest first |
| UserDashboard.CutSound | project/src/pages/UserDashboard.tsx:147-153 | cutting the sorted candidates to five and typing them keeps their facts and their order |
| UserDashboard.SpellFallbackSound | project/src/pages/UserDashboard.tsx:140-156 | at most five spell-check suggestions, each a vocabulary word within distance 2 carrying that distance, nearest first |
| UserDashboard.CutTopK | project/src/pages/UserDashboard.tsx:147-148 | a sorted candidate left out by the cut to five means five came back, none farther |
| UserDashboard.SpellFallbackTopK | project/src/pages/UserDashboard.tsx:140-156 | a vocabulary word within distance 2 is suggested, or five words no farther than it were |
| UserDashboard.InitialState | project/src/pages/UserDashboard.tsx:15-19 | the state on mount is well formed |
| UserDashboard.RememberProperties | project/src/pages/UserDashboard.tsx:180-183 | the chosen word heads the recent searches, without duplicates and at most five; the rest are earlier searches other than the word; nothing is dropped while fewer than five were held |
| UserDashboard.RememberDropsOldest | project/src/pages/UserDashboard.tsx:180-183 | a new word put at the head of five recent searches pushes out the oldest, keeping the other four in order |
| UserDashboard.RememberKeepsOrder | project/src/pages/UserDashboard.tsx:180-183 | the earlier searches kept behind the chosen word keep their relative order |
| UserDashboard.HandlersKeepWellFormed | project/src/pages/UserDashboard.tsx:165-211 | selecting, changing the query and every key keep the selection in range and the recent searches distinct and at most five |
| UserDashboard.KeyDownEffects | project/src/pages/UserDashboard.tsx:186-211 | no key acts without suggestions; ArrowDown stops at the last suggestion; ArrowUp goes from the first to none; the arrows keep the suggestion list; Enter selects only a highlighted suggestion; Escape closes the list; only Enter touches the query and the recent searches |

## Left out

- React rendering, the page's markup and the `useAuth` user are not modelled. The hooks `useState` and `useEffect` become a `PageState` value and functions on it.
- `fetchSuggestions` is modelled without its `setTimeout` delay and without `isLoading`. The `try`/`catch` path is left out, because nothing in the modelled code throws.
- The dashboard vocabulary `enhancedDictionary` comes from `mockData`, which is not part of this model. It is a parameter of the load and of the fallback.
- The seed list `COMPREHENSIVE_DICTIONARY` is a constructor parameter. The source mutates the seed objects in place when a duplicate with a higher frequency arrives. The model keeps that update in its record store, so the change is visible through the store, not through a separate seed array.
- The page builds a new `Trie` on every render, and the mount effect fills only the first one. The first render's query is empty, so its fetch returns early, and every later fetch consults a fresh, empty trie: autocompletion never runs and every query of two or more characters gets the spell-check fallback (`FreshTrieAlwaysFallsBack`, under "## Findings"). React renders are not modelled; the model keeps one trie that the load fills, the evidently intended behaviour.
- The page's unused sample `dictionary` array is not modelled.
- The spell-check `score` is a floating-point value, `1 - distance / query.length`. A `Spellcheck` suggestion keeps the distance it comes from instead. The autocomplete score is the constant 1.0 and is not kept.
- DictionaryLoader.DictionaryTrie.GetStats: `avgFrequency` and `avgLength` are floating-point averages with rounding, and are not modelled. With an empty list they would be `NaN`.
- Lower-casing covers ASCII letters only. Unicode case mapping is not modelled.
- Cache keys are modelled as tuples instead of the joined strings `prefix_limit` and `word_maxDistance_limit`. For integer arguments the joined strings are equally distinct, since `limit` and `maxDistance` hold no `_`.
- Non-integer `limit` and `maxDistance` arguments are not modelled.
- The cached answer arrays are values. The source returns the cached array itself on a hit, so a caller who mutates it would change the cache. That aliasing is not captured.
- The source stores a clone in `searchCache`, but returns the same array object on a miss. The model does not capture that difference in identity.
- The async interleaving of `setSelectedIndex` with the query effect is not modelled. Each handler is one atomic state change.
- UserDashboard.KeyDown requires the selection to be -1 or a valid index. Every handler keeps that property (`HandlersKeepWellFormed`). The out-of-range read that the source would make on Enter therefore cannot arise, and it is not modelled.
- The singleton `dictionaryTrie` and the module-level `spellCheckCache` are objects passed to `SpellChecker`. Their creation at module load is the constructors.

## Findings

| source | as written | input that shows it | evidently intended | confidence | as-written member | corrected member |
|---|---|---|---|---|---|---|
| project/src/data/dictionaryLoader.ts:337 | `calculateEditDistance` returns the sentinel 3 whenever the lengths differ by more than 2. `getSpellingSuggestions` then keeps every distance `<= maxDistance` (line 388). With `maxDistance` of 3 or more, a word far from the query passes the filter. | `getSpellingSuggestions("a", 3, 5)` over a dictionary holding "bcde": the length gap is 3, so the word passes the pre-filter, scores 3, and is suggested. Its true distance is 4. | suggestions lie within `maxDistance` of the word by true edit distance, whatever the bound | not executed | SpellCheck.SentinelAdmitsFarWord | SpellCheck.ExactSpellingSuggestionsWithinBound |
| project/src/data/dictionaryLoader.ts:166-174 | `getTotalWords` (line 321) is documented as the unique word count and returns `words.length`. `loadDictionary` starts `words` as a copy of the seed list, and `insert` then pushes each new word again. | a seed list holding only "cat": `words` ends as two entries for the same record, so `getTotalWords` returns 2 for one unique word. | the count of unique words, one per distinct lower-cased seed word | not executed | DictionaryLoader.SeedsCountedTwice | DictionaryLoader.FirstOccurrencesCount |
| project/src/pages/UserDashboard.tsx:108 | `const trie = new Trie()` sits in the component body, so each render builds a new trie. The mount effect (lines 110-115, dependencies `[]`) fills only the first render's trie, whose query is `''`, so that fetch returns at line 120. | typing "prog": the fetch runs in a later render, `trie.search("prog")` (line 130) searches an empty trie and returns `[]`, so the list is the spell-check fallback, although "programming" is in the vocabulary. | autocompletion from the vocabulary-loaded trie first, spell-checking only when no word starts with the query | not executed | UserDashboard.FreshTrieAlwaysFallsBack | UserDashboard.FetchAutocomplete |

The corrected spell pipeline is `SpellCheck.ExactSpellingSuggestions`, with
true edit distances. `DictionaryLoader.SpellChecker.GetSpellingSuggestions`
computes the pipeline as written. It also states that for bounds of 2 or
less, the default bound included, its answer is the corrected one
(`SpellCheck.ExactAgreesForSmallBounds`).

The corrected count is the number of records the loading loop pushes, which
`DictionaryLoader.FirstOccurrencesCount` proves equal to the number of
distinct lower-cased seed words. The model keeps `getTotalWords` as written.

The corrected dashboard keeps one trie for the page, filled once by
`UserDashboard.Trie.LoadVocabulary`. `UserDashboard.FetchAutocomplete` then
proves that a query some loaded word starts with gets between one and ten
autocomplete suggestions, each a held word under the query.
