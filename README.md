# Cryptoquip solver — a verified model

This project models the core of `cryptoquip.py`, a solver for cryptoquips. A cryptoquip is a
newspaper puzzle in which a sentence is encrypted by a monoalphabetic substitution. The solver:

- canonicalises every word into its letter-equality pattern (`hashWord`: HELLO -> ABCCD);
- indexes a frequency-ranked dictionary by pattern (`generateWordHash`);
- cleans the puzzle text (`removePunctuation`) and splits it into cipherwords;
- keeps the cipherwords that have dictionary candidates and orders them longest first
  (`sortCipherwords`);
- orders each cipherword's candidates by their frequency-table value (`sortCandidates`);
- runs a branch-and-bound backtracking search (`solve`).

The search tries each candidate whose letters agree with the current substitution (`consistent`,
`mergeMaps`). It also tries skipping the word. It prints the decryption (`decryptMessage`) of every
complete branch whose score reaches the global `bestScore`.

Modules, one per component of the program:

- `Alphabet`: the character classes: `A-Z`, Python's whitespace, the two dashes.
- `Sequences`: associativity of concatenation, used by the proofs.
- `Canonical`: `hashWord` and the theory of patterns.
- `WordHash`: `generateWordHash` and the pattern index.
- `Punctuation`: `removePunctuation` and `str.split()`.
- `Sorting` and `Ordering`: Python's stable `sorted`, `sortCipherwords` and `sortCandidates`.
- `LetterMaps`: `blankMap`, `consistent`, `mergeMaps`.
- `Decryption`: `decryptMessage`.
- `SearchTree`: `solve` as a function on the solver's observable state, and the theorems about it.
- `Solving`: the class `Solver`, whose fields are the global `bestScore` and the printed output.
  Its method `Solve` is the recursive `solve`, proved equal to the `SearchTree` function.
  Its method `Run` is the main run: clean, split, order, reset `bestScore`, then solve from a
  blank map.

Letter maps are `map<char, Option<char>>`. `None` stands for the empty string that marks an unset
letter.

The central results:

- `SearchBest`, `SolvedOptimal`: pruning never loses a better solution. The final `bestScore`
  equals the best leaf score of the same search tree without pruning (`SearchTree.Opt`).
- `SearchLog`, `SolvedLogged`, `SolvedPrinted`, `ExtendInjective`: every printed line is the puzzle decrypted by
  an injective letter map. The printed scores never decrease, and the last one equals `bestScore`.

`sortCandidates` sorts by ascending frequency-table value. That value is the word's index in the
word list, which is ordered most frequent first. So the most frequent candidates are tried first,
although the function's docstring says the least frequent come first. The model follows the code.

## Model

| member | source | states |
|---|---|---|
| Alphabet.IsSpace | cryptoquip.py:29 | exactly the characters Python's `str.isspace` accepts, which both `\s` and `str.split()` (line 161) treat as whitespace |
| Alphabet.IsDash | cryptoquip.py:35 | the hyphen-minus and the en dash U+2013 |
| Alphabet.Kept | cryptoquip.py:29 | the characters the class `[^A-Z\s]` does not match: A-Z and whitespace |
| Alphabet.LettersAreUpper | cryptoquip.py:26 | `LETTERS` holds 26 pairwise distinct symbols, exactly the letters A-Z, in order |
| Canonical.Firsts | cryptoquip.py:43-52 | the keys of `seen` in insertion order are pairwise distinct and are exactly the characters of the word |
| Canonical.Symbol | cryptoquip.py:47-51 | defines the symbol of one character given the characters seen so far: the symbol already handed to it, or else the next unused letter of `LETTERS` (its properties are `Canonical.HashStep` and `Canonical.PatternAt`) |
| Canonical.Pattern | cryptoquip.py:41-53 | the canonical form has the same length as the word |
| Canonical.PatternAt | cryptoquip.py:46-52 | position i of the pattern is the letter whose index is the rank of `w[i]` among the word's distinct characters by first occurrence |
| Canonical.PatternShape | cryptoquip.py:41-53 | positions i and j get the same symbol if and only if the word has the same character there |
| Canonical.SameShapeSamePattern | cryptoquip.py:41-53 | words with the same repeated-letter structure have the same pattern, and the second one is hashable too |
| Canonical.PatternIffSameShape | cryptoquip.py:41-53 | two words share a pattern if and only if they share their repeated-letter structure |
| Canonical.PatternIdempotent | cryptoquip.py:41-53 | hashing a pattern gives the pattern back |
| Canonical.PatternFirsts | cryptoquip.py:49-52 | new symbols are handed out in the order A, B, C, ...: the pattern's distinct symbols are the first k letters, where k is the number of distinct characters |
| Canonical.HashStep | cryptoquip.py:46-52 | one loop iteration: the seen characters grow by the new character only if it is unseen, and the pattern grows by that character's symbol |
| Canonical.HashWord | cryptoquip.py:41-53 | the loop over `seen`, `i` and `pattern` computes the word's pattern |
| Canonical.UpperHashable | cryptoquip.py:50 | a word over A-Z has at most 26 distinct characters, so `LETTERS[i]` never fails on it |
| WordHash.Take | cryptoquip.py:58 | `WORDS[:n]` is a prefix of the list, with Python's length rules for negative and over-long `n` |
| WordHash.Bucket | cryptoquip.py:58-63 | a bucket holds exactly the listed words with that pattern |
| WordHash.BucketConcat | cryptoquip.py:58-63 | buckets keep input order: the bucket of a concatenation is the concatenation of the buckets |
| WordHash.BucketSnoc | cryptoquip.py:60-63 | appending a word appends it to its own bucket and to no other |
| WordHash.BucketEmpty | cryptoquip.py:60-63 | a pattern no listed word has gets an empty bucket |
| WordHash.IndexUnique | cryptoquip.py:56-64 | the index of a word list is unique |
| WordHash.IndexExtend | cryptoquip.py:59-63 | one loop iteration (append to the bucket, or open it) turns the index of a list into the index of the list extended by the word |
| WordHash.GenerateWordHash | cryptoquip.py:56-64 | the result is the index of `WORDS[:n]`: every bucket is non-empty, holds exactly the words of its pattern in input order, and every word is in its own pattern's bucket |
| Sorting.Insert | cryptoquip.py:87 | insertion adds exactly one element: the multiset grows by `x` |
| Sorting.InsertSorted | cryptoquip.py:87 | insertion keeps a key-sorted sequence sorted |
| Sorting.InsertWithKey | cryptoquip.py:87 | the inserted element precedes the equal-key elements, and those keep their order |
| Sorting.SortBy | cryptoquip.py:87 | Python's `sorted` with a key: a permutation, sorted by key, and stable |
| Ordering.Known | cryptoquip.py:86 | the comprehension keeps exactly the cipherwords whose pattern is a key of `wordHash`, as a sub-multiset |
| Ordering.KnownCount | cryptoquip.py:86 | no repetition is dropped: a known cipherword occurs in the result exactly as often as in the input, any other word not at all |
| Ordering.KnownConcat | cryptoquip.py:86 | the comprehension keeps input order: filtering a concatenation concatenates the filtered parts |
| Ordering.NegLength | cryptoquip.py:87 | defines the sort key `-len(cipherword)`, so that ascending keys are descending lengths (used by `Ordering.SortCipherwords`) |
| Ordering.Rank | cryptoquip.py:92 | defines the sort key `frequencyTable[candidate]`; `SearchTree.BucketRanked` shows it is only applied to words of the table |
| Ordering.SortCipherwords | cryptoquip.py:84-87 | a permutation of the known cipherwords, exactly the input words with a bucket, lengths non-increasing, ties in input order |
| Ordering.SortCandidates | cryptoquip.py:89-93 | a permutation of the candidates, with the same members, frequency-table values non-decreasing, ties in input order |
| LetterMaps.BlankMap | cryptoquip.py:82 | the keys are exactly A-Z and every letter is unset |
| LetterMaps.Clashes | cryptoquip.py:100-104 | defines the two rejections of one position: the cipher letter is set to another letter, or it is unset and the plain letter is already a value (`LetterMaps.Consistent` returns None exactly when some position clashes) |
| LetterMaps.Zip | cryptoquip.py:99 | `zip`: the pairs of equal positions, up to the shorter length |
| LetterMaps.Assign | cryptoquip.py:111-112 | the keys after the assignments are the old keys plus the assigned cipher letters |
| LetterMaps.TryExtend | cryptoquip.py:99-105 | a successful extension has the same keys as the map |
| LetterMaps.AssignStep | cryptoquip.py:111-112 | one loop iteration sets one cipher letter to its plain letter |
| LetterMaps.AssignUntouched | cryptoquip.py:110-113 | a key no pair mentions keeps its entry |
| LetterMaps.AssignFunctional | cryptoquip.py:111-112 | when no cipher letter is paired two ways, every pair is in the result |
| LetterMaps.ZipSameShape | cryptoquip.py:99 | words of one shape pair their letters one-to-one |
| LetterMaps.AssignAgreeing | cryptoquip.py:111-112 | a letter every pair agrees with keeps its value |
| LetterMaps.ExtendKeepsEntries | cryptoquip.py:99-105 | a successful `consistent` never changes a letter that was already set |
| LetterMaps.NotSharedWithOther | cryptoquip.py:101-104 | when a cipher letter may take a plain letter without a clash, no other cipher letter of an injective map holds it |
| LetterMaps.ExtendInjective | cryptoquip.py:95-113 | extending an injective map by a candidate of the cipherword's shape yields an injective map |
| LetterMaps.MergeMaps | cryptoquip.py:107-113 | the copy sets each cipher letter of the word to the candidate's letter; the key set grows by the cipher letters only, and every other key keeps its entry |
| LetterMaps.Consistent | cryptoquip.py:95-105 | returns None if and only if some position clashes (set to another letter, or unset with the plain letter already used); otherwise the merged map |
| Decryption.Render | cryptoquip.py:70-78 | defines how `decryptMessage` renders one symbol: a set key becomes its value, an unset key '.', any other symbol itself (`Decryption.Decrypt` applies it at every position) |
| Decryption.Decrypt | cryptoquip.py:67-79 | the translation has the message's length; a set letter becomes its value, an unset key becomes '.', and any other symbol passes through |
| Decryption.DecryptMessage | cryptoquip.py:67-79 | the loops over `transMap` and the message compute that translation, and the argument map is not changed |
| Decryption.RoundTrip | cryptoquip.py:67-79 | when every letter of the message is set in an injective map and no passed-through symbol is a plain letter, the inverse map decrypts the translation back to the message |
| Decryption.ExtensionDecryptsWord | cryptoquip.py:67-79 | after extending the map by a candidate of the cipherword's shape, the cipherword decrypts to the candidate |
| Decryption.ExtensionKeepsRendering | cryptoquip.py:67-79 | a successful extension renders every already set letter as before |
| Punctuation.Dehyphenate | cryptoquip.py:33-38 | same length; each `-` or en dash becomes a space, and every other character stays |
| Punctuation.Strip | cryptoquip.py:39 | the substitution never lengthens the text and keeps only A-Z and whitespace |
| Punctuation.StripConcat | cryptoquip.py:39 | the substitution works character by character |
| Punctuation.StripKept | cryptoquip.py:39 | text of A-Z and whitespace passes the substitution unchanged |
| Punctuation.Cleaned | cryptoquip.py:31-39 | the cleaned text is never longer than the input and holds only A-Z and whitespace |
| Punctuation.CleanedConcat | cryptoquip.py:31-39 | cleaning keeps character order: the cleaning of a concatenation is the concatenation of the cleanings |
| Punctuation.CleanedChar | cryptoquip.py:31-39 | a dash becomes a space, a letter A-Z or whitespace stays, and any other character is dropped |
| Punctuation.CleanedIdentity | cryptoquip.py:31-39 | text of A-Z and whitespace is left as it is |
| Punctuation.CleanedIdempotent | cryptoquip.py:31-39 | cleaning twice is cleaning once |
| Punctuation.RemovePunctuation | cryptoquip.py:31-39 | the two loops compute the cleaned text, which holds only A-Z and whitespace |
| Punctuation.TakeWord | cryptoquip.py:161 | the word at the front of the text is a prefix without whitespace, and is non-empty when the text starts with a non-space |
| Punctuation.Split | cryptoquip.py:161 | `str.split()` yields non-empty words of non-whitespace characters of the text |
| Punctuation.SplitKeepsText | cryptoquip.py:161 | the words, joined, are exactly the text's non-whitespace characters in order |
| Punctuation.TakeWordSpace | cryptoquip.py:161 | a word ends at the first whitespace character, whatever follows |
| Punctuation.TakeWordAll | cryptoquip.py:161 | a run without whitespace is taken whole |
| Punctuation.SplitWord | cryptoquip.py:161 | a non-empty run without whitespace splits into exactly itself |
| Punctuation.SplitAtSpace | cryptoquip.py:161 | whitespace separates words: splitting a text at a whitespace character splits the two sides independently |
| SearchTree.Search | cryptoquip.py:115-136 | defines `solve` on the solver's observable state: the bound check, the leaf that prints when its score reaches `bestScore`, the candidate loop, then the skip branch (its properties are `SearchTree.SearchBest`, `SearchTree.SearchLog` and `SearchTree.SearchPrints`; `Solving.Solver.Solve` is proved equal to it) |
| SearchTree.TryAll | cryptoquip.py:132-135 | defines the candidate loop: each candidate with a consistent, non-empty extension is recursed on, in the sorted order (its properties are `SearchTree.TryAllBest` and `SearchTree.TryAllLog`) |
| SearchTree.Opt | cryptoquip.py:115-136 | defines the reference the pruned search is measured against: the largest leaf score of the same search tree without the bound check (`SearchTree.OptBounds`, `SearchTree.SearchBest`) |
| SearchTree.MaxOpt | cryptoquip.py:132-135 | defines the best leaf score over the candidate loop's subtrees (`SearchTree.MaxOptBounds`, `SearchTree.MaxOptShift`) |
| SearchTree.SearchBest | cryptoquip.py:115-136 | `solve` leaves `bestScore` at the larger of its old value and the unpruned optimum, so it never decreases and pruning loses nothing; the output only grows, and grows whenever `bestScore` rises |
| SearchTree.TryAllBest | cryptoquip.py:132-135 | the candidate loop leaves `bestScore` at the running maximum over the candidates' subtrees |
| SearchTree.SearchLog | cryptoquip.py:115-136 | `solve` only appends to the output and keeps it invariant: every line is the decryption under an injective map, and scores never decrease; every new line comes from a map extending the call's map |
| SearchTree.TryAllLog | cryptoquip.py:132-135 | the same for the candidate loop |
| SearchTree.SearchPrints | cryptoquip.py:126-129 | a search started at or above `bestScore` prints at least once and keeps the output invariant |
| SearchTree.SearchBelow | cryptoquip.py:122-123 | a call whose subtree cannot reach `bestScore` changes nothing |
| SearchTree.TryAllBelow | cryptoquip.py:132-135 | a candidate loop whose subtrees all stay below `bestScore` changes nothing |
| SearchTree.SearchEmits | cryptoquip.py:126-129 | a call whose subtree reaches `bestScore` prints at least once |
| SearchTree.TryAllEmits | cryptoquip.py:132-135 | a candidate loop some of whose subtrees reach `bestScore` prints at least once |
| SearchTree.OptBounds | cryptoquip.py:115-136 | every leaf under a call scores between `score` and `score` plus the number of remaining cipherwords |
| SearchTree.MaxOptBounds | cryptoquip.py:132-135 | the candidate fold stays between its start and that bound |
| SearchTree.MaxOptShift | cryptoquip.py:132-135 | raising the fold's start raises its result the same way |
| SearchTree.LoggedLast | cryptoquip.py:127-129 | the last printed line has the current `bestScore` |
| SearchTree.LoggedBounded | cryptoquip.py:127-129 | no printed score exceeds `bestScore` |
| SearchTree.LoggedAppend | cryptoquip.py:127-129 | printing a leaf at or above `bestScore` keeps the output invariant |
| SearchTree.ExtensionValid | cryptoquip.py:131-135 | the map recursed with is injective and extends the current one |
| SearchTree.BucketRanked | cryptoquip.py:92 | every candidate has a frequency-table entry, so the sort key never fails |
| SearchTree.Candidates | cryptoquip.py:131-132 | the sorted candidates are exactly the words of the cipherword's bucket |
| SearchTree.ReadyStep | cryptoquip.py:135-136 | the rest of the cipherword list stays solvable under a map with the same keys |
| SearchTree.ZipLooksUp | cryptoquip.py:99-100 | every cipher letter `consistent` looks up is a key of the map |
| SearchTree.Extension | cryptoquip.py:133-134 | the map `solve` recurses with exists exactly when no position clashes, and it has the map's keys |
| SearchTree.ExtensionOfConsistent | cryptoquip.py:133-134 | `if newMap:` on `consistent`'s result selects that map |
| SearchTree.SearchPruned | cryptoquip.py:122-123 | a call that cannot beat `bestScore` changes nothing |
| SearchTree.SearchLeaf | cryptoquip.py:126-130 | a leaf at or above `bestScore` prints the decryption and sets `bestScore` to its score |
| SearchTree.SearchStep | cryptoquip.py:131-136 | past the bound check, `solve` runs the candidate loop and then the skip branch |
| SearchTree.TryAllStep | cryptoquip.py:132-135 | one candidate: recurse on its extension if there is one, then continue |
| SearchTree.TryAllAt | cryptoquip.py:132-135 | round i of the candidate loop |
| SearchTree.TryAllDone | cryptoquip.py:132-135 | the loop ends after the last candidate |
| SearchTree.OptStep | cryptoquip.py:131-136 | the unpruned optimum of a call is the best over its candidates and its skip branch |
| SearchTree.MaxOptStep | cryptoquip.py:132-135 | one round of the best-over-candidates fold |
| Solving.CleanWordsUpper | cryptoquip.py:161 | every word of the cleaned puzzle is A-Z only, so it can be hashed |
| Solving.Cipherwords | cryptoquip.py:161 | the cipherword list holds words of the cleaned puzzle, longest first |
| Solving.CipherwordsReady | cryptoquip.py:161 | a cleaned word is in the list if and only if its pattern has a bucket, and every listed word can be looked up in a blank map |
| Solving.SolvedOptimal | cryptoquip.py:161-165 | the main run's `bestScore` is the unpruned optimum, between 0 and the number of cipherwords |
| Solving.DictionaryValid | cryptoquip.py:25 | since `WORDS` is the frequency table's key list, the index of its first `n` words together with that table satisfies everything the search relies on, for any message |
| Solving.NoMatches | cryptoquip.py:161-165 | a puzzle none of whose words has a dictionary bucket ends with `bestScore` 0 and exactly one printed line, the puzzle decrypted by the blank map |
| Solving.Outcome | cryptoquip.py:161-165 | defines the main run's end state: `solve(blankMap(), 0, cipherwordList)` from `bestScore` 0 and no output (`Solving.Solver.Run` is proved to end in it) |
| Solving.SolvedLogged | cryptoquip.py:161-165 | the main run prints at least once, and every line decrypts the puzzle under an injective map over A-Z |
| Solving.SolvedPrinted | cryptoquip.py:161-165 | the last line the main run prints has the best score |
| Solving.SolvedScoresBounded | cryptoquip.py:161-165 | every score printed by the main run is at most the number of cipherwords |
| Solving.Solver.constructor | cryptoquip.py:162 | the solver starts with `bestScore` 0 and nothing printed |
| Solving.Solver.Solve | cryptoquip.py:115-136 | the recursive method changes `bestScore` and the output exactly as the search function says |
| Solving.Solver.Run | cryptoquip.py:161-165 | the main run ends in the search's outcome from a blank map; `bestScore` is the optimum; the output is invariant, non-empty, and ends at `bestScore` |

## Left out

- Loading the test fixtures and the word list from files (cryptoquip.py:13-23) is file I/O. The word list and the frequency table are parameters: `WordHash.GenerateWordHash` takes the list, and the `Puzzle` record holds the table and the index.
- Argument parsing, `pprint`, `input()`, the timing and the `KeyboardInterrupt` handler (cryptoquip.py:141-168) are I/O and configuration. Of the main block, only lines 161-165 are modelled, by `Solving.Solver.Run`. Rebuilding the index for `--size` is `GenerateWordHash` with that size.
- `print` in `solve` is replaced by appending to the field `printed`. The ghost fields `printedScores` and `printedMaps` keep the score and the map behind each line. The global `message` is the puzzle's `message` field.
- The regular-expression engine is not modelled. Its one character class `[^A-Z\s]` is the filter `Strip`. Python's `\s` and `str.isspace` are the explicit whitespace set `Alphabet.IsSpace`.
- Python's dicts are mutable and could be aliased. Here maps are values, so "the argument map is not mutated" holds by construction. Aliasing is not modelled.
- Canonical.HashWord: requires at most 26 distinct characters. Python raises IndexError on `LETTERS[26]` for such a word; that error path is excluded rather than modelled. Every cleaned cipherword satisfies this (`Canonical.UpperHashable`).
- WordHash.GenerateWordHash: requires every word of the list to be hashable, for the same reason.
- LetterMaps.Consistent: requires every cipher letter of the zipped positions to be a key of the map. Python raises KeyError only when the loop reaches such a letter, possibly after an earlier clash has already returned None. `solve` only calls it with maps holding every letter A-Z, on cipherwords over A-Z.
- Solving.Solver.Solve: requires every remaining cipherword to have a bucket, and its letters to be keys of the map. Python would raise KeyError otherwise. `sortCipherwords` and `blankMap` establish this for the main run (`Solving.CipherwordsReady`).
- `if newMap:` is modelled as "some map, and not the empty map". Maps in `solve` always have the 26 keys A-Z, so every map `consistent` returns is truthy there.
- The loop of `decryptMessage` that replaces unset values by '.' is modelled as one map comprehension, not a loop over the keys.
- The frequency table's construction from the word list (line 22) is not modelled. A word listed twice would keep its last index there, and `WORDS` would drop the duplicate.
