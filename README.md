# bwt.py: an FM-index over Python strings, modelled in Dafny

`bwt.py` finds the exact and approximate occurrences of a query in a
reference string using the Burrows-Wheeler transform. It has three parts:

- **Index construction.** `get_bwt_data` appends the terminator `EOS = "\0"` to the
  reference. On the result it builds four structures:
  - the transform (`get_bwt`): the last column of the sorted rotations;
  - the suffix array (`get_sa`);
  - the running letter counts of the transform (`get_occ`);
  - for each letter, the number of smaller letters of the reference before the terminator was added (`get_count`).
- **Backward search.** `bwt_interval` narrows a suffix array interval one query letter at a time, right to left. It uses `use_occ` for its rank lookups.
- **Approximate search.** `mutations` enumerates the strings within a Hamming distance of the query. `bwt_inexact_match` searches each of them and returns the sorted set of suffix array entries found. `bwt_exact_match` is the same search with no mismatches.

The model keeps each function's form:

- Pure code is written as functions: `get_bwt`, `get_sa`, `use_occ`, and Python's `sorted` as an insertion sort over Python's string order.
- Loops become methods with loop invariants: `get_occ` and `get_count` fill a map; `bwt_interval` updates `begin`/`end` with an early return; the search loop appends results.
- The `mutations` generator becomes a recursive method. It returns what the generator yields, in order, and threads the shared `used` set through explicitly.

Each method is proved against a specification:

- `IsOccTable` and `IsCountTable` specify the two tables.
- `IntervalSpec` specifies `bwt_interval`. It is stated through `Bound`, which counts the sorted suffixes below the block of suffixes starting with a string.
- `Reach` specifies `mutations`. It is the closed form of what the generator yields.
- `MatchAt` specifies matching. It holds at an offset where a string within the mismatch budget starts.

The raising paths are values of a `Result`: the `assert` in `get_bwt_data`, and the `KeyError` of `count[letter]` in `bwt_interval`. The docstring examples are proved as lemmas and methods in module `Doctests`.

Modules, in dependency order:

- `Wrappers`: `Option` and `Result`.
- `Lex`: Python's string order.
- `Counting`: counting and permutations.
- `Sorting`: `sorted`, and `sorted(set(..))` on integers.
- `Construction`: the four index structures.
- `BackwardSearch`: `use_occ` and `bwt_interval`.
- `Mutations`
- `Matching`: `get_bwt_data` and the two match functions.
- `Corrected`: the search as its documentation describes it.
- `Doctests`

## Model

| member | source | states |
|---|---|---|
| Lex.LessTotal | bwt.py:27 | Python's string order is total: of two different strings, one is smaller |
| Lex.LessTransitive | bwt.py:27 | Python's string order is transitive |
| Lex.PrefixNotLess | bwt.py:27 | no string is smaller than a prefix of itself, so a proper prefix sorts first |
| Sorting.Sort | bwt.py:27 | `sorted` returns a permutation of its input (same multiset) |
| Sorting.SortIsSorted | bwt.py:27 | `sorted` returns its elements in non-decreasing order |
| Sorting.SortedUnique | bwt.py:27 | there is one sorted permutation of a list, so the insertion sort computes exactly what `sorted` computes |
| Sorting.SortIsStrict | bwt.py:27 | a strictly increasing list with the same members as a duplicate-free list is its sorted form |
| Sorting.SortedSet | bwt.py:185 | `sorted(set(xs))` is strictly increasing and has exactly the members of `xs` |
| Sorting.IncreasingUnique | bwt.py:185 | two strictly increasing lists with the same members are equal |
| Construction.GetBwt | bwt.py:12-29 | the transform is as long as `s`; its multiset and its relation to the suffix array are `BwtIsPermutation` and `BwtFromSuffixArray` |
| Construction.LastColumn | bwt.py:28 | the last column has one character per row of the table |
| Construction.Suffixes | bwt.py:89 | the suffix list has one entry per offset of `s`; `IndexOfSuffix` shows each sits at its own offset |
| Construction.GetSa | bwt.py:78-90 | `get_sa(s)` has `len(s)` entries, each an offset of `s`; `SuffixArrayIsPermutation` and `SuffixArraySorted` state the rest |
| Counting.CountIf | bwt.py:53 | `len([j for j in xs if p(j)])` is at most `len(xs)` |
| Construction.Smaller | bwt.py:74 | `len([i for i in s if i < letter])` is at most `len(s)`; `GetCount` and `CountBlocksOrdered` state what it counts |
| Construction.Rotations | bwt.py:26 | the rotation table has one row per character of `s` |
| Construction.SortedRotationsLength | bwt.py:26-27 | every sorted rotation is as long as `s`, so `row[-1]` exists for non-empty `s` |
| Construction.BwtIsLastChars | bwt.py:28-29 | character `i` of the transform is the last character of sorted rotation `i` |
| Construction.LastCharsOfRotations | bwt.py:26-28 | the last characters of the unsorted rotations are `s` rotated right by one |
| Construction.BwtIsPermutation | bwt.py:12-29 | the transform has the length and the multiset of characters of `s` |
| Construction.SortedRotationsFollowSuffixes | bwt.py:26-27 | for a terminated string, the sorted rotations are the sorted suffixes, each followed by the rest of the string |
| Construction.BwtRowPrecedesSuffix | bwt.py:26-28 | for a terminated string, character `i` of the transform is the character before sorted suffix `i`, cyclically |
| Construction.BwtFromSuffixArray | bwt.py:12-29 | for a terminated string, `get_bwt(s)[i] == s[sa[i] - 1]`, with Python's `s[-1]` when `sa[i] == 0` |
| Construction.Index | bwt.py:90 | `list.index` returns the first position holding the value |
| Construction.IndexOfSuffix | bwt.py:89-90 | the position of a suffix in the suffix list is its start offset |
| Construction.SuffixesDistinct | bwt.py:89 | the suffixes of `s` are pairwise different |
| Construction.SuffixArrayRows | bwt.py:78-90 | `sa` has `len(s)` entries and `s[sa[i]:]` is the `i`-th sorted suffix |
| Construction.SuffixArrayIsPermutation | bwt.py:78-90 | `sa` is a permutation of `0..len(s)-1`: in range, duplicate-free, and covering every offset |
| Construction.SuffixArraySorted | bwt.py:78-90 | the suffixes `s[sa[i]:]` are strictly increasing in `i` |
| Construction.SuffixArrayStartsAtTerminator | bwt.py:78-90 | when `s` ends with its only `EOS`, `sa[0] == len(s) - 1` |
| Construction.TerminatedNoPrefix | bwt.py:157 | in a terminated string no suffix is a prefix of another |
| Construction.SuffixArrayFromSorted | bwt.py:90 | the suffix array is determined by the sorted suffixes: entry `i` is `len(s)` minus the length of sorted suffix `i` |
| Construction.GetOcc | bwt.py:32-54 | keys are exactly `set(bwt)`; each list has `len(bwt)` entries, and entry `i` is the number of occurrences of the letter in `bwt[:i + 1]` |
| Construction.OccTableUnique | bwt.py:32-54 | there is one such table per string |
| Construction.OccSteps | bwt.py:52-53 | each list starts at 0 or 1 and grows by 1 exactly where `bwt` holds its letter, and by 0 elsewhere |
| Construction.OccRowFromSteps | bwt.py:52-53 | conversely, a list that starts and grows that way is the list of running counts |
| Construction.OccLast | bwt.py:52-53 | the last entry of a list is the total count of its letter |
| Construction.OccColumnSum | bwt.py:32-54 | at each position `i`, the entries of all letters sum to `i + 1` |
| Construction.GetCount | bwt.py:57-75 | keys are exactly `set(s)`; `count[c]` is the number of characters of `s` smaller than `c` |
| Construction.SmallestLetterCountsZero | bwt.py:74 | a letter no greater than every character of `s` counts 0 |
| Construction.CountBlocksOrdered | bwt.py:74 | `a < b` implies `count[a] + occurrences(a) <= count[b]` |
| BackwardSearch.UseOcc | bwt.py:93-103 | `use_occ` gives 0 at `i == -1` and otherwise an entry of `occ[letter]`, so it never reads past the list; `UseOccRank` states which entry |
| BackwardSearch.UseOccRank | bwt.py:93-103 | on the table of the transform, `use_occ` at `-1 <= i <= length` counts the letter in `bwt[:i + 1]`: 0 at `-1`, the total at `length` |
| BackwardSearch.OccursIffNonEmpty | bwt.py:123-124 | a string occurs in `reference + EOS` exactly when its block of sorted suffixes is non-empty |
| BackwardSearch.EmptyBlock | bwt.py:116-117 | the starting interval `0, length - 1` is the block of the empty query |
| BackwardSearch.BlockRows | bwt.py:106-125 | row `j` of the suffix array is in the block of `w` exactly when suffix `sa[j]` starts with `w` |
| BackwardSearch.BlockOffsets | bwt.py:106-125 | the suffix array entries of the block of `w` are exactly the offsets where `w` starts |
| BackwardSearch.StartsBelowCount | bwt.py:121 | the suffixes starting below a letter `c` number `count[c] + 1`: the count excludes the terminator, hence the `+ 1` |
| BackwardSearch.HeadThenShift | bwt.py:121-122 | suffixes starting with `c` followed by the block bound of `w` match one for one the suffixes preceded by `c` below that bound |
| BackwardSearch.PrecededBelowCount | bwt.py:121-122 | the suffixes below a block bound that are preceded by `c` are counted by the occurrences of `c` in the transform above that bound |
| BackwardSearch.SearchStep | bwt.py:121-122 | the bounds of the block of `[c] + w` are `count[c] + 1` plus the occurrences of `c` in the transform before the bounds of `w` |
| BackwardSearch.IntervalStep | bwt.py:120-122 | one pass of the loop computes in `begin` and `end + 1` the block bounds of the query extended by one letter |
| BackwardSearch.NarrowStep | bwt.py:121-122 | the two assignments of one pass, proved to give the bounds of the extended block |
| BackwardSearch.LastForeign | bwt.py:118-121 | finds the rightmost query letter that the count table lacks, which is the first that the reversed loop looks up |
| BackwardSearch.LastForeignUnique | bwt.py:118-121 | that position is the only one holding a foreign letter with only known letters after it |
| BackwardSearch.BwtInterval | bwt.py:106-125 | the result is `IntervalSpec`, for every query. It raises `KeyError(letter)` when the loop reaches a letter missing from `count` while the part already read still occurs. It returns `(None, None)` once the part read does not occur. Otherwise it returns the half-open block of the query |
| BackwardSearch.SpecKeyError | bwt.py:121 | a missing letter reached while the part after it occurs raises `KeyError` with that letter |
| BackwardSearch.SpecNoMatch | bwt.py:123-124 | a part after the last foreign letter that does not occur gives `(None, None)` |
| BackwardSearch.SpecFound | bwt.py:125 | a query of known letters that occurs gives `(begin, end + 1)`, its block |
| Mutations.Hamming | bwt.py:130-131 | the Hamming distance is at most the length |
| Mutations.HammingZero | bwt.py:142-145 | distance 0 means equal strings |
| Mutations.HammingUpdate | bwt.py:149 | how one substitution changes the distance to a fixed string |
| Mutations.Substitute | bwt.py:149 | `s[:pos] + letter + s[pos + 1:]` replaces the character at `pos` |
| Mutations.ReachZero | bwt.py:142-145 | with distance 0 the only string yielded is `s` |
| Mutations.ReachStep | bwt.py:146-150 | with distance `d > 0` the yielded strings are those yielded at `d - 1` from one substitution of `s` by a letter of the alphabet |
| Mutations.SubstituteLetter | bwt.py:148-150 | the loop over positions with one letter adds to `used` exactly what the recursive calls reach and yields it, each once |
| Mutations.SubstituteAll | bwt.py:146-150 | one pass over the alphabet and the positions leaves every string within reach in `used`, each yielded once |
| Mutations.Mutations | bwt.py:128-150 | `used'` grows by exactly the strings within reach. The strings yielded are exactly those within reach and not already used, each yielded once. "Within reach" means: the length of `s`; Hamming distance at most `dist`; changed letters from the alphabet; and at positive distance, some letter of `s` in the alphabet or a string other than `s` |
| Matching.GetBwtData | bwt.py:153-162 | fails with `AssertionError` exactly when `EOS` is in the reference; otherwise returns the alphabet and the four structures of `reference + EOS`, with `count` built without the terminator |
| Matching.ForeignNowhere | bwt.py:181-184 | a string with a letter the reference lacks starts at no offset |
| Matching.BlockStarts | bwt.py:182-184 | for a string without `EOS`, the suffix array block holds exactly its start offsets in the reference |
| Matching.IntervalOffsets | bwt.py:182-184 | `sa[begin:end]` of a returned interval holds exactly the offsets where the string starts; `(None, None)` means it starts nowhere |
| Matching.KnownLettersNeverRaise | bwt.py:181-182 | a mutation of a query spelled with reference letters never raises |
| Matching.SearchOne | bwt.py:182-184 | one candidate: raises exactly when `IntervalSpec` does, and otherwise gives exactly the offsets where the candidate starts |
| Matching.SearchAll | bwt.py:181-184 | the loop raises exactly when some candidate's search does, with that candidate's error; otherwise the results are exactly the offsets where some candidate starts |
| Matching.ResultsStep | bwt.py:184 | `results += sa[begin:end]` adds the offsets of one more candidate |
| Matching.MatchesFromCandidates | bwt.py:181-185 | when the candidates are the strings within reach, the results are exactly the matching offsets |
| Matching.MatchAtWindow | bwt.py:165-185 | for a non-empty query, an offset matches exactly when its window `reference[k:k + len(query)]` is in bounds and within `mismatches` substitutions of the query, as a naive scan finds it |
| Matching.InexactMatchOfKnownLetters | bwt.py:165-185 | a query spelled with reference letters never raises `KeyError` |
| Matching.BwtInexactMatch | bwt.py:165-185 | raises `AssertionError` exactly when `EOS` is in the reference. It succeeds exactly when no mutation's search raises, and otherwise reports one mutation's `KeyError`. Its result is strictly increasing and holds exactly the offsets where a string within `mismatches` substitutions over the alphabet starts |
| Matching.BwtExactMatch | bwt.py:188-201 | raises exactly as `bwt_interval` on the query does. Its result is strictly increasing and holds exactly the offsets where the query starts, as a direct scan finds them |
| Matching.GefRaises | bwt.py:197-198 | the search for `gef` in `abcabcabc` raises `KeyError('f')` |
| Matching.ExactMatchOfGef | bwt.py:197-198 | `bwt_exact_match('gef', 'abcabcabc')` raises `KeyError('f')` rather than returning `[]` |
| Corrected.RaisingNowhere | bwt.py:121 | a query whose search would raise starts nowhere, so "no match" is the right answer |
| Corrected.BwtIntervalCorrected | bwt.py:106-125 | `bwt_interval` with a missing letter read as no match. It never raises; a returned interval holds exactly the start offsets; `None` means none exist |
| Corrected.SearchAllCorrected | bwt.py:181-184 | the corrected loop gathers exactly the offsets where some candidate starts |
| Corrected.BwtInexactMatchCorrected | bwt.py:165-185 | fails only on `EOS` in the reference; otherwise its result is strictly increasing and holds exactly the matching offsets |
| Corrected.BwtExactMatchCorrected | bwt.py:188-201 | fails only on `EOS` in the reference; otherwise its result is strictly increasing and holds exactly the offsets where the query starts |
| Corrected.ExactMatchOfGefCorrected | bwt.py:197-198 | the corrected search for `gef` in `abcabcabc` returns `[]` |
| Doctests.BananaSuffixArray | bwt.py:85-86 | `get_sa('banana\0') == [6, 5, 3, 1, 0, 4, 2]` |
| Doctests.BananaTransform | bwt.py:22-23 | `get_bwt('banana\0') == 'annb\x00aa'` |
| Doctests.AnnbOccurrences | bwt.py:41-45 | `get_occ('annb\x00aa')` is the table of the example |
| Doctests.SassyCount | bwt.py:67-68 | `get_count('sassy') == {'a': 0, 's': 1, 'y': 4}` |
| Doctests.BadMutations | bwt.py:136-137 | `mutations('bad', 1, {'a', 'b', 'd'})` yields the seven strings of the example, each once |
| Doctests.AbdInexactMatch | bwt.py:173-174 | `bwt_inexact_match('abc', 'abcabd', 1) == [0, 3]` |
| Doctests.AbcExactMatch | bwt.py:194-195 | `bwt_exact_match('abc', 'abcabcabc') == [0, 3, 6]` |

## Left out

- Laziness of the `mutations` generator. The model runs it to completion and returns the list it yields.
- Iteration order of Python sets and dicts. The alphabet loop of `mutations` runs over the elements of the set in an unspecified order. So the order of the candidate list is not pinned down, and neither is the order of the docstring list at bwt.py:137. `Doctests.BadMutations` states which strings are yielded and that each is yielded once, not their order.
- The `mismatches=None` default of `bwt_inexact_match` (bwt.py:165). Called without it, `range(None)` raises `TypeError`. The model takes an integer.
  - A negative integer yields no mutations and the result `[]`, as in Python.
- Matching.BwtInexactMatch: when several mutations raise, Python reports the first one in its enumeration order. That order depends on set iteration. The model states only that the error is the `KeyError` of some raising mutation.
- BackwardSearch.UseOcc: requires an index that Python would accept, that is `-1`, `length`, or an index within Python's negative-or-positive range of the list. The `IndexError` of other indices is not modelled. `bwt_interval` only uses indices from `-1` to `length`.
- Performance: the quadratic rotation table and `get_occ`, and the `suffixes.index` lookups. Only their results are modelled.
- Python's `sorted` is modelled by an insertion sort. `Sorting.SortedUnique` shows that any sorting gives the same list.
- Inputs the code accepts without complaint are accepted by the model too, with the code's results:
  - An empty query is accepted. `bwt_interval` returns the whole table, `(0, length)`. With `mismatches == 0`, every offset `0..len(reference)` matches. With `mismatches > 0`, `mutations('', d, ...)` yields nothing, because `range(len(s))` at bwt.py:148 is empty, so the result is `[]`.
  - A query letter outside the alphabet raises `KeyError` when the part of the query after that letter occurs. See Findings.
  - A negative `mismatches` yields no mutations, and the result is `[]`.

## Findings

| source | as written | input that shows it | evidently intended | confidence | as-written member | corrected member |
|---|---|---|---|---|---|---|
| bwt.py:121 | `count[letter]` is looked up for every query letter, so a letter absent from the reference raises `KeyError` once the part of the query after it occurs (the empty part always does) | `bwt_exact_match('gef', 'abcabcabc')` raises `KeyError('f')` | `[]`, as the docstring example says: a letter the reference lacks cannot start a match | not executed | Matching.ExactMatchOfGef | Corrected.ExactMatchOfGefCorrected |
