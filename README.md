# AtlStlStringSortPerf in Dafny

AtlStlStringSortPerf is a micro-benchmark. It times `std::sort` on a vector of ATL
`CStringW` and on a vector of `std::wstring`, both holding the same shuffled corpus of
text lines. This project models the logic around those timings.

- **The corpus.** Eight "Lorem ipsum" template lines are each repeated `n` times.
  Every copy gets the tag `" (#" + to_wstring(i) + ")"`. The vector is then shuffled.
- **The replication.**
  - `shuffledPtrs` is built: the `c_str()` of every corpus entry.
  - Three `CStringW` vectors are constructed from those pointers.
  - Three `std::wstring` vectors are copies of the shuffled vector.
- **The six sorts.** Each is modelled by its postcondition from section [alg.sort] of the
  C++ standard: afterwards the range is sorted with respect to the comparison, and it is a
  permutation of what it was.
- **The comparisons.** The `std::wstring` copies sort with one of two comparisons; the
  `TEST_STL_WCSCMP_COMPARE` switch picks which.
  - The default `operator<`, i.e. `basic_string::compare`: `wmemcmp` over the common
    length, then shorter first.
  - `CompareUsingWcscmp`: `wcscmp` on the two C views, per section 7.29.4.4.1 of ISO C11.

Strings are sequences of `wchar_t` code units, taken as natural numbers. Each comparison
is proved equal to a lexicographic order on code-unit values, `Ordinal.LexLess`, which is
defined on the strings themselves.

- `wcscmp` agrees with that order only on strings with no embedded NUL. The model says
  so and proves that it cannot order two strings that agree up to an embedded NUL.
- The corpus never holds a NUL. So the switch cannot change the outcome.
- Because of that, every conforming sort of every copy yields the same sequence,
  whichever sort is used: `SortContract.Ascending` of the unshuffled corpus.

Modules, one file each:

| file | module | models |
|---|---|---|
| `wide_string.dfy` | `WideString` | code units, `c_str()`, `CStringW` construction from a pointer, `to_wstring` |
| `ordinal.dfy` | `Ordinal` | `wcscmp`, `CompareUsingWcscmp`, `wmemcmp`, `compare`, `operator<`, the reference order |
| `sort_contract.dfy` | `SortContract` | the [alg.sort] contract, the reference arrangement, uniqueness of the outcome |
| `corpus.dfy` | `TestCorpus` | the template table, the builder loops, the shuffle |
| `run_tests.dfy` | `SortPerf` | `shuffledPtrs`, the six copies, the six trials, `RunTests` |

## Model

All source paths are in `AtlStlStringSortPerf/AtlStlStringSortPerf.cpp`.

| member | source | states |
|---|---|---|
| WideString.CStr | AtlStlStringSortPerf/AtlStlStringSortPerf.cpp:125 | `c_str()` is a valid C string: the string's units followed by the terminating NUL |
| WideString.FromCStr | AtlStlStringSortPerf/AtlStlStringSortPerf.cpp:135 | a `CStringW` built from a pointer holds the units before the first NUL: NUL-free, a prefix of the buffer, followed there by a NUL |
| WideString.FromCStrOfCStr | AtlStlStringSortPerf/AtlStlStringSortPerf.cpp:135 | round trip: a NUL-free string rebuilt from its `c_str()` is the same string |
| WideString.FromCStrTruncates | AtlStlStringSortPerf/AtlStlStringSortPerf.cpp:135 | a string with an embedded NUL comes back strictly shorter |
| WideString.Decimal | AtlStlStringSortPerf/AtlStlStringSortPerf.cpp:110 | `to_wstring(i)` for `i >= 0` is a non-empty run of decimal digits; its first digit is 0 only for 0; it is one digit exactly when `i < 10` |
| WideString.ParseDecimalOfDecimal | AtlStlStringSortPerf/AtlStlStringSortPerf.cpp:110 | reading the digits of `to_wstring(i)` back gives `i` |
| WideString.DecimalInjective | AtlStlStringSortPerf/AtlStlStringSortPerf.cpp:110 | two iteration indices have the same tag exactly when they are equal |
| WideString.DecimalNoNul | AtlStlStringSortPerf/AtlStlStringSortPerf.cpp:110 | a tag holds no NUL |
| Ordinal.LexTransitive | AtlStlStringSortPerf/AtlStlStringSortPerf.cpp:67-71 | the reference order is transitive |
| Ordinal.LexTotal | AtlStlStringSortPerf/AtlStlStringSortPerf.cpp:67-71 | any two different strings are ordered one way or the other |
| Ordinal.LexProperPrefix | AtlStlStringSortPerf/AtlStlStringSortPerf.cpp:67-71 | a proper prefix is below every extension of it |
| Ordinal.Wcscmp | AtlStlStringSortPerf/AtlStlStringSortPerf.cpp:70 | `wcscmp` scans two C strings up to the first difference or the common NUL; its result is -1, 0 or 1 |
| Ordinal.CompareUsingWcscmp | AtlStlStringSortPerf/AtlStlStringSortPerf.cpp:67-71 | `wcscmp(a.c_str(), b.c_str()) < 0`; it never holds of a string and itself |
| Ordinal.WcscmpIsLex | AtlStlStringSortPerf/AtlStlStringSortPerf.cpp:67-71 | on NUL-free strings: `CompareUsingWcscmp(a, b)` holds iff `a` is lexicographically below `b`; `wcscmp` is 0 iff `a == b` |
| Ordinal.CompareUsingWcscmpIrreflexive | AtlStlStringSortPerf/AtlStlStringSortPerf.cpp:67-71 | no string is less than itself, NUL or not |
| Ordinal.CompareUsingWcscmpAsymmetric | AtlStlStringSortPerf/AtlStlStringSortPerf.cpp:67-71 | if `a < b` then not `b < a`, for all strings |
| Ordinal.CompareUsingWcscmpProperPrefix | AtlStlStringSortPerf/AtlStlStringSortPerf.cpp:67-71 | a proper prefix of a NUL-free string is less than it |
| Ordinal.WcscmpEqualUpToNul | AtlStlStringSortPerf/AtlStlStringSortPerf.cpp:70 | two C views that agree up to and including a NUL at `z` compare equal from every position `k <= z` |
| Ordinal.WcscmpStopsAtNul | AtlStlStringSortPerf/AtlStlStringSortPerf.cpp:70 | any two strings that agree up to and including an embedded NUL are equivalent under `CompareUsingWcscmp`: neither is less than the other |
| Ordinal.WcscmpStopsAtNulExample | AtlStlStringSortPerf/AtlStlStringSortPerf.cpp:70 | for instance `A NUL B` and `A NUL C`: different, equivalent under `CompareUsingWcscmp`, yet ordered by `operator<` |
| Ordinal.Wmemcmp | AtlStlStringSortPerf/AtlStlStringSortPerf.cpp:11-12 | `wmemcmp` over the first `n` units from position `k`: -1, 0 or 1; `WmemcmpFrom` proves 0 exactly on equal ranges and negative exactly when lexicographically below |
| Ordinal.WmemcmpFrom | AtlStlStringSortPerf/AtlStlStringSortPerf.cpp:11-12 | `Wmemcmp` is 0 iff the two ranges are equal, and negative iff the first range is lexicographically below the second |
| Ordinal.Compare | AtlStlStringSortPerf/AtlStlStringSortPerf.cpp:159 | `basic_string::compare`: -1, 0 or 1, and 0 exactly when the strings are equal |
| Ordinal.StlLess | AtlStlStringSortPerf/AtlStlStringSortPerf.cpp:159 | the default `operator<` of lines 159, 173 and 187: `compare(a, b) < 0`; it never holds of equal strings |
| Ordinal.StlLessIsLex | AtlStlStringSortPerf/AtlStlStringSortPerf.cpp:159 | the default `operator<` is the lexicographic order on all strings; `compare` is 0 iff the strings are equal |
| Ordinal.SwitchPreservesOrder | AtlStlStringSortPerf/AtlStlStringSortPerf.cpp:11-13 | on NUL-free strings, `CompareUsingWcscmp` and `operator<` agree on every pair |
| SortContract.LessIsLex | AtlStlStringSortPerf/AtlStlStringSortPerf.cpp:151-187 | each comparison a sort call uses is the lexicographic order, on the strings it is given |
| SortContract.SortedByIsLexSorted | AtlStlStringSortPerf/AtlStlStringSortPerf.cpp:151-187 | sorted by the comparison iff sorted lexicographically |
| SortContract.Ascending | AtlStlStringSortPerf/AtlStlStringSortPerf.cpp:150-190 | the reference arrangement has the length and the multiset of its input |
| SortContract.AscendingSorted | AtlStlStringSortPerf/AtlStlStringSortPerf.cpp:150-190 | the reference arrangement is sorted |
| SortContract.SortedUnique | AtlStlStringSortPerf/AtlStlStringSortPerf.cpp:150-190 | two sorted sequences with the same multiset are equal |
| SortContract.SortOutcomeDetermined | AtlStlStringSortPerf/AtlStlStringSortPerf.cpp:150-190 | any permutation of `s` that is sorted by the comparison is `Ascending(s)`; stability does not matter |
| SortContract.SortIdempotent | AtlStlStringSortPerf/AtlStlStringSortPerf.cpp:150-190 | sorting an already sorted range leaves it unchanged |
| SortContract.AscendingOfPermutation | AtlStlStringSortPerf/AtlStlStringSortPerf.cpp:115-116 | the outcome depends only on the multiset, so not on how the corpus was shuffled |
| SortContract.Sort | AtlStlStringSortPerf/AtlStlStringSortPerf.cpp:151-187 | `sort(first, last, comp)`: afterwards sorted, with no adjacent pair out of order, and a permutation of the old contents |
| TestCorpus.Entry | AtlStlStringSortPerf/AtlStlStringSortPerf.cpp:110 | `lorem[j] + " (#" + to_wstring(i) + ")"`: begins with its template, and is 4 units longer than template and digits together |
| TestCorpus.EntryTag | AtlStlStringSortPerf/AtlStlStringSortPerf.cpp:110 | after the template come `" (#"`, the digits of `i` and `")"` |
| TestCorpus.Row | AtlStlStringSortPerf/AtlStlStringSortPerf.cpp:108-111 | one pass of the inner loop appends eight entries, `lorem[j] + " (#" + to_wstring(i) + ")"` in table order |
| TestCorpus.Corpus | AtlStlStringSortPerf/AtlStlStringSortPerf.cpp:106-113 | before the shuffle: `8 * n` entries, entry `8 * i + j` is template `j` tagged with `i` |
| TestCorpus.TemplateTable | AtlStlStringSortPerf/AtlStlStringSortPerf.cpp:88-98 | the table has eight lines, none holds a NUL, and none is a prefix of another |
| TestCorpus.EntryNoNul | AtlStlStringSortPerf/AtlStlStringSortPerf.cpp:110 | no entry holds a NUL |
| TestCorpus.EntryTemplate | AtlStlStringSortPerf/AtlStlStringSortPerf.cpp:110 | template `j` begins the entry of template `k` iff `j == k` |
| TestCorpus.EntryInjective | AtlStlStringSortPerf/AtlStlStringSortPerf.cpp:110 | two entries are equal iff template and iteration both match |
| TestCorpus.CorpusEntry | AtlStlStringSortPerf/AtlStlStringSortPerf.cpp:106-111 | entry `p` is template `p % 8` tagged with `p / 8` |
| TestCorpus.CorpusNoNul | AtlStlStringSortPerf/AtlStlStringSortPerf.cpp:106-111 | no entry of the corpus holds a NUL |
| TestCorpus.CorpusDistinct | AtlStlStringSortPerf/AtlStlStringSortPerf.cpp:106-111 | no entry occurs twice |
| TestCorpus.CorpusMultiplicity | AtlStlStringSortPerf/AtlStlStringSortPerf.cpp:106-111 | each (template, iteration) entry occurs once if the iteration is below `n`, otherwise not at all |
| TestCorpus.CorpusMembers | AtlStlStringSortPerf/AtlStlStringSortPerf.cpp:106-111 | every entry is some template tagged with some iteration below `n` |
| TestCorpus.TemplateColumn | AtlStlStringSortPerf/AtlStlStringSortPerf.cpp:106-111 | each template begins exactly `n` entries, tagged 0, 1, ..., n-1 in increasing order |
| TestCorpus.BuildEntries | AtlStlStringSortPerf/AtlStlStringSortPerf.cpp:100-113 | the nested `push_back` loops build exactly `Corpus(lorem, n)` |
| TestCorpus.ShuffleFrom | AtlStlStringSortPerf/AtlStlStringSortPerf.cpp:116 | the shuffle steps from position `i` down: length kept, positions from `i` on left as they are |
| TestCorpus.ShuffleFromPermutes | AtlStlStringSortPerf/AtlStlStringSortPerf.cpp:116 | those steps keep the length and the multiset |
| TestCorpus.Shuffled | AtlStlStringSortPerf/AtlStlStringSortPerf.cpp:115-116 | the shuffle of the whole vector keeps the length and the multiset of entries, for any generator output |
| TestCorpus.Shuffle | AtlStlStringSortPerf/AtlStlStringSortPerf.cpp:116 | the in-place shuffle leaves `Shuffled(old contents, draw)`, a permutation of the old contents |
| TestCorpus.MakeShuffled | AtlStlStringSortPerf/AtlStlStringSortPerf.cpp:86-118 | the lambda returns the shuffle of `Corpus(LOREM, n)`: `8 * n` NUL-free entries with the corpus's multiset, a function of `n` and the generator |
| SortPerf.CStrPointers | AtlStlStringSortPerf/AtlStlStringSortPerf.cpp:120-128 | `shuffledPtrs[k]` is the `c_str()` of `shuffled[k]`, for every `k` |
| SortPerf.AtlCopyOfPointers | AtlStlStringSortPerf/AtlStlStringSortPerf.cpp:135 | the `CStringW` built from each pointer is the corresponding entry of `shuffled` |
| SortPerf.Replicate | AtlStlStringSortPerf/AtlStlStringSortPerf.cpp:135-140 | six new vectors, pairwise distinct, each holding `shuffled` in the same order before any sort |
| SortPerf.TrialComparator | AtlStlStringSortPerf/AtlStlStringSortPerf.cpp:151-187 | the ATL trials (lines 151, 165, 179) compare with wcscmp; the STL trials do so exactly when `TEST_STL_WCSCMP_COMPARE` is defined (lines 11-13), otherwise with `operator<` |
| SortPerf.TrialComparatorIsLex | AtlStlStringSortPerf/AtlStlStringSortPerf.cpp:151-187 | whatever the switch, each trial's comparison is the lexicographic order on NUL-free strings |
| SortPerf.SortTrial | AtlStlStringSortPerf/AtlStlStringSortPerf.cpp:150-153 | one trial changes only its own vector, which comes out sorted, a permutation of its contents, and equal to `Ascending` of them |
| SortPerf.RunTests | AtlStlStringSortPerf/AtlStlStringSortPerf.cpp:75-193 | the shuffled corpus is as the lambda builds it; each of the six vectors is sorted by its trial's comparison, is a permutation of `shuffled`, and equals `Ascending` of the unshuffled corpus, whichever value the switch has |

## Left out

- Timing: `Counter`, `Frequency`, `PrintTime` (lines 41-58) and the `start`/`finish` readings. These are platform timer calls and floating-point arithmetic; the model says nothing about speed.
- Console output: every `cout`/`cerr` banner and message.
- The `try`/`catch` in `main` (lines 196-217) and its exit codes. The model has no exceptions, and allocation failure is not modelled.
- The `_WIN64` and `_DEBUG` switches. `kTestIterationCount` (lines 101-105) is the parameter `n`.
- The `TEST_STL_WCSCMP_COMPARE` switch is the parameter `useWcscmp`.
- The generator `mt19937 prng(1980)` (line 115) is the parameter `draw`, which stands for the values it supplies. The concrete output of the seed 1980 is not computed.
- TestCorpus.Shuffle: a Fisher-Yates pass stands in for `std::shuffle`, whose own algorithm belongs to the library. Only "the result is a function of the input and the generator, and a permutation of the input" is claimed of the library's shuffle.
- SortContract.Sort: the body writes back the reference arrangement. It is not the library's introsort. Only the [alg.sort] postcondition is the model of `std::sort`.
- `CStringW` internals: reference counting and copy-on-write. A `CStringW` is its sequence of units.
- `CStringW`'s `operator<` (lines 151, 165, 179) is modelled as a `wcscmp`-based comparison, the same as `CompareUsingWcscmp`. The ATL header that defines it is not part of this model.
- `shuffledPtrs` holds the C views as values, not as pointers into `shuffled`'s storage, so aliasing is not modelled.
- Code units are unbounded naturals, not 16-bit `wchar_t`, and the loop counter is unbounded, not a 32-bit `int`. The corpus's units are all ASCII and its indices stay below 200000, so neither width is reached.
- `CompareUsingWcscmp` is shown to be lexicographic only on NUL-free strings. For other strings the model proves irreflexivity and asymmetry, and `Ordinal.WcscmpStopsAtNul` shows where it departs from the order of the strings. `SortContract.Admissible` restricts the `wcscmp` sorts to NUL-free ranges, which the corpus always is.
