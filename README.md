# Verified model of the textbook search routines

This project models, in Dafny, two files of classical search algorithms:

- `task3.py` holds three substring searchers that each return the first index where a pattern occurs in a text, or -1:
  - Knuth–Morris–Pratt (`compute_lps`, `kmp_search`);
  - Boyer–Moore in its Horspool bad-character form (`build_shift_table`, `boyer_moore_search`);
  - Rabin–Karp with a rolling polynomial hash, base 256 and modulus 101 (`polynomial_hash`, `rabin_karp_search`).
- `task2.py` holds `binary_search`. It returns the number of loop iterations and, on a match, the element after the match, or the match itself when it is the last element.

The routines change local state step by step, so each one is a Dafny `method` with the same loops as the source. Each method is proved against a pure specification:

- `Occurrences.FirstOccurrence` is the first-occurrence function. All three substring searchers are proved to return exactly its value.
- `Kmp.IsLongestBorder` says what one LPS entry is. An LPS entry is the longest proper prefix of `pattern[..k+1]` that is also a suffix of it.
- `BoyerMoore.Shift` is the bad-character shift. `BoyerMoore.TableAfter` is the table after the first `n` iterations of the loop in `build_shift_table`, and `BoyerMoore.TableAfterEntries` says what it holds.
- `RabinKarp.Hash` is the polynomial hash, Σ ord(s[k])·base^(n-1-k) mod modulus.
- `BinarySearch.Sorted` and `BinarySearch.FollowUp` specify binary search.

Modules:

- `Occurrences` holds the shared specification.
- `Kmp`, `BoyerMoore` and `RabinKarp` hold one algorithm each, with its preprocessing.
- `Modular` holds congruence facts for Euclidean remainders. These equal Python's `%` for a positive divisor.
- `SearchComparison` models the result check of the benchmark driver and some worked examples.
- `BinarySearch` models `task2.py`.

Characters are `char` values, and `ord` is the code point `c as int`. Python's unbounded integers are Dafny's `int`. The binary search works on `int`; the source only compares elements with `<` and `>`. The source's `-1` "not found" marker becomes the datatype `Lookup = Found(next) | NotFound`, so it cannot clash with a real element.

## Model

| member | source | states |
|---|---|---|
| Occurrences.FirstOccurrence | task3.py:47-50 | the result is -1 exactly when the pattern occurs nowhere; otherwise the pattern occurs at the result and at no smaller index |
| Occurrences.FirstFrom | task3.py:110-113 | scanning starts from `k` upward yields the first matching start at or after `k`, or -1 when none matches |
| Occurrences.MatchesAtSlice | task3.py:112 | comparing the window `text[k..k+m]` with the pattern is the same as testing for an occurrence at `k` |
| Occurrences.FirstOccurrenceAt | task3.py:47-48 | an occurrence with no occurrence before it is the first occurrence |
| Occurrences.NoOccurrence | task3.py:50 | when every start below `i` fails and no window fits from `i` on, the answer is -1 |
| Occurrences.LongerPatternAbsent | task3.py:70 | a pattern longer than the text has no occurrence, so the answer is -1 |
| Occurrences.WholeTextAtZero | task3.py:28-50 | searching a text for itself gives index 0 |
| Kmp.BorderAt | task3.py:14 | a border (prefix equal to suffix) is the same as position-by-position agreement of prefix and suffix |
| Kmp.BorderShrink | task3.py:14-16 | a non-empty border of `p[..n+1]` comes from a border of `p[..n]` extended by the matching character `p[n]` |
| Kmp.BorderExtend | task3.py:14-16 | a border of `p[..n]` followed by a character equal to `p[n]` gives a border of `p[..n+1]` one longer |
| Kmp.BorderOfBorder | task3.py:19-20 | a border of a border of `p[..n]` is a border of `p[..n]`, so the fall-back `lps[length-1]` stays a border |
| Kmp.ShorterBorderIsBorderOfBorder | task3.py:19-20 | every shorter border of `p[..n]` is a border of any longer one, so the fall-back chain passes every candidate |
| Kmp.LpsExtendStep | task3.py:14-17 | on a character match, `length + 1` is the longest border of `pattern[..i+1]` |
| Kmp.LpsFallbackStep | task3.py:19-20 | on a mismatch with `length != 0`, `lps[length-1]` is a shorter border of `pattern[..i]`, and no border between it and `length` can extend |
| Kmp.LpsZeroStep | task3.py:21-23 | on a mismatch with `length == 0`, the longest border of `pattern[..i+1]` is 0 |
| Kmp.ComputeLps | task3.py:6-25 | the table has one entry per pattern character; `lps[0] == 0`; `0 <= lps[k] <= k`; and `lps[k]` is the longest proper prefix of `pattern[..k+1]` that is also its suffix. The loop terminates because `lps[length-1] < length` |
| Kmp.FallbackSkipsNoOccurrence | task3.py:42-43 | after `j` matched characters and a mismatch, falling back to `lps[j-1]` skips no occurrence |
| Kmp.KmpSearch | task3.py:28-50 | for a non-empty pattern, the result is the first occurrence index or -1. The loop invariants keep `0 <= j < M` and `j <= i <= N`, and the text cursor never moves back |
| BoyerMoore.LastIndex | task3.py:58-59 | the index of the last occurrence of `c` in `s`, or -1: that index holds `c` and no later index does |
| BoyerMoore.TableAfterEntries | task3.py:58-59 | after the loop over `pattern[..n]`, the keys are exactly the characters of `pattern[..n]`, each mapped to `m - 1 - ` its last index there |
| BoyerMoore.ShiftBounds | task3.py:58-60 | every shift lies in `1..m`; it is below `m` for a character that occurs before the last position; and the positions it jumps over do not hold that character |
| BoyerMoore.BuildShiftTable | task3.py:53-61 | the keys are exactly the characters of the pattern. Each key maps to the distance from its last occurrence in `pattern[..m-1]` to the end. The last character maps to `m` only when it does not occur earlier |
| BoyerMoore.ShiftSkipsNoOccurrence | task3.py:79 | after a failed window at `i`, no start strictly between `i` and `i + shift` is an occurrence |
| BoyerMoore.BoyerMooreSearch | task3.py:64-81 | for a non-empty pattern, the result is the first occurrence index or -1. It is -1 when the pattern is longer than the text. Every shift is at least 1 |
| RabinKarp.WeightedDropLast | task3.py:84-91 | without the last character, each earlier term of the hash polynomial loses one power of the base |
| RabinKarp.ValueSnoc | task3.py:84-91 | Horner's rule: value(s) = value(s without its last character)·base + ord(last character) |
| RabinKarp.WeightedDropFirst | task3.py:84-91 | without the first character, the sum loses exactly its leading term |
| RabinKarp.ValueCons | task3.py:84-91 | value(s) = ord(s[0])·base^(n-1) + value(s[1..]) |
| RabinKarp.HashStep | task3.py:89-90 | one loop step keeps the running hash equal to the partial sum reduced modulo `modulus`, although the power is reduced first |
| RabinKarp.PolynomialHash | task3.py:84-91 | the result lies in `[0, modulus)` and equals (Σ ord(s[k])·base^(n-1-k)) mod modulus |
| RabinKarp.RollingValue | task3.py:116-122 | the next window's exact value is (value − ord(outgoing)·base^(m-1))·base + ord(incoming) |
| RabinKarp.RollingCongruence | task3.py:116-122 | doing that update on remainders, reducing after each step, gives the same result modulo the modulus as the exact update |
| RabinKarp.RollingUpdate | task3.py:116-122 | after the update, the rolling hash equals the fresh hash of the window `text[i+1..i+1+m]` |
| RabinKarp.RabinKarpSearch | task3.py:94-126 | for a non-empty pattern, the result is the first occurrence index or -1. It is -1 when the pattern is longer than the text, because the loop range is empty. A loop invariant keeps `current_slice_hash` equal to the hash of the current window, and an assertion in the body shows the branch at lines 123-124 is never taken |
| SearchComparison.CompareResults | task3.py:185-189 | on the same inputs, Rabin–Karp, KMP and Boyer–Moore return the same value, and that value is `FirstOccurrence(text, pattern)`: the first occurrence, or -1 when there is none |
| SearchComparison.KmpExample | task3.py:28-50 | "ABABCABAB" first occurs in "ABABDABACDABABCABAB" at index 10 |
| SearchComparison.GeeksExample | task3.py:94-126 | "GEEK" first occurs in "GEEKS FOR GEEKS" at index 0 |
| SearchComparison.ShiftTableExample | task3.py:53-61 | for "ABC", 'A' shifts by 2, 'B' by 1, and the unique last character 'C' by 3 |
| SearchComparison.CollisionIsNotAMatch | task3.py:111-113 | "A" and "¦" have equal hashes modulo 101, yet "A" does not occur in "¦"; a hash hit alone is not reported |
| BinarySearch.Log2Monotone | task2.py:21-27 | the floor logarithm is monotone |
| BinarySearch.Log2Halving | task2.py:23-27 | halving a range of size `s` into a non-empty range lowers the floor logarithm by at least one |
| BinarySearch.BinarySearch | task2.py:6-31 | an empty list gives `(0, NotFound)`. A non-empty list gives `1 <= n_iter <= floor(log2 n) + 1`. `Found(next)` means some index `mid` holds `x` and `next` is `arr[mid+1]`, or `arr[mid]` when `mid` is last. For sorted input, the result is `Found` exactly when `x` is in the list |
| BinarySearch.FollowUpExample | task2.py:29 | in [10, 25, 33, 71, 90], which is sorted and contains 71, the only index holding 71 reports 90 |

## Left out

- `compare_pattern_search` (task3.py:129-216) and the `__main__` guard: file reading, `OSError` handling, `timeit` timing and printing. Only its result check (lines 185-189) is modelled, by `SearchComparison.CompareResults`.
- The module-level demo in task2.py:34-39: random float data and printing.
- Empty patterns. `KmpSearch`, `BoyerMooreSearch` and `RabinKarpSearch` require a non-empty pattern, for these reasons:
  - `kmp_search` raises on `pattern[0]` when the text is non-empty, and returns -1 when the text is empty, so it does not return 0 for an empty pattern;
  - `build_shift_table` raises on `pattern[-1]`;
  - `rabin_karp_search` returns 0 for an empty pattern and any text: at `i = 0` both hashes are 0 and the empty window equals the pattern, so the float multiplier `pow(256, -1)` is never used. The model leaves this case out, so that all three searchers share one precondition.
- PolynomialHash: requires `modulus > 0`. The source raises ZeroDivisionError for modulus 0 on a non-empty string (task3.py:89) and returns 0 for the empty string. For a negative modulus it gives non-positive remainders. Every call passes 101.
- BinarySearch: elements are `int` rather than floats. The result's meaning for duplicate elements is stated as "some index holding `x`", because which duplicate is hit depends on the probe order.
- Running time is not modelled. The linear bound of KMP and the sub-linear average of Horspool are not stated; only termination and the iteration bound of binary search are.
- Python strings are sequences of code points; there is no normalisation or encoding.
