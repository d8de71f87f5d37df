# MSC text similarity, modelled in Dafny

`MSC.py` scores how similar two texts are.
1. `MSC.clean` normalises each text.
2. `MSC.equalizeTexts` pads the text with fewer `split(" ")` pieces with a block of `chr(0)` sentinels.
3. The two piece lists are zipped. For each word pair the character codes are zero-padded to a common length and subtracted (`int2 - int1`).
4. `MSC.S` averages a Gaussian kernel over each difference vector.
5. The text score is the mean over the word pairs.

`MSCMultiple.similarity` averages the text score over zipped field pairs.

The model is functional, with one module per stage:

| module | file | models |
|---|---|---|
| `PyBuiltins` | `pybuiltins.dfy` | `str.split(" ")`, `" ".join`, `str.strip()`, one-character `str.replace`, `re.sub(' +', ' ', …)`, `zip` |
| `Cleaner` | `cleaner.dfy` | `MSC.clean` |
| `Equalizer` | `equalizer.dfy` | `MSC.equalizeTexts` |
| `Kernel` | `kernel.dfy` | `MSC.kernel` (as laws), `MSC.S`, `np.mean` |
| `TextSimilarity` | `similarity.dfy` | `MSC._ord`, the per-word loop of `MSC.similarity`, `MSC.similarity` |
| `MultiField` | `multifield.dfy` | `MSCMultiple.similarity` |

Modelling decisions:

- **The kernel** `exp(-0.5·x²)` is not computed. Every operation that needs it takes a parameter `k: int -> real` constrained by `Kernel.IsKernel`:
  - values lie in (0, 1];
  - `k(0) == 1`;
  - `k` is even;
  - `k` is strictly decreasing in `|x|`.

  The real-valued Gaussian obeys all four laws. numpy's float64 `exp` does not: it rounds to `0.0` once `0.5·x²` passes about 745, that is for `|x| >= 39` (see "Left out"). `Kernel.KernelExists` shows the laws are consistent.
- **Helpers.** `PyBuiltins.Count` (occurrences of a character) is not a Python call of the program. It measures the length of `split`'s result and what the cleaner keeps.
- **Scores** are exact reals. numpy's NaN is the separate value `Score.NaN`:
  - `S` of an empty vector is `0.0 / 0`, so it is NaN;
  - `np.mean` of an empty list is NaN;
  - `np.mean` of a list that holds a NaN is NaN.
- **Characters.** Strings are `seq<char>` and `ord` is `c as int`. A Dafny `char` cannot be a lone surrogate (U+D800–U+DFFF), which a Python `str` can hold. The filter would drop such a character like any other disallowed one, so no score depends on it.
- **Python integers** are unbounded. numpy's int64 subtraction of character codes cannot overflow, so plain `int` is exact.

Three behaviours of the code are easy to miss from its docstrings. The model follows the code:

- Cleaning an already cleaned text can change it again. `Cleaner.CleanNotIdempotent` proves `clean(". a") == " a"` and `clean(" a") == "a"`: strip and collapse run before the character filter.
- `MSCMultiple.similarity` documents field lists with the same number of fields (MSC.py:213), but lists of different lengths are not rejected: `zip` truncates to the shorter list (`MultiField.MultiSimilarityTruncates`).
- The docstring says a score of 1 means the texts are equal (MSC.py:8, MSC.py:103), but that is not so. The sentinel `chr(0)` fused onto the shorter text's last word has code 0, the same as the zero padding, so appending one word to a text does not lower its score (`TextSimilarity.TrailingWordIgnored`).

## Model

| member | source | states |
|---|---|---|
| PyBuiltins.Join | MSC.py:92 | `" ".join` of a non-empty list is as long as its pieces together plus one separator per gap |
| PyBuiltins.Replace | MSC.py:166-168 | a one-character `replace` keeps the length, changes exactly the occurrences of the old character into the new one, and leaves none of the old character when the two differ |
| PyBuiltins.Split | MSC.py:87-88 | `split(" ")` yields one more piece than there are spaces, so never an empty list |
| PyBuiltins.SplitPiecesHaveNoSpace | MSC.py:120 | no piece of a split contains a space |
| PyBuiltins.SplitConcat | MSC.py:92 | splitting `a + b` fuses the last piece of `a` with the first piece of `b` |
| PyBuiltins.SplitAppendWord | MSC.py:87 | appending a space and a space-free word adds exactly that word as the last piece |
| PyBuiltins.SplitJoin | MSC.py:92 | `split` undoes `" ".join` when no piece has a space |
| PyBuiltins.JoinSplit | MSC.py:120 | `" ".join` undoes `split` |
| PyBuiltins.StripLeft | MSC.py:169 | left strip removes exactly a whitespace prefix and leaves a non-whitespace first character |
| PyBuiltins.StripRight | MSC.py:169 | right strip removes exactly a whitespace suffix and leaves a non-whitespace last character |
| PyBuiltins.Strip | MSC.py:169 | `strip()` gives the infix between a whitespace prefix and a whitespace suffix, with no whitespace at either end |
| PyBuiltins.StripIdentity | MSC.py:169 | a text without whitespace at its ends is unchanged by `strip()` |
| PyBuiltins.CollapseSpaces | MSC.py:170 | `re.sub(' +', ' ', …)` leaves no double space, only deletes characters, keeps every non-space character and keeps both ends |
| PyBuiltins.CollapseSpacesCount | MSC.py:170 | the collapse removes exactly one space per adjacent pair of spaces, so every run of spaces keeps exactly one; with `CollapseSpaces` this fixes the result |
| PyBuiltins.CollapseSpacesIdentity | MSC.py:170 | a text with no double space is unchanged by the collapse |
| PyBuiltins.Zip | MSC.py:120 | `zip` has the shorter length and pairs equal positions |
| Cleaner.Lower | MSC.py:165 | `lower()` keeps the length, maps each ASCII capital to its small letter (code + 32), `É` to `é` and `È` to `è`, and keeps every other character, so no ASCII capital, `É` or `È` is left |
| Cleaner.Retype | MSC.py:165-168 | lowering, accent folding and newline replacement keep the length and act character by character: an ASCII capital becomes its small letter, `é`, `è`, `É` and `È` become `e`, a newline becomes a space, every other character stays; so no newline, ASCII capital or accented `e` is left |
| Cleaner.Tidy | MSC.py:165-170 | the stages before the filter leave no whitespace at either end and no double space |
| Cleaner.IsAllowed | MSC.py:174 | an allowed character is unchanged by lowering, and the only allowed whitespace is the space |
| Cleaner.KeepAllowed | MSC.py:172-175 | the filter keeps exactly the allowed characters, in order, each as often as before |
| Cleaner.Clean | MSC.py:165-177 | `clean` output uses only codes 97–122, 48–57 and space, is a subsequence of the tidied text, and keeps every allowed character of it |
| Cleaner.TidyShape | MSC.py:165-170 | before the filter the text has no whitespace at either end, no double space, no newline, no upper-case ASCII letter and no é, è, É or È |
| Cleaner.TidyShapedIdentity | MSC.py:165-170 | a text with no newline, capital or accented `e`, no whitespace at its ends and no double space is unchanged by the stages before the filter |
| Cleaner.TidyLeadingSpace | MSC.py:165-170 | one space in front of a non-empty normalized text is stripped away |
| Cleaner.KeepAllowedDropsFirst | MSC.py:172-175 | the filter drops a disallowed first character in front of allowed ones |
| Cleaner.CleanRetypedNormalized | MSC.py:165-177 | when the first four stages already give a normalized text, `clean` returns exactly that text |
| Cleaner.CleanDropsFirst | MSC.py:169-175 | a disallowed non-whitespace character, a space and a normalized text clean to the space and the text: the filter uncovers a leading space after the strip has run |
| Cleaner.CleanLeadingSpace | MSC.py:169-177 | a space in front of a non-empty normalized text is removed by `clean` |
| Cleaner.RetypeIdentity | MSC.py:165-168 | lowering, accent folding and newline replacement leave an allowed-only text unchanged |
| Cleaner.KeepAllowedIdentity | MSC.py:172-175 | the filter leaves an allowed-only text unchanged |
| Cleaner.TidyNormalized | MSC.py:165-170 | a normalized text is unchanged by the stages before the filter |
| Cleaner.CleanNormalized | MSC.py:165-177 | a text in the allowed alphabet with no leading, trailing or double space is returned unchanged |
| Cleaner.CleanNotIdempotent | MSC.py:169-175 | cleaning twice can differ from cleaning once: `". a"` cleans to `" a"`, which cleans to `"a"` |
| Cleaner.CleanFoldsAccent | MSC.py:165-166 | `clean("Café") == "cafe"`: case and the acute accent are folded |
| Equalizer.WordCount | MSC.py:87-88 | the word count is one more than the number of spaces |
| Equalizer.SentinelBlock | MSC.py:92 | the block for `n` sentinels is empty for 0 and otherwise has length `2n-1`, with `chr(0)` at even positions and spaces at odd ones |
| Equalizer.SplitSentinelBlock | MSC.py:92 | the block splits into `n` one-sentinel pieces |
| Equalizer.Equalize | MSC.py:87-97 | equal counts leave both texts unchanged; otherwise the text with more pieces is unchanged and the other gets the block for the difference, with no leading space |
| Equalizer.EqualizeSwap | MSC.py:90-95 | swapping the texts swaps the results |
| Equalizer.SplitPadded | MSC.py:92 | the padded text's pieces are the original's, with one sentinel fused onto the last, followed by `n-1` lone sentinels |
| Equalizer.PaddedWordCount | MSC.py:92 | padding with `n` sentinels adds only `n-1` pieces |
| Equalizer.EqualizeWordCounts | MSC.py:90-95 | after equalizing, unequal counts become `max` for the longer text and `max-1` for the padded one |
| Kernel.KernelExists | MSC.py:47 | the kernel laws are satisfiable |
| Kernel.KernelOne | MSC.py:47 | the kernel is 1 exactly at 0 |
| Kernel.KernelSumBounds | MSC.py:60 | the kernel sum lies in (0, `len`] for a non-empty vector and reaches `len` exactly when every entry is 0 |
| Kernel.S | MSC.py:60 | `S` is NaN exactly for an empty vector, otherwise in (0, 1], and exactly 1 when every difference is 0 |
| Kernel.SNegate | MSC.py:60 | negating every difference leaves `S` unchanged |
| Kernel.Mean | MSC.py:149 | `np.mean` is a number exactly for a non-empty list of numbers; a mean of values in (0, 1] lies in (0, 1] and is 1 exactly when every value is 1 |
| Kernel.MeanCases | MSC.py:149 | the mean is NaN exactly when the list is empty or holds a NaN, and 1 exactly when the list is non-empty and all ones |
| TextSimilarity.Ord | MSC.py:72 | `_ord` gives one code per character |
| TextSimilarity.OrdInjective | MSC.py:72 | different words have different code lists |
| TextSimilarity.PadCodes | MSC.py:128-136 | both padded vectors have the longer length, start with their own codes, and hold only zeros after them |
| TextSimilarity.PadCodesSwap | MSC.py:131-136 | swapping the vectors swaps the padded results |
| TextSimilarity.WordDifference | MSC.py:123-141 | `z` has one entry per position of the longer word, each the second word's padded code minus the first's |
| TextSimilarity.WordDifferenceSwap | MSC.py:141 | swapping the words negates `z` |
| TextSimilarity.WordScore | MSC.py:123-142 | a word pair scores NaN exactly when both words are empty, otherwise in (0, 1], and 1 exactly when the padded codes agree |
| TextSimilarity.WordScoreSymmetric | MSC.py:131-142 | the word score does not depend on word order |
| TextSimilarity.CodesMatchWithoutSentinel | MSC.py:123-141 | for words without `chr(0)`, the padded codes agree exactly when the words are equal and non-empty |
| TextSimilarity.CodesMatchFusedSentinel | MSC.py:131-136 | a word and the same word with the fused sentinel have agreeing padded codes |
| TextSimilarity.WordScoreDecays | MSC.py:141-142 | between one-letter words, a larger code gap gives a strictly smaller score |
| TextSimilarity.WordPairs | MSC.py:115-120 | at least one word pair is always scored |
| TextSimilarity.WordPairsSpaceFree | MSC.py:120 | no scored word contains a space |
| TextSimilarity.WordScores | MSC.py:119-147 | one score per pair, each a number in (0, 1] or NaN, and all numbers when no pair is two empty words |
| TextSimilarity.PairCount | MSC.py:117-120 | `zip` compares `n` pairs for equal counts and `max-1` otherwise; at least one pair; the longer text's last piece is never scored |
| TextSimilarity.Similarity | MSC.py:114-149 | a text score that is a number lies in (0, 1] |
| TextSimilarity.MeanOfWordScores | MSC.py:147-149 | over a non-empty list of pairs the mean is NaN exactly when a pair of empty words is present, and 1 exactly when every pair's codes agree |
| TextSimilarity.SimilarityCases | MSC.py:114-149 | the text score is NaN exactly when a scored pair is two empty words, and 1 exactly when every scored pair's codes agree |
| TextSimilarity.WordPairsSwap | MSC.py:117-120 | swapping the texts swaps every scored word pair |
| TextSimilarity.SimilaritySymmetric | MSC.py:90-149 | `similarity(A, B) == similarity(B, A)` |
| TextSimilarity.SimilarityReflexive | MSC.py:114-149 | `similarity(T, T)` is 1 exactly when no cleaned piece is empty, and NaN otherwise |
| TextSimilarity.FirstPieceEmpty | MSC.py:120 | the first piece is empty exactly when the text is empty or starts with a space |
| TextSimilarity.LaterPiecesNonEmpty | MSC.py:120 | with no double and no trailing space, no later piece is empty |
| TextSimilarity.NormalizedPiecesNonEmpty | MSC.py:120 | a non-empty normalized text has no empty piece |
| TextSimilarity.TrailingWordIgnored | MSC.py:92-149 | a normalized text with one extra word appended scores exactly 1 against the original text |
| TextSimilarity.PrefixTextScoresOne | MSC.py:92-149 | `similarity("one two three", "one two") == 1` |
| TextSimilarity.EmptyTextsNaN | MSC.py:114-149 | two empty texts score NaN |
| TextSimilarity.PaddedPairs | MSC.py:90-120 | for normalized texts with unequal counts, the shorter text's pieces, then its last piece with a sentinel, then lone sentinels, are zipped against the longer text's pieces |
| TextSimilarity.MismatchScores | MSC.py:90-149 | a count mismatch between normalized texts, the shorter one non-empty, never yields NaN |
| TextSimilarity.PaddedPiecesNonEmpty | MSC.py:92 | padding a list of non-empty pieces with sentinels leaves no piece empty |
| MultiField.FieldScores | MSC.py:220-222 | one text score per zipped field pair, `min` of the list lengths |
| MultiField.MultiSimilarity | MSC.py:218-224 | a multi-field score that is a number lies in (0, 1] |
| MultiField.MultiSimilarityCases | MSC.py:218-224 | NaN exactly when no field pair is formed or some pair scores NaN; 1 exactly when a pair is formed and every pair scores 1 |
| MultiField.MultiSimilaritySymmetric | MSC.py:218-224 | swapping the field lists does not change the score |
| MultiField.MultiSimilarityReflexive | MSC.py:218-224 | a field list against itself scores 1 exactly when it is non-empty and no cleaned field has an empty piece |
| MultiField.MultiSimilarityTruncates | MSC.py:220 | fields beyond the shorter list's length do not affect the score |

## Left out

- `MSC.kernel` is not evaluated. `exp(-0.5·x²/s²)` in floating point is replaced by the four laws of `Kernel.IsKernel`. The numeric results in the docstrings (MSC.py:22, MSC.py:200) depend on real exponentials and are not reproduced.
- The kernel's width parameter `s` is fixed at its default 1, the only value `S` ever passes. It only matters through the laws, which hold for every positive `s`.
- Floating-point rounding of the sums and means is not modelled: scores are exact reals.
- Kernel.S: the (0, 1] bound does not hold for the program. float64 `np.exp(-0.5·x²)` underflows to `0.0` for `|x| >= 39`. Every letter or digit set against zero padding or a sentinel has such a gap, and so does every letter against a digit. `similarity("a", "9")` gives `z = [-40]` and returns `0.0`. The program's `S` lies in [0, 1], and those positions add exactly 0 rather than a small positive amount.
- TextSimilarity.Similarity: for the same reason the program's text score can be exactly `0.0`; the model's score is in (0, 1].
- MultiField.MultiSimilarity: for the same reason the program's multi-field score can be exactly `0.0`; the model's score is in (0, 1].
- TextSimilarity.WordScoreDecays: strict decay holds only for gaps below 39 in the program. Letter pairs differ by at most 25, but two gaps of 39 or more both score `0.0`.
- Kernel.KernelSumBounds: for the same reason the program's kernel sum of a non-empty vector can be `0.0`.
- Cleaner.LowerChar: `str.lower()` is modelled only for ASCII `A`–`Z`, `É` and `È`. Other upper-case characters are left unchanged. They never survive the character filter, so `clean`'s result on them differs from Python only when lowering would produce an allowed character (U+212A KELVIN SIGN lowers to `k`, U+0130 to `i` plus a combining dot).
- PyBuiltins.IsSpace: Python's `str.isspace()` is modelled by its fixed set of Unicode whitespace characters.
- The default argument values of `clean`, `_ord`, `equalizeTexts` and `S` (MSC.py:49, MSC.py:62, MSC.py:74, MSC.py:151) are never used by `similarity`, which always passes every argument.
- The `verbose` printing (MSC.py:144-145), the `__version__` attribute and the constructors (MSC.py:25-30, MSC.py:203-205) have no effect on the scores.
- The `__main__` demonstration (MSC.py:226-246) is not modelled.
- numpy's run-time warnings that accompany a NaN result (division by zero, mean of an empty list) are I/O, not values.
