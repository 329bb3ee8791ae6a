# Verified model of the NLP text-statistics helpers

This project models the counting logic of the Python helpers in
`jupyter_notebooks/utils/`:

- **`text_stats.py`**: the simple tokenizer, sentence counting, and the
  lexical-diversity measures. These are type-token ratio (TTR), hapax ratio,
  Yule's K, Simpson's D and the moving-average TTR. Also the vowel-run
  syllable counter and the cumulative vocabulary-growth table behind Heaps'
  law.
- **`nlp_metrics.py`**: vocabulary overlap, lexical density, the
  co-occurrence counting behind pointwise mutual information (PMI), and the
  n-gram statistics.
- **`parallel_nlp.py`**: the worker-count rule, the fast cleaner and
  tokenizer, and the per-text, per-token-list and per-corpus statistics. Also
  the document-term count matrix, the pairwise Jaccard matrix, and the
  combined clean-and-tokenize pass.
- **`data_cleaning.py`**: these `TextCleaner.clean_text` steps are modelled:
  hashtag handling, repeated-character reduction, lower-casing, and
  whitespace collapse with strip. Also the ASCII-ratio language heuristic and
  the flattening of list cells.

Modelling conventions:

- A Python value that is not a string is `None` in an `Option`.
- Ratios are exact `real`s.
- A `Counter` is the list of distinct tokens in order of first occurrence
  (`Counting.Distinct`), together with multiset counts.
- Regular expressions are modelled on ASCII text.
- Loops in the source are `method`s with loop invariants, each proved
  against a specification function. Examples: the syllable counter, the
  moving-average TTR, the Heaps table, the PMI counter, the frequency and
  similarity matrices (filled in place in `array2`s), clean-and-tokenize,
  `clean_text` and `flatten_item`.
- Pure expressions are functions. The properties are lemmas over those
  functions.

Modules (one file each):

| module | contents |
|---|---|
| `Wrappers` | `Option` |
| `Ratio` | facts about `a / b` on reals from integer facts |
| `Slicing` | Python's index normalisation and clamping slice |
| `Counting` | `set`, `Counter`, counts and sums over Counter values |
| `TextScan` | character classes, `str.lower`, `\s+` collapse, `strip`, the `\b[a-zA-Z]{m,}\b` tokenizer, the HTML-tag, URL, hashtag and repeated-character substitutions |
| `StrOrder` | Python's string order and `sorted()` of a set of strings |
| `TextStats`, `NlpMetrics`, `ParallelNlp`, `DataCleaning` | one per source file |

## Model

| member | source | states |
|---|---|---|
| TextScan.Lower | jupyter_notebooks/utils/text_stats.py:34 | `text.lower()` keeps the length, maps each character to its lower-case form, and leaves no upper-case letter |
| TextScan.LowerOfLower | jupyter_notebooks/utils/parallel_nlp.py:89 | lower-casing text that has no upper-case letter changes nothing (lower-casing is idempotent) |
| TextScan.CollapseSpaces | jupyter_notebooks/utils/data_cleaning.py:116 | `\s+` to one space: never longer, no two adjacent whitespace characters, empty iff input empty, blank iff input blank, introduces no upper-case letter |
| TextScan.Strip | jupyter_notebooks/utils/data_cleaning.py:118 | `strip()` is the slice between the whitespace runs at both ends; the result does not start or end with whitespace and is empty iff the text is blank |
| TextScan.StripCollapse | jupyter_notebooks/utils/data_cleaning.py:116-118 | collapse then strip: no leading or trailing whitespace, no two adjacent whitespace characters, no upper-case letter if there was none before, empty iff the text was blank |
| TextScan.WordTokens | jupyter_notebooks/utils/parallel_nlp.py:75 | each match of `\b[a-zA-Z]{m,}\b` has length at least m (and at least 1), is all letters, and has no upper-case letter when the text has none |
| TextScan.WordTokensRun | jupyter_notebooks/utils/parallel_nlp.py:75 | a text made only of word characters is one maximal run: it is the single token exactly when it is all letters and at least m long, and there are no tokens otherwise |
| TextScan.WordTokensSplit | jupyter_notebooks/utils/parallel_nlp.py:75 | a character that is not a word character is a boundary: the tokens of `a + [c] + b` are those of `a` followed by those of `b` |
| TextScan.WordTokensCollapse | jupyter_notebooks/utils/parallel_nlp.py:88-102 | collapsing whitespace does not change the tokens of a text |
| TextScan.WordTokensStrip | jupyter_notebooks/utils/parallel_nlp.py:88-102 | stripping a text does not change its tokens |
| TextScan.KeepHashtagWords | jupyter_notebooks/utils/data_cleaning.py:103-105 | the left-to-right scan of `re.sub(r'#(\w+)', r'\1', s)`; its contract is carried by KeepHashtagWordsDropsMarks and KeepHashtagWordsNotRescanned |
| TextScan.KeepHashtagWordsDropsMarks | jupyter_notebooks/utils/data_cleaning.py:103-105 | `re.sub(r'#(\w+)', r'\1', s)` equals the reference definition: delete each `#` that is directly followed by a word character, keep every other character (so the words stay) |
| TextScan.KeepHashtagWordsNotRescanned | jupyter_notebooks/utils/data_cleaning.py:105 | the substitution does not rescan its output: `##tag` becomes `#tag` |
| TextScan.DropHashMarks | jupyter_notebooks/utils/data_cleaning.py:105 | the reference deletion never lengthens the text |
| TextScan.RemoveTags | jupyter_notebooks/utils/parallel_nlp.py:86 | `re.sub(r'<[^>]+>', ' ', s)`: never longer than the input, empty iff the input is; fixed on every input by the four RemoveTags lemmas below |
| TextScan.RemoveTagsPlain | jupyter_notebooks/utils/parallel_nlp.py:86 | text without `<` is kept as it is in front of the rest |
| TextScan.RemoveTagsTag | jupyter_notebooks/utils/parallel_nlp.py:86 | `<`, one or more characters other than `>`, and the first `>` after them become exactly one space |
| TextScan.RemoveTagsEmptyBrackets | jupyter_notebooks/utils/parallel_nlp.py:86 | `<>` is no tag and is kept |
| TextScan.RemoveTagsUnclosed | jupyter_notebooks/utils/parallel_nlp.py:86 | a text without `>` holds no tag and is kept as it is |
| TextScan.RemoveUrls | jupyter_notebooks/utils/parallel_nlp.py:87 | the `_URL_PATTERN` substitution, `http[s]?://\S+` or `www\.\S+` replaced by a space: never longer than the input, empty iff the input is; fixed on every input by RemoveUrlsKept and RemoveUrlsUrl |
| TextScan.RemoveUrlsKept | jupyter_notebooks/utils/parallel_nlp.py:87 | a prefix in which no URL starts is kept as it is in front of the rest |
| TextScan.RemoveUrlsUrl | jupyter_notebooks/utils/parallel_nlp.py:87 | `http://`, `https://` or `www.` with the whole run of non-whitespace after it becomes exactly one space |
| TextScan.RemoveUrlsNone | jupyter_notebooks/utils/parallel_nlp.py:87 | a text in which no URL starts is kept as it is |
| TextScan.NoMarkupKept | jupyter_notebooks/utils/parallel_nlp.py:86-87 | neither substitution changes a text with no `<`, `://` or `www.` |
| TextScan.RemoveHashtagsPlain | jupyter_notebooks/utils/data_cleaning.py:101-102 | text without `#` is kept as it is in front of the rest |
| TextScan.RemoveHashtagsTag | jupyter_notebooks/utils/data_cleaning.py:101-102 | a `#` followed by its whole run of word characters becomes exactly one space |
| TextScan.RemoveHashtagsLoneMark | jupyter_notebooks/utils/data_cleaning.py:101-102 | a `#` not followed by a word character is kept |
| TextScan.RemoveHashtagsStep | jupyter_notebooks/utils/data_cleaning.py:101-102 | hashtag by hashtag: the text before a `#` is kept, the `#` and its word run become one space, and the rest is processed in the same way |
| TextScan.RemoveHashtags | jupyter_notebooks/utils/data_cleaning.py:101-102 | `re.sub(r'#\w+', ' ', s)`: empty iff input empty; first character is a space at a hashtag and is kept otherwise; no `#` followed by a word character remains |
| TextScan.ReduceRepeats | jupyter_notebooks/utils/data_cleaning.py:107-109 | `re.sub(r'(.)\1{2,}', r'\1\1', s)`: never longer, keeps the first two characters, and leaves no run of three copies of a non-newline character |
| TextScan.ReduceRepeatsNoTriple | jupyter_notebooks/utils/data_cleaning.py:107-109 | a text with no run of three anywhere is left unchanged |
| TextScan.ReduceRepeatsRun | jupyter_notebooks/utils/data_cleaning.py:107-109 | for all inputs, a maximal run of k copies of c followed by the rest t becomes 2 copies when k ≥ 3 and c is not a newline, stays k copies otherwise, and is followed by the reduction of t |
| TextScan.ReduceRepeatsConcat | jupyter_notebooks/utils/data_cleaning.py:107-109 | two texts that do not meet inside a run (the first ends with a different character than the second starts with) are reduced independently |
| TextScan.ReduceRepeatsIdempotent | jupyter_notebooks/utils/data_cleaning.py:108-109 | reducing twice equals reducing once |
| TextScan.CollapseKeepsNoTriple | jupyter_notebooks/utils/data_cleaning.py:116 | whitespace collapse creates no new run of three |
| StrOrder.StrLt | jupyter_notebooks/utils/parallel_nlp.py:293 | Python's `<` on str: code-point lexicographic order; its order properties are carried by StrLtTotal |
| StrOrder.StrLtTotal | jupyter_notebooks/utils/parallel_nlp.py:293 | Python's string `<` orders any two different strings (it is also irreflexive and transitive: `StrOrder.StrLtIrreflexive` and `StrOrder.StrLtTransitive`) |
| StrOrder.LeastExists | jupyter_notebooks/utils/parallel_nlp.py:293 | a non-empty set of strings has a least element |
| StrOrder.SortedSet | jupyter_notebooks/utils/parallel_nlp.py:293 | `sorted(all_tokens)` is strictly increasing, holds exactly the set's elements, and is as long as the set |
| StrOrder.SortedDistinct | jupyter_notebooks/utils/parallel_nlp.py:293 | a strictly sorted list has no repeated element |
| Counting.Distinct | jupyter_notebooks/utils/text_stats.py:53 | the Counter's keys have no repeats, are exactly `set(tokens)`, and number `len(set(tokens))` |
| Counting.FreqValuesSum | jupyter_notebooks/utils/text_stats.py:117-123 | the Counter's values add up to the number of tokens |
| Counting.SumSquaresAtLeastSum | jupyter_notebooks/utils/text_stats.py:120-123 | the sum of squared counts is at least the sum of the counts |
| Counting.FreqValuesAllOnesIffNoDup | jupyter_notebooks/utils/text_stats.py:103 | every count is 1 exactly when no token repeats |
| Counting.SumCountsInKeys | jupyter_notebooks/utils/parallel_nlp.py:305-309 | for keys without repeats, the counts of the keys add up to the number of tokens that are keys |
| Counting.MaxCountAtLeastAverage | jupyter_notebooks/utils/nlp_metrics.py:294 | the largest count times the number of keys is at least the number of tokens |
| Slicing.PySlice | jupyter_notebooks/utils/text_stats.py:89 | `s[i:j]` with Python's negative-index and clamping rules; a slice with bounds inside the list is the plain slice |
| TextStats.TokenizeSimpleRun | jupyter_notebooks/utils/text_stats.py:24-34 | a word of word characters is one token, lower-cased, exactly when it is all letters |
| TextStats.TokenizeSimpleSplit | jupyter_notebooks/utils/text_stats.py:24-34 | a character that is not a word character separates tokens |
| TextStats.TokenizeSimple | jupyter_notebooks/utils/text_stats.py:29-34 | no tokens for a non-string; every token is a non-empty run of letters with no upper-case letter |
| TextStats.SplitSentencesStep | jupyter_notebooks/utils/text_stats.py:41 | a run of sentence marks ends a piece: the pieces of `x + marks + r` are `x` followed by the pieces of `r` |
| TextStats.SplitSentencesFree | jupyter_notebooks/utils/text_stats.py:41 | a text without sentence marks is a single piece |
| TextStats.CountSentencesStep | jupyter_notebooks/utils/text_stats.py:36-42 | the sentence before a run of marks counts 1 when it is not blank and 0 when it is, and the rest is counted in the same way |
| TextStats.CountSentencesFree | jupyter_notebooks/utils/text_stats.py:36-42 | a text without sentence marks counts 1 sentence when it is not blank and 0 when it is |
| TextStats.SplitSentences | jupyter_notebooks/utils/text_stats.py:36-42 | `re.split('[.!?]+', s)` returns at least one piece, and no piece holds a sentence mark |
| TextStats.SplitSentencesConcat | jupyter_notebooks/utils/text_stats.py:41 | the pieces joined back together are the text without its sentence marks |
| TextStats.CountSentences | jupyter_notebooks/utils/text_stats.py:37-42 | 0 for a non-string or blank text; at most the number of pieces; exactly 1 for a non-blank text without marks |
| TextStats.TypeTokenRatio | jupyter_notebooks/utils/text_stats.py:45-53 | 0 for no tokens, otherwise in (0, 1] |
| TextStats.TypeTokenRatioOneIffNoDup | jupyter_notebooks/utils/text_stats.py:53 | for a non-empty list the ratio is 1 exactly when no token repeats |
| TextStats.HapaxRatio | jupyter_notebooks/utils/text_stats.py:95-104 | 0 for no tokens, always in [0, 1] |
| TextStats.HapaxAtMostDistinct | jupyter_notebooks/utils/text_stats.py:103 | hapax count is at most the distinct count |
| TextStats.HapaxRatioAtMostTtr | jupyter_notebooks/utils/text_stats.py:95-104 | the hapax ratio never exceeds the type-token ratio |
| TextStats.YuleM2IsSumSquares | jupyter_notebooks/utils/text_stats.py:117-123 | M2 summed over the frequency-of-frequency Counter equals the sum of the squared word frequencies |
| TextStats.FrequencySquares | jupyter_notebooks/utils/text_stats.py:123-143 | N ≤ sum of squares ≤ N², with equality at N exactly when no token repeats; 0 ≤ sum of c(c−1) ≤ N(N−1), zero exactly when no token repeats |
| TextStats.YulesK | jupyter_notebooks/utils/text_stats.py:107-129 | `10^4 * (M2 - N) / N^2` over exact reals, 0.0 for fewer than two tokens; its properties are carried by YulesKNonNegative |
| TextStats.YulesKNonNegative | jupyter_notebooks/utils/text_stats.py:107-129 | K ≥ 0; for two or more tokens K = 0 exactly when no token repeats (K is 0 below two tokens by definition) |
| TextStats.SimpsonsD | jupyter_notebooks/utils/text_stats.py:132-143 | `1 - sum(c(c-1)) / (N(N-1))` over exact reals, 0.0 for fewer than two tokens; its properties are carried by SimpsonsDBounds |
| TextStats.SimpsonsDBounds | jupyter_notebooks/utils/text_stats.py:132-144 | D in [0, 1]; for two or more tokens D = 1 exactly when all tokens differ, and D = 0 when all tokens are the same |
| TextStats.MovingAverageTtr | jupyter_notebooks/utils/text_stats.py:79-92 | a window size of 0 raises; a list shorter than the window gives its TTR; otherwise the mean of exactly len − window + 1 window TTRs |
| TextStats.WindowTtrsBounds | jupyter_notebooks/utils/text_stats.py:88-92 | each window value is the TTR of that window and lies in (0, 1], and so does the mean |
| TextStats.CountSyllables | jupyter_notebooks/utils/text_stats.py:182-199 | the loop computes the number of maximal vowel runs, less one for a final `e` when there is more than one run, and at least 1 |
| TextStats.RunsUpToIsRunCount | jupyter_notebooks/utils/text_stats.py:189-193 | the loop's counter after n characters is the number of vowel-run starts before n |
| TextStats.SyllableEstimateBounds | jupyter_notebooks/utils/text_stats.py:196-199 | the estimate is at least 1, and at most (len + 1) / 2 for a non-empty word |
| TextStats.HeapsGrowth | jupyter_notebooks/utils/text_stats.py:281-296 | step 0 raises; a negative step gives empty tables; fewer tokens than the step gives `([len], [distinct])`; otherwise the table has sizes `min(i + step, len)` for `i = 0, step, …` and the distinct count of each prefix |
| TextStats.GrowthTableProperties | jupyter_notebooks/utils/text_stats.py:286-296 | vocabulary sizes are non-decreasing and each is at most its corpus size; the last entry is (len, distinct count) |
| NlpMetrics.VocabularyOverlap | jupyter_notebooks/utils/nlp_metrics.py:91-110 | the eight fields of `vocabulary_overlap`, each ratio guarded by its non-empty denominator; its properties are carried by OverlapCounts, OverlapSymmetric, OverlapBounds, OverlapOrder and OverlapEmpty |
| NlpMetrics.OverlapCounts | jupyter_notebooks/utils/nlp_metrics.py:95-110 | shared + unique to each side is that side's vocabulary size, and the union counts shared words once |
| NlpMetrics.OverlapSymmetric | jupyter_notebooks/utils/nlp_metrics.py:91-110 | swapping the token lists swaps the per-side fields and keeps Jaccard, Dice and overlap |
| NlpMetrics.OverlapBounds | jupyter_notebooks/utils/nlp_metrics.py:102-106 | every ratio field lies in [0, 1] |
| NlpMetrics.OverlapOrder | jupyter_notebooks/utils/nlp_metrics.py:102-104 | for two non-empty lists, Jaccard ≤ Dice ≤ overlap coefficient |
| NlpMetrics.OverlapEmpty | jupyter_notebooks/utils/nlp_metrics.py:102-106 | all ratios are 0.0 when both lists are empty, and each coverage is 0.0 when its vocabulary is empty |
| NlpMetrics.LexicalDensity | jupyter_notebooks/utils/nlp_metrics.py:132-148 | 0 for no tokens, always in [0, 1] |
| NlpMetrics.LexicalDensityDefault | jupyter_notebooks/utils/nlp_metrics.py:142-144 | without a content set, the density is that of the set of the list's tokens of length at least 4 |
| NlpMetrics.LexicalDensityMonotone | jupyter_notebooks/utils/nlp_metrics.py:145-148 | a larger content set never gives a smaller density |
| NlpMetrics.PointwiseMutualInformation | jupyter_notebooks/utils/nlp_metrics.py:238-275 | 0 when either word is absent; otherwise the loop's totals are the co-occurrence and window counts summed over all positions, and the result is PmiOf of those totals: 0, `log2` of the argument, or the ValueError `math.log2` raises for an argument ≤ 0 |
| NlpMetrics.PmiOf | jupyter_notebooks/utils/nlp_metrics.py:267-275 | the final zero checks and the `math.log2` call; its cases are carried by PmiOfCases |
| NlpMetrics.PmiOfCases | jupyter_notebooks/utils/nlp_metrics.py:246-275 | the result is 0 exactly when a word is absent or either total is 0, and it raises exactly when both words occur, both totals are non-zero and they have opposite signs |
| NlpMetrics.PmiNegativeWindowRaises | jupyter_notebooks/utils/nlp_metrics.py:259-275 | with window size −2, `["a", "x", "y", "z", "q", "a"]` and "a" with itself give co-occurrences −2 and total windows 1, so `math.log2(-18.0)` raises |
| NlpMetrics.CoocAtBounds | jupyter_notebooks/utils/nlp_metrics.py:258-265 | at each occurrence of word1 the co-occurrence increment is non-negative (even when word1 = word2) and at most that window's length − 1 |
| NlpMetrics.CoocBounds | jupyter_notebooks/utils/nlp_metrics.py:258-265 | 0 ≤ co-occurrences ≤ total windows |
| NlpMetrics.PmiArgPositive | jupyter_notebooks/utils/nlp_metrics.py:267-275 | for a window size ≥ 0 the log never raises: when it is taken, its argument is positive |
| NlpMetrics.CoocWholeWindow | jupyter_notebooks/utils/nlp_metrics.py:258-265 | when the window covers the list, each word1 adds len − 1 windows, and the co-occurrences are count(word1) × count(word2), less count(word1) when word1 = word2 |
| NlpMetrics.Ngrams | jupyter_notebooks/utils/nlp_metrics.py:285 | there are len − n + 1 n-grams; for n ≥ 0 the i-th is `tokens[i:i+n]`, has n tokens and holds `tokens[i + j]` at position j |
| NlpMetrics.NgramStatistics | jupyter_notebooks/utils/nlp_metrics.py:278-295 | the count fields of `compute_ngram_statistics`, with the three-field answer for a short list; its properties are carried by NgramStatisticsBounds and MostCommonAtLeastAverage |
| NlpMetrics.NgramStatisticsBounds | jupyter_notebooks/utils/nlp_metrics.py:278-295 | a list shorter than n gives three zero fields; otherwise count = len − n + 1, 1 ≤ unique ≤ count, TTR in (0, 1], hapax ratio in [0, TTR], most-common frequency in (0, 1] |
| NlpMetrics.MostCommonAtLeastAverage | jupyter_notebooks/utils/nlp_metrics.py:290-294 | the most common n-gram occurs at least count / unique times |
| ParallelNlp.OptimalWorkers | jupyter_notebooks/utils/parallel_nlp.py:55-67 | `'cpu'` gives a count in [1, 4]; `'io'` gives at most 8, and at least 2 with one or more CPUs; any other task type gives at least 1 |
| ParallelNlp.OptimalWorkersMonotone | jupyter_notebooks/utils/parallel_nlp.py:60-67 | more CPUs never give fewer workers; for 2 to 5 CPUs `'cpu'` leaves one core free, and from 5 CPUs on it is capped at 4 |
| ParallelNlp.CleanTextFast | jupyter_notebooks/utils/parallel_nlp.py:81-92 | "" for a non-string; the result is stripped, has no two adjacent whitespace characters and no upper-case letter, and is empty iff the text after the tag and URL substitutions is blank |
| ParallelNlp.TokenizeFastRun | jupyter_notebooks/utils/parallel_nlp.py:75-102 | a word of word characters is one token, lower-cased, exactly when it is all letters and at least 2 long |
| ParallelNlp.TokenizeFastSplit | jupyter_notebooks/utils/parallel_nlp.py:75-102 | a character that is not a word character separates tokens |
| ParallelNlp.TokenizeFast | jupyter_notebooks/utils/parallel_nlp.py:95-102 | no tokens for a non-string; every token has at least 2 characters, all letters, none upper-case |
| ParallelNlp.TokenizeCleaned | jupyter_notebooks/utils/parallel_nlp.py:250-252 | the cleaned text has the tokens of the text after the tag and URL substitutions; for a non-string or a text with no `<`, `://` or `www.` these are the raw text's tokens |
| ParallelNlp.CleanAndTokenize | jupyter_notebooks/utils/parallel_nlp.py:237-254 | both lists are as long as the input; `cleaned[k]` is the cleaned text k, and `tokenized[k]` is the tokens of `cleaned[k]`, which are the tokens of text k after the tag and URL substitutions, and the raw text's tokens when text k has no `<`, `://` or `www.` |
| ParallelNlp.RawElementTokens | jupyter_notebooks/utils/parallel_nlp.py:95-102 | without cleaning, the element `<n>w</n>` of lower-case words has the tokens `n`, `w`, `n` |
| ParallelNlp.ElementMarkupRemoved | jupyter_notebooks/utils/parallel_nlp.py:86-87 | the tag substitution turns `<n>w</n>` into ` w `, and the URL substitution keeps it |
| ParallelNlp.CleanDropsTagNames | jupyter_notebooks/utils/parallel_nlp.py:250-252 | the cleaned text of `<n>w</n>` has the one token `w`, while the raw text has `n`, `w`, `n`: cleaning removes tag names from the tokens |
| ParallelNlp.TextStatsSingle | jupyter_notebooks/utils/parallel_nlp.py:105-146 | the row `_compute_text_stats_single` returns, from the fast tokenizer; its properties are carried by TextStatsSingleProperties |
| ParallelNlp.TextStatsSingleProperties | jupyter_notebooks/utils/parallel_nlp.py:105-146 | the token and unique counts come from the fast tokenizer, with unique ≤ tokens; the TTR equals `type_token_ratio`; zero tokens gives zero statistics but `char_count = len(text)`; otherwise the average word length is at least 2 |
| ParallelNlp.LexicalDiversity | jupyter_notebooks/utils/parallel_nlp.py:149-164 | ttr and hapax ratio of `_compute_lexical_diversity`, 0.0 for no tokens; its properties are carried by LexicalDiversityAgrees |
| ParallelNlp.LexicalDiversityAgrees | jupyter_notebooks/utils/parallel_nlp.py:149-164 | the ttr and hapax_ratio equal `type_token_ratio` and `hapax_legomena_ratio` (zeros for an empty list), so 0 ≤ hapax ≤ ttr ≤ 1 |
| ParallelNlp.CorpusStatistics | jupyter_notebooks/utils/parallel_nlp.py:419-472 | the fields of `_compute_corpus_stats` from one Counter; its properties are carried by CorpusStatisticsAgree and CorpusStatisticsBounds |
| ParallelNlp.CorpusStatisticsAgree | jupyter_notebooks/utils/parallel_nlp.py:419-451 | the vocabulary size is `len(set(tokens))`; ttr, hapax ratio, Yule's K (sum of c·c) and Simpson's D equal the `TextStatistics` measures for every token list, one-token lists included |
| ParallelNlp.CorpusStatisticsBounds | jupyter_notebooks/utils/parallel_nlp.py:419-472 | vocabulary ≤ tokens, 0 ≤ hapax ratio ≤ ttr ≤ 1, K ≥ 0, D in [0, 1] |
| ParallelNlp.VocabIndex | jupyter_notebooks/utils/parallel_nlp.py:298 | the index map's keys are the vocabulary words, and each word maps to a position holding it with no later copy |
| ParallelNlp.DefaultVocab | jupyter_notebooks/utils/parallel_nlp.py:289-293 | the default vocabulary is strictly sorted and holds exactly the union of the documents' tokens |
| ParallelNlp.ComputeFrequencyMatrix | jupyter_notebooks/utils/parallel_nlp.py:279-311 | no documents or an empty vocabulary gives an empty array; otherwise a fresh n_docs × len(vocab) matrix whose cell (d, j) is the count in document d of `vocab[j]` when j is the index the map chose for it, else 0 |
| ParallelNlp.FillRow | jupyter_notebooks/utils/parallel_nlp.py:305-309 | one document's pass over its Counter sets its row to those counts and leaves every other row unchanged |
| ParallelNlp.RowSum | jupyter_notebooks/utils/parallel_nlp.py:305-309 | with a vocabulary free of repeats, a row is the count of each vocabulary word, and it adds up to the number of the document's tokens that are in the vocabulary (the rest are ignored) |
| ParallelNlp.DefaultRowSums | jupyter_notebooks/utils/parallel_nlp.py:289-311 | with the default sorted-union vocabulary, each row adds up to its document's length |
| ParallelNlp.ComputePairwiseSimilarity | jupyter_notebooks/utils/parallel_nlp.py:535-580 | visiting only the pairs with i ≤ j fills the whole n × n matrix: cell (i, j) is 1 on the diagonal, else the Jaccard index of the two vocabularies; the matrix is symmetric and in [0, 1] |
| ParallelNlp.VocabSets | jupyter_notebooks/utils/parallel_nlp.py:554-556 | the precomputed set for each corpus is exactly its vocabulary, one set per corpus |
| ParallelNlp.FillPairsFrom | jupyter_notebooks/utils/parallel_nlp.py:561-578 | the pairs (i, j) with j ≥ i leave every cell with min(p, q) ≤ i holding its similarity, writing both (i, j) and (j, i), and every later cell still 0.0 |
| ParallelNlp.SimilarityProperties | jupyter_notebooks/utils/parallel_nlp.py:565-578 | symmetric, diagonal 1, every cell in [0, 1]; an off-diagonal cell equals the Jaccard field of `vocabulary_overlap` and is 1 exactly when the two vocabularies are equal and non-empty |
| DataCleaning.CleanedText | jupyter_notebooks/utils/data_cleaning.py:70-118 | "" for a non-string or whitespace-only text; the result is stripped with no two adjacent whitespace characters; with lower-casing on it has no upper-case letter |
| DataCleaning.CleanText | jupyter_notebooks/utils/data_cleaning.py:70-118 | the step-by-step reassignment of `text` under the flags computes `CleanedText` |
| DataCleaning.CleanedTextNoTriple | jupyter_notebooks/utils/data_cleaning.py:108-118 | with repeat reduction on and lower-casing off, the output has no non-newline character three times in a row |
| DataCleaning.CleanedTextCaseRun | jupyter_notebooks/utils/data_cleaning.py:108-113 | reduction runs before lower-casing, so the default cleaner turns "AAa" into "aaa" and then "aaa" into "aa": cleaning is not idempotent |
| DataCleaning.DetectLanguage | jupyter_notebooks/utils/data_cleaning.py:146-166 | the ASCII-ratio buckets of `detect_language_heuristic`; its properties are carried by DetectLanguageCharacterised and DetectLanguageMonotone |
| DataCleaning.DetectLanguageCharacterised | jupyter_notebooks/utils/data_cleaning.py:146-166 | 'unknown' for a non-string or fewer than 10 characters; otherwise 'en' iff 10·ascii > 9·len, 'mixed' iff 9·len ≥ 10·ascii > 7·len, 'other' iff 7·len ≥ 10·ascii |
| DataCleaning.DetectLanguageMonotone | jupyter_notebooks/utils/data_cleaning.py:155-166 | for texts of equal length, more ASCII characters never give a less English-like bucket |
| DataCleaning.FlattenItems | jupyter_notebooks/utils/data_cleaning.py:180-186 | the `append`/`extend` loop collects the `str()` forms of the non-missing items, flattening nested collections one level |
| DataCleaning.Flattened | jupyter_notebooks/utils/data_cleaning.py:174-189 | the intended value of `flatten_item`, which FlattenItem computes; its properties are carried by FlattenItem, FlattenedSplits and FlattenAsWrittenAgrees |
| DataCleaning.FlattenItem | jupyter_notebooks/utils/data_cleaning.py:174-189 | missing becomes "", a scalar becomes its `str()`, a collection becomes its non-missing items joined by single spaces |
| DataCleaning.IsNaTruth | jupyter_notebooks/utils/data_cleaning.py:176 | the truth value of `pd.isna(x)` in `if`, or None where NumPy raises; FlattenItemAsWritten and FlattenTwoStrings use it |
| DataCleaning.FlattenItemAsWritten | jupyter_notebooks/utils/data_cleaning.py:176-177 | the code as written raises where `pd.isna(x)` has no truth value, returns "" where it is true, and otherwise flattens |
| DataCleaning.FlattenAsWrittenAgrees | jupyter_notebooks/utils/data_cleaning.py:176-189 | where the code as written returns, its result equals the intended flattening |
| DataCleaning.FlattenTwoStrings | jupyter_notebooks/utils/data_cleaning.py:176 | the list `['a', 'b']` makes the missing-value test raise; the intended result is "a b" |
| DataCleaning.SplitJoin | jupyter_notebooks/utils/data_cleaning.py:187 | `' '.join` of space-free words, split on spaces, gives the words back |
| DataCleaning.FlattenedSplits | jupyter_notebooks/utils/data_cleaning.py:174-187 | flattening a non-empty collection of space-free strings can be undone by `split(' ')` |

## Left out

- Floating point. Ratios are exact rationals, so results at float rounding boundaries can differ. This includes `ascii_ratio > 0.9` and `> 0.7`, and matrix cells stored as `float32`.
- Logarithms, square roots and everything built on them: entropy (all variants), perplexity, root and log TTR, Flesch, ARI, the Zipf and Heaps regressions, burstiness, TF-IDF and cosine similarity. `NlpMetrics.PointwiseMutualInformation` returns the argument of `log2`, not its value. It returns `DomainError` wherever `math.log2` would raise.
- GPU and torch paths, thread pools, progress bars, `warnings`, `get_system_info`.
- pandas DataFrame and Series assembly. Corpus names and DataFrame labels are left out; corpora are indexed by position in dictionary order.
- `pd.DataFrame()` for no corpora is modelled as a 0 × 0 array.
- `DataCleaning.CleanText` and `DataCleaning.CleanedText`: NFKD normalisation with ASCII encoding, and the URL, HTML, e-mail and mention substitutions, are not modelled and are treated as changing nothing. The model is exact for ASCII text with none of these.
- `DataCleaning.CleanerConfig` holds only the flags of the modelled steps.
- Python's Unicode-aware `\s`, `\w`, `\b` and `str.lower()`: every regular expression and case mapping is modelled on ASCII.
- `ParallelNlp.TextStatsSingle`: `char_count` of a non-string `text` is 0. The source's `len(text) if text else 0` would use `len` of a non-empty non-string that has one.
- The `except Exception` fallbacks of `_clean_text_fast`, `_tokenize_fast` and `_compute_text_stats_single` have no modelled trigger.
- `DataCleaning.IsNaTruth`: NumPy's truth value of an empty array is taken as false, as older NumPy releases do. A list that holds collections is counted as raising, because NumPy's answer depends on the nested shapes.
- The iteration order of a `set` cell is the order given in the model.
- Nesting below one level: a nested collection's elements are modelled as scalars given by their `str()` forms.
- `str(x)` of a scalar is an input of the model (`Scalar.Str`).
- `DataCleaning.DetectLanguage`: `ord(c) < 128` is taken on Dafny's `char` code points.
- `get_optimal_workers` is modelled with the CPU count as a parameter (`multiprocessing.cpu_count()` is not modelled).
- Other numeric fields and helpers outside the counting core are not part of this model: `average_word_length`, `word_length_variance`, `compute_all_stats`, `cosine_similarity_bow`, `compute_tfidf_gpu`, `analyze_corpora_parallel`, `get_cleaning_stats`, `clean_series`.

## Findings

| source | as written | input that shows it | evidently intended | confidence | as-written member | corrected member |
|---|---|---|---|---|---|---|
| jupyter_notebooks/utils/data_cleaning.py:176 | `flatten_item` calls `pd.isna(x)` before checking for a collection. For a list, pandas tests each element and returns an array, and `if` on an array with two or more elements raises `ValueError` | the cell `['a', 'b']` | only scalars are tested for a missing value, so the cell becomes `'a b'` | medium, not executed; depends on pandas and NumPy behaviour | DataCleaning.FlattenItemAsWritten | DataCleaning.FlattenItem |
