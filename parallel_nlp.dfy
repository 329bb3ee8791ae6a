/** The sequential core of `parallel_nlp.py`: worker-count selection, the fast
    cleaner and tokenizer, per-text and per-corpus statistics, the
    document-term count matrix and the pairwise Jaccard matrix. */
module ParallelNlp {
  import opened Wrappers
  import opened Slicing
  import opened Counting
  import opened Ratio
  import opened TextScan
  import opened StrOrder
  import TextStats
  import NlpMetrics

  // ---------------------------------------------------------------------------
  // Worker counts

  /** `get_optimal_workers(task_type)` with the machine's CPU count passed in. */
  function OptimalWorkers(taskType: string, cpuCount: int): (w: int)
    ensures taskType == "cpu" ==> 1 <= w <= 4
    ensures taskType == "io" ==> w <= 8
    ensures taskType == "io" && cpuCount >= 1 ==> 2 <= w
    ensures taskType != "cpu" && taskType != "io" ==> 1 <= w
  {
    if taskType == "cpu" then Min(4, Max(1, cpuCount - 1))
    else if taskType == "io" then Min(8, cpuCount * 2)
    else Max(1, cpuCount / 2)
  }

  /** More CPUs never mean fewer workers, and the CPU-bound count leaves one
      core free until it reaches its cap of 4. */
  lemma OptimalWorkersMonotone(taskType: string, a: int, b: int)
    requires a <= b
    ensures OptimalWorkers(taskType, a) <= OptimalWorkers(taskType, b)
    ensures taskType == "cpu" && 2 <= a <= 5 ==> OptimalWorkers(taskType, a) == a - 1
    ensures taskType == "cpu" && 5 <= a ==> OptimalWorkers(taskType, a) == 4
  {
    if taskType != "cpu" && taskType != "io" {
      assert a / 2 <= b / 2;
    }
  }

  // ---------------------------------------------------------------------------
  // Fast cleaning and tokenizing

  /** The two substitutions `_clean_text_fast` makes first, in its order:
      every HTML tag, then every URL, becomes one space. */
  function StripMarkup(t: string): string {
    RemoveUrls(RemoveTags(t))
  }

  /** A non-string, or a text in which neither substitution finds a match. */
  predicate PlainText(text: Option<string>) {
    text.None? || NoMarkup(text.value)
  }

  /** `_clean_text_fast`: "" for a non-string or empty text; otherwise the
      text after the tag and URL substitutions, lower-cased, with every
      whitespace run replaced by one space and both ends stripped. */
  function CleanTextFast(text: Option<string>): (r: string)
    ensures text.None? ==> r == []
    ensures Trimmed(r) && NoDoubleSpace(r) && NoUpper(r)
    ensures text.Some? ==> (r == [] <==> IsBlank(StripMarkup(text.value)))
  {
    match text
    case None => []
    case Some(t) =>
      if t == [] then []
      else
        var u := StripMarkup(t);
        StripCollapse(Lower(u));
        LowerKeepsBlank(u);
        Strip(CollapseSpaces(Lower(u)))
  }

  lemma LowerKeepsBlank(t: string)
    ensures IsBlank(Lower(t)) <==> IsBlank(t)
  {
    if !IsBlank(t) {
      var i :| 0 <= i < |t| && !IsSpace(t[i]);
      assert !IsSpace(Lower(t)[i]);
    }
  }

  /** `_tokenize_fast`: `re.findall(r'\b[a-zA-Z]{2,}\b', text.lower())`, and no
      tokens for a non-string. */
  function TokenizeFast(text: Option<string>): (r: seq<string>)
    ensures text.None? ==> r == []
    ensures forall k :: 0 <= k < |r| ==> 2 <= |r[k]| && AllLetters(r[k]) && NoUpper(r[k])
  {
    match text
    case None => []
    case Some(t) => WordTokens(Lower(t), 2)
  }

  /** A word of word characters alone is one token, lower-cased, when it is
      all letters and at least two long, and none otherwise. */
  lemma TokenizeFastRun(w: string)
    requires w != [] && forall i :: 0 <= i < |w| ==> IsWordChar(w[i])
    ensures TokenizeFast(Some(w)) == if AllLetters(w) && |w| >= 2 then [Lower(w)] else []
  {
    var l := Lower(w);
    assert forall i :: 0 <= i < |w| ==> IsWordChar(l[i]) && (IsLetter(l[i]) <==> IsLetter(w[i]));
    WordTokensRun(l, 2);
    assert AllLetters(l) <==> AllLetters(w);
  }

  /** A character other than a word character separates tokens. */
  lemma TokenizeFastSplit(a: string, c: char, b: string)
    requires !IsWordChar(c)
    ensures TokenizeFast(Some(a + [c] + b)) == TokenizeFast(Some(a)) + TokenizeFast(Some(b))
  {
    LowerSplit(a, c, b);
    WordTokensSplit(Lower(a), LowerChar(c), Lower(b), 2);
  }

  /** Lower-casing is idempotent and the tokenizer ignores whitespace runs and
      the stripped ends, so the cleaned text has the tokens of the text after
      the tag and URL substitutions; for a text without markup these are the
      raw text's own tokens. */
  lemma {:induction false} TokenizeCleaned(text: Option<string>)
    ensures text.Some? ==>
      TokenizeFast(Some(CleanTextFast(text))) == TokenizeFast(Some(StripMarkup(text.value)))
    ensures PlainText(text) ==> TokenizeFast(Some(CleanTextFast(text))) == TokenizeFast(text)
  {
    match text
    case None =>
      assert Lower([]) == [];
    case Some(t) =>
      var u := StripMarkup(t);
      if NoMarkup(t) {
        NoMarkupKept(t);
      }
      if t == [] {
        assert Lower(u) == [];
      } else {
        var l := Lower(u);
        var c := CleanTextFast(text);
        LowerOfLower(c);
        calc {
          TokenizeFast(Some(c));
          WordTokens(c, 2);
          { WordTokensStrip(CollapseSpaces(l), 2); }
          WordTokens(CollapseSpaces(l), 2);
          { WordTokensCollapse(l, 2); }
          WordTokens(l, 2);
        }
      }
  }

  /** A lower-case word of two or more letters. */
  predicate LowerWord(w: string) {
    |w| >= 2 && AllLetters(w) && NoUpper(w)
  }

  /** The text `<n>w</n>` of an element named `n` around the word `w`. */
  function Element(n: string, w: string): string {
    ['<'] + n + ['>'] + w + ['<', '/'] + n + ['>']
  }

  /** A leading separator adds no token. */
  lemma TokenizeFastSep(c: char, b: string)
    requires !IsWordChar(c)
    ensures TokenizeFast(Some([c] + b)) == TokenizeFast(Some(b))
  {
    assert [c] + b == [] + [c] + b;
    TokenizeFastSplit([], c, b);
    assert TokenizeFast(Some([])) == [];
  }

  /** A lower-case word before a separator is the first token. */
  lemma TokenizeFastWord(w: string, c: char, b: string)
    requires LowerWord(w) && !IsWordChar(c)
    ensures TokenizeFast(Some(w + [c] + b)) == [w] + TokenizeFast(Some(b))
  {
    TokenizeFastSplit(w, c, b);
    TokenizeFastRun(w);
    LowerOfLower(w);
  }

  /** Without cleaning, the tag names of `<n>w</n>` are tokens. */
  lemma RawElementTokens(n: string, w: string)
    requires LowerWord(n) && LowerWord(w)
    ensures TokenizeFast(Some(Element(n, w))) == [n, w, n]
  {
    var r3 := n + ['>'] + [];
    var r2 := ['/'] + r3;
    var r1 := w + ['<'] + r2;
    var r0 := n + ['>'] + r1;
    assert Element(n, w) == ['<'] + r0;
    TokenizeFastSep('<', r0);
    TokenizeFastWord(n, '>', r1);
    TokenizeFastWord(w, '<', r2);
    TokenizeFastSep('/', r3);
    TokenizeFastWord(n, '>', []);
    assert TokenizeFast(Some([])) == [];
  }

  /** The substitutions turn `<n>w</n>` into ` w `. */
  lemma ElementMarkupRemoved(n: string, w: string)
    requires LowerWord(n) && LowerWord(w)
    ensures StripMarkup(Element(n, w)) == [' '] + w + [' ']
  {
    var close := ['<', '/'] + n + ['>'];
    calc {
      RemoveTags(Element(n, w));
    == { assert Element(n, w) == ['<'] + n + ['>'] + (w + close); RemoveTagsTag(n, w + close); }
      [' '] + RemoveTags(w + close);
    == { RemoveTagsPlain(w, close); }
      [' '] + (w + RemoveTags(close));
    == { assert close == ['<'] + (['/'] + n) + ['>'] + []; RemoveTagsTag(['/'] + n, []); }
      [' '] + (w + [' ']);
    }
    var u := [' '] + w + [' '];
    assert [' '] + (w + [' ']) == u;
    NoMarkupChars(u);
    NoMarkupKept(u);
  }

  /** The tag substitution removes the tag names from the tokens: the cleaned
      text of `<n>w</n>` has the one token `w`, where the raw text has `n`,
      `w` and `n`. */
  lemma CleanDropsTagNames(n: string, w: string)
    requires LowerWord(n) && LowerWord(w)
    ensures TokenizeFast(Some(CleanTextFast(Some(Element(n, w))))) == [w]
    ensures TokenizeFast(Some(Element(n, w))) == [n, w, n]
  {
    RawElementTokens(n, w);
    ElementMarkupRemoved(n, w);
    TokenizeCleaned(Some(Element(n, w)));
    assert [' '] + w + [' '] == [' '] + (w + [' '] + []);
    TokenizeFastSep(' ', w + [' '] + []);
    TokenizeFastWord(w, ' ', []);
    assert TokenizeFast(Some([])) == [];
  }

  /** `f` applied to each element, in order. */
  function MapEach<A, B>(f: A -> B, s: seq<A>): (r: seq<B>)
    ensures |r| == |s|
  {
    if s == [] then [] else MapEach(f, s[..|s| - 1]) + [f(s[|s| - 1])]
  }

  lemma {:induction false} MapEachAt<A, B>(f: A -> B, s: seq<A>, k: nat)
    requires k < |s|
    ensures MapEach(f, s)[k] == f(s[k])
    decreases |s|
  {
    var n := |s| - 1;
    if k < n {
      MapEachAt(f, s[..n], k);
      assert s[..n][k] == s[k];
    }
  }

  lemma MapEachSnoc<A, B>(f: A -> B, s: seq<A>, k: nat)
    requires k < |s|
    ensures MapEach(f, s[..k + 1]) == MapEach(f, s[..k]) + [f(s[k])]
  {
    assert s[..k + 1][..k] == s[..k];
  }

  /** `clean_and_tokenize`: one cleaned text and its token list per input. */
  method CleanAndTokenize(texts: seq<Option<string>>) returns (cleaned: seq<string>, tokenized: seq<seq<string>>)
    ensures |cleaned| == |texts| && |tokenized| == |texts|
    ensures forall k :: 0 <= k < |texts| ==> cleaned[k] == CleanTextFast(texts[k])
    ensures forall k :: 0 <= k < |texts| ==> tokenized[k] == TokenizeFast(Some(cleaned[k]))
    ensures forall k :: 0 <= k < |texts| && texts[k].Some? ==>
      tokenized[k] == TokenizeFast(Some(StripMarkup(texts[k].value)))
    ensures forall k :: 0 <= k < |texts| && PlainText(texts[k]) ==> tokenized[k] == TokenizeFast(texts[k])
  {
    var tokenize := c => TokenizeFast(Some(c));
    cleaned, tokenized := [], [];
    if texts == [] {
      return;
    }
    for k := 0 to |texts|
      invariant cleaned == MapEach(CleanTextFast, texts[..k])
      invariant tokenized == MapEach(tokenize, cleaned)
    {
      var clean := CleanTextFast(texts[k]);
      MapEachSnoc(CleanTextFast, texts, k);
      MapEachSnoc(tokenize, cleaned + [clean], k);
      assert (cleaned + [clean])[..k] == cleaned && (cleaned + [clean])[..k + 1] == cleaned + [clean];
      cleaned := cleaned + [clean];
      tokenized := tokenized + [TokenizeFast(Some(clean))];
    }
    assert texts[..|texts|] == texts;
    forall k | 0 <= k < |texts|
      ensures cleaned[k] == CleanTextFast(texts[k])
      ensures tokenized[k] == TokenizeFast(Some(cleaned[k]))
      ensures texts[k].Some? ==> tokenized[k] == TokenizeFast(Some(StripMarkup(texts[k].value)))
      ensures PlainText(texts[k]) ==> tokenized[k] == TokenizeFast(texts[k])
    {
      MapEachAt(CleanTextFast, texts, k);
      MapEachAt(tokenize, cleaned, k);
      TokenizeCleaned(texts[k]);
    }
  }

  // ---------------------------------------------------------------------------
  // Per-text statistics

  /** The counting fields of the dictionary `_compute_text_stats_single`
      returns. */
  datatype TextStatsRow = TextStatsRow(nTokens: nat, nUnique: nat, ttr: real, avgWordLen: real, charCount: nat)

  /** `sum(len(t) for t in tokens)` */
  function SumLengths(tokens: seq<string>): nat {
    if tokens == [] then 0 else |tokens[0]| + SumLengths(tokens[1..])
  }

  /** `_compute_text_stats_single(text)`; a non-string text has no tokens and
      is counted as 0 characters. */
  function TextStatsSingle(text: Option<string>): TextStatsRow {
    var tokens := TokenizeFast(text);
    var n := |tokens|;
    if n == 0 then
      TextStatsRow(0, 0, 0.0, 0.0, if text.Some? then |text.value| else 0)
    else
      var u := |Vocab(tokens)|;
      TextStatsRow(n, u, u as real / n as real, SumLengths(tokens) as real / n as real, |text.value|)
  }

  /** Token lists whose tokens all have at least `m` characters have at least
      `m` characters per token in total. */
  lemma {:induction false} SumLengthsAtLeast(tokens: seq<string>, m: nat)
    requires forall k :: 0 <= k < |tokens| ==> m <= |tokens[k]|
    ensures m * |tokens| <= SumLengths(tokens)
  {
    if tokens != [] {
      SumLengthsAtLeast(tokens[1..], m);
      MulSucc(|tokens| - 1, m);
    }
  }

  /** The row agrees with the tokenizer and the shared type-token ratio; the
      vocabulary is at most the token count, and the average token length is
      at least 2 because the tokenizer keeps only words of two or more
      letters. */
  lemma TextStatsSingleProperties(text: Option<string>)
    ensures var r := TextStatsSingle(text);
      && r.nTokens == |TokenizeFast(text)|
      && r.nUnique == |Vocab(TokenizeFast(text))| <= r.nTokens
      && r.ttr == TextStats.TypeTokenRatio(TokenizeFast(text))
      && r.charCount == (if text.Some? then |text.value| else 0)
      && (r.nTokens == 0 ==> r.avgWordLen == 0.0)
      && (r.nTokens > 0 ==> r.avgWordLen >= 2.0)
  {
    var tokens := TokenizeFast(text);
    var n := |tokens|;
    assert |Distinct(tokens)| == |Vocab(tokens)| <= n;
    if n > 0 {
      SumLengthsAtLeast(tokens, 2);
      AverageAtLeastTwo(SumLengths(tokens), n);
    }
  }

  lemma AverageAtLeastTwo(s: int, n: int)
    requires 0 < n && 2 * n <= s
    ensures s as real / n as real >= 2.0
  {
    RatioCompare(2, 1, s, n);
    assert 2 as real / 1 as real == 2.0;
  }

  // ---------------------------------------------------------------------------
  // Lexical diversity of a token list

  /** The rational fields of `_compute_lexical_diversity`. */
  datatype Diversity = Diversity(ttr: real, hapaxRatio: real)

  function LexicalDiversity(tokens: seq<string>): Diversity {
    var n := |tokens|;
    if n == 0 then Diversity(0.0, 0.0)
    else
      var freq := FreqValues(tokens);
      Diversity(|Vocab(tokens)| as real / n as real, CountOnes(freq) as real / n as real)
  }

  /** The diversity fields are the type-token and hapax ratios of the token
      list, so they lie in [0, 1] with the hapax ratio at most the type-token
      ratio. */
  lemma LexicalDiversityAgrees(tokens: seq<string>)
    ensures LexicalDiversity(tokens).ttr == TextStats.TypeTokenRatio(tokens)
    ensures LexicalDiversity(tokens).hapaxRatio == TextStats.HapaxRatio(tokens)
    ensures 0.0 <= LexicalDiversity(tokens).hapaxRatio <= LexicalDiversity(tokens).ttr <= 1.0
  {
    TextStats.HapaxRatioAtMostTtr(tokens);
  }

  // ---------------------------------------------------------------------------
  // Corpus statistics

  /** The counting and rational fields of `_compute_corpus_stats`. */
  datatype CorpusStats = CorpusStats(
    nTokens: nat,
    vocabSize: nat,
    ttr: real,
    hapaxRatio: real,
    yulesK: real,
    simpsonsD: real,
    avgWordLen: real)

  /** `_compute_corpus_stats(tokens)`; `_empty_result()` for no tokens. */
  function CorpusStatistics(tokens: seq<string>): CorpusStats {
    var n := |tokens|;
    if n == 0 then CorpusStats(0, 0, 0.0, 0.0, 0.0, 0.0, 0.0)
    else
      var freq := FreqValues(tokens);
      var vocabSize := |freq|;
      var m2 := SumSquares(freq);
      ProductPositive(n, n);
      assert n > 1 ==> n * (n - 1) > 0 by {
        if n > 1 { ProductPositive(n, n - 1); }
      }
      CorpusStats(
        nTokens := n,
        vocabSize := vocabSize,
        ttr := vocabSize as real / n as real,
        hapaxRatio := CountOnes(freq) as real / n as real,
        yulesK := (10000 * (m2 - n)) as real / (n * n) as real,
        simpsonsD := if n > 1 then 1.0 - SumPairs(freq) as real / (n * (n - 1)) as real else 0.0,
        avgWordLen := SumLengths(tokens) as real / n as real)
  }

  /** The corpus statistics agree with the per-measure functions: the
      Counter's size is the vocabulary, and Yule's K over the word counts
      equals Yule's K over the frequency-of-frequency counter. For a single
      token the corpus formula gives K = 0 where the measure defines it as 0. */
  lemma CorpusStatisticsAgree(tokens: seq<string>)
    ensures var c := CorpusStatistics(tokens);
      && c.nTokens == |tokens|
      && c.vocabSize == |Vocab(tokens)|
      && c.ttr == TextStats.TypeTokenRatio(tokens)
      && c.hapaxRatio == TextStats.HapaxRatio(tokens)
      && c.yulesK == TextStats.YulesK(tokens)
      && c.simpsonsD == TextStats.SimpsonsD(tokens)
  {
    if tokens != [] {
      TextStats.YuleM2IsSumSquares(tokens);
      if |tokens| == 1 {
        FreqValuesConstant(tokens);
        assert SumSquares([1]) == 1;
      }
    }
  }

  /** Corpus statistics lie in their ranges: both ratios in [0, 1], Yule's K
      and Simpson's D non-negative, D at most 1. */
  lemma CorpusStatisticsBounds(tokens: seq<string>)
    ensures var c := CorpusStatistics(tokens);
      && c.vocabSize <= c.nTokens
      && 0.0 <= c.hapaxRatio <= c.ttr <= 1.0
      && 0.0 <= c.yulesK
      && 0.0 <= c.simpsonsD <= 1.0
  {
    CorpusStatisticsAgree(tokens);
    TextStats.HapaxRatioAtMostTtr(tokens);
    TextStats.YulesKNonNegative(tokens);
    TextStats.SimpsonsDBounds(tokens);
    assert |Distinct(tokens)| == |Vocab(tokens)| <= |tokens|;
  }

  // ---------------------------------------------------------------------------
  // Document-term count matrix

  /** `np.array([])` or an `n_docs` by `n_vocab` matrix; counts are whole
      numbers, kept here as integers. */
  datatype FreqMatrix = EmptyArray | Matrix(a: array2<int>)

  /** The union of the token sets. */
  function AllTokens(lists: seq<seq<string>>): set<string> {
    if lists == [] then {} else AllTokens(lists[..|lists| - 1]) + Vocab(lists[|lists| - 1])
  }

  lemma {:induction false} AllTokensCovers(lists: seq<seq<string>>, d: nat)
    requires d < |lists|
    ensures Vocab(lists[d]) <= AllTokens(lists)
  {
    if d < |lists| - 1 {
      AllTokensCovers(lists[..|lists| - 1], d);
    }
  }

  /** No later position holds the same word as position `j`. */
  predicate IsLastIndex(vocab: seq<string>, j: nat) {
    forall k :: j < k < |vocab| ==> vocab[k] != vocab[j]
  }

  /** `{w: i for i, w in enumerate(vocab)}`: a word repeated in the vocabulary
      maps to its last position. */
  function VocabIndex(vocab: seq<string>): (idx: map<string, nat>)
    ensures idx.Keys == Vocab(vocab)
    ensures forall w :: w in idx ==> idx[w] < |vocab| && vocab[idx[w]] == w && IsLastIndex(vocab, idx[w])
  {
    if vocab == [] then map[]
    else
      var p, x := vocab[..|vocab| - 1], vocab[|vocab| - 1];
      assert vocab == p + [x];
      var q := VocabIndex(p);
      assert forall w :: w in q && w != x ==> IsLastIndex(vocab, q[w]);
      q[x := |vocab| - 1]
  }

  /** The matrix cell for document `tokens` and column `j`: the word's count
      where `j` is the column the index map chose for it, 0 elsewhere. */
  function Entry(tokens: seq<string>, vocab: seq<string>, j: nat): nat
    requires j < |vocab|
  {
    if IsLastIndex(vocab, j) then Count(tokens, vocab[j]) else 0
  }

  /** A document's row of the matrix. */
  function FrequencyRow(tokens: seq<string>, vocab: seq<string>): (row: seq<nat>)
    ensures |row| == |vocab|
  {
    seq(|vocab|, j requires 0 <= j < |vocab| => Entry(tokens, vocab, j))
  }

  /** The default vocabulary: `sorted` of the union of the token lists. */
  method DefaultVocab(lists: seq<seq<string>>) returns (used: seq<string>)
    ensures StrictlySorted(used) && Vocab(used) == AllTokens(lists)
  {
    var all: set<string> := {};
    for d := 0 to |lists|
      invariant all == AllTokens(lists[..d])
    {
      assert lists[..d + 1][..d] == lists[..d];
      all := all + Vocab(lists[d]);
    }
    assert lists[..|lists|] == lists;
    used := SortedSet(all);
  }

  /** `compute_frequency_matrix_gpu(token_lists, vocab)` on the CPU path.
      Without a vocabulary the sorted union of all tokens is used; `used` is
      the vocabulary the columns follow. */
  method ComputeFrequencyMatrix(lists: seq<seq<string>>, vocab: Option<seq<string>>)
    returns (r: FreqMatrix, used: seq<string>)
    ensures vocab.Some? ==> used == vocab.value
    ensures vocab.None? ==> StrictlySorted(used) && Vocab(used) == AllTokens(lists)
    ensures lists == [] || used == [] ==> r == EmptyArray
    ensures lists != [] && used != [] ==> r.Matrix? && fresh(r.a)
    ensures r.Matrix? ==> r.a.Length0 == |lists| && r.a.Length1 == |used|
    ensures r.Matrix? ==> forall d, j :: 0 <= d < |lists| && 0 <= j < |used| ==>
      r.a[d, j] == Entry(lists[d], used, j)
  {
    if vocab.Some? {
      used := vocab.value;
    } else {
      used := DefaultVocab(lists);
    }
    if lists == [] || used == [] {
      return EmptyArray, used;
    }
    var idx := VocabIndex(used);
    var a := new int[|lists|, |used|]((i, j) => 0);
    for d := 0 to |lists|
      invariant forall e, j :: 0 <= e < d && 0 <= j < |used| ==> a[e, j] == Entry(lists[e], used, j)
      invariant forall e, j :: d <= e < |lists| && 0 <= j < |used| ==> a[e, j] == 0
    {
      FillRow(a, d, lists[d], used, idx);
    }
    r := Matrix(a);
  }

  /** The inner loop: `matrix[doc_idx, vocab_to_idx[token]] = count` for each
      entry of `Counter(tokens)` whose token is in the vocabulary. */
  method FillRow(a: array2<int>, d: nat, tokens: seq<string>, used: seq<string>, idx: map<string, nat>)
    requires d < a.Length0 && a.Length1 == |used|
    requires idx == VocabIndex(used)
    requires forall j :: 0 <= j < |used| ==> a[d, j] == 0
    modifies a
    ensures forall j :: 0 <= j < |used| ==> a[d, j] == Entry(tokens, used, j)
    ensures forall e, j :: 0 <= e < a.Length0 && e != d && 0 <= j < a.Length1 ==> a[e, j] == old(a[e, j])
  {
    var keys := Distinct(tokens);
    for k := 0 to |keys|
      invariant forall e, j :: 0 <= e < a.Length0 && e != d && 0 <= j < a.Length1 ==> a[e, j] == old(a[e, j])
      invariant forall j :: 0 <= j < |used| ==> a[d, j] == PartialEntry(tokens, keys[..k], used, j)
    {
      var token := keys[k];
      forall j | 0 <= j < |used|
        ensures PartialEntry(tokens, keys[..k + 1], used, j) ==
          if token in idx && j == idx[token] then Count(tokens, token) else PartialEntry(tokens, keys[..k], used, j)
      {
        PartialEntryStep(tokens, keys, k, used, idx, j);
      }
      if token in idx {
        var col := idx[token];
        a[d, col] := Count(tokens, token);
      }
    }
    assert keys[..|keys|] == keys;
    forall j | 0 <= j < |used| ensures a[d, j] == Entry(tokens, used, j) {
      EntryByKeys(tokens, keys, used, j);
    }
  }

  /** Row `d` once the Counter keys in `seen` have been written. */
  function PartialEntry(tokens: seq<string>, seen: seq<string>, used: seq<string>, j: nat): nat
    requires j < |used|
  {
    if IsLastIndex(used, j) && used[j] in seen then Count(tokens, used[j]) else 0
  }

  /** Writing the count of one more key changes only the column that the
      index map gives that key, and nothing when the key is not in the map. */
  lemma PartialEntryStep(tokens: seq<string>, keys: seq<string>, k: nat, used: seq<string>, idx: map<string, nat>, j: nat)
    requires k < |keys| && idx == VocabIndex(used) && j < |used|
    ensures PartialEntry(tokens, keys[..k + 1], used, j) ==
      if keys[k] in idx && j == idx[keys[k]] then Count(tokens, keys[k]) else PartialEntry(tokens, keys[..k], used, j)
  {
    var token := keys[k];
    PrefixSnoc(keys, k);
    if !(token in idx && j == idx[token]) && IsLastIndex(used, j) {
      assert used[j] != token by {
        if token in idx {
          LastIndexUnique(used, j, idx[token]);
        } else {
          assert used[j] in idx;
        }
      }
    }
  }

  lemma PrefixSnoc<T>(s: seq<T>, k: nat)
    requires k < |s|
    ensures forall w :: w in s[..k + 1] <==> w in s[..k] || w == s[k]
  {
    assert s[..k + 1] == s[..k] + [s[k]];
  }

  /** Going through the Counter's keys reaches every vocabulary word that
      occurs; the others have count 0. */
  lemma EntryByKeys(tokens: seq<string>, keys: seq<string>, used: seq<string>, j: nat)
    requires Vocab(keys) == Vocab(tokens) && j < |used|
    ensures Entry(tokens, used, j) == PartialEntry(tokens, keys, used, j)
  {
    assert used[j] in keys <==> used[j] in Vocab(tokens);
  }

  /** Two different last positions hold different words. */
  lemma LastIndexUnique(vocab: seq<string>, i: nat, j: nat)
    requires i < |vocab| && j < |vocab| && i != j
    requires IsLastIndex(vocab, i) && IsLastIndex(vocab, j)
    ensures vocab[i] != vocab[j]
  {
  }

  /** With a vocabulary free of repeats, a row is the document's count of each
      vocabulary word, and it adds up to the number of the document's tokens
      that are in the vocabulary: tokens outside it are ignored. */
  lemma RowSum(tokens: seq<string>, vocab: seq<string>)
    requires NoDup(vocab)
    ensures FrequencyRow(tokens, vocab) == Counts(tokens, vocab)
    ensures Sum(FrequencyRow(tokens, vocab)) == CountIn(tokens, Vocab(vocab))
  {
    SumCountsInKeys(tokens, vocab);
  }

  /** The number of tokens in a set covering all of them is the token count. */
  lemma {:induction false} CountInCovering(tokens: seq<string>, k: set<string>)
    requires Vocab(tokens) <= k
    ensures CountIn(tokens, k) == |tokens|
  {
    if tokens != [] {
      var p := tokens[..|tokens| - 1];
      assert Vocab(p) <= Vocab(tokens);
      CountInCovering(p, k);
    }
  }

  /** With the default sorted-union vocabulary each row sums to the length of
      its document. */
  lemma DefaultRowSums(lists: seq<seq<string>>, used: seq<string>, d: nat)
    requires StrictlySorted(used) && Vocab(used) == AllTokens(lists)
    requires d < |lists|
    ensures Sum(FrequencyRow(lists[d], used)) == |lists[d]|
  {
    SortedDistinct(used);
    RowSum(lists[d], used);
    AllTokensCovers(lists, d);
    CountInCovering(lists[d], Vocab(used));
  }

  // ---------------------------------------------------------------------------
  // Pairwise Jaccard similarity

  /** `|a & b| / |a | b|`, 0 when the union is empty. */
  function Jaccard(a: set<string>, b: set<string>): real {
    if |a + b| > 0 then |a * b| as real / |a + b| as real else 0.0
  }

  /** The cell `(i, j)` of the similarity matrix. */
  function Similarity(corpora: seq<seq<string>>, i: nat, j: nat): real
    requires i < |corpora| && j < |corpora|
  {
    if i == j then 1.0 else Jaccard(Vocab(corpora[i]), Vocab(corpora[j]))
  }

  lemma JaccardSymmetric(a: set<string>, b: set<string>)
    ensures Jaccard(a, b) == Jaccard(b, a)
  {
    assert a + b == b + a && a * b == b * a;
  }

  /** `compute_pairwise_similarity` over the corpora in the dictionary's
      order: only the pairs with `i <= j` are computed, each off-diagonal value
      written to both `(i, j)` and `(j, i)`. */
  method ComputePairwiseSimilarity(corpora: seq<seq<string>>) returns (m: array2<real>)
    ensures fresh(m)
    ensures m.Length0 == |corpora| && m.Length1 == |corpora|
    ensures forall i, j :: 0 <= i < |corpora| && 0 <= j < |corpora| ==> m[i, j] == Similarity(corpora, i, j)
    ensures forall i, j :: 0 <= i < |corpora| && 0 <= j < |corpora| ==> m[i, j] == m[j, i] && 0.0 <= m[i, j] <= 1.0
    ensures forall i :: 0 <= i < |corpora| ==> m[i, i] == 1.0
  {
    var n := |corpora|;
    var sets := VocabSets(corpora);
    m := new real[n, n]((i, j) => 0.0);
    for i := 0 to n
      invariant forall p, q :: 0 <= p < n && 0 <= q < n ==>
        m[p, q] == if Min(p, q) < i then Similarity(corpora, p, q) else 0.0
    {
      FillPairsFrom(m, corpora, sets, i);
    }
    forall i, j | 0 <= i < n && 0 <= j < n ensures m[i, j] == m[j, i] && 0.0 <= m[i, j] <= 1.0 {
      SimilarityProperties(corpora, i, j);
    }
  }

  /** `vocab_sets`: the vocabulary of each corpus. */
  method VocabSets(corpora: seq<seq<string>>) returns (sets: seq<set<string>>)
    ensures |sets| == |corpora|
    ensures forall p :: 0 <= p < |corpora| ==> sets[p] == Vocab(corpora[p])
  {
    sets := [];
    for k := 0 to |corpora|
      invariant |sets| == k
      invariant forall p :: 0 <= p < k ==> sets[p] == Vocab(corpora[p])
    {
      sets := sets + [Vocab(corpora[k])];
    }
  }

  /** The pairs `(i, j)` with `i <= j` for one `i`: the matrix then holds
      the similarity of every pair whose smaller index is at most `i`. */
  method FillPairsFrom(m: array2<real>, corpora: seq<seq<string>>, sets: seq<set<string>>, i: nat)
    requires m.Length0 == |corpora| && m.Length1 == |corpora| && i < |corpora|
    requires |sets| == |corpora| && forall p :: 0 <= p < |corpora| ==> sets[p] == Vocab(corpora[p])
    requires forall p, q :: 0 <= p < |corpora| && 0 <= q < |corpora| ==>
      m[p, q] == if Min(p, q) < i then Similarity(corpora, p, q) else 0.0
    modifies m
    ensures forall p, q :: 0 <= p < |corpora| && 0 <= q < |corpora| ==>
      m[p, q] == if Min(p, q) <= i then Similarity(corpora, p, q) else 0.0
  {
    var n := |corpora|;
    for j := i to n
      invariant forall p, q :: 0 <= p < n && 0 <= q < n ==>
        m[p, q] == if Min(p, q) < i || (Min(p, q) == i && Max(p, q) < j) then Similarity(corpora, p, q) else 0.0
    {
      if i == j {
        m[i, j] := 1.0;
      } else {
        var intersection := |sets[i] * sets[j]|;
        var union := |sets[i] + sets[j]|;
        var jaccard := if union > 0 then intersection as real / union as real else 0.0;
        JaccardSymmetric(sets[i], sets[j]);
        assert jaccard == Similarity(corpora, i, j) == Similarity(corpora, j, i);
        m[i, j] := jaccard;
        m[j, i] := jaccard;
      }
    }
  }

  /** The similarity matrix is symmetric with 1 on the diagonal, every cell
      lies in [0, 1], an off-diagonal cell is the Jaccard index that
      `vocabulary_overlap` reports for the pair, and it is 1 exactly when the
      two corpora have the same non-empty vocabulary. */
  lemma SimilarityProperties(corpora: seq<seq<string>>, i: nat, j: nat)
    requires i < |corpora| && j < |corpora|
    ensures Similarity(corpora, i, j) == Similarity(corpora, j, i)
    ensures i == j ==> Similarity(corpora, i, j) == 1.0
    ensures 0.0 <= Similarity(corpora, i, j) <= 1.0
    ensures i != j ==> Similarity(corpora, i, j) == NlpMetrics.VocabularyOverlap(corpora[i], corpora[j]).jaccard
    ensures i != j ==> (Similarity(corpora, i, j) == 1.0 <==>
      Vocab(corpora[i]) == Vocab(corpora[j]) && Vocab(corpora[i]) != {})
  {
    var a, b := Vocab(corpora[i]), Vocab(corpora[j]);
    JaccardSymmetric(a, b);
    JaccardBounds(a, b);
  }

  lemma JaccardBounds(a: set<string>, b: set<string>)
    ensures 0.0 <= Jaccard(a, b) <= 1.0
    ensures Jaccard(a, b) == 1.0 <==> a == b && a != {}
  {
    var i, u := a * b, a + b;
    SubsetCard(i, u);
    if |u| > 0 {
      UnitRatio(|i|, |u|);
      if i != u {
        assert u == i + (u - i);
        var x :| x in u - i;
        assert |u - i| > 0;
      }
    }
    if a == b && a != {} {
      assert i == u;
    }
  }
}
