/** The lexical statistics of `TextStatistics` in `text_stats.py`, and the
    integer part of the Heaps'-law vocabulary-growth table.

    Ratios are exact reals where the program computes Python floats. */
module TextStats {
  import opened Wrappers
  import opened Slicing
  import opened Counting
  import opened TextScan
  import opened Ratio

  // ---------------------------------------------------------------------------
  // Tokenizing and sentence counting

  /** `tokenize_simple`: a non-string gives no tokens; otherwise the maximal
      letter-only word runs of the lower-cased text. */
  function TokenizeSimple(text: Option<string>): (r: seq<string>)
    ensures text.None? ==> r == []
    ensures forall k :: 0 <= k < |r| ==> |r[k]| >= 1 && AllLetters(r[k]) && NoUpper(r[k])
  {
    match text
    case None => []
    case Some(t) => WordTokens(Lower(t), 1)
  }

  /** A word of letters and word characters alone is one token, lower-cased,
      when it is all letters, and none otherwise. */
  lemma TokenizeSimpleRun(w: string)
    requires w != [] && forall i :: 0 <= i < |w| ==> IsWordChar(w[i])
    ensures TokenizeSimple(Some(w)) == if AllLetters(w) then [Lower(w)] else []
  {
    var l := Lower(w);
    assert forall i :: 0 <= i < |w| ==> IsWordChar(l[i]) && (IsLetter(l[i]) <==> IsLetter(w[i]));
    WordTokensRun(l, 1);
    assert AllLetters(l) <==> AllLetters(w);
  }

  /** A character other than a word character separates tokens. */
  lemma TokenizeSimpleSplit(a: string, c: char, b: string)
    requires !IsWordChar(c)
    ensures TokenizeSimple(Some(a + [c] + b)) == TokenizeSimple(Some(a)) + TokenizeSimple(Some(b))
  {
    LowerSplit(a, c, b);
    WordTokensSplit(Lower(a), LowerChar(c), Lower(b), 1);
  }

  /** `[.!?]` */
  predicate IsSentenceEnd(c: char) {
    c == '.' || c == '!' || c == '?'
  }

  predicate NoSentenceEnd(s: string) {
    forall i :: 0 <= i < |s| ==> !IsSentenceEnd(s[i])
  }

  /** The characters of `s` with every `.`, `!` and `?` removed. */
  function DropSentenceEnds(s: string): string {
    if s == [] then []
    else (if IsSentenceEnd(s[0]) then [] else [s[0]]) + DropSentenceEnds(s[1..])
  }

  /** Where the first `.`, `!` or `?` is, or `|s|`. */
  function FirstEnd(s: string): (p: nat)
    ensures p <= |s|
    ensures forall i :: 0 <= i < p ==> !IsSentenceEnd(s[i])
    ensures p < |s| ==> IsSentenceEnd(s[p])
  {
    if s == [] || IsSentenceEnd(s[0]) then 0 else 1 + FirstEnd(s[1..])
  }

  /** Where the run of `.`, `!` and `?` that starts at `p` ends. */
  function EndAt(s: string, p: nat): (e: nat)
    requires p <= |s|
    ensures p <= e <= |s|
    ensures forall i :: p <= i < e ==> IsSentenceEnd(s[i])
    ensures e < |s| ==> !IsSentenceEnd(s[e])
    decreases |s| - p
  {
    if p == |s| || !IsSentenceEnd(s[p]) then p else EndAt(s, p + 1)
  }

  /** `re.split(r'[.!?]+', s)`: the pieces between the maximal runs of
      sentence-ending marks, including a possibly empty first and last piece. */
  function SplitSentences(s: string): (r: seq<string>)
    ensures |r| >= 1
    ensures forall k :: 0 <= k < |r| ==> NoSentenceEnd(r[k])
    decreases |s|
  {
    var p := FirstEnd(s);
    if p == |s| then [s]
    else
      [s[..p]] + SplitSentences(s[EndAt(s, p)..])
  }

  function Concat(r: seq<string>): string {
    if r == [] then [] else r[0] + Concat(r[1..])
  }

  function CountNonBlank(r: seq<string>): (n: nat)
    ensures n <= |r|
  {
    if r == [] then 0 else (if IsBlank(r[0]) then 0 else 1) + CountNonBlank(r[1..])
  }

  /** `count_sentences`: 0 for a non-string or blank text, otherwise the
      number of non-blank pieces that `re.split(r'[.!?]+', text)` gives. */
  function CountSentences(text: Option<string>): (n: nat)
    ensures text.None? ==> n == 0
    ensures text.Some? && IsBlank(text.value) ==> n == 0
    ensures text.Some? ==> n <= |SplitSentences(text.value)|
    ensures text.Some? && !IsBlank(text.value) && NoSentenceEnd(text.value) ==> n == 1
  {
    match text
    case None => 0
    case Some(t) =>
      if IsBlank(t) then 0
      else
        assert NoSentenceEnd(t) ==> FirstEnd(t) == |t|;
        CountNonBlank(SplitSentences(t))
  }

  lemma {:induction false} DropSentenceEndsAppend(a: string, b: string)
    ensures DropSentenceEnds(a + b) == DropSentenceEnds(a) + DropSentenceEnds(b)
  {
    if a == [] {
      assert a + b == b;
    } else {
      assert (a + b)[1..] == a[1..] + b;
      DropSentenceEndsAppend(a[1..], b);
    }
  }

  lemma {:induction false} DropSentenceEndsFree(s: string)
    requires NoSentenceEnd(s)
    ensures DropSentenceEnds(s) == s
  {
    if s != [] { DropSentenceEndsFree(s[1..]); }
  }

  lemma {:induction false} DropSentenceEndsAll(s: string)
    requires forall i :: 0 <= i < |s| ==> IsSentenceEnd(s[i])
    ensures DropSentenceEnds(s) == []
  {
    if s != [] { DropSentenceEndsAll(s[1..]); }
  }

  /** Splitting loses exactly the sentence-ending marks: the pieces put back
      together are the text without them. */
  lemma {:induction false} SplitSentencesConcat(s: string)
    ensures Concat(SplitSentences(s)) == DropSentenceEnds(s)
    decreases |s|
  {
    var p := FirstEnd(s);
    if p == |s| {
      DropSentenceEndsFree(s);
      assert Concat([s]) == s + Concat([]);
    } else {
      var e := EndAt(s, p);
      var x, y, r := s[..p], s[p..e], s[e..];
      assert NoSentenceEnd(x) by {
        assert forall i :: 0 <= i < |x| ==> x[i] == s[i];
      }
      assert forall i :: 0 <= i < |y| ==> IsSentenceEnd(y[i]) by {
        assert forall i :: 0 <= i < |y| ==> y[i] == s[p + i];
      }
      SplitSentencesConcat(r);
      calc {
        Concat(SplitSentences(s));
        Concat([x] + SplitSentences(r));
        { ConcatPieces(x, y, r, SplitSentences(r)); }
        DropSentenceEnds(x + (y + r));
        { ThreePieces(s, p, e); }
        DropSentenceEnds(s);
      }
    }
  }

  /** A text without sentence marks is one piece. */
  lemma SplitSentencesFree(x: string)
    requires NoSentenceEnd(x)
    ensures SplitSentences(x) == [x]
  {
    assert FirstEnd(x) == |x|;
  }

  /** The first mark is where `FirstEnd` says. */
  lemma FirstEndIs(s: string, p: nat)
    requires p <= |s|
    requires forall i :: 0 <= i < p ==> !IsSentenceEnd(s[i])
    requires p < |s| ==> IsSentenceEnd(s[p])
    ensures FirstEnd(s) == p
  {
  }

  /** The run of marks starting at `p` ends where `EndAt` says. */
  lemma {:induction false} EndAtIs(s: string, p: nat, e: nat)
    requires p <= e <= |s|
    requires forall i :: p <= i < e ==> IsSentenceEnd(s[i])
    requires e < |s| ==> !IsSentenceEnd(s[e])
    ensures EndAt(s, p) == e
    decreases e - p
  {
    if p < e {
      assert IsSentenceEnd(s[p]);
      EndAtIs(s, p + 1, e);
    }
  }

  /** The split works piece by piece: a mark-free piece `x`, then a maximal
      non-empty run `y` of marks, then the rest `r`, which does not start
      with a mark, give `x` followed by the pieces of `r`. */
  lemma SplitSentencesStep(x: string, y: string, r: string)
    requires NoSentenceEnd(x)
    requires y != [] && forall i :: 0 <= i < |y| ==> IsSentenceEnd(y[i])
    requires r == [] || !IsSentenceEnd(r[0])
    ensures SplitSentences(x + y + r) == [x] + SplitSentences(r)
  {
    var s := x + y + r;
    var p, e := |x|, |x| + |y|;
    assert forall i :: 0 <= i < p ==> s[i] == x[i];
    assert forall i :: p <= i < e ==> s[i] == y[i - p];
    assert e < |s| ==> s[e] == r[0];
    FirstEndIs(s, p);
    EndAtIs(s, p, e);
    assert s[..p] == x;
    assert s[e..] == r;
  }

  /** `count_sentences` counts piece by piece: a mark-free piece adds 1
      unless it is blank, and what follows the run of marks is counted on
      its own. */
  lemma CountSentencesStep(x: string, y: string, r: string)
    requires NoSentenceEnd(x)
    requires y != [] && forall i :: 0 <= i < |y| ==> IsSentenceEnd(y[i])
    requires r == [] || !IsSentenceEnd(r[0])
    ensures CountSentences(Some(x + y + r)) == (if IsBlank(x) then 0 else 1) + CountSentences(Some(r))
  {
    var s := x + y + r;
    assert !IsBlank(s) by {
      assert s[|x|] == y[0];
    }
    SplitSentencesStep(x, y, r);
    assert ([x] + SplitSentences(r))[1..] == SplitSentences(r);
    if IsBlank(r) {
      assert NoSentenceEnd(r) by {
        forall i | 0 <= i < |r| ensures !IsSentenceEnd(r[i]) { assert IsSpace(r[i]); }
      }
      SplitSentencesFree(r);
      assert CountNonBlank([r]) == 0 by {
        assert [r][1..] == [];
      }
    }
  }

  /** A mark-free text counts as one sentence unless it is blank. */
  lemma CountSentencesFree(x: string)
    requires NoSentenceEnd(x)
    ensures CountSentences(Some(x)) == if IsBlank(x) then 0 else 1
  {
  }

  lemma ThreePieces(s: string, a: nat, b: nat)
    requires a <= b <= |s|
    ensures s == s[..a] + (s[a..b] + s[b..])
  {
  }

  /** One step of the split: a mark-free piece, a run of marks, and the rest. */
  lemma {:induction false} ConcatPieces(x: string, y: string, r: string, rest: seq<string>)
    requires NoSentenceEnd(x)
    requires forall i :: 0 <= i < |y| ==> IsSentenceEnd(y[i])
    requires Concat(rest) == DropSentenceEnds(r)
    ensures Concat([x] + rest) == DropSentenceEnds(x + (y + r))
  {
    calc {
      Concat([x] + rest);
      { assert ([x] + rest)[1..] == rest; }
      x + DropSentenceEnds(r);
      { DropSentenceEndsAll(y); assert [] + DropSentenceEnds(r) == DropSentenceEnds(r); }
      x + (DropSentenceEnds(y) + DropSentenceEnds(r));
      { DropSentenceEndsAppend(y, r); DropSentenceEndsFree(x); }
      DropSentenceEnds(x) + DropSentenceEnds(y + r);
      { DropSentenceEndsAppend(x, y + r); }
      DropSentenceEnds(x + (y + r));
    }
  }

  // ---------------------------------------------------------------------------
  // Lexical diversity

  /** `type_token_ratio`: distinct tokens per token, 0 for no tokens. */
  function TypeTokenRatio(tokens: seq<string>): (r: real)
    ensures tokens == [] ==> r == 0.0
    ensures tokens != [] ==> 0.0 < r <= 1.0
  {
    if tokens == [] then 0.0
    else
      DistinctBounds(tokens);
      UnitRatio(|Vocab(tokens)|, |tokens|);
      |Vocab(tokens)| as real / |tokens| as real
  }

  /** A non-empty list has between 1 and `len` distinct tokens. */
  lemma DistinctBounds(tokens: seq<string>)
    requires tokens != []
    ensures 1 <= |Vocab(tokens)| <= |tokens|
  {
    assert tokens[0] in Vocab(tokens);
    assert |Distinct(tokens)| == |Vocab(tokens)| <= |tokens|;
  }

  /** The ratio is 1 exactly when no token repeats. */
  lemma TypeTokenRatioOneIffNoDup(tokens: seq<string>)
    requires tokens != []
    ensures TypeTokenRatio(tokens) == 1.0 <==> NoDup(tokens)
  {
    DistinctAllIffNoDup(tokens);
    DistinctBounds(tokens);
    UnitRatio(|Vocab(tokens)|, |tokens|);
  }

  /** The number of words that occur exactly once. */
  function HapaxCount(tokens: seq<string>): nat {
    CountOnes(FreqValues(tokens))
  }

  /** `hapax_legomena_ratio`: words seen exactly once, per token. */
  function HapaxRatio(tokens: seq<string>): (r: real)
    ensures tokens == [] ==> r == 0.0
    ensures 0.0 <= r <= 1.0
  {
    if tokens == [] then 0.0
    else
      HapaxAtMostDistinct(tokens);
      DistinctBounds(tokens);
      UnitRatio(HapaxCount(tokens), |tokens|);
      HapaxCount(tokens) as real / |tokens| as real
  }

  /** hapax count <= distinct count */
  lemma HapaxAtMostDistinct(tokens: seq<string>)
    ensures HapaxCount(tokens) <= |Vocab(tokens)|
  {
    CountOnesBound(FreqValues(tokens));
  }

  /** The hapax ratio never exceeds the type-token ratio. */
  lemma HapaxRatioAtMostTtr(tokens: seq<string>)
    ensures HapaxRatio(tokens) <= TypeTokenRatio(tokens)
  {
    if tokens != [] {
      HapaxAtMostDistinct(tokens);
      RatioMonotone(HapaxCount(tokens), |Vocab(tokens)|, |tokens|);
    }
  }

  /** Yule's M2 the way `yules_k` computes it: over the frequency-of-frequency
      counter `Counter(freq.values())`. */
  function YuleM2(tokens: seq<string>): int {
    var v := FreqValues(tokens);
    WeightedSquares(v, Distinct(v))
  }

  /** `yules_k`: `10^4 * (M2 - N) / N^2`, 0 for fewer than two tokens. */
  function YulesK(tokens: seq<string>): real {
    if |tokens| < 2 then 0.0
    else
      var n := |tokens|;
      ProductPositive(n, n);
      (10000 * (YuleM2(tokens) - n)) as real / (n * n) as real
  }

  /** M2 summed over the frequency-of-frequency counter is the sum of the
      squared word frequencies. */
  lemma YuleM2IsSumSquares(tokens: seq<string>)
    ensures YuleM2(tokens) == SumSquares(FreqValues(tokens))
  {
    var v := FreqValues(tokens);
    WeightedSquaresIsSumSquares(v, Distinct(v));
  }

  /** The squared frequencies add up to at least N, the pairs
      `sum(c * (c - 1))` to at most `N * (N - 1)`, and both bounds on the
      low side are met exactly when no word repeats. */
  lemma FrequencySquares(tokens: seq<string>)
    ensures |tokens| <= SumSquares(FreqValues(tokens)) <= |tokens| * |tokens|
    ensures SumSquares(FreqValues(tokens)) == |tokens| <==> NoDup(tokens)
    ensures 0 <= SumPairs(FreqValues(tokens)) <= |tokens| * (|tokens| - 1)
    ensures SumPairs(FreqValues(tokens)) == 0 <==> NoDup(tokens)
  {
    var v := FreqValues(tokens);
    FreqValuesPositive(tokens);
    FreqValuesSum(tokens);
    SumSquaresAtLeastSum(v);
    SumSquaresAtMostSquare(v);
    FreqValuesAllOnesIffNoDup(tokens);
    var n := |tokens|;
    assert n * (n - 1) == n * n - n;
  }

  /** Unfolds `YulesK` for two or more tokens. */
  lemma YulesKIs(tokens: seq<string>)
    requires |tokens| >= 2
    ensures YulesK(tokens) == (10000 * (YuleM2(tokens) - |tokens|)) as real / (|tokens| * |tokens|) as real
  {
  }

  /** The ratio of `yules_k` is 0 exactly when M2 equals N, and positive above. */
  lemma YuleRatio(n: int, m2: int)
    requires 2 <= n <= m2
    ensures 0.0 <= (10000 * (m2 - n)) as real / (n * n) as real
    ensures (10000 * (m2 - n)) as real / (n * n) as real == 0.0 <==> m2 == n
  {
    ProductPositive(n, n);
    NonNegativeRatio(10000 * (m2 - n), n * n);
  }

  /** Yule's K is never negative, and for two or more tokens it is 0 exactly
      when no word repeats. */
  lemma YulesKNonNegative(tokens: seq<string>)
    ensures YulesK(tokens) >= 0.0
    ensures |tokens| >= 2 ==> (YulesK(tokens) == 0.0 <==> NoDup(tokens))
  {
    if |tokens| >= 2 {
      var n, m2 := |tokens|, YuleM2(tokens);
      assert n <= m2 && (m2 == n <==> NoDup(tokens)) by {
        YuleM2IsSumSquares(tokens);
        FrequencySquares(tokens);
      }
      YuleRatio(n, m2);
      YulesKIs(tokens);
    }
  }

  /** `simpsons_d`: `1 - sum(c * (c - 1)) / (N * (N - 1))`, 0 for fewer than
      two tokens. */
  function SimpsonsD(tokens: seq<string>): real {
    if |tokens| < 2 then 0.0
    else
      var n := |tokens|;
      ProductPositive(n, n - 1);
      1.0 - SumPairs(FreqValues(tokens)) as real / (n * (n - 1)) as real
  }

  /** Simpson's D lies in [0, 1]; for two or more tokens it is 1 exactly when
      no word repeats, and 0 when every token is the same word. */
  lemma SimpsonsDBounds(tokens: seq<string>)
    ensures 0.0 <= SimpsonsD(tokens) <= 1.0
    ensures |tokens| >= 2 ==> (SimpsonsD(tokens) == 1.0 <==> NoDup(tokens))
    ensures |tokens| >= 2 && (forall i :: 0 <= i < |tokens| ==> tokens[i] == tokens[0]) ==>
      SimpsonsD(tokens) == 0.0
  {
    if |tokens| >= 2 {
      var n := |tokens|;
      FrequencySquares(tokens);
      ProductPositive(n, n - 1);
      UnitRatio(SumPairs(FreqValues(tokens)), n * (n - 1));
      if forall i :: 0 <= i < |tokens| ==> tokens[i] == tokens[0] {
        FreqValuesConstant(tokens);
        assert SumPairs([n]) == n * (n - 1);
      }
    }
  }

  // ---------------------------------------------------------------------------
  // Moving-average TTR

  /** The TTR of the window `tokens[i:i + w]`, divided by `w` as the program does. */
  function WindowTtr(tokens: seq<string>, w: int, i: int): real
    requires w != 0
  {
    |Vocab(PySlice(tokens, i, i + w))| as real / w as real
  }

  /** The TTRs of the first `n` windows, in order. */
  function WindowTtrs(tokens: seq<string>, w: int, n: nat): (r: seq<real>)
    requires w != 0
    ensures |r| == n
  {
    if n == 0 then [] else WindowTtrs(tokens, w, n - 1) + [WindowTtr(tokens, w, n - 1)]
  }

  /** Entry `i` of the list is the TTR of window `i`. */
  lemma {:induction false} WindowTtrsAt(tokens: seq<string>, w: int, n: nat, i: nat)
    requires w != 0 && i < n
    ensures WindowTtrs(tokens, w, n)[i] == WindowTtr(tokens, w, i)
  {
    var prev := WindowTtrs(tokens, w, n - 1);
    assert WindowTtrs(tokens, w, n) == prev + [WindowTtr(tokens, w, n - 1)];
    if i < n - 1 {
      WindowTtrsAt(tokens, w, n - 1, i);
    } else {
      assert i == n - 1;
    }
  }

  function SumReals(xs: seq<real>): real {
    if xs == [] then 0.0 else xs[0] + SumReals(xs[1..])
  }

  /** `np.mean` */
  function Mean(xs: seq<real>): real
    requires xs != []
  {
    SumReals(xs) / |xs| as real
  }

  /** `moving_average_ttr`: plain TTR when there are fewer tokens than the
      window holds; otherwise the mean of the TTRs of all `len - w + 1`
      windows. A window size of 0 divides by zero (`None`). */
  method MovingAverageTtr(tokens: seq<string>, windowSize: int) returns (r: Option<real>)
    ensures windowSize == 0 ==> r == None
    ensures windowSize != 0 && |tokens| < windowSize ==> r == Some(TypeTokenRatio(tokens))
    ensures windowSize != 0 && |tokens| >= windowSize ==>
      r == Some(Mean(WindowTtrs(tokens, windowSize, |tokens| - windowSize + 1)))
  {
    if |tokens| < windowSize {
      return Some(TypeTokenRatio(tokens));
    }
    if windowSize == 0 {
      return None;
    }
    var ttrs: seq<real> := [];
    var i := 0;
    while i < |tokens| - windowSize + 1
      invariant 0 <= i <= |tokens| - windowSize + 1
      invariant ttrs == WindowTtrs(tokens, windowSize, i)
    {
      var window := PySlice(tokens, i, i + windowSize);
      var ttr := |Vocab(window)| as real / windowSize as real;
      assert ttr == WindowTtr(tokens, windowSize, i);
      ttrs := ttrs + [ttr];
      i := i + 1;
    }
    return Some(Mean(ttrs));
  }

  /** For a positive window that fits, each window's value is the TTR of that
      window, lies in (0, 1], and so does their mean. */
  lemma {:induction false} WindowTtrsBounds(tokens: seq<string>, w: int)
    requires 0 < w <= |tokens|
    ensures forall i :: 0 <= i <= |tokens| - w ==>
      WindowTtr(tokens, w, i) == TypeTokenRatio(tokens[i..i + w])
    ensures forall i :: 0 <= i <= |tokens| - w ==> 0.0 < WindowTtr(tokens, w, i) <= 1.0
    ensures 0.0 < Mean(WindowTtrs(tokens, w, |tokens| - w + 1)) <= 1.0
  {
    var xs := WindowTtrs(tokens, w, |tokens| - w + 1);
    forall i | 0 <= i <= |tokens| - w
      ensures WindowTtr(tokens, w, i) == TypeTokenRatio(tokens[i..i + w])
    {
      assert |tokens[i..i + w]| == w;
    }
    forall i | 0 <= i < |xs| ensures 0.0 < xs[i] <= 1.0 {
      WindowTtrsAt(tokens, w, |xs|, i);
    }
    UnitIntervalMean(xs);
  }

  lemma {:induction false} UnitIntervalSum(xs: seq<real>)
    requires forall i :: 0 <= i < |xs| ==> 0.0 < xs[i] <= 1.0
    ensures xs != [] ==> 0.0 < SumReals(xs)
    ensures SumReals(xs) <= |xs| as real
  {
    if xs != [] {
      UnitIntervalSum(xs[1..]);
    }
  }

  lemma UnitIntervalMean(xs: seq<real>)
    requires xs != []
    requires forall i :: 0 <= i < |xs| ==> 0.0 < xs[i] <= 1.0
    ensures 0.0 < Mean(xs) <= 1.0
  {
    UnitIntervalSum(xs);
  }

  // ---------------------------------------------------------------------------
  // Syllables

  /** `char in 'aeiouy'` */
  predicate IsVowel(c: char) {
    c in "aeiouy"
  }

  /** A maximal run of vowels begins at `i`. */
  predicate RunStartAt(w: string, i: nat)
    requires i < |w|
  {
    IsVowel(w[i]) && (i == 0 || !IsVowel(w[i - 1]))
  }

  /** The positions below `n` where a run begins. */
  function RunStarts(w: string, n: nat): set<nat>
    requires n <= |w|
  {
    set i: nat | i < n && RunStartAt(w, i)
  }

  /** The number of maximal vowel runs in `w`. */
  function VowelRuns(w: string): nat {
    |RunStarts(w, |w|)|
  }

  /** The syllable estimate: the vowel runs of the lower-cased word, one
      fewer for a final `e` when there is more than one run, and at least 1. */
  function SyllableEstimate(word: string): nat {
    var w := Lower(word);
    var c := VowelRuns(w);
    var c2 := if |w| > 0 && w[|w| - 1] == 'e' && c > 1 then c - 1 else c;
    if c2 < 1 then 1 else c2
  }

  /** The run starts among the first `n` positions. */
  function RunsUpTo(w: string, n: nat): nat
    requires n <= |w|
  {
    if n == 0 then 0 else RunsUpTo(w, n - 1) + (if RunStartAt(w, n - 1) then 1 else 0)
  }

  /** `_count_syllables`, with its loop over the characters. */
  method CountSyllables(word: string) returns (count: int)
    ensures count == SyllableEstimate(word)
  {
    var w := Lower(word);
    count := 0;
    var prevVowel := false;
    for i := 0 to |w|
      invariant count == RunsUpTo(w, i)
      invariant prevVowel == (i > 0 && IsVowel(w[i - 1]))
    {
      var isVowel := IsVowel(w[i]);
      if isVowel && !prevVowel {
        count := count + 1;
      }
      prevVowel := isVowel;
    }
    RunsUpToIsRunCount(w, |w|);
    if |w| > 0 && w[|w| - 1] == 'e' && count > 1 {
      count := count - 1;
    }
    if count < 1 {
      count := 1;
    }
  }

  /** Counting run starts left to right finds every run once. */
  lemma {:induction false} RunsUpToIsRunCount(w: string, n: nat)
    requires n <= |w|
    ensures RunsUpTo(w, n) == |RunStarts(w, n)|
  {
    if n > 0 {
      RunsUpToIsRunCount(w, n - 1);
      RunStartsSnoc(w, n);
    }
  }

  lemma RunStartsSnoc(w: string, n: nat)
    requires 0 < n <= |w|
    ensures RunStarts(w, n) == RunStarts(w, n - 1) + (if RunStartAt(w, n - 1) then {n - 1} else {})
  {
    var a := RunStarts(w, n - 1);
    var b := RunStarts(w, n);
    var c := if RunStartAt(w, n - 1) then {n - 1} else {};
    forall i: nat ensures i in b <==> i in a + c {
      if i < n - 1 {
        assert i in b <==> RunStartAt(w, i);
        assert i in a <==> RunStartAt(w, i);
      }
    }
  }

  /** Two runs are separated by a non-vowel, so the first `n` positions hold
      at most `(n + 1) / 2` run starts. */
  lemma {:induction false} RunsUpToBound(w: string, n: nat)
    requires n <= |w|
    ensures 2 * RunsUpTo(w, n) <= n + (if n > 0 && IsVowel(w[n - 1]) then 1 else 0)
  {
    if n > 0 { RunsUpToBound(w, n - 1); }
  }

  /** The estimate is at least 1, and a word of length `L >= 1` is given at
      most `(L + 1) / 2` syllables. */
  lemma SyllableEstimateBounds(word: string)
    ensures SyllableEstimate(word) >= 1
    ensures |word| >= 1 ==> 2 * SyllableEstimate(word) <= |word| + 1
  {
    var w := Lower(word);
    RunsUpToIsRunCount(w, |w|);
    RunsUpToBound(w, |w|);
  }

  // ---------------------------------------------------------------------------
  // Heaps' law: the vocabulary-growth table

  /** The corpus sizes and vocabulary sizes of `heaps_law_analysis`. */
  datatype Growth = Growth(sizes: seq<int>, vocab: seq<int>)

  /** The table for `len >= step > 0`: one row per `i = 0, step, 2 * step, …`
      below `len`, with corpus size `min(i + step, len)` and the number of
      distinct tokens in that prefix. */
  predicate GrowthTable(tokens: seq<string>, step: int, g: Growth) {
    step > 0
    && |g.sizes| == |g.vocab| >= 1
    && (|g.sizes| - 1) * step < |tokens| <= |g.sizes| * step
    && forall k :: 0 <= k < |g.sizes| ==>
         g.sizes[k] == Min(k * step + step, |tokens|)
         && 0 <= g.sizes[k] <= |tokens|
         && g.vocab[k] == |Vocab(tokens[..g.sizes[k]])|
  }

  /** `heaps_law_analysis` without the regression: `None` where `range` is
      given a zero step, an empty table for a negative step, a single row for
      fewer tokens than one step. */
  method HeapsGrowth(tokens: seq<string>, step: int) returns (r: Option<Growth>)
    ensures step == 0 ==> r == None
    ensures step < 0 ==> r == Some(Growth([], []))
    ensures 0 < step && |tokens| < step ==> r == Some(Growth([|tokens|], [|Vocab(tokens)|]))
    ensures 0 < step <= |tokens| ==> r.Some? && GrowthTable(tokens, step, r.value)
  {
    if |tokens| < step {
      return Some(Growth([|tokens|], [|Vocab(tokens)|]));
    }
    if step == 0 {
      return None;
    }
    if step < 0 {
      return Some(Growth([], []));
    }
    var sizes: seq<int> := [];
    var vocab: seq<int> := [];
    var seen: set<string> := {};
    var i := 0;
    while i < |tokens|
      invariant |sizes| == |vocab|
      invariant i == |sizes| * step
      invariant |sizes| > 0 ==> (|sizes| - 1) * step < |tokens|
      invariant seen == Vocab(tokens[..Min(i, |tokens|)])
      invariant forall k :: 0 <= k < |sizes| ==>
        sizes[k] == Min(k * step + step, |tokens|)
        && 0 <= sizes[k] <= |tokens|
        && vocab[k] == |Vocab(tokens[..sizes[k]])|
      decreases |tokens| - i
    {
      var e := Min(i + step, |tokens|);
      VocabPrefix(tokens, i, e);
      seen := seen + Vocab(tokens[..e]);
      assert (|sizes| + 1) * step == i + step;
      sizes := sizes + [e];
      vocab := vocab + [|seen|];
      i := i + step;
    }
    return Some(Growth(sizes, vocab));
  }

  /** In the table, vocabulary sizes never decrease and never exceed their
      corpus size, and the last row is the whole list. */
  lemma GrowthTableProperties(tokens: seq<string>, step: int, g: Growth)
    requires GrowthTable(tokens, step, g)
    ensures forall j, k :: 0 <= j <= k < |g.vocab| ==> g.vocab[j] <= g.vocab[k]
    ensures forall k :: 0 <= k < |g.vocab| ==> 0 <= g.vocab[k] <= g.sizes[k]
    ensures g.sizes[|g.sizes| - 1] == |tokens|
    ensures g.vocab[|g.vocab| - 1] == |Vocab(tokens)|
  {
    forall j, k | 0 <= j <= k < |g.vocab| ensures g.vocab[j] <= g.vocab[k] {
      GrowthSizesMonotone(step, j, k, |tokens|);
      VocabPrefix(tokens, g.sizes[j], g.sizes[k]);
    }
    forall k | 0 <= k < |g.vocab| ensures g.vocab[k] <= g.sizes[k] {
      var p := tokens[..g.sizes[k]];
      assert |Distinct(p)| == |Vocab(p)| <= |p|;
    }
    var m := |g.sizes| - 1;
    assert m * step + step == |g.sizes| * step;
    assert tokens[..|tokens|] == tokens;
  }

  lemma GrowthSizesMonotone(step: int, j: int, k: int, n: int)
    requires 0 < step
    requires 0 <= j <= k
    ensures Min(j * step + step, n) <= Min(k * step + step, n)
  {
    assert j * step <= k * step;
  }
}
