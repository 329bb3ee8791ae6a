/** The counting metrics of `nlp_metrics.py`: vocabulary overlap, lexical
    density, the co-occurrence counts behind pointwise mutual information,
    and n-gram statistics. */
module NlpMetrics {
  import opened Wrappers
  import opened Slicing
  import opened Counting
  import opened Ratio

  // ---------------------------------------------------------------------------
  // Vocabulary overlap

  /** The dictionary `vocabulary_overlap` returns. */
  datatype Overlap = Overlap(
    jaccard: real,
    dice: real,
    overlap: real,
    coverage1: real,
    coverage2: real,
    unique1: nat,
    unique2: nat,
    shared: nat)

  /** `vocabulary_overlap(tokens1, tokens2)`; each ratio is 0.0 where its
      denominator would be empty. */
  function VocabularyOverlap(tokens1: seq<string>, tokens2: seq<string>): Overlap {
    var v1, v2 := Vocab(tokens1), Vocab(tokens2);
    var i, u := |v1 * v2|, |v1 + v2|;
    Overlap(
      jaccard := if u > 0 then i as real / u as real else 0.0,
      dice := if |v1| > 0 || |v2| > 0 then (2 * i) as real / (|v1| + |v2|) as real else 0.0,
      overlap := if |v1| > 0 && |v2| > 0 then i as real / Min(|v1|, |v2|) as real else 0.0,
      coverage1 := if |v1| > 0 then i as real / |v1| as real else 0.0,
      coverage2 := if |v2| > 0 then i as real / |v2| as real else 0.0,
      unique1 := |v1 - v2|,
      unique2 := |v2 - v1|,
      shared := i)
  }

  /** The shared words and the words unique to one side make up that side's
      vocabulary, and the union counts the shared words once. */
  lemma OverlapCounts(tokens1: seq<string>, tokens2: seq<string>)
    ensures var o := VocabularyOverlap(tokens1, tokens2);
      && o.shared + o.unique1 == |Vocab(tokens1)|
      && o.shared + o.unique2 == |Vocab(tokens2)|
      && |Vocab(tokens1) + Vocab(tokens2)| == |Vocab(tokens1)| + |Vocab(tokens2)| - o.shared
  {
    var v1, v2 := Vocab(tokens1), Vocab(tokens2);
    assert v1 == (v1 * v2) + (v1 - v2);
    assert v2 == (v1 * v2) + (v2 - v1);
    assert (v1 * v2) * (v1 - v2) == {};
    assert (v1 * v2) * (v2 - v1) == {};
  }

  /** Swapping the two token lists keeps Jaccard, Dice and the overlap
      coefficient and swaps the per-side fields. */
  lemma OverlapSymmetric(tokens1: seq<string>, tokens2: seq<string>)
    ensures var o := VocabularyOverlap(tokens1, tokens2);
      VocabularyOverlap(tokens2, tokens1)
        == o.(coverage1 := o.coverage2, coverage2 := o.coverage1,
              unique1 := o.unique2, unique2 := o.unique1)
  {
    var v1, v2 := Vocab(tokens1), Vocab(tokens2);
    assert v1 * v2 == v2 * v1;
    assert v1 + v2 == v2 + v1;
  }

  /** Every ratio field lies in [0, 1]. */
  lemma OverlapBounds(tokens1: seq<string>, tokens2: seq<string>)
    ensures var o := VocabularyOverlap(tokens1, tokens2);
      && 0.0 <= o.jaccard <= 1.0
      && 0.0 <= o.dice <= 1.0
      && 0.0 <= o.overlap <= 1.0
      && 0.0 <= o.coverage1 <= 1.0
      && 0.0 <= o.coverage2 <= 1.0
  {
    var v1, v2 := Vocab(tokens1), Vocab(tokens2);
    OverlapCounts(tokens1, tokens2);
    CountRatioBounds(|v1 * v2|, |v1 + v2|, |v1|, |v2|);
  }

  /** The ratio bounds on the counts alone: `i` shared words out of `a` and
      `b`, with union `u = a + b - i`. */
  lemma CountRatioBounds(i: nat, u: nat, a: nat, b: nat)
    requires i <= a && i <= b && a + b == u + i
    ensures u > 0 ==> 0.0 <= i as real / u as real <= 1.0
    ensures a > 0 || b > 0 ==> 0.0 <= (2 * i) as real / (a + b) as real <= 1.0
    ensures a > 0 && b > 0 ==> 0.0 <= i as real / Min(a, b) as real <= 1.0
    ensures a > 0 ==> 0.0 <= i as real / a as real <= 1.0
    ensures b > 0 ==> 0.0 <= i as real / b as real <= 1.0
  {
    if u > 0 { UnitRatio(i, u); }
    if a > 0 || b > 0 { UnitRatio(2 * i, a + b); }
    if a > 0 && b > 0 { UnitRatio(i, Min(a, b)); }
    if a > 0 { UnitRatio(i, a); }
    if b > 0 { UnitRatio(i, b); }
  }

  /** With both vocabularies non-empty, Jaccard <= Dice <= overlap coefficient. */
  lemma OverlapOrder(tokens1: seq<string>, tokens2: seq<string>)
    requires tokens1 != [] && tokens2 != []
    ensures var o := VocabularyOverlap(tokens1, tokens2);
      o.jaccard <= o.dice <= o.overlap
  {
    var v1, v2 := Vocab(tokens1), Vocab(tokens2);
    assert tokens1[0] in v1 && tokens2[0] in v2;
    OverlapCounts(tokens1, tokens2);
    CountRatioOrder(|v1 * v2|, |v1 + v2|, |v1|, |v2|);
  }

  /** The ordering on the counts alone. */
  lemma CountRatioOrder(i: nat, u: nat, a: nat, b: nat)
    requires 0 < a && 0 < b && i <= a && i <= b && a + b == u + i
    ensures i as real / u as real <= (2 * i) as real / (a + b) as real
    ensures (2 * i) as real / (a + b) as real <= i as real / Min(a, b) as real
  {
    JaccardAtMostDice(i, u, a + b);
    DiceAtMostOverlap(i, a + b, Min(a, b));
  }

  /** `i / u <= 2i / (a + b)` when `a + b = u + i` and `i <= u`. */
  lemma JaccardAtMostDice(i: nat, u: nat, ab: nat)
    requires 0 < u && ab == u + i && i <= u
    ensures i as real / u as real <= (2 * i) as real / ab as real
  {
    assert i * ab <= (2 * i) * u by {
      assert i * ab == i * u + i * i;
      assert (2 * i) * u == i * u + i * u;
      MulMonotone(i, u, i);
    }
    RatioCompare(i, u, 2 * i, ab);
  }

  /** `2i / (a + b) <= i / min(a, b)`, since `2 min(a, b) <= a + b`. */
  lemma DiceAtMostOverlap(i: nat, ab: nat, m: nat)
    requires 0 < m && 2 * m <= ab
    ensures (2 * i) as real / ab as real <= i as real / m as real
  {
    assert (2 * i) * m <= i * ab by {
      assert (2 * i) * m == (2 * m) * i;
      MulMonotone(2 * m, ab, i);
    }
    RatioCompare(2 * i, ab, i, m);
  }

  /** Two empty lists give all-zero ratios, and an empty side has zero coverage. */
  lemma OverlapEmpty(tokens1: seq<string>, tokens2: seq<string>)
    ensures var o := VocabularyOverlap(tokens1, tokens2);
      && (tokens1 == [] && tokens2 == [] ==>
            o.jaccard == o.dice == o.overlap == o.coverage1 == o.coverage2 == 0.0)
      && (tokens1 == [] ==> o.coverage1 == 0.0 && o.overlap == 0.0 && o.unique1 == 0)
      && (tokens2 == [] ==> o.coverage2 == 0.0 && o.overlap == 0.0 && o.unique2 == 0)
  {
    assert tokens1 == [] ==> Vocab(tokens1) == {};
    assert tokens2 == [] ==> Vocab(tokens2) == {};
  }

  // ---------------------------------------------------------------------------
  // Lexical density

  /** The tokens counted as content words: those in `content` when a set is
      given, those of at least 4 characters when it is `None`. */
  function ContentCount(tokens: seq<string>, content: Option<set<string>>): (n: nat)
    ensures n <= |tokens|
  {
    if tokens == [] then 0
    else
      var counted := match content
        case None => |tokens[0]| >= 4
        case Some(c) => tokens[0] in c;
      (if counted then 1 else 0) + ContentCount(tokens[1..], content)
  }

  /** `lexical_density(tokens, content_words)` */
  function LexicalDensity(tokens: seq<string>, content: Option<set<string>>): (r: real)
    ensures tokens == [] ==> r == 0.0
    ensures 0.0 <= r <= 1.0
  {
    if tokens == [] then 0.0
    else
      UnitRatio(ContentCount(tokens, content), |tokens|);
      ContentCount(tokens, content) as real / |tokens| as real
  }

  /** A set that holds exactly the tokens of length >= 4 seen in the list
      counts them the way the default rule does. */
  lemma {:induction false} ContentCountDefault(tokens: seq<string>, c: set<string>)
    requires forall k :: 0 <= k < |tokens| ==> (tokens[k] in c <==> |tokens[k]| >= 4)
    ensures ContentCount(tokens, None) == ContentCount(tokens, Some(c))
  {
    if tokens != [] {
      assert forall k :: 1 <= k < |tokens| ==> tokens[1..][k - 1] == tokens[k];
      ContentCountDefault(tokens[1..], c);
    }
  }

  /** The default density is the density for the set of the list's own words
      of length >= 4. */
  lemma LexicalDensityDefault(tokens: seq<string>)
    ensures LexicalDensity(tokens, None)
         == LexicalDensity(tokens, Some(set t | t in tokens && |t| >= 4))
  {
    ContentCountDefault(tokens, set t | t in tokens && |t| >= 4);
  }

  lemma {:induction false} ContentCountMonotone(tokens: seq<string>, c1: set<string>, c2: set<string>)
    requires c1 <= c2
    ensures ContentCount(tokens, Some(c1)) <= ContentCount(tokens, Some(c2))
  {
    if tokens != [] { ContentCountMonotone(tokens[1..], c1, c2); }
  }

  /** A larger content-word set never gives a lower density. */
  lemma LexicalDensityMonotone(tokens: seq<string>, c1: set<string>, c2: set<string>)
    requires c1 <= c2
    ensures LexicalDensity(tokens, Some(c1)) <= LexicalDensity(tokens, Some(c2))
  {
    if tokens != [] {
      ContentCountMonotone(tokens, c1, c2);
      RatioMonotone(ContentCount(tokens, Some(c1)), ContentCount(tokens, Some(c2)), |tokens|);
    }
  }

  // ---------------------------------------------------------------------------
  // Pointwise mutual information

  /** What `pointwise_mutual_information` returns: 0.0, or `log2(arg)`, or
      the `ValueError` that `math.log2` raises for an argument <= 0. */
  datatype Pmi = Zero | Log2(arg: real) | DomainError

  /** The window around position `i`: `tokens[max(0, i - ws):min(len, i + ws + 1)]`. */
  function Window(tokens: seq<string>, i: int, ws: int): seq<string> {
    PySlice(tokens, Max(0, i - ws), Min(|tokens|, i + ws + 1))
  }

  /** What one position adds to `cooccurrences`. */
  function CoocAt(tokens: seq<string>, w1: string, w2: string, ws: int, i: nat): int
    requires i < |tokens|
  {
    if tokens[i] == w1 then Count(Window(tokens, i, ws), w2) - (if w1 == w2 then 1 else 0) else 0
  }

  /** What one position adds to `total_windows`. */
  function WindowsAt(tokens: seq<string>, w1: string, ws: int, i: nat): int
    requires i < |tokens|
  {
    if tokens[i] == w1 then |Window(tokens, i, ws)| - 1 else 0
  }

  /** `cooccurrences` after the first `n` positions. */
  function Cooc(tokens: seq<string>, w1: string, w2: string, ws: int, n: nat): int
    requires n <= |tokens|
  {
    if n == 0 then 0 else Cooc(tokens, w1, w2, ws, n - 1) + CoocAt(tokens, w1, w2, ws, n - 1)
  }

  /** `total_windows` after the first `n` positions. */
  function Windows(tokens: seq<string>, w1: string, ws: int, n: nat): int
    requires n <= |tokens|
  {
    if n == 0 then 0 else Windows(tokens, w1, ws, n - 1) + WindowsAt(tokens, w1, ws, n - 1)
  }

  /** The value computed from the final counts: 0.0 for an absent word or
      when no window or no co-occurrence was counted, otherwise
      `log2(p_xy / (p_x * p_y))`, which raises when its argument is not
      positive (possible only for a negative window size). */
  function PmiOf(tokens: seq<string>, w1: string, w2: string, cooc: int, total: int): Pmi {
    if Count(tokens, w1) == 0 || Count(tokens, w2) == 0 then Zero
    else if total == 0 || cooc == 0 then Zero
    else
      var n := |tokens| as real;
      var pxy := cooc as real / total as real;
      var px, py := Count(tokens, w1) as real / n, Count(tokens, w2) as real / n;
      if px * py == 0.0 then Zero
      else if pxy / (px * py) <= 0.0 then DomainError
      else Log2(pxy / (px * py))
  }

  /** The log is reached exactly when both words occur and both totals are
      non-zero, and it raises exactly when the two totals have opposite signs. */
  lemma PmiOfCases(tokens: seq<string>, w1: string, w2: string, cooc: int, total: int)
    ensures var r := PmiOf(tokens, w1, w2, cooc, total);
      && (r == Zero <==> w1 !in tokens || w2 !in tokens || total == 0 || cooc == 0)
      && (r == DomainError <==>
            w1 in tokens && w2 in tokens && total != 0 && cooc != 0 && (cooc < 0 <==> 0 < total))
  {
    if w1 in tokens && w2 in tokens && total != 0 && cooc != 0 {
      var n := |tokens| as real;
      var px, py := Count(tokens, w1) as real / n, Count(tokens, w2) as real / n;
      PositiveRatio(Count(tokens, w1), |tokens|);
      PositiveRatio(Count(tokens, w2), |tokens|);
      var pxy := cooc as real / total as real;
      assert 0.0 < px * py;
      RatioSign(cooc, total);
      QuotientSign(pxy, px * py);
    }
  }

  /** `pointwise_mutual_information(tokens, word1, word2, window_size)`:
      0.0 when either word is absent; otherwise the co-occurrence loop over
      every position, then `log2(p_xy / (p_x * p_y))`. */
  method PointwiseMutualInformation(tokens: seq<string>, w1: string, w2: string, windowSize: int)
    returns (r: Pmi)
    ensures w1 !in tokens || w2 !in tokens ==> r == Zero
    ensures r == PmiOf(tokens, w1, w2, Cooc(tokens, w1, w2, windowSize, |tokens|),
                       Windows(tokens, w1, windowSize, |tokens|))
  {
    if Count(tokens, w1) == 0 || Count(tokens, w2) == 0 {
      return Zero;
    }
    var cooccurrences, totalWindows := 0, 0;
    for i := 0 to |tokens|
      invariant cooccurrences == Cooc(tokens, w1, w2, windowSize, i)
      invariant totalWindows == Windows(tokens, w1, windowSize, i)
    {
      var window := PySlice(tokens, Max(0, i - windowSize), Min(|tokens|, i + windowSize + 1));
      assert window == Window(tokens, i, windowSize);
      ghost var c0, t0 := cooccurrences, totalWindows;
      if tokens[i] == w1 {
        cooccurrences := cooccurrences + Count(window, w2) - (if w1 == w2 then 1 else 0);
        totalWindows := totalWindows + |window| - 1;
      }
      assert cooccurrences == c0 + CoocAt(tokens, w1, w2, windowSize, i);
      assert totalWindows == t0 + WindowsAt(tokens, w1, windowSize, i);
    }
    r := PmiOf(tokens, w1, w2, cooccurrences, totalWindows);
  }

  /** For a window size >= 0 each window holds position `i` itself, so every
      step adds between 0 and (window length - 1) co-occurrences, also when
      both words are the same. */
  lemma CoocAtBounds(tokens: seq<string>, w1: string, w2: string, ws: int, i: nat)
    requires 0 <= ws
    requires i < |tokens|
    ensures 0 <= CoocAt(tokens, w1, w2, ws, i) <= WindowsAt(tokens, w1, ws, i)
  {
    if tokens[i] == w1 {
      var a, b := Max(0, i - ws), Min(|tokens|, i + ws + 1);
      var win := Window(tokens, i, ws);
      assert win == tokens[a..b];
      assert win[i - a] == w1;
      assert multiset(win) == multiset(win[..i - a]) + multiset{w1} + multiset(win[i - a + 1..]) by {
        assert win == win[..i - a] + [w1] + win[i - a + 1..];
      }
      assert |multiset(win[..i - a]) + multiset(win[i - a + 1..])| == |win| - 1;
    }
  }

  /** For a window size >= 0: 0 <= cooccurrences <= total_windows. */
  lemma {:induction false} CoocBounds(tokens: seq<string>, w1: string, w2: string, ws: int, n: nat)
    requires 0 <= ws
    requires n <= |tokens|
    ensures 0 <= Cooc(tokens, w1, w2, ws, n) <= Windows(tokens, w1, ws, n)
  {
    if n > 0 {
      CoocBounds(tokens, w1, w2, ws, n - 1);
      CoocAtBounds(tokens, w1, w2, ws, n - 1);
    }
  }

  /** For a window size >= 0 the probability `p_xy` the program takes the
      logarithm of is positive and at most 1, so a `Log2` result has a
      positive argument. */
  lemma PmiArgPositive(tokens: seq<string>, w1: string, w2: string, ws: int)
    requires 0 <= ws
    ensures var cooc, total := Cooc(tokens, w1, w2, ws, |tokens|), Windows(tokens, w1, ws, |tokens|);
      && (total != 0 && cooc != 0 ==> 0.0 < cooc as real / total as real <= 1.0)
      && PmiOf(tokens, w1, w2, cooc, total) != DomainError
      && (PmiOf(tokens, w1, w2, cooc, total).Log2? ==> PmiOf(tokens, w1, w2, cooc, total).arg > 0.0)
  {
    var cooc, total := Cooc(tokens, w1, w2, ws, |tokens|), Windows(tokens, w1, ws, |tokens|);
    CoocBounds(tokens, w1, w2, ws, |tokens|);
    if total != 0 && cooc != 0 {
      UnitRatio(cooc, total);
      if Count(tokens, w1) != 0 && Count(tokens, w2) != 0 {
        var n := |tokens| as real;
        assert |tokens| > 0 by { assert w1 in tokens; }
        var px, py := Count(tokens, w1) as real / n, Count(tokens, w2) as real / n;
        assert px > 0.0 && py > 0.0;
        assert px * py > 0.0;
      }
    }
  }

  /** With a negative window size both totals can go negative: for
      `["a", "x", "y", "z", "q", "a"]`, the word "a" with itself and
      window size -2, the windows are `tokens[2:-1]` and `tokens[7:4]`,
      so co-occurrences = -2, total windows = 1, and `math.log2(-18.0)`
      raises. */
  lemma PmiNegativeWindowRaises()
    ensures var t := ["a", "x", "y", "z", "q", "a"];
      && Cooc(t, "a", "a", -2, |t|) == -2
      && Windows(t, "a", -2, |t|) == 1
      && PmiOf(t, "a", "a", -2, 1) == DomainError
  {
    var t := ["a", "x", "y", "z", "q", "a"];
    NegativeWindowSteps(t);
    assert Cooc(t, "a", "a", -2, |t|) == -2 by {
      assert Cooc(t, "a", "a", -2, 1) == -1;
      assert Cooc(t, "a", "a", -2, 5) == -1;
    }
    assert Windows(t, "a", -2, |t|) == 1 by {
      assert Windows(t, "a", -2, 1) == 2;
      assert Windows(t, "a", -2, 5) == 2;
    }
    assert PmiOf(t, "a", "a", -2, 1) == DomainError by {
      assert t[0] == "a";
      PmiOfCases(t, "a", "a", -2, 1);
    }
  }

  /** The per-position steps of that example. */
  lemma NegativeWindowSteps(t: seq<string>)
    requires t == ["a", "x", "y", "z", "q", "a"]
    ensures CoocAt(t, "a", "a", -2, 0) == -1 && WindowsAt(t, "a", -2, 0) == 2
    ensures forall i :: 1 <= i < 5 ==> CoocAt(t, "a", "a", -2, i) == 0 && WindowsAt(t, "a", -2, i) == 0
    ensures CoocAt(t, "a", "a", -2, 5) == -1 && WindowsAt(t, "a", -2, 5) == -1
  {
    assert Window(t, 0, -2) == t[2..5];
    assert Count(t[2..5], "a") == 0 by {
      assert t[2..5] == ["y", "z", "q"];
      assert "a" !in t[2..5];
    }
    assert Window(t, 5, -2) == [];
    forall i | 1 <= i < 5 ensures t[i] != "a" {
      assert t[i][0] != 'a';
    }
  }

  /** The number of occurrences of `w` among the first `n` tokens. */
  function CountBefore(tokens: seq<string>, w: string, n: nat): nat
    requires n <= |tokens|
  {
    Count(tokens[..n], w)
  }

  /** With a window that covers the whole list, the counts are closed forms
      of the word counts: `total_windows = c1 * (len - 1)` and
      `cooccurrences = c1 * c2`, or `c1 * (c1 - 1)` for the same word. */
  lemma {:induction false} CoocWholeWindow(tokens: seq<string>, w1: string, w2: string, ws: int, n: nat)
    requires |tokens| <= ws
    requires n <= |tokens|
    ensures Windows(tokens, w1, ws, n) == CountBefore(tokens, w1, n) * (|tokens| - 1)
    ensures Cooc(tokens, w1, w2, ws, n)
         == CountBefore(tokens, w1, n) * (Count(tokens, w2) - if w1 == w2 then 1 else 0)
  {
    if n == 0 {
      assert tokens[..0] == [];
    } else {
      CoocWholeWindow(tokens, w1, w2, ws, n - 1);
      var i := n - 1;
      assert Window(tokens, i, ws) == tokens by {
        assert Max(0, i - ws) == 0;
        assert Min(|tokens|, i + ws + 1) == |tokens|;
        assert tokens[0..|tokens|] == tokens;
      }
      assert tokens[..n] == tokens[..i] + [tokens[i]];
      var c := CountBefore(tokens, w1, i);
      var d := Count(tokens, w2) - if w1 == w2 then 1 else 0;
      if tokens[i] == w1 {
        assert CountBefore(tokens, w1, n) == c + 1;
        MulSucc(c, |tokens| - 1);
        MulSucc(c, d);
      } else {
        assert CountBefore(tokens, w1, n) == c;
      }
    }
  }

  // ---------------------------------------------------------------------------
  // n-gram statistics

  /** `[tuple(tokens[i:i+n]) for i in range(len(tokens) - n + 1)]` */
  function Ngrams(tokens: seq<string>, n: int): (g: seq<seq<string>>)
    requires n <= |tokens|
    ensures |g| == |tokens| - n + 1
    ensures forall i :: 0 <= i < |g| ==> g[i] == PySlice(tokens, i, i + n)
    ensures 0 <= n ==> forall i :: 0 <= i < |g| ==> g[i] == tokens[i..i + n] && |g[i]| == n
    ensures 0 <= n ==> forall i, j :: 0 <= i < |g| && 0 <= j < n ==> g[i][j] == tokens[i + j]
  {
    seq(|tokens| - n + 1, i requires 0 <= i < |tokens| - n + 1 => PySlice(tokens, i, i + n))
  }

  /** The count fields of `compute_ngram_statistics` (the entropy field is
      not modelled). A list shorter than `n` gives the three-field answer. */
  datatype NgramStats =
    | Short(count: nat, unique: nat, ttr: real)
    | Full(count: nat, unique: nat, ttr: real, hapaxRatio: real, mostCommonFreq: real)

  /** `compute_ngram_statistics(tokens, n)` */
  function NgramStatistics(tokens: seq<string>, n: int): NgramStats {
    if |tokens| < n then Short(0, 0, 0.0)
    else
      var g := Ngrams(tokens, n);
      var f := FreqValues(g);
      var c := |g|;
      Full(
        count := c,
        unique := |f|,
        ttr := |f| as real / c as real,
        hapaxRatio := CountOnes(f) as real / c as real,
        mostCommonFreq := MostCommonCount(tokens, n) as real / c as real)
  }

  /** `freq.most_common(1)[0][1]`: the count of the most frequent n-gram. */
  function MostCommonCount(tokens: seq<string>, n: int): nat
    requires n <= |tokens|
  {
    MaxOf(FreqValues(Ngrams(tokens, n)))
  }

  /** A list shorter than `n` has no n-grams and all counts 0; otherwise the
      counts and ratios are related as the definitions of the measures
      promise. */
  lemma NgramStatisticsBounds(tokens: seq<string>, n: int)
    ensures |tokens| < n ==> NgramStatistics(tokens, n) == Short(0, 0, 0.0)
    ensures n <= |tokens| ==> var s := NgramStatistics(tokens, n);
      && s.Full?
      && s.count == |tokens| - n + 1
      && 1 <= s.unique <= s.count
      && 0.0 < s.ttr <= 1.0
      && 0.0 <= s.hapaxRatio <= s.ttr
      && 0.0 < s.mostCommonFreq <= 1.0
  {
    if |tokens| < n {
      return;
    }
    var g := Ngrams(tokens, n);
    var f := FreqValues(g);
    var c := |g|;
    assert g[0] in Vocab(g);
    assert |Distinct(g)| == |Vocab(g)| <= |g|;
    CountOnesBound(f);
    UnitRatio(|f|, c);
    UnitRatio(CountOnes(f), c);
    RatioMonotone(CountOnes(f), |f|, c);
    MostCommonBounds(g);
    UnitRatio(MostCommonCount(tokens, n), c);
  }

  /** The largest Counter value is between 1 and the length. */
  lemma MostCommonBounds(g: seq<seq<string>>)
    requires g != []
    ensures 1 <= MaxOf(FreqValues(g)) <= |g|
  {
    var f := FreqValues(g);
    assert g[0] in Vocab(g);
    FreqValuesPositive(g);
    FreqValuesSum(g);
    assert f[0] >= 1;
    var k :| 0 <= k < |f| && f[k] == MaxOf(f);
    ValueAtMostSum(f, k);
  }

  /** The most frequent n-gram occurs at least `count / unique` times. */
  lemma MostCommonAtLeastAverage(tokens: seq<string>, n: int)
    requires n <= |tokens|
    ensures var s := NgramStatistics(tokens, n);
      s.count <= MostCommonCount(tokens, n) * s.unique
  {
    MaxCountAtLeastAverage(Ngrams(tokens, n));
  }
}
