/** The string transforms of `data_cleaning.py`: the whitespace, hashtag,
    repeated-character and case steps of `TextCleaner.clean_text`, the ASCII
    language heuristic, and the flattening of list cells. */
module DataCleaning {
  import opened Wrappers
  import opened TextScan

  // ---------------------------------------------------------------------------
  // TextCleaner.clean_text

  /** The `TextCleaner` flags that choose among the modelled steps. */
  datatype CleanerConfig = CleanerConfig(lowercase: bool, removeHashtags: bool, reduceRepeatedChars: bool)

  /** `TextCleaner()`: lower-case, keep hashtag words, reduce repeats. */
  const DefaultConfig := CleanerConfig(lowercase := true, removeHashtags := false, reduceRepeatedChars := true)

  /** One hashtag step: `#\w+` becomes a space, or only the `#` goes. */
  function HashtagStep(cfg: CleanerConfig, t: string): string {
    if cfg.removeHashtags then RemoveHashtags(t) else KeepHashtagWords(t)
  }

  function RepeatStep(cfg: CleanerConfig, t: string): (r: string)
    ensures cfg.reduceRepeatedChars ==> NoTriple(r)
  {
    if cfg.reduceRepeatedChars then ReduceRepeats(t) else t
  }

  function CaseStep(cfg: CleanerConfig, t: string): (r: string)
    ensures cfg.lowercase ==> NoUpper(r)
  {
    if cfg.lowercase then Lower(t) else t
  }

  /** What `clean_text` returns: "" for a non-string or a whitespace-only
      text; otherwise the text after the hashtag, repeat and case steps, with
      each whitespace run made one space and both ends stripped. The result
      never starts or ends with whitespace, never holds two whitespace
      characters in a row, and has no upper-case letter when lower-casing is
      on. */
  function CleanedText(cfg: CleanerConfig, text: Option<string>): (r: string)
    ensures text.None? ==> r == []
    ensures text.Some? && IsBlank(text.value) ==> r == []
    ensures Trimmed(r) && NoDoubleSpace(r)
    ensures cfg.lowercase ==> NoUpper(r)
  {
    match text
    case None => []
    case Some(t) =>
      if IsBlank(t) then []
      else
        var c := CaseStep(cfg, RepeatStep(cfg, HashtagStep(cfg, t)));
        StripCollapse(c);
        Strip(CollapseSpaces(c))
  }

  /** `clean_text(text)`, reassigning `text` step by step as the cleaner does.
      This method is the model of the code; `CleanedText` is its
      specification, and the properties are proved about that function. */
  method CleanText(cfg: CleanerConfig, text: Option<string>) returns (r: string)
    ensures r == CleanedText(cfg, text)
  {
    if text.None? {
      return [];
    }
    var t := text.value;
    if Strip(t) == [] {
      return [];
    }
    if cfg.removeHashtags {
      t := RemoveHashtags(t);
    } else {
      t := KeepHashtagWords(t);
    }
    if cfg.reduceRepeatedChars {
      t := ReduceRepeats(t);
    }
    if cfg.lowercase {
      t := Lower(t);
    }
    t := CollapseSpaces(t);
    r := Strip(t);
  }

  /** Without lower-casing, a cleaner that reduces repeats leaves no
      character other than a newline three times in a row: the whitespace
      steps create no such run. */
  lemma CleanedTextNoTriple(cfg: CleanerConfig, text: Option<string>)
    requires cfg.reduceRepeatedChars && !cfg.lowercase
    ensures NoTriple(CleanedText(cfg, text))
  {
    if text.Some? && !IsBlank(text.value) {
      var c := CaseStep(cfg, RepeatStep(cfg, HashtagStep(cfg, text.value)));
      var d := CollapseSpaces(c);
      CollapseKeepsNoTriple(c);
      NoTripleSlice(d, StripStart(d), StripEnd(d));
    }
  }

  /** Repeats are reduced before lower-casing, so letters that differ only in
      case survive as a run of three, and cleaning the result again shortens
      it: `clean_text` is not idempotent. */
  lemma CleanedTextCaseRun()
    ensures CleanedText(DefaultConfig, Some("AAa")) == "aaa"
    ensures CleanedText(DefaultConfig, Some("aaa")) == "aa"
  {
    CleanedMixedRun();
    CleanedLowerRun();
  }

  /** A non-empty run of letters is left alone by whitespace collapse and strip. */
  lemma LettersUnchanged(w: string)
    requires w != [] && AllLetters(w)
    ensures Strip(CollapseSpaces(w)) == w
  {
    CollapseNonSpacePrefix(w, []);
    assert w + [] == w;
    assert StripStart(w) == 0 && w[0..] == w;
    assert TrailRun(w) == 0;
  }

  lemma CleanedMixedRun()
    ensures CleanedText(DefaultConfig, Some("AAa")) == "aaa"
  {
    var s := "AAa";
    assert !IsBlank(s) by { assert !IsSpace(s[0]); }
    assert KeepHashtagWords(s) == s by {
      KeepHashtagWordsDropsMarks(s);
      assert !HashMarkAt(s, 0) && !HashMarkAt(s[1..], 0) && !HashMarkAt(s[2..], 0);
      assert s[1..][1..] == s[2..] && s[2..][1..] == [];
    }
    assert ReduceRepeats(s) == s by {
      ReduceRepeatsNoTriple(s);
    }
    var l := Lower(s);
    assert l == "aaa";
    LettersUnchanged(l);
  }

  lemma CleanedLowerRun()
    ensures CleanedText(DefaultConfig, Some("aaa")) == "aa"
  {
    var u := "aaa";
    assert !IsBlank(u) by { assert !IsSpace(u[0]); }
    assert KeepHashtagWords(u) == u by {
      KeepHashtagWordsDropsMarks(u);
      assert !HashMarkAt(u, 0) && !HashMarkAt(u[1..], 0) && !HashMarkAt(u[2..], 0);
      assert u[1..][1..] == u[2..] && u[2..][1..] == [];
    }
    var v := ReduceRepeats(u);
    assert v == "aa" by {
      assert TripleAt(u, 0);
      assert CharRun(u) == 3 by {
        assert u[1..] == "aa" && u[2..] == "a";
      }
      assert u[3..] == [];
    }
    LowerOfLower(v);
    LettersUnchanged(v);
  }

  // ---------------------------------------------------------------------------
  // detect_language_heuristic

  datatype Lang = Unknown | En | Mixed | Other

  /** `sum(1 for c in text if ord(c) < 128)` */
  function AsciiCount(s: string): (n: nat)
    ensures n <= |s|
  {
    if s == [] then 0 else (if (s[0] as int) < 128 then 1 else 0) + AsciiCount(s[1..])
  }

  /** `detect_language_heuristic(text)` with exact ratios. */
  function DetectLanguage(text: Option<string>): Lang {
    match text
    case None => Unknown
    case Some(t) =>
      if |t| < 10 then Unknown
      else
        var ratio := AsciiCount(t) as real / |t| as real;
        if ratio > 0.9 then En
        else if ratio > 0.7 then Mixed
        else Other
  }

  /** `ascii/total > p/10` is `10 * ascii > p * total`. */
  lemma RatioAbove(a: nat, n: nat, p: int)
    requires 0 < n
    ensures a as real / n as real > p as real / 10.0 <==> 10 * a > p * n
  {
    var q := a as real / n as real;
    assert q * n as real == a as real;
    assert (10 * a) as real == 10.0 * a as real;
    assert (p * n) as real == p as real * n as real;
  }

  /** The verdict in integer terms: unknown below 10 characters, then more
      than 90% ASCII is English, more than 70% is mixed, the rest other. */
  lemma DetectLanguageCharacterised(text: Option<string>)
    ensures text.None? ==> DetectLanguage(text) == Unknown
    ensures text.Some? && |text.value| < 10 ==> DetectLanguage(text) == Unknown
    ensures text.Some? && |text.value| >= 10 ==>
      var a, n := AsciiCount(text.value), |text.value|;
      && (DetectLanguage(text) == En <==> 10 * a > 9 * n)
      && (DetectLanguage(text) == Mixed <==> 9 * n >= 10 * a > 7 * n)
      && (DetectLanguage(text) == Other <==> 7 * n >= 10 * a)
  {
    if text.Some? && |text.value| >= 10 {
      var a, n := AsciiCount(text.value), |text.value|;
      RatioAbove(a, n, 9);
      RatioAbove(a, n, 7);
      assert 9 as real / 10.0 == 0.9 && 7 as real / 10.0 == 0.7;
    }
  }

  /** How English-like a verdict is. */
  function Rank(l: Lang): nat {
    match l
    case Unknown => 0
    case Other => 1
    case Mixed => 2
    case En => 3
  }

  /** Among texts of the same length, more ASCII characters never give a
      less English-like verdict. */
  lemma DetectLanguageMonotone(s: string, t: string)
    requires |s| == |t| && AsciiCount(s) <= AsciiCount(t)
    ensures Rank(DetectLanguage(Some(s))) <= Rank(DetectLanguage(Some(t)))
  {
    DetectLanguageCharacterised(Some(s));
    DetectLanguageCharacterised(Some(t));
  }

  // ---------------------------------------------------------------------------
  // flatten_list_column's flatten_item

  /** A scalar cell value: a missing value (`None`, `NaN`), or a value given by
      its `str()` form. */
  datatype Scalar = NaN | Str(s: string)

  datatype CollKind = List | Tuple | Set

  /** An element of a collection cell: a scalar, or a collection of scalars. */
  datatype Item = Leaf(a: Scalar) | Nested(kind: CollKind, inner: seq<Scalar>)

  /** A cell: a scalar, or a list, tuple or set of items in iteration order. */
  datatype Cell = Atom(a: Scalar) | Coll(kind: CollKind, items: seq<Item>)

  /** The `str()` forms of the non-missing scalars, in order. */
  function Present(xs: seq<Scalar>): (r: seq<string>)
    ensures |r| <= |xs|
  {
    if xs == [] then [] else (if xs[0].Str? then [xs[0].s] else []) + Present(xs[1..])
  }

  /** The strings `flattened` collects from a collection's items. */
  function Parts(items: seq<Item>): seq<string> {
    if items == [] then []
    else
      ItemParts(items[0]) + Parts(items[1..])
  }

  /** `' '.join(parts)` */
  function JoinSpaces(parts: seq<string>): string {
    if parts == [] then []
    else if |parts| == 1 then parts[0]
    else parts[0] + " " + JoinSpaces(parts[1..])
  }

  /** What `flatten_item` is meant to return: "" for a missing value, the
      `str()` form of any other scalar, the items of a collection flattened
      one level with missing values dropped and joined by single spaces. */
  function Flattened(x: Cell): string {
    match x
    case Atom(NaN) => []
    case Atom(Str(s)) => s
    case Coll(_, items) => JoinSpaces(Parts(items))
  }

  /** The strings one item contributes. */
  function ItemParts(it: Item): seq<string> {
    match it
    case Leaf(x) => Present([x])
    case Nested(_, inner) => Present(inner)
  }

  lemma PartsStep(items: seq<Item>, k: nat)
    requires k < |items|
    ensures Parts(items[k..]) == ItemParts(items[k]) + Parts(items[k + 1..])
  {
    assert items[k..][1..] == items[k + 1..];
  }

  /** The loop that fills `flattened` with `append` and `extend`. */
  method FlattenItems(items: seq<Item>) returns (flattened: seq<string>)
    ensures flattened == Parts(items)
  {
    flattened := [];
    for k := 0 to |items|
      invariant flattened + Parts(items[k..]) == Parts(items)
    {
      PartsStep(items, k);
      var more := ItemStrings(items[k]);
      ConcatAssoc(flattened, more, Parts(items[k + 1..]));
      flattened := flattened + more;
    }
    assert items[|items|..] == [];
  }

  /** One pass of the loop body: `extend` for a nested collection, `append`
      for a present scalar. */
  method ItemStrings(it: Item) returns (more: seq<string>)
    ensures more == ItemParts(it)
  {
    match it {
      case Nested(_, inner) =>
        more := PresentStrings(inner);
      case Leaf(x) =>
        more := if x.Str? then [x.s] else [];
    }
  }

  /** `flattened.extend(str(i) for i in item if pd.notna(i))` */
  method PresentStrings(inner: seq<Scalar>) returns (more: seq<string>)
    ensures more == Present(inner)
  {
    more := [];
    for m := 0 to |inner|
      invariant more + Present(inner[m..]) == Present(inner)
    {
      assert inner[m..][1..] == inner[m + 1..];
      var next := if inner[m].Str? then [inner[m].s] else [];
      ConcatAssoc(more, next, Present(inner[m + 1..]));
      more := more + next;
    }
    assert inner[|inner|..] == [];
  }

  /** `flatten_item(x)` with the missing-value test applied to scalars only.
      This method, with its loop in `FlattenItems`, is the model of the code;
      `Flattened` is its specification, and the properties are proved about
      that function. */
  method FlattenItem(x: Cell) returns (r: string)
    ensures r == Flattened(x)
  {
    match x {
      case Atom(a) =>
        r := if a.NaN? then [] else a.s;
      case Coll(_, items) =>
        var flattened := FlattenItems(items);
        r := JoinSpaces(flattened);
    }
  }

  /** The truth value of `pd.isna(x)` in `if pd.isna(x):`, or `None` where
      evaluating it raises. For a list pandas tests each element and returns
      an array; an array of two or more elements has no truth value and
      raises `ValueError`. A list that holds collections is counted as
      raising, and an empty array as false. */
  function IsNaTruth(x: Cell): Option<bool> {
    match x
    case Atom(a) => Some(a.NaN?)
    case Coll(List, items) =>
      if |items| >= 2 || (exists k :: 0 <= k < |items| && items[k].Nested?) then None
      else if items == [] then Some(false)
      else Some(items[0] == Leaf(NaN))
    case Coll(_, _) => Some(false)
  }

  /** `flatten_item(x)` as written: `None` where `pd.isna(x)` raises. */
  method FlattenItemAsWritten(x: Cell) returns (r: Option<string>)
    ensures IsNaTruth(x).None? ==> r.None?
    ensures IsNaTruth(x) == Some(true) ==> r == Some([])
    ensures IsNaTruth(x) == Some(false) ==> r == Some(Flattened(x))
  {
    var na := IsNaTruth(x);
    if na.None? {
      return None;
    }
    if na.value {
      return Some([]);
    }
    var s := FlattenItem(x);
    r := Some(s);
  }

  /** Where the code as written returns, it agrees with the intended
      flattening. */
  lemma FlattenAsWrittenAgrees(x: Cell)
    requires IsNaTruth(x).Some?
    ensures (if IsNaTruth(x).value then [] else Flattened(x)) == Flattened(x)
  {
    if x.Coll? && IsNaTruth(x).value {
      assert x.items == [Leaf(NaN)];
      assert Parts(x.items) == [] by {
        assert x.items[1..] == [];
      }
    }
  }

  /** A list of two strings, the case the column flattening exists for,
      raises in the code as written; the intended result joins them. */
  lemma FlattenTwoStrings()
    ensures IsNaTruth(Coll(List, [Leaf(Str("a")), Leaf(Str("b"))])).None?
    ensures Flattened(Coll(List, [Leaf(Str("a")), Leaf(Str("b"))])) == "a b"
  {
    var items := [Leaf(Str("a")), Leaf(Str("b"))];
    assert items[1..][1..] == [];
    assert Parts(items[1..]) == ["b"];
    assert Parts(items) == ["a", "b"];
    assert JoinSpaces(["a", "b"]) == "a" + " " + "b";
  }

  /** Python's `s.split(' ')`. */
  function SplitSpaces(s: string): (r: seq<string>)
    ensures |r| >= 1
    decreases |s|
  {
    if ' ' !in s then [s]
    else
      var i := FirstSpace(s);
      [s[..i]] + SplitSpaces(s[i + 1..])
  }

  function FirstSpace(s: string): (i: nat)
    requires ' ' in s
    ensures i < |s| && s[i] == ' ' && ' ' !in s[..i]
  {
    if s[0] == ' ' then 0
    else
      assert ' ' in s[1..];
      var j := FirstSpace(s[1..]);
      assert s[..j + 1] == [s[0]] + s[1..][..j];
      j + 1
  }

  /** Joining words that hold no space and splitting on spaces gives the
      words back. */
  lemma {:induction false} SplitJoin(parts: seq<string>)
    requires parts != []
    requires forall k :: 0 <= k < |parts| ==> ' ' !in parts[k]
    ensures SplitSpaces(JoinSpaces(parts)) == parts
  {
    if |parts| > 1 {
      var w, j := parts[0], JoinSpaces(parts[1..]);
      var s := w + " " + j;
      assert s[|w|] == ' ';
      assert s[..|w|] == w;
      assert ' ' in s;
      assert FirstSpace(s) == |w|;
      assert s[|w| + 1..] == j;
      SplitJoin(parts[1..]);
    }
  }

  /** Flattening a collection of space-free strings can be undone by splitting
      on spaces. */
  lemma FlattenedSplits(kind: CollKind, words: seq<string>)
    requires words != []
    requires forall k :: 0 <= k < |words| ==> ' ' !in words[k]
    ensures SplitSpaces(Flattened(Coll(kind, seq(|words|, k requires 0 <= k < |words| => Leaf(Str(words[k])))))) == words
  {
    var items := seq(|words|, k requires 0 <= k < |words| => Leaf(Str(words[k])));
    PartsOfLeaves(words, items);
    SplitJoin(words);
  }

  lemma {:induction false} PartsOfLeaves(words: seq<string>, items: seq<Item>)
    requires |items| == |words|
    requires forall k :: 0 <= k < |words| ==> items[k] == Leaf(Str(words[k]))
    ensures Parts(items) == words
  {
    if words != [] {
      PartsOfLeaves(words[1..], items[1..]);
      assert Present([items[0].a]) == [words[0]];
    }
  }
}
