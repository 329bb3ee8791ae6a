/** The character classes and regular-expression substitutions that the
    tokenizers and cleaners are built from, modelled on ASCII text.

    Python's `\s`, `\w` and `\b` are Unicode-aware; on ASCII input they mean
    the classes below, which is the input this model covers. */
module TextScan {

  // ---------------------------------------------------------------------------
  // Character classes

  /** The ASCII characters matched by `\s` and removed by `str.strip()`. */
  predicate IsSpace(c: char) {
    c == ' ' || c == '\t' || c == '\n' || c == '\r' || c == '\U{000B}' || c == '\U{000C}'
    || c == '\U{001C}' || c == '\U{001D}' || c == '\U{001E}' || c == '\U{001F}'
  }

  predicate IsUpper(c: char) {
    'A' <= c <= 'Z'
  }

  /** `[a-zA-Z]` */
  predicate IsLetter(c: char) {
    'A' <= c <= 'Z' || 'a' <= c <= 'z'
  }

  /** The ASCII characters matched by `\w`. */
  predicate IsWordChar(c: char) {
    IsLetter(c) || '0' <= c <= '9' || c == '_'
  }

  predicate NoUpper(s: string) {
    forall i :: 0 <= i < |s| ==> !IsUpper(s[i])
  }

  predicate AllLetters(s: string) {
    forall i :: 0 <= i < |s| ==> IsLetter(s[i])
  }

  /** `not s.strip()` */
  predicate IsBlank(s: string) {
    forall i :: 0 <= i < |s| ==> IsSpace(s[i])
  }

  /** No two whitespace characters are adjacent. */
  predicate NoDoubleSpace(s: string) {
    forall i :: 0 <= i < |s| ==> !SpacePair(s, i)
  }

  /** Positions `i` and `i + 1` both hold whitespace. */
  predicate SpacePair(s: string, i: nat) {
    i + 1 < |s| && IsSpace(s[i]) && IsSpace(s[i + 1])
  }

  /** Neither end is whitespace. */
  predicate Trimmed(s: string) {
    s == [] || (!IsSpace(s[0]) && !IsSpace(s[|s| - 1]))
  }

  // ---------------------------------------------------------------------------
  // str.lower()

  function LowerChar(c: char): (d: char)
    ensures !IsUpper(d)
    ensures IsLetter(d) <==> IsLetter(c)
    ensures IsWordChar(d) <==> IsWordChar(c)
    ensures IsSpace(d) <==> IsSpace(c)
    ensures !IsUpper(c) ==> d == c
  {
    if IsUpper(c) then (c as int + 32) as char else c
  }

  /** `s.lower()` on ASCII text: every upper-case letter is replaced by its
      lower-case form, every other character kept in place. */
  function Lower(s: string): (r: string)
    ensures |r| == |s| && NoUpper(r)
    ensures forall i :: 0 <= i < |s| ==> r[i] == LowerChar(s[i])
  {
    seq(|s|, i requires 0 <= i < |s| => LowerChar(s[i]))
  }

  /** Lower-casing a text that has no upper-case letter changes nothing. */
  lemma {:induction false} LowerOfLower(s: string)
    requires NoUpper(s)
    ensures Lower(s) == s
  {
  }

  /** Lower-casing works character by character, so it splits at any point. */
  lemma LowerSplit(a: string, c: char, b: string)
    ensures Lower(a + [c] + b) == Lower(a) + [LowerChar(c)] + Lower(b)
  {
    var s := a + [c] + b;
    assert forall i :: 0 <= i < |a| ==> s[i] == a[i];
    assert s[|a|] == c;
    assert forall i :: |a| < i < |s| ==> s[i] == b[i - |a| - 1];
  }

  // ---------------------------------------------------------------------------
  // re.sub(r'\s+', ' ', s) and s.strip()

  /** The length of the leading run of whitespace. */
  function SpaceRun(s: string): (k: nat)
    ensures k <= |s|
    ensures forall i :: 0 <= i < k ==> IsSpace(s[i])
    ensures k < |s| ==> !IsSpace(s[k])
  {
    if s == [] || !IsSpace(s[0]) then 0 else 1 + SpaceRun(s[1..])
  }

  /** The length of the trailing run of whitespace. */
  function TrailRun(s: string): (k: nat)
    ensures k <= |s|
    ensures forall i :: |s| - k <= i < |s| ==> IsSpace(s[i])
    ensures k < |s| ==> !IsSpace(s[|s| - 1 - k])
  {
    if s == [] || !IsSpace(s[|s| - 1]) then 0 else 1 + TrailRun(s[..|s| - 1])
  }

  /** `re.sub(r'\s+', ' ', s)`: each maximal run of whitespace becomes one space. */
  function CollapseSpaces(s: string): (r: string)
    ensures |r| <= |s| && (r == [] <==> s == [])
    ensures s != [] && IsSpace(s[0]) ==> r[0] == ' '
    ensures s != [] && !IsSpace(s[0]) ==> r[0] == s[0]
    ensures NoDoubleSpace(r)
    ensures NoUpper(s) ==> NoUpper(r)
    ensures IsBlank(r) <==> IsBlank(s)
    decreases |s|
  {
    if s == [] then []
    else if IsSpace(s[0]) then
      var k := SpaceRun(s);
      var t := CollapseSpaces(s[k..]);
      assert k < |s| ==> s[k..][0] == s[k] && !IsSpace(s[k]);
      assert IsBlank(s) <==> IsBlank(s[k..]);
      assert NoUpper(s) ==> NoUpper(s[k..]);
      var r := [' '] + t;
      assert t != [] ==> r[1] == t[0] && !IsSpace(t[0]);
      NoDoubleSpaceCons(' ', t);
      assert IsBlank(r) <==> IsBlank(t);
      r
    else
      var t := CollapseSpaces(s[1..]);
      assert NoUpper(s) ==> NoUpper(s[1..]);
      NoDoubleSpaceCons(s[0], t);
      [s[0]] + t
  }

  /** Putting a character before a text adds only the pair at position 0. */
  lemma NoDoubleSpaceCons(c: char, t: string)
    requires NoDoubleSpace(t)
    requires t != [] && IsSpace(c) ==> !IsSpace(t[0])
    ensures NoDoubleSpace([c] + t)
  {
    var r := [c] + t;
    forall i | 0 <= i < |r| ensures !SpacePair(r, i) {
      if 0 < i { assert !SpacePair(t, i - 1); }
    }
  }

  /** Where `s.strip()` begins. */
  function StripStart(s: string): nat {
    SpaceRun(s)
  }

  /** Where `s.strip()` ends. */
  function StripEnd(s: string): (e: nat)
    ensures StripStart(s) <= e <= |s|
  {
    |s| - TrailRun(s[StripStart(s)..])
  }

  /** `s.strip()`: the text without leading and trailing whitespace. */
  function Strip(s: string): (r: string)
    ensures r == s[StripStart(s)..StripEnd(s)]
    ensures Trimmed(r)
    ensures r == [] <==> IsBlank(s)
  {
    var a := StripStart(s);
    var t := s[a..];
    assert a < |s| ==> !IsSpace(t[0]);
    var r := t[..|t| - TrailRun(t)];
    assert !IsBlank(s) ==> a < |s|;
    r
  }

  /** A slice of a text with no two adjacent whitespace characters has none either. */
  lemma {:induction false} NoDoubleSpaceSlice(s: string, a: nat, b: nat)
    requires a <= b <= |s|
    requires NoDoubleSpace(s)
    ensures NoDoubleSpace(s[a..b])
  {
    forall i | 0 <= i < b - a ensures !SpacePair(s[a..b], i) {
      if i + 1 < b - a {
        assert s[a..b][i] == s[a + i] && s[a..b][i + 1] == s[a + i + 1];
        assert !SpacePair(s, a + i);
      }
    }
  }

  /** Whitespace collapse followed by strip leaves a text that starts and ends
      with a non-whitespace character, has no two adjacent whitespace
      characters, and introduces no upper-case letter. */
  lemma {:induction false} StripCollapse(s: string)
    ensures Trimmed(Strip(CollapseSpaces(s)))
    ensures NoDoubleSpace(Strip(CollapseSpaces(s)))
    ensures NoUpper(s) ==> NoUpper(Strip(CollapseSpaces(s)))
    ensures Strip(CollapseSpaces(s)) == [] <==> IsBlank(s)
  {
    var c := CollapseSpaces(s);
    NoDoubleSpaceSlice(c, StripStart(c), StripEnd(c));
    if NoUpper(s) {
      var r := Strip(c);
      forall i | 0 <= i < |r| ensures !IsUpper(r[i]) {
        assert r[i] == c[StripStart(c) + i];
      }
    }
  }

  // ---------------------------------------------------------------------------
  // re.findall(r'\b[a-zA-Z]{m,}\b', s)

  /** The length of the leading run of word characters. */
  function WordRun(s: string): (k: nat)
    ensures k <= |s|
    ensures forall i :: 0 <= i < k ==> IsWordChar(s[i])
    ensures k < |s| ==> !IsWordChar(s[k])
  {
    if s == [] || !IsWordChar(s[0]) then 0 else 1 + WordRun(s[1..])
  }

  /** `re.findall(r'\b[a-zA-Z]{m,}\b', s)` with `m = minLen`: a match starts
      only where a run of word characters starts (that is where `\b` holds
      before a letter) and must reach the run's end (the closing `\b`), so the
      matches are exactly the maximal runs of word characters that consist of
      letters only and have at least `minLen` characters. */
  function WordTokens(s: string, minLen: nat): (r: seq<string>)
    ensures forall k :: 0 <= k < |r| ==> |r[k]| >= minLen && |r[k]| >= 1 && AllLetters(r[k])
    ensures NoUpper(s) ==> forall k :: 0 <= k < |r| ==> NoUpper(r[k])
    decreases |s|
  {
    if s == [] then []
    else if !IsWordChar(s[0]) then
      assert NoUpper(s) ==> NoUpper(s[1..]);
      WordTokens(s[1..], minLen)
    else
      var k := WordRun(s);
      var w := s[..k];
      assert NoUpper(s) ==> NoUpper(s[k..]) && NoUpper(w);
      (if AllLetters(w) && |w| >= minLen then [w] else []) + WordTokens(s[k..], minLen)
  }

  /** Completeness: a text made only of word characters is one maximal run,
      returned exactly when it is all letters and long enough. With
      `WordTokensSplit` this fixes the tokens of every text. */
  lemma WordTokensRun(w: string, m: nat)
    requires w != [] && forall i :: 0 <= i < |w| ==> IsWordChar(w[i])
    ensures WordTokens(w, m) == if AllLetters(w) && |w| >= m then [w] else []
  {
    assert WordRun(w) == |w|;
    assert w[..|w|] == w;
    assert w[|w|..] == [];
  }

  predicate NoWordChar(s: string) {
    forall i :: 0 <= i < |s| ==> !IsWordChar(s[i])
  }

  lemma {:induction false} WordRunAppend(a: string, t: string)
    requires WordRun(a) < |a| || t == [] || !IsWordChar(t[0])
    ensures WordRun(a + t) == WordRun(a)
  {
    if a == [] {
      assert a + t == t;
    } else if IsWordChar(a[0]) {
      assert (a + t)[1..] == a[1..] + t;
      WordRunAppend(a[1..], t);
    }
  }

  /** Characters that are not word characters in front of a text add no token. */
  lemma {:induction false} WordTokensDropPrefix(x: string, y: string, m: nat)
    requires NoWordChar(x)
    ensures WordTokens(x + y, m) == WordTokens(y, m)
  {
    if x == [] {
      assert x + y == y;
    } else {
      assert (x + y)[1..] == x[1..] + y;
      WordTokensDropPrefix(x[1..], y, m);
    }
  }

  /** A character that is not a word character separates tokens: the tokens
      of `a + [c] + b` are those of `a` followed by those of `b`. */
  lemma {:induction false} WordTokensSplit(a: string, c: char, b: string, m: nat)
    requires !IsWordChar(c)
    ensures WordTokens(a + [c] + b, m) == WordTokens(a, m) + WordTokens(b, m)
    decreases |a|
  {
    var s := a + [c] + b;
    if a == [] {
      assert s[1..] == b;
    } else if !IsWordChar(a[0]) {
      assert s[1..] == a[1..] + [c] + b;
      WordTokensSplit(a[1..], c, b, m);
    } else {
      var k := WordRun(a);
      assert WordRun(s) == k by {
        WordRunAppend(a, [c] + b);
        assert s == a + ([c] + b);
      }
      assert s[..k] == a[..k];
      assert s[k..] == a[k..] + [c] + b;
      var w := a[..k];
      var head := if AllLetters(w) && |w| >= m then [w] else [];
      assert WordTokens(s, m) == head + WordTokens(s[k..], m);
      assert WordTokens(a, m) == head + WordTokens(a[k..], m);
      WordTokensSplit(a[k..], c, b, m);
      ConcatAssoc(head, WordTokens(a[k..], m), WordTokens(b, m));
    }
  }

  /** Characters that are not word characters after a text add no token. */
  lemma {:induction false} WordTokensDropSuffix(y: string, x: string, m: nat)
    requires NoWordChar(x)
    ensures WordTokens(y + x, m) == WordTokens(y, m)
  {
    if x != [] {
      assert y + x == y + [x[0]] + x[1..];
      WordTokensSplit(y, x[0], x[1..], m);
      WordTokensDropPrefix(x[1..], [], m);
      assert x[1..] + [] == x[1..];
    } else {
      assert y + x == y;
    }
  }

  /** The length of the leading run of non-whitespace characters. */
  function NonSpaceRun(s: string): (k: nat)
    ensures k <= |s|
    ensures forall i :: 0 <= i < k ==> !IsSpace(s[i])
    ensures k < |s| ==> IsSpace(s[k])
  {
    if s == [] || IsSpace(s[0]) then 0 else 1 + NonSpaceRun(s[1..])
  }

  /** Unfolds `CollapseSpaces` at a first character that is not whitespace. */
  lemma CollapseSpacesNonSpaceHead(u: string)
    requires u != [] && !IsSpace(u[0])
    ensures CollapseSpaces(u) == [u[0]] + CollapseSpaces(u[1..])
  {
  }

  lemma {:induction false} CollapseNonSpacePrefix(a: string, t: string)
    requires forall i :: 0 <= i < |a| ==> !IsSpace(a[i])
    ensures CollapseSpaces(a + t) == a + CollapseSpaces(t)
  {
    if a == [] {
      assert a + t == t;
    } else {
      var u := a + t;
      calc {
        CollapseSpaces(u);
      == { assert u[0] == a[0]; assert u[1..] == a[1..] + t; CollapseSpacesNonSpaceHead(u); }
        [a[0]] + CollapseSpaces(a[1..] + t);
      == { CollapseNonSpacePrefix(a[1..], t); }
        [a[0]] + (a[1..] + CollapseSpaces(t));
      == { ConcatAssoc([a[0]], a[1..], CollapseSpaces(t)); assert a == [a[0]] + a[1..]; }
        a + CollapseSpaces(t);
      }
    }
  }

  /** Collapsing whitespace does not change the tokens of a text. */
  lemma {:induction false} WordTokensCollapse(s: string, m: nat)
    ensures WordTokens(CollapseSpaces(s), m) == WordTokens(s, m)
    decreases |s|
  {
    var p := NonSpaceRun(s);
    if p == |s| {
      assert s + [] == s;
      CollapseNonSpacePrefix(s, []);
    } else {
      var b := s[p + 1..];
      var b' := b[SpaceRun(b)..];
      calc {
        WordTokens(CollapseSpaces(s), m);
        { CollapseAtFirstSpace(s, p); }
        WordTokens(s[..p] + [' '] + CollapseSpaces(b'), m);
        { WordTokensCollapse(b', m);
          WordTokensAroundSpaces(s[..p], s[p], b, CollapseSpaces(b'), m); }
        WordTokens(s[..p] + [s[p]] + b, m);
        { assert s == s[..p] + [s[p]] + b; }
        WordTokens(s, m);
      }
    }
  }

  lemma {:induction false} CollapseAtFirstSpace(s: string, p: nat)
    requires p == NonSpaceRun(s) < |s|
    ensures CollapseSpaces(s) == s[..p] + [' '] + CollapseSpaces(s[p + 1..][SpaceRun(s[p + 1..])..])
  {
    var a, c, b := s[..p], s[p], s[p + 1..];
    var x := CollapseSpaces(b[SpaceRun(b)..]);
    assert s == a + ([c] + b) by { SplitAt(s, p); }
    assert CollapseSpaces([c] + b) == [' '] + x by { CollapseAtSpace(c, b); }
    assert CollapseSpaces(s) == a + CollapseSpaces([c] + b) by {
      assert forall i :: 0 <= i < |a| ==> a[i] == s[i];
      CollapseNonSpacePrefix(a, [c] + b);
    }
    ConcatAssoc(a, [' '], x);
  }

  lemma SplitAt<T>(s: seq<T>, p: nat)
    requires p < |s|
    ensures s == s[..p] + ([s[p]] + s[p + 1..])
  {
  }

  lemma ConcatAssoc<T>(a: seq<T>, b: seq<T>, c: seq<T>)
    ensures a + (b + c) == a + b + c
  {
  }

  /** Replacing a whitespace character and the whitespace run after it by a
      single space, and the rest by text with the same tokens, keeps the tokens. */
  lemma {:induction false} WordTokensAroundSpaces(a: string, c: char, b: string, cb: string, m: nat)
    requires IsSpace(c)
    requires WordTokens(cb, m) == WordTokens(b[SpaceRun(b)..], m)
    ensures WordTokens(a + [' '] + cb, m) == WordTokens(a + [c] + b, m)
  {
    var k := SpaceRun(b);
    var b' := b[k..];
    calc {
      WordTokens(a + [' '] + cb, m);
      { WordTokensSplit(a, ' ', cb, m); }
      WordTokens(a, m) + WordTokens(cb, m);
      WordTokens(a, m) + WordTokens(b', m);
      { assert b == b[..k] + b';
        SpacesHaveNoWordChar(b[..k]);
        WordTokensDropPrefix(b[..k], b', m); }
      WordTokens(a, m) + WordTokens(b, m);
      { SpaceIsNotWordChar(c);
        WordTokensSplit(a, c, b, m); }
      WordTokens(a + [c] + b, m);
    }
  }

  lemma {:induction false} CollapseAtSpace(c: char, b: string)
    requires IsSpace(c)
    ensures CollapseSpaces([c] + b) == [' '] + CollapseSpaces(b[SpaceRun(b)..])
  {
    assert ([c] + b)[1..] == b;
    assert SpaceRun([c] + b) == 1 + SpaceRun(b);
    assert ([c] + b)[1 + SpaceRun(b)..] == b[SpaceRun(b)..];
  }

  /** Stripping does not change the tokens of a text. */
  lemma {:induction false} WordTokensStrip(s: string, m: nat)
    ensures WordTokens(Strip(s), m) == WordTokens(s, m)
  {
    var a, e := StripStart(s), StripEnd(s);
    var x, y, z := s[..a], s[a..e], s[e..];
    StripCutsSpaces(s);
    calc {
      WordTokens(s, m);
      { assert s == x + (y + z); }
      WordTokens(x + (y + z), m);
      { WordTokensDropPrefix(x, y + z, m); }
      WordTokens(y + z, m);
      { WordTokensDropSuffix(y, z, m); }
      WordTokens(y, m);
    }
  }

  /** What `s.strip()` cuts off at either end is whitespace. */
  lemma {:induction false} StripCutsSpaces(s: string)
    ensures NoWordChar(s[..StripStart(s)]) && NoWordChar(s[StripEnd(s)..])
  {
    var a := StripStart(s);
    var t := s[a..];
    assert s[StripEnd(s)..] == t[|t| - TrailRun(t)..];
    SpacesHaveNoWordChar(s[..a]);
    SpacesHaveNoWordChar(s[StripEnd(s)..]);
  }

  lemma {:induction false} SpaceIsNotWordChar(c: char)
    requires IsSpace(c)
    ensures !IsWordChar(c)
  {
  }

  lemma {:induction false} SpacesHaveNoWordChar(x: string)
    requires IsBlank(x)
    ensures NoWordChar(x)
  {
    forall i | 0 <= i < |x| ensures !IsWordChar(x[i]) { SpaceIsNotWordChar(x[i]); }
  }

  // ---------------------------------------------------------------------------
  // re.sub(r'#(\w+)', r'\1', s) and re.sub(r'#\w+', ' ', s)

  /** A `#` directly followed by a word character starts a hashtag match at `i`. */
  predicate HashMarkAt(s: string, i: nat) {
    i + 1 < |s| && s[i] == '#' && IsWordChar(s[i + 1])
  }

  /** `re.sub(r'#(\w+)', r'\1', s)`, scanning as the regex engine does: at a
      `#` followed by word characters the whole run of word characters is
      matched and replaced by itself without the `#`; the scan resumes after
      the run. */
  function KeepHashtagWords(s: string): (r: string)
    decreases |s|
  {
    if s == [] then []
    else if HashMarkAt(s, 0) then
      var k := WordRun(s[1..]);
      s[1..1 + k] + KeepHashtagWords(s[1 + k..])
    else [s[0]] + KeepHashtagWords(s[1..])
  }

  /** Reference definition: keep every character except each `#` that is
      directly followed by a word character. */
  function DropHashMarks(s: string): (r: string)
    ensures |r| <= |s|
  {
    if s == [] then [] else (if HashMarkAt(s, 0) then [] else [s[0]]) + DropHashMarks(s[1..])
  }

  /** Unfolds `DropHashMarks` at a first character that is kept. */
  lemma DropHashMarksHead(t: string)
    requires t != [] && !HashMarkAt(t, 0)
    ensures DropHashMarks(t) == [t[0]] + DropHashMarks(t[1..])
  {
  }

  lemma {:induction false} DropHashMarksWordPrefix(t: string, k: nat)
    requires k <= |t|
    requires forall i :: 0 <= i < k ==> IsWordChar(t[i])
    ensures DropHashMarks(t) == t[..k] + DropHashMarks(t[k..])
  {
    if k > 0 {
      var w, r := t[1..][..k - 1], t[1..][k - 1..];
      calc {
        DropHashMarks(t);
      == { DropHashMarksHead(t); }
        [t[0]] + DropHashMarks(t[1..]);
      == { DropHashMarksWordPrefix(t[1..], k - 1); }
        [t[0]] + (w + DropHashMarks(r));
      == { ConcatAssoc([t[0]], w, DropHashMarks(r)); }
        [t[0]] + w + DropHashMarks(r);
      == { assert r == t[k..]; assert [t[0]] + w == t[..k]; }
        t[..k] + DropHashMarks(t[k..]);
      }
    }
  }

  /** The regex scan deletes exactly the `#` of every `#` that is directly
      followed by a word character and keeps every other character, the words
      after the deleted `#`s included. */
  lemma {:induction false} KeepHashtagWordsDropsMarks(s: string)
    ensures KeepHashtagWords(s) == DropHashMarks(s)
    decreases |s|
  {
    if s != [] {
      if HashMarkAt(s, 0) {
        var k := WordRun(s[1..]);
        DropHashMarksWordPrefix(s[1..], k);
        assert s[1..][..k] == s[1..1 + k];
        assert s[1..][k..] == s[1 + k..];
        KeepHashtagWordsDropsMarks(s[1 + k..]);
      } else {
        KeepHashtagWordsDropsMarks(s[1..]);
      }
    }
  }

  /** The substitution does not rescan its output: `##tag` becomes `#tag`. */
  lemma {:induction false} KeepHashtagWordsNotRescanned()
    ensures KeepHashtagWords("##tag") == "#tag"
  {
    KeepHashtagWordsDropsMarks("##tag");
    assert HashMarkAt("##tag", 1) && !HashMarkAt("##tag", 0);
    assert "##tag"[1..] == "#tag";
    assert "#tag"[1..] == "tag";
    assert DropHashMarks("tag") == "tag" by {
      DropHashMarksWordPrefix("tag", 3);
      assert "tag"[3..] == [];
    }
  }

  /** `re.sub(r'#\w+', ' ', s)`: every `#` with the run of word characters
      after it becomes one space. */
  function RemoveHashtags(s: string): (r: string)
    ensures s == [] <==> r == []
    ensures s != [] && HashMarkAt(s, 0) ==> r[0] == ' '
    ensures s != [] && !HashMarkAt(s, 0) ==> r[0] == s[0]
    ensures forall i :: 0 <= i < |r| ==> !HashMarkAt(r, i)
    decreases |s|
  {
    if s == [] then []
    else if HashMarkAt(s, 0) then
      var k := WordRun(s[1..]);
      var t := RemoveHashtags(s[1 + k..]);
      var r := [' '] + t;
      assert forall i :: 1 <= i < |r| ==> (HashMarkAt(r, i) <==> HashMarkAt(t, i - 1));
      r
    else
      var t := RemoveHashtags(s[1..]);
      assert |s| > 1 ==> t[0] == ' ' || t[0] == s[1];
      var r := [s[0]] + t;
      assert forall i :: 1 <= i < |r| ==> (HashMarkAt(r, i) <==> HashMarkAt(t, i - 1));
      r
  }

  /** Unfolds `RemoveHashtags` at a `#` followed by a word character. */
  lemma RemoveHashtagsAtMark(s: string)
    requires HashMarkAt(s, 0)
    ensures RemoveHashtags(s) == [' '] + RemoveHashtags(s[1 + WordRun(s[1..])..])
  {
  }

  /** Unfolds `RemoveHashtags` at any other first character. */
  lemma RemoveHashtagsAtOther(s: string)
    requires s != [] && !HashMarkAt(s, 0)
    ensures RemoveHashtags(s) == [s[0]] + RemoveHashtags(s[1..])
  {
  }

  /** The word run of `w + t` is `w` when `w` is all word characters and `t`
      does not continue it. */
  lemma WordRunIs(w: string, t: string)
    requires forall i :: 0 <= i < |w| ==> IsWordChar(w[i])
    requires t == [] || !IsWordChar(t[0])
    ensures WordRun(w + t) == |w|
  {
    assert forall i :: 0 <= i < |w| ==> (w + t)[i] == w[i];
    assert |w| < |w + t| ==> (w + t)[|w|] == t[0];
  }

  /** Characters other than `#` are kept as they are. */
  lemma {:induction false} RemoveHashtagsPlain(a: string, t: string)
    requires forall i :: 0 <= i < |a| ==> a[i] != '#'
    ensures RemoveHashtags(a + t) == a + RemoveHashtags(t)
  {
    if a == [] {
      assert a + t == t;
    } else {
      calc {
        RemoveHashtags(a + t);
      == { assert (a + t)[0] == a[0]; RemoveHashtagsAtOther(a + t); SuffixOfConcat(a, t, 1); }
        [a[0]] + RemoveHashtags(a[1..] + t);
      == { RemoveHashtagsPlain(a[1..], t); }
        [a[0]] + (a[1..] + RemoveHashtags(t));
      == { ConcatAssoc([a[0]], a[1..], RemoveHashtags(t)); assert a == [a[0]] + a[1..]; }
        a + RemoveHashtags(t);
      }
    }
  }

  /** A `#` with its whole run `w` of word characters becomes one space. */
  lemma RemoveHashtagsTag(w: string, t: string)
    requires w != [] && forall i :: 0 <= i < |w| ==> IsWordChar(w[i])
    requires t == [] || !IsWordChar(t[0])
    ensures RemoveHashtags(['#'] + w + t) == [' '] + RemoveHashtags(t)
  {
    var s := ['#'] + w + t;
    calc {
      RemoveHashtags(s);
    == { HashtagAfterMark(w, t); RemoveHashtagsAtMark(s); }
      [' '] + RemoveHashtags(s[1 + WordRun(s[1..])..]);
    == { HashtagAfterMark(w, t); }
      [' '] + RemoveHashtags(t);
    }
  }

  /** `#` + `w` + `t` starts with a hashtag, and what follows its word run
      is `t`. */
  lemma HashtagAfterMark(w: string, t: string)
    requires w != [] && forall i :: 0 <= i < |w| ==> IsWordChar(w[i])
    requires t == [] || !IsWordChar(t[0])
    ensures HashMarkAt(['#'] + w + t, 0)
    ensures (['#'] + w + t)[1 + WordRun((['#'] + w + t)[1..])..] == t
  {
    var s := ['#'] + w + t;
    assert s[1] == w[0];
    assert s[1..] == w + t;
    WordRunIs(w, t);
    assert s[1 + |w|..] == t;
  }

  /** A `#` not followed by a word character is kept. */
  lemma RemoveHashtagsLoneMark(t: string)
    requires t == [] || !IsWordChar(t[0])
    ensures RemoveHashtags(['#'] + t) == ['#'] + RemoveHashtags(t)
  {
    assert !HashMarkAt(['#'] + t, 0);
    RemoveHashtagsAtOther(['#'] + t);
    assert (['#'] + t)[1..] == t;
  }

  /** The substitution works hashtag by hashtag: text without `#` is kept,
      and a `#` with its whole run of word characters becomes one space. */
  lemma RemoveHashtagsStep(a: string, w: string, t: string)
    requires forall i :: 0 <= i < |a| ==> a[i] != '#'
    requires w != [] && forall i :: 0 <= i < |w| ==> IsWordChar(w[i])
    requires t == [] || !IsWordChar(t[0])
    ensures RemoveHashtags(a + ['#'] + w + t) == a + [' '] + RemoveHashtags(t)
  {
    var h := ['#'] + w + t;
    calc {
      RemoveHashtags(a + ['#'] + w + t);
    == { assert a + ['#'] + w + t == a + h; }
      RemoveHashtags(a + h);
    == { RemoveHashtagsPlain(a, h); }
      a + RemoveHashtags(h);
    == { RemoveHashtagsTag(w, t); }
      a + ([' '] + RemoveHashtags(t));
    == { ConcatAssoc(a, [' '], RemoveHashtags(t)); }
      a + [' '] + RemoveHashtags(t);
    }
  }


  // ---------------------------------------------------------------------------
  // re.sub(r'<[^>]+>', ' ', s)

  /** The length of the leading run of characters other than `>`. */
  function OpenRun(s: string): (k: nat)
    ensures k <= |s|
    ensures forall i :: 0 <= i < k ==> s[i] != '>'
    ensures k < |s| ==> s[k] == '>'
  {
    if s == [] || s[0] == '>' then 0 else 1 + OpenRun(s[1..])
  }

  /** `<[^>]+>` matches at the start of `s`: a `<`, one or more characters
      other than `>`, and the first `>` after them. */
  predicate TagAt(s: string) {
    |s| >= 2 && s[0] == '<' && s[1] != '>' && OpenRun(s[1..]) < |s| - 1
  }

  /** `re.sub(r'<[^>]+>', ' ', s)`: every tag, from its `<` to the first `>`
      after it, becomes one space, and the scan resumes after the `>`. */
  function RemoveTags(s: string): (r: string)
    ensures |r| <= |s| && (r == [] <==> s == [])
    decreases |s|
  {
    if s == [] then []
    else if TagAt(s) then [' '] + RemoveTags(s[2 + OpenRun(s[1..])..])
    else [s[0]] + RemoveTags(s[1..])
  }

  /** Unfolds `RemoveTags` at a tag. */
  lemma RemoveTagsAtTag(s: string)
    requires TagAt(s)
    ensures RemoveTags(s) == [' '] + RemoveTags(s[2 + OpenRun(s[1..])..])
  {
  }

  /** Unfolds `RemoveTags` at any other first character. */
  lemma RemoveTagsAtOther(s: string)
    requires s != [] && !TagAt(s)
    ensures RemoveTags(s) == [s[0]] + RemoveTags(s[1..])
  {
  }

  /** The run of non-`>` characters of `b + t` is `b` when `t` is empty or
      starts with `>`. */
  lemma OpenRunIs(b: string, t: string)
    requires forall i :: 0 <= i < |b| ==> b[i] != '>'
    requires t == [] || t[0] == '>'
    ensures OpenRun(b + t) == |b|
  {
    assert forall i :: 0 <= i < |b| ==> (b + t)[i] == b[i];
    assert |b| < |b + t| ==> (b + t)[|b|] == t[0];
  }

  /** Characters other than `<` are kept as they are. */
  lemma {:induction false} RemoveTagsPlain(a: string, t: string)
    requires forall i :: 0 <= i < |a| ==> a[i] != '<'
    ensures RemoveTags(a + t) == a + RemoveTags(t)
  {
    if a == [] {
      assert a + t == t;
    } else {
      calc {
        RemoveTags(a + t);
      == { assert (a + t)[0] == a[0]; RemoveTagsAtOther(a + t); SuffixOfConcat(a, t, 1); }
        [a[0]] + RemoveTags(a[1..] + t);
      == { RemoveTagsPlain(a[1..], t); }
        [a[0]] + (a[1..] + RemoveTags(t));
      == { ConcatAssoc([a[0]], a[1..], RemoveTags(t)); assert a == [a[0]] + a[1..]; }
        a + RemoveTags(t);
      }
    }
  }

  /** A text without `>` holds no tag and is kept as it is. */
  lemma {:induction false} RemoveTagsUnclosed(s: string)
    requires forall i :: 0 <= i < |s| ==> s[i] != '>'
    ensures RemoveTags(s) == s
    decreases |s|
  {
    if s != [] {
      RemoveTagsAtOther(s);
      RemoveTagsUnclosed(s[1..]);
      assert s == [s[0]] + s[1..];
    }
  }

  /** A tag, `<` with one or more characters other than `>` and the `>` that
      closes them, becomes one space. */
  lemma RemoveTagsTag(b: string, t: string)
    requires b != [] && forall i :: 0 <= i < |b| ==> b[i] != '>'
    ensures RemoveTags(['<'] + b + ['>'] + t) == [' '] + RemoveTags(t)
  {
    var s := ['<'] + b + ['>'] + t;
    calc {
      RemoveTags(s);
    == { assert s[1..] == b + (['>'] + t); OpenRunIs(b, ['>'] + t);
         assert s[1] == b[0]; RemoveTagsAtTag(s); }
      [' '] + RemoveTags(s[2 + |b|..]);
    == { assert s[2 + |b|..] == t; }
      [' '] + RemoveTags(t);
    }
  }

  /** `<>` is no tag: both characters are kept. */
  lemma RemoveTagsEmptyBrackets(t: string)
    ensures RemoveTags(['<', '>'] + t) == ['<', '>'] + RemoveTags(t)
  {
    var s := ['<', '>'] + t;
    calc {
      RemoveTags(s);
    == { RemoveTagsAtOther(s); }
      ['<'] + RemoveTags(s[1..]);
    == { assert s[1..] == ['>'] + t; RemoveTagsAtOther(['>'] + t); assert (['>'] + t)[1..] == t; }
      ['<'] + (['>'] + RemoveTags(t));
    == { ConcatAssoc(['<'], ['>'], RemoveTags(t)); }
      ['<', '>'] + RemoveTags(t);
    }
  }

  // ---------------------------------------------------------------------------
  // re.sub(r'http[s]?://\S+|www\.\S+', ' ', s)

  /** `http[s]?://\S+|www\.\S+` matches at the start of `s`: one of the three
      prefixes, case-sensitive, followed by a character that is not
      whitespace. */
  predicate UrlAt(s: string) {
    (|s| > 7 && s[..7] == "http://" && !IsSpace(s[7]))
    || (|s| > 8 && s[..8] == "https://" && !IsSpace(s[8]))
    || (|s| > 4 && s[..4] == "www." && !IsSpace(s[4]))
  }

  /** `re.sub(r'http[s]?://\S+|www\.\S+', ' ', s)`. The prefixes hold no
      whitespace and `\S+` is greedy, so a match runs from its first character
      to the end of the run of non-whitespace there; it becomes one space. */
  function RemoveUrls(s: string): (r: string)
    ensures |r| <= |s| && (r == [] <==> s == [])
    decreases |s|
  {
    if s == [] then []
    else if UrlAt(s) then [' '] + RemoveUrls(s[1 + NonSpaceRun(s[1..])..])
    else [s[0]] + RemoveUrls(s[1..])
  }

  lemma RemoveUrlsAtUrl(s: string)
    requires UrlAt(s)
    ensures RemoveUrls(s) == [' '] + RemoveUrls(s[1 + NonSpaceRun(s[1..])..])
  {
  }

  lemma RemoveUrlsAtOther(s: string)
    requires s != [] && !UrlAt(s)
    ensures RemoveUrls(s) == [s[0]] + RemoveUrls(s[1..])
  {
  }

  /** A match at the start of `u` is still one when text follows. */
  lemma UrlAtPrefix(u: string, t: string)
    requires UrlAt(u)
    ensures UrlAt(u + t)
  {
    var s := u + t;
    assert forall n :: 0 <= n <= |u| ==> s[..n] == u[..n];
    assert forall i :: 0 <= i < |u| ==> s[i] == u[i];
  }

  /** The run of non-whitespace of `b + t` is `b` when `t` is empty or starts
      with whitespace. */
  lemma NonSpaceRunIs(b: string, t: string)
    requires forall i :: 0 <= i < |b| ==> !IsSpace(b[i])
    requires t == [] || IsSpace(t[0])
    ensures NonSpaceRun(b + t) == |b|
  {
    assert forall i :: 0 <= i < |b| ==> (b + t)[i] == b[i];
    assert |b| < |b + t| ==> (b + t)[|b|] == t[0];
  }

  /** A URL with the whole run of non-whitespace after it becomes one space. */
  lemma RemoveUrlsUrl(u: string, t: string)
    requires UrlAt(u) && forall i :: 0 <= i < |u| ==> !IsSpace(u[i])
    requires t == [] || IsSpace(t[0])
    ensures RemoveUrls(u + t) == [' '] + RemoveUrls(t)
  {
    var s := u + t;
    calc {
      RemoveUrls(s);
    == { UrlAtPrefix(u, t); RemoveUrlsAtUrl(s); }
      [' '] + RemoveUrls(s[1 + NonSpaceRun(s[1..])..]);
    == { NonSpaceRunAfterHead(u, t); }
      [' '] + RemoveUrls(t);
    }
  }

  /** What follows the first character of `u + t` and its run of
      non-whitespace is `t`. */
  lemma NonSpaceRunAfterHead(u: string, t: string)
    requires u != [] && forall i :: 0 <= i < |u| ==> !IsSpace(u[i])
    requires t == [] || IsSpace(t[0])
    ensures (u + t)[1 + NonSpaceRun((u + t)[1..])..] == t
  {
    var s := u + t;
    assert s[1..] == u[1..] + t;
    NonSpaceRunIs(u[1..], t);
    assert s[|u|..] == t;
  }

  /** A prefix `a` in which no match starts is kept as it is. */
  lemma {:induction false} RemoveUrlsKept(a: string, t: string)
    requires forall i :: 0 <= i < |a| ==> !UrlAt((a + t)[i..])
    ensures RemoveUrls(a + t) == a + RemoveUrls(t)
    decreases |a|
  {
    if a == [] {
      assert a + t == t;
    } else {
      var s := a + t;
      assert s[0..] == s;
      forall i | 0 <= i < |a[1..]|
        ensures !UrlAt((a[1..] + t)[i..])
      {
        assert (a[1..] + t)[i..] == s[i + 1..];
      }
      calc {
        RemoveUrls(s);
      == { assert s[0] == a[0]; RemoveUrlsAtOther(s); SuffixOfConcat(a, t, 1); }
        [a[0]] + RemoveUrls(a[1..] + t);
      == { RemoveUrlsKept(a[1..], t); }
        [a[0]] + (a[1..] + RemoveUrls(t));
      == { ConcatAssoc([a[0]], a[1..], RemoveUrls(t)); assert a == [a[0]] + a[1..]; }
        a + RemoveUrls(t);
      }
    }
  }

  /** A text in which no match starts is kept as it is. */
  lemma RemoveUrlsNone(s: string)
    requires forall i :: 0 <= i < |s| ==> !UrlAt(s[i..])
    ensures RemoveUrls(s) == s
  {
    assert s + [] == s;
    RemoveUrlsKept(s, []);
  }

  /** `m` occurs in `s` at index `i`. */
  predicate OccursAt(s: string, i: nat, m: string) {
    i + |m| <= |s| && s[i..i + |m|] == m
  }

  /** No `<`, no `://` and no `www.` anywhere in `s`. */
  predicate NoMarkup(s: string) {
    (forall i :: 0 <= i < |s| ==> s[i] != '<')
    && (forall i :: 0 <= i < |s| ==> !OccursAt(s, i, "://"))
    && (forall i :: 0 <= i < |s| ==> !OccursAt(s, i, "www."))
  }

  /** A text without `<`, `:` and `.` holds no markup. */
  lemma NoMarkupChars(s: string)
    requires forall i :: 0 <= i < |s| ==> s[i] != '<' && s[i] != ':' && s[i] != '.'
    ensures NoMarkup(s)
  {
    forall i | 0 <= i < |s|
      ensures !OccursAt(s, i, "://") && !OccursAt(s, i, "www.")
    {
      assert i + 3 <= |s| ==> s[i..i + 3][0] == s[i];
      assert i + 4 <= |s| ==> s[i..i + 4][3] == s[i + 3];
    }
  }

  /** Neither substitution changes a text without markup. */
  lemma NoMarkupKept(s: string)
    requires NoMarkup(s)
    ensures RemoveTags(s) == s && RemoveUrls(s) == s
  {
    assert s + [] == s;
    RemoveTagsPlain(s, []);
    forall i | 0 <= i < |s|
      ensures !UrlAt(s[i..])
    {
      NoMarkupNoUrlAt(s, i);
    }
    RemoveUrlsNone(s);
  }

  lemma NoMarkupNoUrlAt(s: string, i: nat)
    requires NoMarkup(s) && i < |s|
    ensures !UrlAt(s[i..])
  {
    var u := s[i..];
    if |u| > 7 {
      assert u[..7][4..] == s[i + 4..i + 7];
      assert !OccursAt(s, i + 4, "://");
      assert "http://"[4..] == "://";
    }
    if |u| > 8 {
      assert u[..8][5..] == s[i + 5..i + 8];
      assert !OccursAt(s, i + 5, "://");
      assert "https://"[5..] == "://";
    }
    if |u| > 4 {
      assert u[..4] == s[i..i + 4];
      assert !OccursAt(s, i, "www.");
    }
  }

  // ---------------------------------------------------------------------------
  // re.sub(r'(.)\1{2,}', r'\1\1', s)

  /** The length of the leading run of copies of `s[0]`. */
  function CharRun(s: string): (k: nat)
    requires s != []
    ensures 1 <= k <= |s|
    ensures forall i :: 0 <= i < k ==> s[i] == s[0]
    ensures k < |s| ==> s[k] != s[0]
  {
    if |s| == 1 || s[1] != s[0] then 1 else 1 + CharRun(s[1..])
  }

  /** `(.)\1{2,}` matches at the start: three copies of a character other
      than a newline (`.` does not match a newline). */
  predicate TripleAt(s: string, i: nat) {
    i + 2 < |s| && s[i] != '\n' && s[i + 1] == s[i] && s[i + 2] == s[i]
  }

  /** No character other than a newline occurs three or more times in a row. */
  predicate NoTriple(s: string) {
    forall i :: 0 <= i < |s| ==> !TripleAt(s, i)
  }

  /** `re.sub(r'(.)\1{2,}', r'\1\1', s)`: each maximal run of three or more
      copies of a character other than a newline becomes two copies. */
  function ReduceRepeats(s: string): (r: string)
    ensures |r| <= |s|
    ensures forall i :: 0 <= i < 2 && i < |s| ==> i < |r| && r[i] == s[i]
    ensures NoTriple(r)
    decreases |s|
  {
    if s == [] then []
    else if TripleAt(s, 0) then
      var k := CharRun(s);
      var t := ReduceRepeats(s[k..]);
      var r := [s[0], s[0]] + t;
      assert t != [] ==> t[0] == s[k] && s[k] != s[0];
      assert forall i :: 2 <= i < |r| ==> (TripleAt(r, i) <==> TripleAt(t, i - 2));
      r
    else
      var t := ReduceRepeats(s[1..]);
      var r := [s[0]] + t;
      assert !TripleAt(r, 0) by {
        if |r| > 2 { assert r[1] == s[1]; assert |s| > 2 ==> r[2] == s[2]; }
      }
      assert forall i :: 1 <= i < |r| ==> (TripleAt(r, i) <==> TripleAt(t, i - 1));
      r
  }

  /** A text without a run of three leaves the reduction unchanged. */
  lemma {:induction false} ReduceRepeatsNoTriple(s: string)
    requires NoTriple(s)
    ensures ReduceRepeats(s) == s
  {
    if s != [] {
      assert !TripleAt(s, 0);
      assert NoTriple(s[1..]) by {
        forall i | 0 <= i < |s[1..]| ensures !TripleAt(s[1..], i) { assert !TripleAt(s, i + 1); }
      }
      ReduceRepeatsNoTriple(s[1..]);
    }
  }

  /** `k` copies of `c`. */
  function Repeat(c: char, k: nat): (r: string)
    ensures |r| == k
    ensures forall i :: 0 <= i < k ==> r[i] == c
  {
    if k == 0 then [] else [c] + Repeat(c, k - 1)
  }

  /** A run of length exactly `k` at the start is what `CharRun` finds. */
  lemma CharRunIs(s: string, k: nat)
    requires 1 <= k <= |s|
    requires forall i :: 0 <= i < k ==> s[i] == s[0]
    requires k < |s| ==> s[k] != s[0]
    ensures CharRun(s) == k
  {

  }

  lemma ReduceAtTriple(s: string)
    requires TripleAt(s, 0)
    ensures ReduceRepeats(s) == [s[0], s[0]] + ReduceRepeats(s[CharRun(s)..])
  {
  }

  lemma ReduceAtSingle(s: string)
    requires s != [] && !TripleAt(s, 0)
    ensures ReduceRepeats(s) == [s[0]] + ReduceRepeats(s[1..])
  {
  }

  /** The reduction works run by run: a maximal run of `k` copies of `c`
      becomes two copies when `k >= 3` and `c` is not a newline, and is kept
      as it is otherwise, and the rest of the text is reduced on its own. */
  lemma {:induction false} ReduceRepeatsRun(c: char, k: nat, t: string)
    requires 1 <= k
    requires t == [] || t[0] != c
    ensures ReduceRepeats(Repeat(c, k) + t)
         == Repeat(c, if c != '\n' && k >= 3 then 2 else k) + ReduceRepeats(t)
    decreases k
  {
    var s := Repeat(c, k) + t;
    if c != '\n' && k >= 3 {
      assert TripleAt(s, 0);
      CharRunIs(s, k);
      ReduceAtTriple(s);
      assert s[k..] == t;
      assert Repeat(c, 2) == [c, c] by {
        assert Repeat(c, 2) == [c] + Repeat(c, 1);
        assert Repeat(c, 1) == [c] + Repeat(c, 0);
      }
    } else {
      assert !TripleAt(s, 0) by {
        if c != '\n' && 2 < |s| && s[1] == c { assert k == 2 && s[2] == t[0]; }
      }
      ReduceAtSingle(s);
      if k == 1 {
        assert s[1..] == t;
        assert Repeat(c, 1) == [c] + Repeat(c, 0);
      } else {
        assert s[1..] == Repeat(c, k - 1) + t;
        ReduceRepeatsRun(c, k - 1, t);
        ConcatAssoc([c], Repeat(c, k - 1), ReduceRepeats(t));
      }
    }
  }

  /** A leading run of three in `a + b` lies inside `a` when `a` ends with a
      character other than the one `b` starts with. */
  lemma RunWithinPrefix(a: string, b: string)
    requires a != [] && (b == [] || a[|a| - 1] != b[0])
    requires TripleAt(a + b, 0)
    ensures CharRun(a + b) <= |a|
    ensures TripleAt(a, 0) && CharRun(a) == CharRun(a + b)
    ensures (a + b)[CharRun(a)..] == a[CharRun(a)..] + b
  {
    var s := a + b;
    var r := CharRun(a);
    assert CharRun(s) == r by {
      assert forall i :: 0 <= i < r ==> s[i] == s[0] by {
        forall i | 0 <= i < r ensures s[i] == s[0] { assert s[i] == a[i]; }
      }
      assert r < |s| ==> s[r] != s[0] by {
        if r == |a| {
          assert a[|a| - 1] == a[0];
          assert b != [] ==> s[r] == b[0];
        } else {
          assert s[r] == a[r];
        }
      }
      CharRunIs(s, r);
    }
    assert TripleAt(a, 0) by {
      assert 2 < r <= |a|;
      assert a[1] == s[1] && a[2] == s[2];
    }
    SuffixOfConcat(a, b, r);
  }

  lemma SuffixOfConcat<T>(a: seq<T>, b: seq<T>, r: nat)
    requires r <= |a|
    ensures (a + b)[r..] == a[r..] + b
  {
  }

  /** Two texts that do not meet inside a run are reduced separately. */
  lemma {:induction false} ReduceRepeatsConcat(a: string, b: string)
    requires a == [] || b == [] || a[|a| - 1] != b[0]
    ensures ReduceRepeats(a + b) == ReduceRepeats(a) + ReduceRepeats(b)
    decreases |a|
  {
    if a == [] {
      assert a + b == b;
    } else {
      var s := a + b;
      if TripleAt(s, 0) {
        var k := CharRun(s);
        RunWithinPrefix(a, b);
        ReduceAtTriple(s);
        ReduceAtTriple(a);
        ReduceRepeatsConcat(a[k..], b);
        ConcatAssoc([a[0], a[0]], ReduceRepeats(a[k..]), ReduceRepeats(b));
      } else {
        assert !TripleAt(a, 0);
        ReduceAtSingle(s);
        ReduceAtSingle(a);
        SuffixOfConcat(a, b, 1);
        ReduceRepeatsConcat(a[1..], b);
        ConcatAssoc([a[0]], ReduceRepeats(a[1..]), ReduceRepeats(b));
      }
    }
  }

  /** Reducing twice is reducing once. */
  lemma {:induction false} ReduceRepeatsIdempotent(s: string)
    ensures ReduceRepeats(ReduceRepeats(s)) == ReduceRepeats(s)
  {
    ReduceRepeatsNoTriple(ReduceRepeats(s));
  }

  /** Collapsing whitespace creates no run of three: the characters it keeps
      keep their non-whitespace neighbours, and it never puts two spaces side
      by side. */
  lemma {:induction false} CollapseKeepsNoTriple(s: string)
    requires NoTriple(s)
    ensures NoTriple(CollapseSpaces(s))
    decreases |s|
  {
    if s != [] {
      var r := CollapseSpaces(s);
      if IsSpace(s[0]) {
        var k := SpaceRun(s);
        var t := CollapseSpaces(s[k..]);
        NoTripleSuffix(s, k);
        CollapseKeepsNoTriple(s[k..]);
        assert r == [' '] + t;
        assert !TripleAt(r, 0) by {
          assert |r| > 1 ==> !IsSpace(r[1]);
        }
        NoTripleCons(' ', t);
      } else {
        var t := CollapseSpaces(s[1..]);
        NoTripleSuffix(s, 1);
        CollapseKeepsNoTriple(s[1..]);
        assert r == [s[0]] + t;
        assert !TripleAt(r, 0) by {
          if |r| > 2 && r[1] == s[0] {
            assert !IsSpace(s[1]);
            assert t == [s[1]] + CollapseSpaces(s[2..]);
            assert !TripleAt(s, 0);
          }
        }
        NoTripleCons(s[0], t);
      }
    }
  }

  /** Putting a character before a text adds only the run at position 0. */
  lemma NoTripleCons(c: char, t: string)
    requires NoTriple(t) && !TripleAt([c] + t, 0)
    ensures NoTriple([c] + t)
  {
    var r := [c] + t;
    forall i | 0 <= i < |r| ensures !TripleAt(r, i) {
      if 0 < i { assert !TripleAt(t, i - 1); }
    }
  }

  lemma NoTripleSuffix(s: string, k: nat)
    requires k <= |s| && NoTriple(s)
    ensures NoTriple(s[k..])
  {
    forall i | 0 <= i < |s[k..]| ensures !TripleAt(s[k..], i) {
      assert !TripleAt(s, k + i);
    }
  }

  /** A slice of a text without runs of three has none either. */
  lemma NoTripleSlice(s: string, a: nat, b: nat)
    requires a <= b <= |s| && NoTriple(s)
    ensures NoTriple(s[a..b])
  {
    forall i | 0 <= i < b - a ensures !TripleAt(s[a..b], i) {
      assert !TripleAt(s, a + i);
    }
  }
}
