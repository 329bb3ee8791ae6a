/** Python's `<` on `str` (code-point lexicographic order) and `sorted()` of
    a set of strings, by repeatedly taking the least remaining element. */
module StrOrder {
  import opened Counting

  /** `a < b` on Python strings: at the first position where they differ the
      character of `a` is smaller, or `a` is a proper prefix of `b`. */
  predicate StrLt(a: string, b: string)
    decreases |a|
  {
    if a == [] then b != []
    else if b == [] then false
    else if a[0] != b[0] then a[0] < b[0]
    else StrLt(a[1..], b[1..])
  }

  lemma {:induction false} StrLtIrreflexive(a: string)
    ensures !StrLt(a, a)
    decreases |a|
  {
    if a != [] { StrLtIrreflexive(a[1..]); }
  }

  lemma {:induction false} StrLtTransitive(a: string, b: string, c: string)
    requires StrLt(a, b) && StrLt(b, c)
    ensures StrLt(a, c)
    decreases |a|
  {
    if a != [] && b != [] && c != [] && a[0] == b[0] && b[0] == c[0] {
      StrLtTransitive(a[1..], b[1..], c[1..]);
    }
  }

  /** Any two different strings are ordered one way or the other. */
  lemma {:induction false} StrLtTotal(a: string, b: string)
    requires a != b
    ensures StrLt(a, b) || StrLt(b, a)
    decreases |a|
  {
    if a != [] && b != [] && a[0] == b[0] {
      assert a == [a[0]] + a[1..] && b == [b[0]] + b[1..];
      StrLtTotal(a[1..], b[1..]);
    }
  }

  /** Each element is before every later one. */
  predicate StrictlySorted(v: seq<string>) {
    forall i, j :: 0 <= i < j < |v| ==> StrLt(v[i], v[j])
  }

  /** `x` is the least element of `s`. */
  predicate IsLeast(x: string, s: set<string>) {
    x in s && forall y :: y in s && y != x ==> StrLt(x, y)
  }

  /** A non-empty set of strings has a least element. */
  lemma {:induction false} LeastExists(s: set<string>)
    requires s != {}
    ensures exists x :: IsLeast(x, s)
    decreases |s|
  {
    var z :| z in s;
    if s == {z} {
      assert IsLeast(z, s);
    } else {
      LeastExists(s - {z});
      var x :| IsLeast(x, s - {z});
      StrLtTotal(x, z);
      if StrLt(x, z) {
        assert IsLeast(x, s);
      } else {
        forall y | y in s && y != z ensures StrLt(z, y) {
          if y != x { StrLtTransitive(z, x, y); }
        }
        assert IsLeast(z, s);
      }
    }
  }

  /** The loop invariant of `SortedSet`: `v` is sorted, holds the elements of
      `s` taken so far, each before everything still in `rest`. */
  predicate SortState(s: set<string>, v: seq<string>, rest: set<string>) {
    && StrictlySorted(v)
    && Vocab(v) + rest == s
    && (forall i, y :: 0 <= i < |v| && y in rest ==> StrLt(v[i], y))
    && |v| + |rest| == |s|
  }

  /** `sorted(s)`: the elements of the set, each once, in increasing order. */
  method SortedSet(s: set<string>) returns (v: seq<string>)
    ensures StrictlySorted(v)
    ensures Vocab(v) == s
    ensures |v| == |s|
  {
    v := [];
    var rest := s;
    assert Vocab(v) == {};
    while rest != {}
      invariant SortState(s, v, rest)
      decreases |rest|
    {
      LeastExists(rest);
      var x :| IsLeast(x, rest);
      SortStep(s, v, rest, x);
      v := v + [x];
      rest := rest - {x};
    }
  }

  lemma SortStep(s: set<string>, v: seq<string>, rest: set<string>, x: string)
    requires SortState(s, v, rest)
    requires IsLeast(x, rest)
    ensures SortState(s, v + [x], rest - {x})
  {
    var w := v + [x];
    forall i, j | 0 <= i < j < |w| ensures StrLt(w[i], w[j]) {
      if j < |v| { assert w[i] == v[i] && w[j] == v[j]; } else { assert w[i] == v[i]; }
    }
    assert Vocab(w) == Vocab(v) + {x};
    forall i, y | 0 <= i < |w| && y in rest - {x} ensures StrLt(w[i], y) {
      if i < |v| { assert w[i] == v[i]; }
    }
  }

  /** A strictly sorted list has no duplicates. */
  lemma SortedDistinct(v: seq<string>)
    requires StrictlySorted(v)
    ensures NoDup(v)
  {
    forall i, j | 0 <= i < j < |v| ensures v[i] != v[j] {
      StrLtIrreflexive(v[i]);
    }
  }
}
