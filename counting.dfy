/** A model of Python's `collections.Counter` over a token list, and the
    integer sums that the lexical statistics compute from its values.

    A Counter is a dict in insertion order: its keys are the distinct tokens
    in order of first occurrence (`Distinct`), its values the multiplicities
    (`FreqValues`). */
module Counting {
  import opened Ratio

  /** No element occurs twice. */
  predicate NoDup<T(==)>(s: seq<T>) {
    forall i, j :: 0 <= i < j < |s| ==> s[i] != s[j]
  }

  /** `set(s)` */
  function Vocab<T(==)>(s: seq<T>): set<T> {
    set x | x in s
  }

  /** `Counter(s)[x]` */
  function Count<T(==)>(s: seq<T>, x: T): nat {
    multiset(s)[x]
  }

  /** The keys of `Counter(s)`: the distinct elements in order of first occurrence. */
  function Distinct<T(==)>(s: seq<T>): (d: seq<T>)
    ensures NoDup(d)
    ensures Vocab(d) == Vocab(s)
    ensures |d| == |Vocab(s)| <= |s|
  {
    if s == [] then []
    else
      var p, x := s[..|s| - 1], s[|s| - 1];
      assert s == p + [x];
      var d := Distinct(p);
      assert Vocab(s) == Vocab(p) + {x};
      if x in d then d
      else
        assert x !in Vocab(p);
        d + [x]
  }

  /** The counts of the given keys, in the keys' order. */
  function Counts<T(==)>(s: seq<T>, keys: seq<T>): (c: seq<nat>)
    ensures |c| == |keys|
    ensures forall i :: 0 <= i < |keys| ==> c[i] == Count(s, keys[i])
  {
    if keys == [] then [] else [Count(s, keys[0])] + Counts(s, keys[1..])
  }

  /** `list(Counter(s).values())` */
  function FreqValues<T(==)>(s: seq<T>): seq<nat> {
    Counts(s, Distinct(s))
  }

  function Sum(c: seq<int>): int {
    if c == [] then 0 else c[0] + Sum(c[1..])
  }

  /** `sum(c * c for c in values)` */
  function SumSquares(c: seq<int>): int {
    if c == [] then 0 else c[0] * c[0] + SumSquares(c[1..])
  }

  /** `sum(c * (c - 1) for c in values)` */
  function SumPairs(c: seq<int>): int {
    if c == [] then 0 else c[0] * (c[0] - 1) + SumPairs(c[1..])
  }

  /** `sum(1 for c in values if c == 1)` */
  function CountOnes(c: seq<int>): nat {
    if c == [] then 0 else (if c[0] == 1 then 1 else 0) + CountOnes(c[1..])
  }

  /** `max(values)`, 0 for no values */
  function MaxOf(c: seq<nat>): (m: nat)
    ensures forall i :: 0 <= i < |c| ==> c[i] <= m
    ensures c != [] ==> m in c
    ensures c == [] ==> m == 0
  {
    if c == [] then 0
    else
      var r := MaxOf(c[1..]);
      if c[0] >= r then c[0] else r
  }

  /** Yule's M2 computed the way the source does it: over the
      frequency-of-frequency counter of `vals`, `sum(count * i**2)` for each
      distinct value `i` in `keys` occurring `count` times. */
  function WeightedSquares(vals: seq<nat>, keys: seq<nat>): int {
    if keys == [] then 0
    else Count(vals, keys[0]) * (keys[0] * keys[0]) + WeightedSquares(vals, keys[1..])
  }

  // ---------------------------------------------------------------------------
  // Lemmas about the sums

  lemma {:induction false} SumAppend(a: seq<int>, b: seq<int>)
    ensures Sum(a + b) == Sum(a) + Sum(b)
    ensures SumSquares(a + b) == SumSquares(a) + SumSquares(b)
  {
    if a == [] {
      assert a + b == b;
    } else {
      assert (a + b)[1..] == a[1..] + b;
      SumAppend(a[1..], b);
    }
  }

  /** Adding one element `y` to `s` adds 1 to the count of `y` among the keys
      (once, since the keys have no duplicates), and nothing otherwise. */
  lemma {:induction false} SumCountsSnoc<T>(s: seq<T>, y: T, keys: seq<T>)
    requires NoDup(keys)
    ensures Sum(Counts(s + [y], keys)) == Sum(Counts(s, keys)) + (if y in keys then 1 else 0)
  {
    if keys != [] {
      assert NoDup(keys[1..]);
      assert keys[0] == y ==> y !in keys[1..];
      assert y in keys <==> y == keys[0] || y in keys[1..];
      SumCountsSnoc(s, y, keys[1..]);
    }
  }

  /** The counts of a key list without duplicates that covers every element
      add up to the length of the list. */
  lemma {:induction false} SumCountsCovering<T>(s: seq<T>, keys: seq<T>)
    requires NoDup(keys)
    requires Vocab(s) <= Vocab(keys)
    ensures Sum(Counts(s, keys)) == |s|
  {
    if s == [] {
      ZeroCounts(keys);
    } else {
      var p, y := s[..|s| - 1], s[|s| - 1];
      assert s == p + [y];
      assert Vocab(s) == Vocab(p) + {y};
      assert y in Vocab(keys);
      SumCountsCovering(p, keys);
      SumCountsSnoc(p, y, keys);
    }
  }

  lemma {:induction false} ZeroCounts<T>(keys: seq<T>)
    ensures Sum(Counts([], keys)) == 0
  {
    if keys != [] { ZeroCounts(keys[1..]); }
  }

  /** The values of `Counter(s)` add up to `len(s)`. */
  lemma FreqValuesSum<T>(s: seq<T>)
    ensures Sum(FreqValues(s)) == |s|
  {
    SumCountsCovering(s, Distinct(s));
  }

  /** Every value of a Counter is at least 1. */
  lemma FreqValuesPositive<T>(s: seq<T>)
    ensures forall i :: 0 <= i < |FreqValues(s)| ==> FreqValues(s)[i] >= 1
  {
    var d := Distinct(s);
    forall i | 0 <= i < |d| ensures Count(s, d[i]) >= 1 {
      assert d[i] in Vocab(d);
    }
  }

  lemma {:induction false} WeightedSquaresSnoc(v: seq<nat>, y: nat, keys: seq<nat>)
    requires NoDup(keys)
    requires y in keys
    ensures WeightedSquares(v + [y], keys) == WeightedSquares(v, keys) + y * y
  {
    assert keys != [];
    if keys[0] == y {
      assert y !in keys[1..];
      WeightedSquaresUnchanged(v, y, keys[1..]);
    } else {
      assert NoDup(keys[1..]);
      WeightedSquaresSnoc(v, y, keys[1..]);
    }
  }

  lemma {:induction false} WeightedSquaresUnchanged(v: seq<nat>, y: nat, keys: seq<nat>)
    requires y !in keys
    ensures WeightedSquares(v + [y], keys) == WeightedSquares(v, keys)
  {
    if keys != [] { WeightedSquaresUnchanged(v, y, keys[1..]); }
  }

  lemma {:induction false} WeightedSquaresEmpty(keys: seq<nat>)
    ensures WeightedSquares([], keys) == 0
  {
    if keys != [] { WeightedSquaresEmpty(keys[1..]); }
  }

  /** Summing `count * i**2` over the frequency-of-frequency counter of `v`
      gives the plain sum of squares of `v`. */
  lemma {:induction false} WeightedSquaresIsSumSquares(v: seq<nat>, keys: seq<nat>)
    requires NoDup(keys)
    requires Vocab(v) <= Vocab(keys)
    ensures WeightedSquares(v, keys) == SumSquares(v)
  {
    if v == [] {
      WeightedSquaresEmpty(keys);
    } else {
      var p, y := v[..|v| - 1], v[|v| - 1];
      assert v == p + [y];
      assert Vocab(v) == Vocab(p) + {y};
      assert y in Vocab(keys);
      WeightedSquaresIsSumSquares(p, keys);
      WeightedSquaresSnoc(p, y, keys);
      SumAppend(p, [y]);
    }
  }

  /** For positive values, the sum of squares is at least the sum, with
      equality exactly when all values are 1. */
  lemma {:induction false} SumSquaresAtLeastSum(c: seq<int>)
    requires forall i :: 0 <= i < |c| ==> c[i] >= 1
    ensures SumSquares(c) >= Sum(c)
    ensures SumSquares(c) == Sum(c) <==> forall i :: 0 <= i < |c| ==> c[i] == 1
    ensures SumPairs(c) == SumSquares(c) - Sum(c)
  {
    if c != [] {
      SumSquaresAtLeastSum(c[1..]);
      assert c[0] * c[0] >= c[0];
      assert c[0] * c[0] == c[0] <==> c[0] == 1;
      assert forall i :: 1 <= i < |c| ==> c[1..][i - 1] == c[i];
    }
  }

  /** For non-negative values, the sum of squares is at most the square of
      the sum, with equality when at most one value is non-zero. */
  lemma {:induction false} SumSquaresAtMostSquare(c: seq<int>)
    requires forall i :: 0 <= i < |c| ==> c[i] >= 0
    ensures SumSquares(c) <= Sum(c) * Sum(c)
    ensures Sum(c) >= 0
  {
    if c != [] {
      SumSquaresAtMostSquare(c[1..]);
      var a, r := c[0], Sum(c[1..]);
      assert (a + r) * (a + r) == a * a + r * r + 2 * a * r;
      assert a * r >= 0;
    }
  }

  /** Each value is at most the sum when all are non-negative. */
  lemma {:induction false} ValueAtMostSum(c: seq<int>, i: nat)
    requires forall k :: 0 <= k < |c| ==> c[k] >= 0
    requires i < |c|
    ensures c[i] <= Sum(c)
  {
    if i > 0 {
      ValueAtMostSum(c[1..], i - 1);
    } else if |c| > 1 {
      SumSquaresAtMostSquare(c[1..]);
    }
  }

  lemma {:induction false} CountOnesBound(c: seq<int>)
    ensures CountOnes(c) <= |c|
  {
    if c != [] { CountOnesBound(c[1..]); }
  }

  /** The distinct elements are all the elements exactly when there are no duplicates. */
  lemma {:induction false} DistinctAllIffNoDup<T>(s: seq<T>)
    ensures |Distinct(s)| == |s| <==> NoDup(s)
  {
    if s != [] {
      var p, x := s[..|s| - 1], s[|s| - 1];
      assert s == p + [x];
      DistinctAllIffNoDup(p);
      var d := Distinct(p);
      assert x in d <==> x in p by {
        assert x in d <==> x in Vocab(d);
      }
      assert NoDup(s) <==> NoDup(p) && x !in p by {
        if NoDup(s) {
          forall i | 0 <= i < |p| ensures p[i] != x { assert s[i] == p[i]; }
        }
        if NoDup(p) && x !in p {
          forall i, j | 0 <= i < j < |s| ensures s[i] != s[j] {
            if j < |p| { assert s[i] == p[i] && s[j] == p[j]; } else { assert s[i] == p[i]; }
          }
        }
      }
      assert |d| <= |p|;
    }
  }

  /** All values are 1 exactly when no element occurs twice. */
  lemma FreqValuesAllOnesIffNoDup<T>(s: seq<T>)
    ensures (forall i :: 0 <= i < |FreqValues(s)| ==> FreqValues(s)[i] == 1) <==> NoDup(s)
  {
    var v := FreqValues(s);
    FreqValuesPositive(s);
    FreqValuesSum(s);
    DistinctAllIffNoDup(s);
    AllOnesIffSumIsLength(v);
  }

  lemma {:induction false} AllOnesIffSumIsLength(c: seq<int>)
    requires forall i :: 0 <= i < |c| ==> c[i] >= 1
    ensures Sum(c) >= |c|
    ensures Sum(c) == |c| <==> forall i :: 0 <= i < |c| ==> c[i] == 1
  {
    if c != [] {
      AllOnesIffSumIsLength(c[1..]);
      assert forall i :: 1 <= i < |c| ==> c[1..][i - 1] == c[i];
    }
  }

  /** A list of one repeated element has a single Counter value, its length. */
  lemma {:induction false} FreqValuesConstant<T>(s: seq<T>)
    requires s != []
    requires forall i :: 0 <= i < |s| ==> s[i] == s[0]
    ensures FreqValues(s) == [|s|]
  {
    var d := Distinct(s);
    assert Vocab(s) == {s[0]};
    assert |d| == 1;
    assert d[0] in Vocab(d);
    FreqValuesSum(s);
    assert FreqValues(s)[1..] == [];
  }

  /** A longer prefix has at least the vocabulary of a shorter one. */
  lemma {:induction false} VocabPrefix<T>(s: seq<T>, a: nat, b: nat)
    requires a <= b <= |s|
    ensures Vocab(s[..a]) <= Vocab(s[..b])
    ensures |Vocab(s[..a])| <= |Vocab(s[..b])|
  {
    forall x | x in Vocab(s[..a]) ensures x in Vocab(s[..b]) {
      var i :| 0 <= i < a && s[..a][i] == x;
      assert s[..b][i] == x;
    }
    SubsetCard(Vocab(s[..a]), Vocab(s[..b]));
  }

  lemma {:induction false} SubsetCard<T>(a: set<T>, b: set<T>)
    requires a <= b
    ensures |a| <= |b|
    decreases |a|
  {
    if a != {} {
      var x :| x in a;
      SubsetCard(a - {x}, b - {x});
    }
  }

  /** The values add up to at most the largest one times their number. */
  lemma {:induction false} MaxTimesLength(c: seq<nat>)
    ensures Sum(c) <= MaxOf(c) * |c|
  {
    if c != [] {
      MaxTimesLength(c[1..]);
      var m, r := MaxOf(c), MaxOf(c[1..]);
      var k := |c| - 1;
      assert c[0] <= m && r <= m;
      MulMonotone(r, m, k);
      MulSucc(k, m);
      assert Sum(c) == c[0] + Sum(c[1..]);
      assert k + 1 == |c|;
    }
  }

  /** The largest Counter value times the number of distinct elements is at
      least the length: some element occurs at least the average number of times. */
  lemma MaxCountAtLeastAverage<T>(s: seq<T>)
    ensures |s| <= MaxOf(FreqValues(s)) * |FreqValues(s)|
  {
    FreqValuesSum(s);
    MaxTimesLength(FreqValues(s));
  }

  /** The number of elements of `s` that lie in `k`. */
  function CountIn<T(==)>(s: seq<T>, k: set<T>): nat {
    if s == [] then 0
    else CountIn(s[..|s| - 1], k) + (if s[|s| - 1] in k then 1 else 0)
  }

  /** The counts of a key list without duplicates add up to the number of
      elements that are keys; elements that are not keys are not counted. */
  lemma {:induction false} SumCountsInKeys<T>(s: seq<T>, keys: seq<T>)
    requires NoDup(keys)
    ensures Sum(Counts(s, keys)) == CountIn(s, Vocab(keys))
  {
    if s == [] {
      ZeroCounts(keys);
    } else {
      var p, y := s[..|s| - 1], s[|s| - 1];
      assert s == p + [y];
      SumCountsInKeys(p, keys);
      SumCountsSnoc(p, y, keys);
    }
  }
}
