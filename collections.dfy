/**
 * Python collection idioms used by the search engine: iterating a set or dict in an
 * unspecified order, `random.choice`, `max(d, key=d.get)`, and sums over sets.
 */
module Collections {

  /** The elements of a list, as `set(xs)` builds them. */
  function Elements<T>(xs: seq<T>): set<T>
  {
    set x | x in xs
  }

  predicate Distinct<T(==)>(xs: seq<T>)
  {
    forall i, j :: 0 <= i < j < |xs| ==> xs[i] != xs[j]
  }

  /** Appending a new element keeps a list free of repeats and adds it to the elements. */
  lemma AppendFresh<T>(xs: seq<T>, x: T)
    requires Distinct(xs) && x !in Elements(xs)
    ensures Distinct(xs + [x]) && Elements(xs + [x]) == Elements(xs) + {x}
  {
    var ys := xs + [x];
    forall i, j | 0 <= i < j < |ys| ensures ys[i] != ys[j] {
      if j == |xs| {
        assert ys[i] == xs[i] && xs[i] in Elements(xs);
      } else {
        assert ys[i] == xs[i] && ys[j] == xs[j];
      }
    }
  }

  /** Moving one element from the rest of a set to its visited part keeps the partition. */
  lemma MoveOne<T>(rest: set<T>, seen: set<T>, all: set<T>, x: T)
    requires x in rest && rest + seen == all && rest !! seen
    ensures (rest - {x}) + (seen + {x}) == all && (rest - {x}) !! (seen + {x})
    ensures |rest - {x}| < |rest|
  {
  }

  /** Iterating a set (or `list(s)`): every element once, in an order the model leaves open. */
  method Enumerate<T(==)>(s: set<T>) returns (xs: seq<T>)
    ensures Elements(xs) == s && Distinct(xs) && |xs| == |s|
  {
    xs := [];
    var rest := s;
    while rest != {}
      invariant Elements(xs) + rest == s && Elements(xs) !! rest
      invariant Distinct(xs) && |xs| + |rest| == |s|
      decreases |rest|
    {
      var x :| x in rest;
      AppendFresh(xs, x);
      xs := xs + [x];
      rest := rest - {x};
    }
  }

  /** `random.choice(xs)`: some element of a non-empty list; the generator is not modelled. */
  method RandomChoice<T>(xs: seq<T>) returns (x: T)
    requires |xs| > 0
    ensures x in xs
  {
    var i :| 0 <= i < |xs|;
    x := xs[i];
  }

  /** `max(m, key=m.get)`: a key of largest value (which of several ties is left open). */
  method MaxByValue(m: map<string, real>) returns (best: string)
    requires m != map[]
    ensures best in m && forall q :: q in m ==> m[q] <= m[best]
  {
    var keys := m.Keys;
    best :| best in keys;
    var rest := keys - {best};
    while rest != {}
      invariant rest <= keys && best in m
      invariant forall q :: q in keys - rest ==> m[q] <= m[best]
      decreases |rest|
    {
      var q :| q in rest;
      if m[q] > m[best] {
        best := q;
      }
      rest := rest - {q};
    }
  }

  /** Some key of a non-empty finite map, fixed once and for all. */
  ghost function Pick(m: map<string, real>): string
    requires m != map[]
    ensures Pick(m) in m
  {
    var k :| k in m; k
  }

  /** The sum of a map's values (Python's `sum` over its items, in any order). */
  ghost function SumValues(m: map<string, real>): real
    decreases |m.Keys|
  {
    if m == map[] then 0.0
    else
      var k := Pick(m);
      assert m.Keys - {k} < m.Keys;
      m[k] + SumValues(m - {k})
  }

  /** Removing any one key takes its value off the sum: the order of summation is irrelevant. */
  lemma {:induction false} SumValuesRemove(m: map<string, real>, x: string)
    requires x in m
    ensures SumValues(m) == m[x] + SumValues(m - {x})
    decreases |m.Keys|
  {
    var k := Pick(m);
    assert m.Keys - {k} < m.Keys;
    if k != x {
      assert (m - {k}).Keys - {x} < m.Keys;
      SumValuesRemove(m - {k}, x);
      SumValuesRemove(m - {x}, k);
      assert m - {k} - {x} == m - {x} - {k};
    }
  }

  /** `keys` lists each key of `m` once, and `xs` gives their values in the same order. */
  ghost predicate KeyList(m: map<string, real>, keys: seq<string>, xs: seq<real>)
  {
    && Distinct(keys) && Elements(keys) == m.Keys && |xs| == |keys|
    && forall k :: 0 <= k < |keys| ==> xs[k] == m[keys[k]]
  }

  /** Dropping the last key from the list and from the map keeps the correspondence. */
  lemma KeyListInit(m: map<string, real>, keys: seq<string>, xs: seq<real>)
    requires KeyList(m, keys, xs) && keys != []
    ensures keys[|keys| - 1] in m
    ensures KeyList(m - {keys[|keys| - 1]}, keys[..|keys| - 1], xs[..|xs| - 1])
  {
    var n := |keys|;
    var last := keys[n - 1];
    var keys', xs' := keys[..n - 1], xs[..n - 1];
    assert last in Elements(keys);
    DropLast(keys);
    forall k | 0 <= k < n - 1 ensures xs'[k] == (m - {last})[keys'[k]] {
      assert keys'[k] == keys[k] && xs'[k] == xs[k];
    }
  }

  /**
   * Summing a list that gives the value of each key of a map, every key once, gives the sum of
   * the map's values.
   */
  lemma {:induction false} SumOverKeys(m: map<string, real>, keys: seq<string>, xs: seq<real>)
    requires KeyList(m, keys, xs)
    ensures Sum(xs) == SumValues(m) && |xs| == |m|
    decreases |keys|
  {
    if keys == [] {
      assert m.Keys == {};
    } else {
      var last := keys[|keys| - 1];
      KeyListInit(m, keys, xs);
      SumOverKeys(m - {last}, keys[..|keys| - 1], xs[..|xs| - 1]);
      SumLastKey(m, last, xs);
    }
  }

  /** One step of `SumOverKeys`: the last term is the value of the key taken off the map. */
  lemma SumLastKey(m: map<string, real>, last: string, xs: seq<real>)
    requires last in m && xs != [] && xs[|xs| - 1] == m[last]
    requires Sum(xs[..|xs| - 1]) == SumValues(m - {last}) && |xs| - 1 == |m - {last}|
    ensures Sum(xs) == SumValues(m) && |xs| == |m|
  {
    SumValuesRemove(m, last);
    assert (m - {last}).Keys == m.Keys - {last};
  }

  /** Dropping the last element of a list free of repeats drops it from the elements. */
  lemma DropLast<T>(xs: seq<T>)
    requires Distinct(xs) && xs != []
    ensures Distinct(xs[..|xs| - 1])
    ensures Elements(xs[..|xs| - 1]) == Elements(xs) - {xs[|xs| - 1]}
  {
    var init := xs[..|xs| - 1];
    assert xs == init + [xs[|xs| - 1]];
    forall i | 0 <= i < |init| ensures init[i] != xs[|xs| - 1] {
      assert init[i] == xs[i];
    }
  }

  /** The lengths of a set of words, as a map from word to length. */
  function Lengths(s: set<string>): map<string, real>
  {
    map w | w in s :: |w| as real
  }

  /** `sum(len(w) for w in s)`. */
  ghost function TotalLength(s: set<string>): real
  {
    SumValues(Lengths(s))
  }

  lemma TotalLengthRemove(s: set<string>, x: string)
    requires x in s
    ensures TotalLength(s) == |x| as real + TotalLength(s - {x})
  {
    SumValuesRemove(Lengths(s), x);
    assert Lengths(s) - {x} == Lengths(s - {x});
  }

  /** `sum([len(w) for w in s])`, the words taken in an order the model leaves open. */
  method SumLengths(s: set<string>) returns (total: real)
    ensures total == TotalLength(s)
  {
    total := 0.0;
    var rest := s;
    while rest != {}
      invariant rest <= s && total + TotalLength(rest) == TotalLength(s)
      decreases |rest|
    {
      var w :| w in rest;
      TotalLengthRemove(rest, w);
      total := total + |w| as real;
      rest := rest - {w};
    }
    assert Lengths({}) == map[];
  }

  /** `sum(len(w) for w in s) / len(s)`. */
  ghost function AverageLength(s: set<string>): real
    requires s != {}
  {
    TotalLength(s) / |s| as real
  }

  /** The sum of a list of numbers. */
  function Sum(xs: seq<real>): real
  {
    if xs == [] then 0.0 else Sum(xs[..|xs| - 1]) + xs[|xs| - 1]
  }

  lemma {:induction false} SumAtMost(xs: seq<real>, hi: real)
    requires forall i :: 0 <= i < |xs| ==> xs[i] <= hi
    ensures Sum(xs) <= |xs| as real * hi
  {
    if xs != [] {
      SumAtMost(xs[..|xs| - 1], hi);
    }
  }

  lemma {:induction false} SumAtLeast(xs: seq<real>, lo: real)
    requires forall i :: 0 <= i < |xs| ==> lo <= xs[i]
    ensures |xs| as real * lo <= Sum(xs)
  {
    if xs != [] {
      SumAtLeast(xs[..|xs| - 1], lo);
    }
  }

  /** Terms no greater than `hi` sum to `|xs| * hi` exactly when every term is `hi`. */
  lemma {:induction false} SumAtTop(xs: seq<real>, hi: real)
    requires forall i :: 0 <= i < |xs| ==> xs[i] <= hi
    ensures Sum(xs) == |xs| as real * hi <==> forall i :: 0 <= i < |xs| ==> xs[i] == hi
  {
    if xs != [] {
      var init := xs[..|xs| - 1];
      SumAtTop(init, hi);
      SumAtMost(init, hi);
    }
  }

  /** Terms no smaller than `lo` sum to `|xs| * lo` exactly when every term is `lo`. */
  lemma {:induction false} SumAtBottom(xs: seq<real>, lo: real)
    requires forall i :: 0 <= i < |xs| ==> lo <= xs[i]
    ensures Sum(xs) == |xs| as real * lo <==> forall i :: 0 <= i < |xs| ==> xs[i] == lo
  {
    if xs != [] {
      var init := xs[..|xs| - 1];
      SumAtBottom(init, lo);
      SumAtLeast(init, lo);
    }
  }
}
