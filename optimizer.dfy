/**
 * Scoring and selection (agents/SuperAgent/best_proposal_finder.py): the basis-word ratio of
 * each proposal, the randomised choice among near-best ratios, and the stall heuristic.
 * Ratios and averages are exact rationals.
 */
module Optimizer {
  import opened Wrappers
  import opened Collections

  /** The near-tie threshold of get_random_max_ratio. */
  const Threshold: real := 0.01

  /** The ratios compute_basis_word_ratios is meant to compute: one per proposal with basis words. */
  function BasisWordRatios(basis: map<string, set<string>>, nohalt: map<string, set<string>>)
    : (r: map<string, real>)
    requires basis.Keys <= nohalt.Keys
    ensures r.Keys == set p | p in basis && basis[p] != {}
  {
    map p | p in basis && basis[p] != {} :: |nohalt[p]| as real / |basis[p]| as real
  }

  /**
   * compute_basis_word_ratios: the loop over the proposals, recording `|nohalt| / |basis|` for
   * each proposal with basis words and skipping the others.
   */
  method ComputeBasisWordRatios(basis: map<string, set<string>>, nohalt: map<string, set<string>>)
    returns (ratios: map<string, real>)
    requires basis.Keys <= nohalt.Keys
    ensures ratios == BasisWordRatios(basis, nohalt)
  {
    ratios := map[];
    var proposals := Enumerate(basis.Keys);
    for i := 0 to |proposals|
      invariant forall p :: p in ratios <==> p in proposals[..i] && p in basis && basis[p] != {}
      invariant forall p :: p in ratios ==> p in basis && ratios[p] == |nohalt[p]| as real / |basis[p]| as real
    {
      var proposal := proposals[i];
      assert proposal in Elements(proposals);
      var basisWords := basis[proposal];
      var basisWordsNohalt := nohalt[proposal];
      assert proposals[..i + 1] == proposals[..i] + [proposal];
      if basisWords != {} {
        var basisWordRatio := |basisWordsNohalt| as real / |basisWords| as real;
        ratios := ratios[proposal := basisWordRatio];
      }
    }
    assert proposals[..|proposals|] == proposals;
    forall p | p in basis ensures p in proposals {
      assert p in Elements(proposals);
    }
  }

  /** A subset is the whole set exactly when the two have the same size. */
  lemma SubsetSize<T>(a: set<T>, b: set<T>)
    requires a <= b
    ensures |a| <= |b|
    ensures |a| == |b| <==> a == b
  {
    assert b == a + (b - a);
    assert |b| == |a| + |b - a|;
  }

  /**
   * When nohalt sets are subsets of basis sets, each ratio lies in [0, 1]; it is 1 exactly
   * when no basis word was removed, and 0 exactly when every one was.
   */
  lemma RatioMeaning(basis: map<string, set<string>>, nohalt: map<string, set<string>>, p: string)
    requires basis.Keys <= nohalt.Keys
    requires forall q :: q in basis ==> nohalt[q] <= basis[q]
    requires p in BasisWordRatios(basis, nohalt)
    ensures 0.0 <= BasisWordRatios(basis, nohalt)[p] <= 1.0
    ensures BasisWordRatios(basis, nohalt)[p] == 1.0 <==> nohalt[p] == basis[p]
    ensures BasisWordRatios(basis, nohalt)[p] == 0.0 <==> nohalt[p] == {}
  {
    SubsetSize(nohalt[p], basis[p]);
    var n := |nohalt[p]| as real;
    var b := |basis[p]| as real;
    assert BasisWordRatios(basis, nohalt)[p] == n / b;
    assert 0.0 <= n <= b && b > 0.0;
    if n == b {
      assert n / b == 1.0;
    } else {
      assert n / b * b == n < b;
    }
  }

  /** The items of a ratio map listed in ascending order of ratio, each key once. */
  ghost predicate SortedItems(m: map<string, real>, items: seq<(string, real)>)
  {
    && |items| == |m|
    && (forall i :: 0 <= i < |items| ==> items[i].0 in m && m[items[i].0] == items[i].1)
    && (forall i, j :: 0 <= i < j < |items| ==> items[i].0 != items[j].0)
    && (forall i, j :: 0 <= i < j < |items| ==> items[i].1 <= items[j].1)
  }

  /** A non-empty set of keys has one of largest value. */
  lemma {:induction false} HasMax(s: set<string>, m: map<string, real>)
    requires s != {} && s <= m.Keys
    ensures exists p :: p in s && forall q :: q in s ==> m[q] <= m[p]
    decreases |s|
  {
    var x :| x in s;
    if s != {x} {
      HasMax(s - {x}, m);
      var p :| p in s - {x} && forall q :: q in s - {x} ==> m[q] <= m[p];
      if m[x] > m[p] {
        assert forall q :: q in s ==> m[q] <= m[x];
      } else {
        assert forall q :: q in s ==> m[q] <= m[p];
      }
    }
  }

  /** `sorted(m.items(), key=lambda x: x[1])`, ties in an order the model leaves open. */
  method SortByRatio(m: map<string, real>) returns (items: seq<(string, real)>)
    ensures SortedItems(m, items)
  {
    items := [];
    var rest := m.Keys;
    while rest != {}
      invariant rest <= m.Keys
      invariant |items| + |rest| == |m|
      invariant forall i :: 0 <= i < |items| ==> items[i].0 in m && items[i].0 !in rest && m[items[i].0] == items[i].1
      invariant forall i, j :: 0 <= i < j < |items| ==> items[i].0 != items[j].0
      invariant forall i, j :: 0 <= i < j < |items| ==> items[i].1 <= items[j].1
      invariant forall q, i :: q in rest && 0 <= i < |items| ==> m[q] <= items[i].1
      decreases |rest|
    {
      HasMax(rest, m);
      var p :| p in rest && forall q :: q in rest ==> m[q] <= m[p];
      items := [(p, m[p])] + items;
      rest := rest - {p};
    }
  }

  /**
   * The buffer of get_random_max_ratio: distinct keys, starting with a key of largest ratio;
   * each later key is no better than the previous one, within the threshold of it, and not 0;
   * when the first ratio is 1, all are 1.
   */
  ghost predicate NearBestBuffer(m: map<string, real>, buffer: seq<string>)
  {
    && |buffer| >= 1 && Distinct(buffer)
    && (forall i :: 0 <= i < |buffer| ==> buffer[i] in m)
    && (forall q :: q in m ==> m[q] <= m[buffer[0]])
    && (forall i :: 0 < i < |buffer| ==>
          m[buffer[i]] <= m[buffer[i - 1]] && m[buffer[i - 1]] - m[buffer[i]] < Threshold && m[buffer[i]] != 0.0)
    && (m[buffer[0]] == 1.0 ==> forall i :: 0 <= i < |buffer| ==> m[buffer[i]] == 1.0)
  }

  /**
   * Whether the popping loops of get_random_max_ratio buffer the item of ratio `next`: after a
   * best ratio `top` of 1 only another 1, otherwise a ratio above 0 within the threshold of the
   * `last` one buffered.
   */
  predicate GoesOn(top: real, last: real, next: real)
  {
    if top == 1.0 then next == 1.0 else last - next < Threshold && next != 0.0
  }

  /** `buffer` lists the keys of the top `|buffer|` items of the ascending list `all`, best first. */
  ghost predicate TopOf(all: seq<(string, real)>, buffer: seq<string>)
  {
    && 1 <= |buffer| <= |all|
    && forall i :: 0 <= i < |buffer| ==> buffer[i] == all[|all| - 1 - i].0
  }

  /**
   * Where the popping stops with `b` items buffered: unless the list held one item, the item
   * just below the buffer was popped and not buffered, either because it was the bottom of
   * the list or because the loop refused it.
   */
  ghost predicate StopsAt(all: seq<(string, real)>, b: int)
  {
    var n := |all|;
    && 1 <= b <= n
    && (n == 1 || (b <= n - 1 && (b == n - 1 || !GoesOn(all[n - 1].1, all[n - b].1, all[n - 1 - b].1))))
  }

  /** get_random_max_ratio: a random pick from the near-best buffer. */
  method GetRandomMaxRatio(m: map<string, real>)
    returns (best: string, ghost buffer: seq<string>, ghost sorted: seq<(string, real)>)
    requires m != map[]
    ensures NearBestBuffer(m, buffer) && best in buffer
    ensures SortedItems(m, sorted) && TopOf(sorted, buffer) && StopsAt(sorted, |buffer|)
    ensures best in m
  {
    var sortedRatios := SortByRatio(m);
    var bestProposalBuffer := PopNearBest(m, sortedRatios);
    buffer, sorted := bestProposalBuffer, sortedRatios;
    best := RandomChoice(bestProposalBuffer);
  }

  /**
   * The popping loops of get_random_max_ratio over `sorted(...)`: the best item, then the next
   * ones while they tie at 1 (if the best is 1) or stay within the threshold and above 0.  The
   * item popped last is never buffered.
   */
  method PopNearBest(m: map<string, real>, sortedRatios: seq<(string, real)>) returns (buffer: seq<string>)
    requires SortedItems(m, sortedRatios) && m != map[]
    ensures NearBestBuffer(m, buffer)
    ensures TopOf(sortedRatios, buffer) && StopsAt(sortedRatios, |buffer|)
  {
    ghost var all := sortedRatios;
    var items := sortedRatios;
    var n := |items|;
    var bestProposal, bestRatio := items[n - 1].0, items[n - 1].1;
    items := items[..n - 1];
    buffer := [bestProposal];
    ghost var ratios := [bestRatio];
    if items != [] {
      var nextBestProposal, nextBestRatio := items[|items| - 1].0, items[|items| - 1].1;
      items := items[..|items| - 1];
      if bestRatio == 1.0 {
        buffer, ratios := KeepPerfect(all, items, nextBestProposal, nextBestRatio, buffer, ratios);
      } else {
        buffer, ratios := KeepNearTies(all, items, nextBestProposal, nextBestRatio, bestRatio, buffer, ratios);
      }
    }
    BufferFacts(m, all, buffer, ratios);
  }

  /** `buffer` lists the keys of the top items of `all`, best first, with their ratios in `ratios`. */
  ghost predicate ReadOffTop(all: seq<(string, real)>, buffer: seq<string>, ratios: seq<real>)
  {
    && TopOf(all, buffer) && |ratios| == |buffer|
    && forall i :: 0 <= i < |buffer| ==> ratios[i] == all[|all| - 1 - i].1
  }

  /** What is left of the sorted list once the buffer and the pending item have been popped. */
  ghost predicate Popped(all: seq<(string, real)>, items: seq<(string, real)>, next: (string, real), buffer: seq<string>)
  {
    |items| + |buffer| == |all| - 1 && items == all[..|items|] && next == all[|items|]
  }

  /** The loop of get_random_max_ratio taken when the best ratio is 1. */
  method KeepPerfect(ghost all: seq<(string, real)>, items0: seq<(string, real)>, nextBestProposal0: string,
                     nextBestRatio0: real, buffer0: seq<string>, ghost ratios0: seq<real>)
    returns (buffer: seq<string>, ghost ratios: seq<real>)
    requires Popped(all, items0, (nextBestProposal0, nextBestRatio0), buffer0) && ReadOffTop(all, buffer0, ratios0)
    requires forall i :: 0 <= i < |ratios0| ==> ratios0[i] == 1.0
    ensures ReadOffTop(all, buffer, ratios)
    ensures forall i :: 0 <= i < |ratios| ==> ratios[i] == 1.0
    ensures |buffer| <= |all| - 1 && (|buffer| == |all| - 1 || all[|all| - 1 - |buffer|].1 != 1.0)
  {
    var items, nextBestProposal, nextBestRatio := items0, nextBestProposal0, nextBestRatio0;
    buffer, ratios := buffer0, ratios0;
    while nextBestRatio == 1.0 && items != []
      invariant Popped(all, items, (nextBestProposal, nextBestRatio), buffer) && ReadOffTop(all, buffer, ratios)
      invariant forall i :: 0 <= i < |ratios| ==> ratios[i] == 1.0
      decreases |items|
    {
      buffer := buffer + [nextBestProposal];
      ratios := ratios + [nextBestRatio];
      nextBestProposal, nextBestRatio := items[|items| - 1].0, items[|items| - 1].1;
      items := items[..|items| - 1];
    }
  }

  /** The loop of get_random_max_ratio taken otherwise: chained near-ties above 0. */
  method KeepNearTies(ghost all: seq<(string, real)>, items0: seq<(string, real)>, nextBestProposal0: string,
                      nextBestRatio0: real, bestRatio0: real, buffer0: seq<string>, ghost ratios0: seq<real>)
    returns (buffer: seq<string>, ghost ratios: seq<real>)
    requires Popped(all, items0, (nextBestProposal0, nextBestRatio0), buffer0) && ReadOffTop(all, buffer0, ratios0)
    requires ratios0 == [bestRatio0] && bestRatio0 != 1.0
    ensures ReadOffTop(all, buffer, ratios) && ratios[0] != 1.0
    ensures forall i :: 0 < i < |ratios| ==> ratios[i - 1] - ratios[i] < Threshold && ratios[i] != 0.0
    ensures |buffer| <= |all| - 1
    ensures |buffer| == |all| - 1 || !GoesOn(ratios[0], ratios[|ratios| - 1], all[|all| - 1 - |buffer|].1)
  {
    var items, nextBestProposal, nextBestRatio := items0, nextBestProposal0, nextBestRatio0;
    buffer, ratios := buffer0, ratios0;
    var bestRatio := bestRatio0;
    while bestRatio - nextBestRatio < Threshold && items != [] && nextBestRatio != 0.0
      invariant Popped(all, items, (nextBestProposal, nextBestRatio), buffer) && ReadOffTop(all, buffer, ratios)
      invariant bestRatio == ratios[|ratios| - 1] && ratios[0] != 1.0
      invariant forall i :: 0 < i < |ratios| ==> ratios[i - 1] - ratios[i] < Threshold && ratios[i] != 0.0
      decreases |items|
    {
      bestRatio := nextBestRatio;
      buffer := buffer + [nextBestProposal];
      ratios := ratios + [nextBestRatio];
      nextBestProposal, nextBestRatio := items[|items| - 1].0, items[|items| - 1].1;
      items := items[..|items| - 1];
    }
  }

  /** The buffer read off the top of the sorted items inherits their order and their keys. */
  lemma BufferFacts(m: map<string, real>, all: seq<(string, real)>, buffer: seq<string>, ratios: seq<real>)
    requires SortedItems(m, all) && ReadOffTop(all, buffer, ratios)
    requires forall i :: 0 < i < |ratios| ==> ratios[i - 1] - ratios[i] < Threshold && ratios[i] != 0.0
    requires ratios[0] == 1.0 ==> forall i :: 0 <= i < |ratios| ==> ratios[i] == 1.0
    ensures NearBestBuffer(m, buffer)
  {
    forall q | q in m ensures m[q] <= m[buffer[0]] {
      var j := ItemOf(m, all, q);
    }
    forall i, j | 0 <= i < j < |buffer| ensures buffer[i] != buffer[j] {
      assert all[|all| - 1 - j].0 != all[|all| - 1 - i].0;
    }
    forall i | 0 < i < |buffer|
      ensures m[buffer[i]] <= m[buffer[i - 1]] && m[buffer[i - 1]] - m[buffer[i]] < Threshold && m[buffer[i]] != 0.0
    {
      assert m[buffer[i]] == ratios[i] && m[buffer[i - 1]] == ratios[i - 1];
      assert all[|all| - 1 - i].1 <= all[|all| - 1 - (i - 1)].1;
    }
    forall i | 0 <= i < |buffer| ensures m[buffer[i]] == ratios[i] {
    }
  }

  /** Every key of the map is listed. */
  lemma ItemOf(m: map<string, real>, all: seq<(string, real)>, q: string) returns (j: int)
    requires SortedItems(m, all) && q in m
    ensures 0 <= j < |all| && all[j].0 == q
  {
    var keys := set i | 0 <= i < |all| :: all[i].0;
    KeysCount(m, all);
    SubsetSize(keys, m.Keys);
    assert q in keys;
    j :| 0 <= j < |all| && all[j].0 == q;
  }

  /** Distinct keys listed once each cover the whole map. */
  lemma KeysCount(m: map<string, real>, all: seq<(string, real)>)
    requires SortedItems(m, all)
    ensures |set i | 0 <= i < |all| :: all[i].0| == |all|
  {
    DistinctKeysCount(all);
  }

  lemma {:induction false} DistinctKeysCount(all: seq<(string, real)>)
    requires forall i, j :: 0 <= i < j < |all| ==> all[i].0 != all[j].0
    ensures |set i | 0 <= i < |all| :: all[i].0| == |all|
  {
    if all != [] {
      var init := all[..|all| - 1];
      DistinctKeysCount(init);
      var s := set i | 0 <= i < |all| :: all[i].0;
      var s' := set i | 0 <= i < |init| :: init[i].0;
      assert s == s' + {all[|all| - 1].0};
      assert all[|all| - 1].0 !in s';
    }
  }

  /** Down the buffer the ratio drops by less than the threshold per place. */
  lemma {:induction false} ChainDrop(m: map<string, real>, buffer: seq<string>, i: int)
    requires NearBestBuffer(m, buffer) && 0 <= i < |buffer|
    ensures m[buffer[i]] <= m[buffer[0]] <= m[buffer[i]] + i as real * Threshold
  {
    if i > 0 {
      ChainDrop(m, buffer, i - 1);
    }
  }

  /**
   * What the near-best buffer says about the ratio of any key in it: it is within
   * `(|buffer| - 1) * Threshold` of the largest ratio; it is 0 only when every ratio is at most
   * 0; and it is 1 whenever 1 is the largest ratio.
   */
  lemma {:induction false} BufferedRatio(m: map<string, real>, buffer: seq<string>, best: string)
    requires NearBestBuffer(m, buffer) && best in buffer
    ensures forall q :: q in m ==> m[q] <= m[best] + (|buffer| - 1) as real * Threshold
    ensures m[best] == 0.0 ==> forall q :: q in m ==> m[q] <= 0.0
    ensures (exists q :: q in m && m[q] == 1.0) && (forall q :: q in m ==> m[q] <= 1.0) ==> m[best] == 1.0
  {
    var i :| 0 <= i < |buffer| && buffer[i] == best;
    ChainDrop(m, buffer, i);
    assert i as real * Threshold <= (|buffer| - 1) as real * Threshold;
    if (exists q :: q in m && m[q] == 1.0) && (forall q :: q in m ==> m[q] <= 1.0) {
      var q :| q in m && m[q] == 1.0;
      assert m[q] <= m[buffer[0]];
    }
  }

  /** The second key of a buffer, if any, is another key within the threshold of the first. */
  lemma SecondInBuffer(m: map<string, real>, buffer: seq<string>)
    requires NearBestBuffer(m, buffer)
    ensures |buffer| > 1 ==> buffer[1] in m && buffer[1] != buffer[0] && m[buffer[0]] - m[buffer[1]] < Threshold
  {
  }

  /** A key that leads every other key by at least the threshold is buffered alone. */
  lemma ClearLeader(m: map<string, real>, buffer: seq<string>, p: string)
    requires NearBestBuffer(m, buffer) && p in m
    requires forall q :: q in m && q != p ==> m[p] - m[q] >= Threshold
    ensures buffer == [p]
  {
    assert buffer[0] == p;
    SecondInBuffer(m, buffer);
  }

  /**
   * When every ratio is 1 and there are at least two keys, the buffer holds all keys but the
   * one at the bottom of the sorted list: the item popped last is lost even though it ties.
   */
  lemma PerfectTiesLoseOne(m: map<string, real>, all: seq<(string, real)>, buffer: seq<string>)
    requires SortedItems(m, all) && TopOf(all, buffer) && StopsAt(all, |buffer|)
    requires |m| >= 2 && forall q :: q in m ==> m[q] == 1.0
    ensures |buffer| == |m| - 1 && all[0].0 in m && all[0].0 !in buffer
  {
    var n := |all|;
    var b := |buffer|;
    assert all[n - 1].1 == 1.0 && all[n - 1 - (n - 1)].1 == 1.0;
    assert forall k :: 0 <= k < n ==> all[k].1 == 1.0;
    forall i | 0 <= i < b ensures buffer[i] != all[0].0 {
      assert buffer[i] == all[n - 1 - i].0 && 0 < n - 1 - i;
    }
  }

  /**
   * optimize_ratio: `(None, 1)` for an empty map; otherwise the chosen key and its ratio, the
   * key dropped (`None`) when that ratio is 0.  With randomness the choice comes from the
   * near-best buffer, without it is a key of largest ratio.
   */
  method OptimizeRatio(m: map<string, real>, sprinkleRandomness: bool)
    returns (best: Option<string>, ratio: real, ghost buffer: seq<string>)
    ensures m == map[] ==> best == None && ratio == 1.0
    ensures best.Some? ==> best.value in m && m[best.value] == ratio && ratio != 0.0
    ensures m != map[] && best.None? ==> ratio == 0.0 && (forall q :: q in m ==> m[q] <= 0.0)
    ensures m != map[] && (exists q :: q in m && m[q] == 1.0) && (forall q :: q in m ==> m[q] <= 1.0) ==>
              best.Some? && ratio == 1.0
    ensures m != map[] && (forall q :: q in m ==> 0.0 <= m[q]) ==>
              (ratio == 0.0 <==> forall q :: q in m ==> m[q] == 0.0)
    ensures m != map[] && !sprinkleRandomness ==> forall q :: q in m ==> m[q] <= ratio
    ensures m != map[] && sprinkleRandomness ==> NearBestBuffer(m, buffer) && (best.Some? ==> best.value in buffer)
  {
    buffer := [];
    if m != map[] {
      var bestProposal: string;
      if sprinkleRandomness {
        ghost var sorted;
        bestProposal, buffer, sorted := GetRandomMaxRatio(m);
        BufferedRatio(m, buffer, bestProposal);
      } else {
        bestProposal := MaxByValue(m);
      }
      ratio := m[bestProposal];
      if ratio == 1.0 {
        best := Some(bestProposal);
      } else if ratio == 0.0 {
        best := None;
      } else {
        best := Some(bestProposal);
      }
    } else {
      best := None;
      ratio := 1.0;
    }
  }

  /**
   * optimize_stall: a proposal of largest average basis-word length.  `None` stands for the
   * exceptions the source raises: ZeroDivisionError on an empty basis set, ValueError from
   * `max` on an empty map.
   */
  method OptimizeStall(basis: map<string, set<string>>) returns (best: Option<string>)
    ensures best.None? <==> basis == map[] || exists p :: p in basis && basis[p] == {}
    ensures best.Some? ==>
              && best.value in basis && basis[best.value] != {}
              && forall q :: q in basis ==> basis[q] != {} && AverageLength(basis[q]) <= AverageLength(basis[best.value])
  {
    var avgLenBasisWords: map<string, real> := map[];
    var proposals := Enumerate(basis.Keys);
    for i := 0 to |proposals|
      invariant avgLenBasisWords.Keys == Elements(proposals[..i])
      invariant forall p :: p in avgLenBasisWords ==> basis[p] != {} && avgLenBasisWords[p] == AverageLength(basis[p])
    {
      var proposal := proposals[i];
      var total := SumLengths(basis[proposal]);
      if |basis[proposal]| == 0 {
        return None;
      }
      avgLenBasisWords := avgLenBasisWords[proposal := total / |basis[proposal]| as real];
      assert proposals[..i + 1] == proposals[..i] + [proposal];
    }
    assert proposals[..|proposals|] == proposals;
    if avgLenBasisWords == map[] {
      assert basis.Keys == {};
      return None;
    }
    var p := MaxByValue(avgLenBasisWords);
    best := Some(p);
  }
}
