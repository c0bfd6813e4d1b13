/**
 * The one-ply opponent model of agents/SuperAgent/best_proposal_finder.py
 * (compute_nohalt_intersection_ratios): for each of our proposals, how much of our nohalt
 * basis survives the opponent's likely replies.
 */
module Metagame {
  import opened Wrappers
  import opened Collections
  import opened Classifier
  import opened Optimizer

  /**
   * The share of the opponent's nohalt words that are also ours: in [0, 1], 1 exactly when all
   * of theirs are ours, 0 exactly when none is.
   */
  function IntersectionRatio(theirs: set<string>, ours: set<string>): (r: real)
    requires theirs != {}
    ensures 0.0 <= r <= 1.0
    ensures r == 1.0 <==> theirs <= ours
    ensures r == 0.0 <==> theirs * ours == {}
  {
    SubsetSize(theirs * ours, theirs);
    |theirs * ours| as real / |theirs| as real
  }

  /** The positions of the pairs whose first component is 1, in ascending order. */
  function SureWinPositions(pairs: seq<(real, real)>): (r: seq<int>)
    ensures forall k :: 0 <= k < |r| ==> 0 <= r[k] < |pairs| && pairs[r[k]].0 == 1.0
    ensures forall k, l :: 0 <= k < l < |r| ==> r[k] < r[l]
    ensures forall i :: 0 <= i < |pairs| && pairs[i].0 == 1.0 ==> i in r
  {
    if pairs == [] then []
    else
      var n := |pairs|;
      var init := SureWinPositions(pairs[..n - 1]);
      assert forall i :: 0 <= i < n - 1 ==> pairs[..n - 1][i] == pairs[i];
      if pairs[n - 1].0 == 1.0 then init + [n - 1] else init
  }

  /**
   * `[nhir for (nbwr, nhir) in pairs if nbwr == 1]`: the second components of the pairs whose
   * first component is 1, in order, each as often as it occurs.
   */
  function SureWinTerms(pairs: seq<(real, real)>): (r: seq<real>)
    ensures |r| == |SureWinPositions(pairs)|
    ensures forall k :: 0 <= k < |r| ==> r[k] == pairs[SureWinPositions(pairs)[k]].1
    ensures forall x :: x in r <==> exists i :: 0 <= i < |pairs| && pairs[i].0 == 1.0 && pairs[i].1 == x
  {
    if pairs == [] then []
    else
      var init := SureWinTerms(pairs[..|pairs| - 1]);
      var last := pairs[|pairs| - 1];
      assert forall i :: 0 <= i < |pairs| - 1 ==> pairs[..|pairs| - 1][i] == pairs[i];
      if last.0 == 1.0 then init + [last.1] else init
  }

  /**
   * Lines 353-360: the mean of the sure-win terms, if any.  The fallback at line 357 filters
   * the list that has just been found empty, so it always yields the empty list again.
   */
  function Consolidate(pairs: seq<(real, real)>): (r: Option<real>)
    ensures r.Some? <==> exists i :: 0 <= i < |pairs| && pairs[i].0 == 1.0
  {
    var sureWins := SureWinTerms(pairs);
    var terms := if sureWins == [] then [] else sureWins;
    if |terms| != 0 then Some(Sum(terms) / |terms| as real) else None
  }

  lemma Quotient(total: real, n: real)
    requires n > 0.0 && 0.0 <= total <= n
    ensures 0.0 <= total / n <= 1.0
    ensures total / n == 1.0 <==> total == n
    ensures total / n == 0.0 <==> total == 0.0
  {
    assert total / n * n == total;
  }

  /** The mean of numbers in [0, 1] lies in [0, 1]; it is 1 (or 0) exactly when all of them are. */
  lemma MeanMeaning(terms: seq<real>)
    requires terms != [] && forall k :: 0 <= k < |terms| ==> 0.0 <= terms[k] <= 1.0
    ensures 0.0 <= Sum(terms) / |terms| as real <= 1.0
    ensures Sum(terms) / |terms| as real == 1.0 <==> forall k :: 0 <= k < |terms| ==> terms[k] == 1.0
    ensures Sum(terms) / |terms| as real == 0.0 <==> forall k :: 0 <= k < |terms| ==> terms[k] == 0.0
  {
    var n := |terms| as real;
    SumAtMost(terms, 1.0);
    SumAtLeast(terms, 0.0);
    SumAtTop(terms, 1.0);
    SumAtBottom(terms, 0.0);
    assert n * 1.0 == n && n * 0.0 == 0.0;
    Quotient(Sum(terms), n);
  }

  /**
   * A proposal gets a score exactly when some opponent reply has ratio exactly 1; the score
   * lies in [0, 1], is 1 exactly when every such reply scores 1 and 0 exactly when every one
   * scores 0.
   */
  lemma ConsolidateMeaning(pairs: seq<(real, real)>)
    requires forall i :: 0 <= i < |pairs| ==> 0.0 <= pairs[i].1 <= 1.0
    ensures Consolidate(pairs).Some? <==> exists i :: 0 <= i < |pairs| && pairs[i].0 == 1.0
    ensures Consolidate(pairs).Some? ==> 0.0 <= Consolidate(pairs).value <= 1.0
    ensures Consolidate(pairs).Some? ==>
              (Consolidate(pairs).value == 1.0 <==> forall i :: 0 <= i < |pairs| && pairs[i].0 == 1.0 ==> pairs[i].1 == 1.0)
    ensures Consolidate(pairs).Some? ==>
              (Consolidate(pairs).value == 0.0 <==> forall i :: 0 <= i < |pairs| && pairs[i].0 == 1.0 ==> pairs[i].1 == 0.0)
  {
    var terms := SureWinTerms(pairs);
    if i :| 0 <= i < |pairs| && pairs[i].0 == 1.0 {
      assert pairs[i].1 in terms;
    }
    if terms != [] {
      forall k | 0 <= k < |terms| ensures 0.0 <= terms[k] <= 1.0 {
        assert terms[k] in terms;
      }
      MeanMeaning(terms);
      assert Consolidate(pairs).value == Sum(terms) / |terms| as real;
      TermsAllEqual(pairs, 1.0);
      TermsAllEqual(pairs, 0.0);
    }
  }

  lemma TermsAllEqual(pairs: seq<(real, real)>, v: real)
    ensures (forall k :: 0 <= k < |SureWinTerms(pairs)| ==> SureWinTerms(pairs)[k] == v) <==>
            forall i :: 0 <= i < |pairs| && pairs[i].0 == 1.0 ==> pairs[i].1 == v
  {
    var terms := SureWinTerms(pairs);
    if forall k :: 0 <= k < |terms| ==> terms[k] == v {
      forall i | 0 <= i < |pairs| && pairs[i].0 == 1.0 ensures pairs[i].1 == v {
        assert pairs[i].1 in terms;
      }
    } else {
      var k :| 0 <= k < |terms| && terms[k] != v;
      assert terms[k] in terms;
    }
  }

  /** A reply `q` that is a sure win in the maps `basis`/`nohalt`: it has basis words, none halted. */
  ghost predicate SureWinIn(q: string, basis: map<string, set<string>>, nohalt: map<string, set<string>>)
  {
    q in basis && q in nohalt && nohalt[q] == basis[q]
  }

  /**
   * The pairs collected for the replies in `basis`/`nohalt`: pair `k` comes from reply
   * `sources[k]`, which has nohalt words; its first component is 1 exactly when that reply is
   * a sure win, its second is the share of the reply's nohalt words that are ours; no reply
   * contributes twice; and every sure-win reply with nohalt words is among the sources.
   */
  ghost predicate PairsOfReplies(pairs: seq<(real, real)>, sources: seq<string>, basis: map<string, set<string>>,
                                 nohalt: map<string, set<string>>, ours: set<string>)
  {
    && |sources| == |pairs| && Distinct(sources)
    && (forall k :: 0 <= k < |sources| ==>
          && sources[k] in basis && sources[k] in nohalt && nohalt[sources[k]] != {}
          && pairs[k].1 == IntersectionRatio(nohalt[sources[k]], ours)
          && (pairs[k].0 == 1.0 <==> SureWinIn(sources[k], basis, nohalt)))
    && (forall q :: SureWinIn(q, basis, nohalt) && nohalt[q] != {} ==> q in sources)
  }

  /** The opponent's replies to our proposal `p`, under the exact analysis. */
  ghost predicate NextMapsExact(p: string, nPlayers: nat, wordsSet: set<string>, letters: seq<char>,
                                basis: map<string, set<string>>, nohalt: map<string, set<string>>)
  {
    basis == BasisSpec(p, wordsSet, letters) && nohalt == NohaltSpec(p, nPlayers, wordsSet, letters)
  }

  /**
   * The loop over the opponent's replies `nextProposals` (the keys of `nextRatios`): one pair
   * per reply with nohalt words, its ratio and the share of its nohalt words that are ours.
   * The reply behind each pair is returned for the specification only.
   */
  method CollectPairs(nextRatios: map<string, real>, nextNohalt: map<string, set<string>>,
                      nextProposals: seq<string>, ours: set<string>)
    returns (pairs: seq<(real, real)>, ghost sources: seq<string>)
    requires Elements(nextProposals) == nextRatios.Keys && nextRatios.Keys <= nextNohalt.Keys
    requires Distinct(nextProposals)
    ensures |sources| == |pairs| && Distinct(sources)
    ensures forall k :: 0 <= k < |sources| ==>
              && sources[k] in nextRatios && nextNohalt[sources[k]] != {}
              && pairs[k] == (nextRatios[sources[k]], IntersectionRatio(nextNohalt[sources[k]], ours))
    ensures forall q :: q in nextRatios && nextNohalt[q] != {} ==> q in sources
  {
    pairs, sources := [], [];
    for j := 0 to |nextProposals|
      invariant |sources| == |pairs| && Distinct(sources)
      invariant forall k :: 0 <= k < |sources| ==> sources[k] in nextProposals[..j]
      invariant forall k :: 0 <= k < |sources| ==>
                  && sources[k] in nextRatios && nextNohalt[sources[k]] != {}
                  && pairs[k] == (nextRatios[sources[k]], IntersectionRatio(nextNohalt[sources[k]], ours))
      invariant forall j' :: 0 <= j' < j && nextNohalt[nextProposals[j']] != {} ==> nextProposals[j'] in sources
    {
      var nextProposal := nextProposals[j];
      assert nextProposal in Elements(nextProposals);
      var nextBasisWordRatio := nextRatios[nextProposal];
      var nextProposalNohalt := nextNohalt[nextProposal];
      var numerator := |nextProposalNohalt * ours|;
      var denominator := |nextProposalNohalt|;
      assert nextProposals[..j + 1] == nextProposals[..j] + [nextProposal];
      if denominator != 0 {
        pairs := pairs + [(nextBasisWordRatio, numerator as real / denominator as real)];
        assert nextProposal !in nextProposals[..j];
        sources := sources + [nextProposal];
      }
    }
    forall q | q in nextRatios && nextNohalt[q] != {} ensures q in sources {
      assert q in Elements(nextProposals);
    }
  }

  /**
   * One iteration of compute_nohalt_intersection_ratios: the opponent's basis words after our
   * proposal, their ratios, and the pairs of the replies.  The opponent's maps and the reply
   * behind each pair are returned for the specification only.
   */
  method NextIntersectionPairs(proposal: string, ours: set<string>, nPlayers: nat, maxWordLen: int,
                               wordsSet: set<string>, letters: seq<char>)
    returns (pairs: seq<(real, real)>, ghost sources: seq<string>, ghost nextBasis: map<string, set<string>>,
             ghost nextNohalt: map<string, set<string>>)
    ensures forall i :: 0 <= i < |pairs| ==> 0.0 <= pairs[i].1 <= 1.0
    ensures PairsOfReplies(pairs, sources, nextBasis, nextNohalt, ours)
    ensures WellFormed(proposal, maxWordLen, wordsSet, letters) ==>
              NextMapsExact(proposal, nPlayers, wordsSet, letters, nextBasis, nextNohalt)
  {
    var nextBasisWords, nextBasisWordsNohalt := GetBasisWords(proposal, nPlayers, maxWordLen, wordsSet, letters);
    nextBasis, nextNohalt := nextBasisWords, nextBasisWordsNohalt;
    var nextRatios := ComputeBasisWordRatios(nextBasisWords, nextBasisWordsNohalt);
    var nextProposals := Enumerate(nextRatios.Keys);
    pairs, sources := CollectPairs(nextRatios, nextBasisWordsNohalt, nextProposals, ours);
    forall q | SureWinIn(q, nextBasis, nextNohalt) && nextNohalt[q] != {} ensures q in sources {
      assert q in nextRatios;
    }
    forall k | 0 <= k < |sources|
      ensures 0.0 <= pairs[k].1 <= 1.0 && (pairs[k].0 == 1.0 <==> SureWinIn(sources[k], nextBasis, nextNohalt))
    {
      RatioMeaning(nextBasis, nextNohalt, sources[k]);
    }
  }

  /** The pairs of ratio 1 all score `v` exactly when every sure-win reply does. */
  lemma PairsAllScore(pairs: seq<(real, real)>, sources: seq<string>, basis: map<string, set<string>>,
                      nohalt: map<string, set<string>>, ours: set<string>, v: real)
    requires PairsOfReplies(pairs, sources, basis, nohalt, ours)
    ensures (forall i :: 0 <= i < |pairs| && pairs[i].0 == 1.0 ==> pairs[i].1 == v) <==>
            (forall q :: SureWinIn(q, basis, nohalt) && nohalt[q] != {} ==> IntersectionRatio(nohalt[q], ours) == v)
  {
    if forall i :: 0 <= i < |pairs| && pairs[i].0 == 1.0 ==> pairs[i].1 == v {
      forall q | SureWinIn(q, basis, nohalt) && nohalt[q] != {} ensures IntersectionRatio(nohalt[q], ours) == v {
        var k :| 0 <= k < |sources| && sources[k] == q;
      }
    }
  }

  /** Some pair has ratio 1 exactly when some reply is a sure win. */
  lemma PairsSureWin(pairs: seq<(real, real)>, sources: seq<string>, basis: map<string, set<string>>,
                     nohalt: map<string, set<string>>, ours: set<string>)
    requires PairsOfReplies(pairs, sources, basis, nohalt, ours)
    ensures (exists i :: 0 <= i < |pairs| && pairs[i].0 == 1.0) <==>
            (exists q :: SureWinIn(q, basis, nohalt) && nohalt[q] != {})
  {
    if q :| SureWinIn(q, basis, nohalt) && nohalt[q] != {} {
      var k :| 0 <= k < |sources| && sources[k] == q;
      assert pairs[k].0 == 1.0;
    }
    if i :| 0 <= i < |pairs| && pairs[i].0 == 1.0 {
      assert SureWinIn(sources[i], basis, nohalt);
    }
  }

  /**
   * The share of our nohalt words `ours` among the nohalt words of each sure-win reply in
   * `basis`/`nohalt`.
   */
  ghost function SureWinShares(ours: set<string>, basis: map<string, set<string>>,
                               nohalt: map<string, set<string>>): map<string, real>
  {
    map q | q in basis.Keys && SureWinIn(q, basis, nohalt) && nohalt[q] != {} :: IntersectionRatio(nohalt[q], ours)
  }

  /**
   * `score` is the score of a proposal whose nohalt words are `ours`, against the replies in
   * `basis`/`nohalt`: there is one exactly when some reply is a sure win, and it is the mean
   * of the sure-win replies' shares, each reply counted once; so it is 1 exactly when the
   * nohalt words of every sure-win reply are all ours, and 0 exactly when none of them is.
   */
  ghost predicate ScoresReplies(score: Option<real>, ours: set<string>,
                                basis: map<string, set<string>>, nohalt: map<string, set<string>>)
  {
    var shares := SureWinShares(ours, basis, nohalt);
    && (score.Some? <==> exists q :: SureWinIn(q, basis, nohalt) && nohalt[q] != {})
    && (score.Some? ==> shares != map[] && score.value == SumValues(shares) / |shares| as real)
    && (score.Some? ==>
          (score.value == 1.0 <==> forall q :: SureWinIn(q, basis, nohalt) && nohalt[q] != {} ==> nohalt[q] <= ours))
    && (score.Some? ==>
          (score.value == 0.0 <==> forall q :: SureWinIn(q, basis, nohalt) && nohalt[q] != {} ==> nohalt[q] * ours == {}))
  }

  /** The reply behind each sure-win term, in the order of the terms. */
  function TermReplies(pairs: seq<(real, real)>, sources: seq<string>): (r: seq<string>)
    requires |sources| == |pairs|
    ensures |r| == |SureWinPositions(pairs)|
  {
    var pos := SureWinPositions(pairs);
    seq(|pos|, k requires 0 <= k < |pos| => sources[pos[k]])
  }

  /** Distinct replies give distinct replies behind the terms. */
  lemma TermRepliesDistinct(pairs: seq<(real, real)>, sources: seq<string>)
    requires |sources| == |pairs| && Distinct(sources)
    ensures Distinct(TermReplies(pairs, sources))
  {
    var pos := SureWinPositions(pairs);
    var keys := TermReplies(pairs, sources);
    forall k, l | 0 <= k < l < |keys| ensures keys[k] != keys[l] {
      assert pos[k] < pos[l];
    }
  }

  /** Each term is the share of the sure-win reply behind it. */
  lemma TermRepliesShares(pairs: seq<(real, real)>, sources: seq<string>, basis: map<string, set<string>>,
                          nohalt: map<string, set<string>>, ours: set<string>)
    requires PairsOfReplies(pairs, sources, basis, nohalt, ours)
    ensures var keys, shares := TermReplies(pairs, sources), SureWinShares(ours, basis, nohalt);
      forall k :: 0 <= k < |keys| ==> keys[k] in shares && SureWinTerms(pairs)[k] == shares[keys[k]]
  {
    var pos := SureWinPositions(pairs);
    var keys := TermReplies(pairs, sources);
    forall k | 0 <= k < |keys| ensures keys[k] == sources[pos[k]] && pairs[pos[k]].0 == 1.0 {
    }
  }

  /** Every sure-win reply is behind some term. */
  lemma TermRepliesCover(pairs: seq<(real, real)>, sources: seq<string>, basis: map<string, set<string>>,
                         nohalt: map<string, set<string>>, ours: set<string>)
    requires PairsOfReplies(pairs, sources, basis, nohalt, ours)
    ensures SureWinShares(ours, basis, nohalt).Keys <= Elements(TermReplies(pairs, sources))
  {
    var pos := SureWinPositions(pairs);
    var keys := TermReplies(pairs, sources);
    forall q | q in SureWinShares(ours, basis, nohalt) ensures q in Elements(keys) {
      var i :| 0 <= i < |sources| && sources[i] == q;
      assert pairs[i].0 == 1.0 && i in pos;
      var k :| 0 <= k < |pos| && pos[k] == i;
      assert keys[k] == q;
    }
  }

  /**
   * The sure-win terms of the pairs are the shares of the sure-win replies, each reply once:
   * they have as many elements, and the same sum.
   */
  lemma SureWinTermsAreShares(pairs: seq<(real, real)>, sources: seq<string>, basis: map<string, set<string>>,
                              nohalt: map<string, set<string>>, ours: set<string>)
    requires PairsOfReplies(pairs, sources, basis, nohalt, ours)
    ensures |SureWinTerms(pairs)| == |SureWinShares(ours, basis, nohalt)|
    ensures Sum(SureWinTerms(pairs)) == SumValues(SureWinShares(ours, basis, nohalt))
  {
    var shares := SureWinShares(ours, basis, nohalt);
    var keys := TermReplies(pairs, sources);
    TermRepliesDistinct(pairs, sources);
    TermRepliesShares(pairs, sources, basis, nohalt, ours);
    TermRepliesCover(pairs, sources, basis, nohalt, ours);
    assert Elements(keys) == shares.Keys;
    SumOverKeys(shares, keys, SureWinTerms(pairs));
  }

  /** The consolidated pairs of the replies score the proposal as `ScoresReplies` describes. */
  lemma ScoreMeaning(pairs: seq<(real, real)>, sources: seq<string>, basis: map<string, set<string>>,
                     nohalt: map<string, set<string>>, ours: set<string>)
    requires forall i :: 0 <= i < |pairs| ==> 0.0 <= pairs[i].1 <= 1.0
    requires PairsOfReplies(pairs, sources, basis, nohalt, ours)
    ensures ScoresReplies(Consolidate(pairs), ours, basis, nohalt)
  {
    ConsolidateMeaning(pairs);
    PairsSureWin(pairs, sources, basis, nohalt, ours);
    PairsAllScore(pairs, sources, basis, nohalt, ours, 1.0);
    PairsAllScore(pairs, sources, basis, nohalt, ours, 0.0);
    SureWinTermsAreShares(pairs, sources, basis, nohalt, ours);
  }

  /** The entry of `p` in a score map, if any. */
  function Entry(nhi: map<string, real>, p: string): Option<real>
  {
    if p in nhi then Some(nhi[p]) else None
  }

  /** The entry of `p` is its exact score, when `p` admits the exact analysis. */
  ghost predicate ScoredExactly(nhi: map<string, real>, p: string, ours: set<string>, nPlayers: nat, maxWordLen: int,
                                wordsSet: set<string>, letters: seq<char>)
  {
    WellFormed(p, maxWordLen, wordsSet, letters) ==>
      ScoresReplies(Entry(nhi, p), ours, BasisSpec(p, wordsSet, letters), NohaltSpec(p, nPlayers, wordsSet, letters))
  }

  /** A map whose entry for `p` is a score of `p` scores `p` exactly. */
  lemma ScoredBy(nhi: map<string, real>, p: string, score: Option<real>, ours: set<string>, nPlayers: nat,
                 maxWordLen: int, wordsSet: set<string>, letters: seq<char>)
    requires Entry(nhi, p) == score
    requires WellFormed(p, maxWordLen, wordsSet, letters) ==>
               ScoresReplies(score, ours, BasisSpec(p, wordsSet, letters), NohaltSpec(p, nPlayers, wordsSet, letters))
    ensures ScoredExactly(nhi, p, ours, nPlayers, maxWordLen, wordsSet, letters)
  {
  }

  /** The first `n` proposals are all scored exactly. */
  ghost predicate AllScored(nhi: map<string, real>, proposals: seq<string>, n: nat, nohalt: map<string, set<string>>,
                            nPlayers: nat, maxWordLen: int, wordsSet: set<string>, letters: seq<char>)
    requires n <= |proposals| && forall j :: 0 <= j < n ==> proposals[j] in nohalt
  {
    forall j :: 0 <= j < n ==>
      ScoredExactly(nhi, proposals[j], nohalt[proposals[j]], nPlayers, maxWordLen, wordsSet, letters)
  }

  /** Recording the score of the next proposal, if it has one, keeps the earlier ones scored. */
  lemma ScoredStep(before: map<string, real>, after: map<string, real>, proposals: seq<string>, i: nat,
                   score: Option<real>, nohalt: map<string, set<string>>, nPlayers: nat, maxWordLen: int,
                   wordsSet: set<string>, letters: seq<char>)
    requires i < |proposals| && Distinct(proposals)
    requires forall j :: 0 <= j <= i ==> proposals[j] in nohalt
    requires AllScored(before, proposals, i, nohalt, nPlayers, maxWordLen, wordsSet, letters)
    requires proposals[i] !in before
    requires after == if score.Some? then before[proposals[i] := score.value] else before
    requires WellFormed(proposals[i], maxWordLen, wordsSet, letters) ==>
               ScoresReplies(score, nohalt[proposals[i]], BasisSpec(proposals[i], wordsSet, letters),
                             NohaltSpec(proposals[i], nPlayers, wordsSet, letters))
    ensures AllScored(after, proposals, i + 1, nohalt, nPlayers, maxWordLen, wordsSet, letters)
  {
    var p := proposals[i];
    ScoredBy(after, p, score, nohalt[p], nPlayers, maxWordLen, wordsSet, letters);
    forall j | 0 <= j < i
      ensures ScoredExactly(after, proposals[j], nohalt[proposals[j]], nPlayers, maxWordLen, wordsSet, letters)
    {
      assert proposals[j] != p;
      ScoredBy(after, proposals[j], Entry(before, proposals[j]), nohalt[proposals[j]], nPlayers, maxWordLen,
               wordsSet, letters);
    }
  }

  /**
   * The body of the loop of compute_nohalt_intersection_ratios for one of our proposals: the
   * mean of the scores of the opponent's sure-win replies, if there is any.
   */
  method ScoreProposal(proposal: string, ours: set<string>, nPlayers: nat, maxWordLen: int,
                       wordsSet: set<string>, letters: seq<char>)
    returns (score: Option<real>)
    ensures score.Some? ==> 0.0 <= score.value <= 1.0
    ensures WellFormed(proposal, maxWordLen, wordsSet, letters) ==>
              ScoresReplies(score, ours, BasisSpec(proposal, wordsSet, letters),
                            NohaltSpec(proposal, nPlayers, wordsSet, letters))
  {
    var nhiRatiosList, sources, nextBasis, nextNohalt :=
      NextIntersectionPairs(proposal, ours, nPlayers, maxWordLen, wordsSet, letters);
    score := Consolidate(nhiRatiosList);
    ConsolidateMeaning(nhiRatiosList);
    ScoreMeaning(nhiRatiosList, sources, nextBasis, nextNohalt, ours);
  }

  /**
   * compute_nohalt_intersection_ratios: for each of our proposals, the mean share of our nohalt
   * words among the nohalt words of the opponent's sure-win replies; proposals without such a
   * reply get no entry.
   */
  method ComputeNohaltIntersectionRatios(basis: map<string, set<string>>, nohalt: map<string, set<string>>,
                                         nPlayers: nat, maxWordLen: int, wordsSet: set<string>, letters: seq<char>)
    returns (nhi: map<string, real>)
    requires basis.Keys <= nohalt.Keys
    ensures nhi.Keys <= basis.Keys
    ensures forall p :: p in nhi ==> 0.0 <= nhi[p] <= 1.0
    ensures forall p :: p in basis ==> ScoredExactly(nhi, p, nohalt[p], nPlayers, maxWordLen, wordsSet, letters)
  {
    nhi := map[];
    var proposals := Enumerate(basis.Keys);
    assert forall j :: 0 <= j < |proposals| ==> proposals[j] in nohalt;
    for i := 0 to |proposals|
      invariant nhi.Keys <= Elements(proposals[..i])
      invariant forall p :: p in nhi ==> 0.0 <= nhi[p] <= 1.0
      invariant AllScored(nhi, proposals, i, nohalt, nPlayers, maxWordLen, wordsSet, letters)
    {
      var proposal := proposals[i];
      var basisWordsNohalt := nohalt[proposal];
      var score := ScoreProposal(proposal, basisWordsNohalt, nPlayers, maxWordLen, wordsSet, letters);
      ghost var before := nhi;
      assert proposal !in Elements(proposals[..i]);
      if score.Some? {
        nhi := nhi[proposal := score.value];
      }
      ScoredStep(before, nhi, proposals, i, score, nohalt, nPlayers, maxWordLen, wordsSet, letters);
      assert proposals[..i + 1] == proposals[..i] + [proposal];
    }
    assert proposals[..|proposals|] == proposals;
    forall p | p in basis ensures ScoredExactly(nhi, p, nohalt[p], nPlayers, maxWordLen, wordsSet, letters) {
      assert p in Elements(proposals);
    }
  }
}
