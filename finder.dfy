/**
 * The entry point of agents/SuperAgent/best_proposal_finder.py: the precomputed first turn,
 * the action that realises a proposal, the challenge fallback, and find_best_proposal, which
 * strings the search engine together.
 */
module Finder {
  import opened Wrappers
  import opened Collections
  import opened PyStrings
  import opened Actions
  import opened Classifier
  import opened Optimizer
  import opened Metagame

  /** One entry of the first-turn tables: the best opening letters and their score. */
  datatype FirstTurn = FirstTurn(proposals: seq<string>, ratio: real)

  /** The entry used for a player count the tables do not list. */
  const DefaultFirstTurn: FirstTurn := FirstTurn(["D"], 0.95)

  /** The opening letters are single upper-case letters, and there is at least one. */
  predicate Openings(proposals: seq<string>)
  {
    proposals != [] && forall i :: 0 <= i < |proposals| ==> |proposals[i]| == 1 && 'A' <= proposals[i][0] <= 'Z'
  }

  /** The table of quick_first_turn without the metagame strategy: basis-word ratios. */
  function PlainFirstTurn(nPlayers: int): (e: FirstTurn)
    ensures Openings(e.proposals) && 0.0 < e.ratio < 1.0
    ensures !(2 <= nPlayers <= 11) ==> e == DefaultFirstTurn
  {
    match nPlayers
    case 2 => FirstTurn(["I", "U", "O"], 0.63)
    case 3 => FirstTurn(["X", "Z", "I"], 0.75)
    case 4 => FirstTurn(["I", "N", "O", "U", "X"], 0.78)
    case 5 => FirstTurn(["I", "X", "O"], 0.84)
    case 6 => FirstTurn(["I", "O", "X"], 0.85)
    case 7 => FirstTurn(["Z"], 0.88)
    case 8 => FirstTurn(["Z"], 0.86)
    case 9 => FirstTurn(["K"], 0.86)
    case 10 => FirstTurn(["J", "K", "W"], 0.91)
    case 11 => FirstTurn(["K", "W"], 0.95)
    case _ => DefaultFirstTurn
  }

  /** The table of quick_first_turn with the metagame strategy: intersection scores, all 1. */
  function MetagameFirstTurn(nPlayers: int): (e: FirstTurn)
    ensures Openings(e.proposals)
    ensures 2 <= nPlayers <= 11 ==> e.ratio == 1.0
    ensures !(2 <= nPlayers <= 11) ==> e == DefaultFirstTurn
  {
    match nPlayers
    case 2 => FirstTurn(["T"], 1.0)
    case 3 => FirstTurn(["Y", "E", "R"], 1.0)
    case 4 => FirstTurn(["D", "M"], 1.0)
    case 5 => FirstTurn(["T", "R", "P"], 1.0)
    case 6 => FirstTurn(["D", "T", "S"], 1.0)
    case 7 => FirstTurn(["Y", "O", "H", "E", "R", "P"], 1.0)
    case 8 => FirstTurn(["Y", "B", "O", "M", "E", "L", "K"], 1.0)
    case 9 => FirstTurn(["D", "B", "O", "S", "N", "E", "R"], 1.0)
    case 10 => FirstTurn(["A", "O", "E", "R", "L", "U"], 1.0)
    case 11 => FirstTurn(["D", "O", "N", "E", "R"], 1.0)
    case _ => DefaultFirstTurn
  }

  /** `best_first_turn_dict.get(n_players, default_first_turn)` for the chosen strategy. */
  function FirstTurnEntry(nPlayers: int, useMetagame: bool): (e: FirstTurn)
    ensures Openings(e.proposals) && 0.0 < e.ratio <= 1.0
    ensures !(2 <= nPlayers <= 11) ==> e == DefaultFirstTurn
    ensures useMetagame && 2 <= nPlayers <= 11 ==> e.ratio == 1.0
  {
    if useMetagame then MetagameFirstTurn(nPlayers) else PlainFirstTurn(nPlayers)
  }

  /** The output_summary dictionary of the finder. */
  datatype Summary = Summary(bestProposal: Option<string>, bestRatio: Option<real>,
                             basisWords: Option<set<string>>, basisWordsNohalt: Option<set<string>>,
                             action: Action)

  /** A summary, or the ZeroDivisionError optimize_stall raises on a proposal with no basis words. */
  datatype Outcome = Returned(summary: Summary) | Raised

  /** `[word for word in words_set if s in word]`, as a set. */
  function WordsContaining(s: string, wordsSet: set<string>): (r: set<string>)
    ensures forall w :: w in r <==> w in wordsSet && Contains(w, s)
  {
    set w | w in wordsSet && Contains(w, s)
  }

  /** The matching words are listed, no shorter than `s`, and include `s` itself when it is listed. */
  lemma WordsContainingBounds(s: string, wordsSet: set<string>)
    ensures WordsContaining(s, wordsSet) <= wordsSet
    ensures s in wordsSet ==> s in WordsContaining(s, wordsSet)
    ensures forall w :: w in WordsContaining(s, wordsSet) ==> |w| >= |s|
  {
    ContainsSelf(s);
  }

  /** The empty string is in every word, so every word matches it. */
  lemma WordsContainingEmpty(wordsSet: set<string>)
    ensures WordsContaining("", wordsSet) == wordsSet
  {
    forall w | w in wordsSet ensures Contains(w, "") {
      assert OccursAt("", w, 0);
    }
  }

  /** A longer string that contains `s` matches fewer words: each of them also contains `s`. */
  lemma WordsContainingShrinks(s: string, t: string, wordsSet: set<string>)
    requires Contains(t, s)
    ensures WordsContaining(t, wordsSet) <= WordsContaining(s, wordsSet)
  {
    forall w | w in WordsContaining(t, wordsSet) ensures w in WordsContaining(s, wordsSet) {
      ContainsTransitive(w, t, s);
    }
  }

  /** The summary of the opening move: a table letter added to the start, its words kept. */
  ghost predicate IsFirstTurn(nPlayers: int, wordsSet: set<string>, useMetagame: bool, s: Summary)
  {
    var e := FirstTurnEntry(nPlayers, useMetagame);
    && s.bestProposal.Some? && s.bestProposal.value in e.proposals
    && var p := s.bestProposal.value;
       s == Summary(Some(p), Some(e.ratio), Some(WordsContaining(p, wordsSet)), Some(WordsContaining(p, wordsSet)),
                    Action(AddToStart, Some(p)))
  }

  /**
   * quick_first_turn: a random letter of the table entry for `nPlayers`, added to the start,
   * with the words containing it as both basis sets.
   */
  method QuickFirstTurn(nPlayers: int, wordsSet: set<string>, useMetagame: bool) returns (s: Summary)
    ensures IsFirstTurn(nPlayers, wordsSet, useMetagame, s)
  {
    var bestFirstTurn := FirstTurnEntry(nPlayers, useMetagame);
    var bestProposal := RandomChoice(bestFirstTurn.proposals);
    var basisWords := WordsContaining(bestProposal, wordsSet);
    s := Summary(Some(bestProposal), Some(bestFirstTurn.ratio), Some(basisWords), Some(basisWords),
                 Action(AddToStart, Some(bestProposal)));
  }

  /** The summary when the current string is already a word. */
  const IsWordSummary: Summary := Summary(None, None, None, None, Action(ChallengeIsWord, None))

  /**
   * confirm_challenge_no_word_scenario: ratio 0 and the words containing `current` when there
   * are any (a hand that forces a word), otherwise `None` for both.
   */
  function ConfirmChallengeNoWordScenario(current: string, wordsSet: set<string>)
    : (r: (Option<real>, Option<set<string>>))
    ensures r.0.Some? <==> r.1.Some?
    ensures r.1.Some? <==> exists w :: w in wordsSet && Contains(w, current)
    ensures r.1.Some? ==> r.0.value == 0.0 && r.1.value == WordsContaining(current, wordsSet)
  {
    var matchingWords := WordsContaining(current, wordsSet);
    if matchingWords != {} then (Some(0.0), Some(matchingWords)) else (None, None)
  }

  /**
   * The summary of a challenge that no word can be formed: no proposal, no nohalt words, the
   * action `challenge_no_word` without a string, and ratio 0 with the words containing
   * `current` exactly when there are any.
   */
  function ChallengeNoWordSummary(current: string, wordsSet: set<string>): (r: Summary)
    ensures r.bestProposal.None? && r.basisWordsNohalt.None? && r.action == Action(ChallengeNoWord, None)
    ensures r.bestRatio == (if WordsContaining(current, wordsSet) != {} then Some(0.0) else None)
    ensures r.basisWords == (if WordsContaining(current, wordsSet) != {} then Some(WordsContaining(current, wordsSet))
                             else None)
  {
    var (bestRatio, basisWords) := ConfirmChallengeNoWordScenario(current, wordsSet);
    Summary(None, bestRatio, basisWords, None, Action(ChallengeNoWord, None))
  }

  /** `proposal` is `current` with one letter added at its start or at its end. */
  predicate IsExtension(current: string, proposal: string)
  {
    |proposal| == |current| + 1 && (proposal[..|current|] == current || proposal[1..] == current)
  }

  /** Playing an add action on `current`. */
  function Apply(current: string, a: Action): string
    requires a.payload.Some?
  {
    if a.kind == AddToStart then a.payload.value + current else current + a.payload.value
  }

  /**
   * get_wordnt_action on a one-letter extension.  difflib aligns `current` with the earliest
   * matching block of the proposal, so when the proposal extends `current` at both ends
   * (a string of one repeated letter) the added letter is reported at the end.
   */
  function GetWordntAction(current: string, proposal: string): (a: Action)
    requires IsExtension(current, proposal)
    ensures a.kind == AddToStart || a.kind == AddToEnd
    ensures a.payload.Some? && |a.payload.value| == 1
    ensures Apply(current, a) == proposal
    ensures a.kind == AddToEnd <==> proposal[..|current|] == current
  {
    if proposal[..|current|] == current then Action(AddToEnd, Some([proposal[|current|]]))
    else
      assert proposal == [proposal[0]] + proposal[1..];
      Action(AddToStart, Some([proposal[0]]))
  }

  /** Every proposal for a non-empty string is a one-letter extension of it. */
  lemma ProposalIsExtension(current: string, letters: seq<char>, wordsSet: set<string>, p: string)
    requires current != "" && p in ProposalSet(current, letters, Some(wordsSet))
    ensures IsExtension(current, p) && p !in wordsSet
  {
    ProposalShape(current, letters, Some(wordsSet), p);
    var c :| c in letters && (p == [c] + current || p == current + [c]);
    if p == [c] + current {
      assert p[1..] == current;
    } else {
      assert p[..|current|] == current;
    }
  }

  /** Some proposal has basis words: the ratio map is not empty. */
  ghost predicate HasBasisWords(basis: map<string, set<string>>)
  {
    exists p :: p in basis && basis[p] != {}
  }

  /** Some proposal with basis words keeps all of them: ratio 1, a sure win. */
  ghost predicate HasSureWin(basis: map<string, set<string>>, nohalt: map<string, set<string>>)
  {
    exists p :: p in basis && basis[p] != {} && SureWinIn(p, basis, nohalt)
  }

  /** There are basis words, but every proposal has lost all of them to halt words: ratio 0. */
  ghost predicate MustStall(basis: map<string, set<string>>, nohalt: map<string, set<string>>)
    requires basis.Keys <= nohalt.Keys
  {
    HasBasisWords(basis) && forall p :: p in basis && basis[p] != {} ==> nohalt[p] == {}
  }

  /** The one-ply opponent model is consulted: no sure win, no stall, and the strategy is on. */
  ghost predicate UsesMetagame(basis: map<string, set<string>>, nohalt: map<string, set<string>>, useMetagame: bool)
    requires basis.Keys <= nohalt.Keys
  {
    useMetagame && HasBasisWords(basis) && !HasSureWin(basis, nohalt) && !MustStall(basis, nohalt)
  }

  /** `p` is a best stall: no proposal has a larger average basis-word length. */
  ghost predicate BestStall(basis: map<string, set<string>>, p: string)
  {
    && p in basis && basis[p] != {}
    && forall q :: q in basis ==> basis[q] != {} && AverageLength(basis[q]) <= AverageLength(basis[p])
  }

  /** The nohalt sets are subsets of the basis sets, under the same keys. */
  ghost predicate Nested(basis: map<string, set<string>>, nohalt: map<string, set<string>>)
  {
    basis.Keys == nohalt.Keys && forall p :: p in basis ==> nohalt[p] <= basis[p]
  }

  lemma RatiosMeaning(basis: map<string, set<string>>, nohalt: map<string, set<string>>)
    requires Nested(basis, nohalt)
    ensures var ratios := BasisWordRatios(basis, nohalt);
      && (ratios == map[] <==> !HasBasisWords(basis))
      && (forall p :: p in ratios ==> 0.0 <= ratios[p] <= 1.0)
      && (forall p :: p in ratios ==> (ratios[p] == 1.0 <==> SureWinIn(p, basis, nohalt)))
      && (forall p :: p in ratios ==> (ratios[p] == 0.0 <==> nohalt[p] == {}))
  {
    var ratios := BasisWordRatios(basis, nohalt);
    forall p | p in ratios
      ensures 0.0 <= ratios[p] <= 1.0
      ensures ratios[p] == 1.0 <==> SureWinIn(p, basis, nohalt)
      ensures ratios[p] == 0.0 <==> nohalt[p] == {}
    {
      RatioMeaning(basis, nohalt, p);
    }
    if p :| p in basis && basis[p] != {} {
      assert p in ratios;
    }
  }

  /**
   * Lines 466-485: a pick from the near-best buffer of the ratios; when its ratio is 0, the best
   * stall; when it is neither 0 nor 1 and the metagame strategy is on, a pick from the near-best
   * buffer of the intersection scores, if any proposal has one.  `raised` marks optimize_stall's
   * ZeroDivisionError; `buffer` is the near-best buffer the final pick came from.
   */
  method ChooseProposal(basis: map<string, set<string>>, nohalt: map<string, set<string>>, nPlayers: nat,
                        maxWordLen: int, wordsSet: set<string>, letters: seq<char>, useMetagame: bool)
    returns (best: Option<string>, ratio: real, raised: bool, ghost nhi: map<string, real>, ghost buffer: seq<string>)
    requires Nested(basis, nohalt)
    ensures raised ==> best.None? && MustStall(basis, nohalt) && exists p :: p in basis && basis[p] == {}
    ensures best.Some? ==> best.value in basis && 0.0 <= ratio <= 1.0
    ensures !HasBasisWords(basis) ==> best.None? && !raised
    ensures HasSureWin(basis, nohalt) ==>
              best.Some? && basis[best.value] != {} && SureWinIn(best.value, basis, nohalt) && ratio == 1.0
    ensures MustStall(basis, nohalt) && !raised ==> best.Some? && BestStall(basis, best.value) && ratio == 0.0
    ensures HasBasisWords(basis) && !MustStall(basis, nohalt) && (!UsesMetagame(basis, nohalt, useMetagame) || nhi == map[]) ==>
              var ratios := BasisWordRatios(basis, nohalt);
              && best.Some? && best.value in ratios && ratio == ratios[best.value]
              && NearBestBuffer(ratios, buffer) && best.value in buffer
    ensures !UsesMetagame(basis, nohalt, useMetagame) ==> nhi == map[]
    ensures UsesMetagame(basis, nohalt, useMetagame) ==>
              && nhi.Keys <= basis.Keys
              && (forall p :: p in basis ==> ScoredExactly(nhi, p, nohalt[p], nPlayers, maxWordLen, wordsSet, letters))
              && (nhi != map[] ==>
                    && NearBestBuffer(nhi, buffer)
                    && (best.Some? ==> best.value in nhi && best.value in buffer && ratio == nhi[best.value])
                    && (best.None? <==> forall p :: p in nhi ==> nhi[p] == 0.0))
  {
    var basisWordRatios := ComputeBasisWordRatios(basis, nohalt);
    RatiosMeaning(basis, nohalt);
    best, ratio, buffer := OptimizeRatio(basisWordRatios, true);
    raised := false;
    nhi := map[];
    if HasSureWin(basis, nohalt) {
      var q :| q in basis && basis[q] != {} && SureWinIn(q, basis, nohalt);
      assert q in basisWordRatios;
    }
    if MustStall(basis, nohalt) {
      forall q | q in basisWordRatios ensures basisWordRatios[q] == 0.0 {
      }
    } else if HasBasisWords(basis) {
      var q :| q in basis && basis[q] != {} && nohalt[q] != {};
      assert q in basisWordRatios && basisWordRatios[q] != 0.0;
    }
    if ratio == 0.0 {
      best := OptimizeStall(basis);
      raised := best.None?;
    } else if ratio != 1.0 && useMetagame {
      var nohaltIntersectionRatios := ComputeNohaltIntersectionRatios(basis, nohalt, nPlayers, maxWordLen, wordsSet, letters);
      nhi := nohaltIntersectionRatios;
      if nohaltIntersectionRatios != map[] {
        best, ratio, buffer := OptimizeRatio(nohaltIntersectionRatios, true);
      }
    }
  }

  /** The summary of a chosen proposal: its action, its basis sets and its score. */
  ghost predicate ProposalSummary(current: string, wordsSet: set<string>, basis: map<string, set<string>>,
                                  nohalt: map<string, set<string>>, s: Summary)
  {
    && s.bestProposal.Some?
    && var p := s.bestProposal.value;
       && p in basis && p in nohalt && IsExtension(current, p) && p !in wordsSet
       && s.basisWords == Some(basis[p]) && s.basisWordsNohalt == Some(nohalt[p])
       && s.bestRatio.Some? && 0.0 <= s.bestRatio.value <= 1.0
       && s.action == GetWordntAction(current, p)
  }

  /** The maps the search computes for a non-empty string that is not a word. */
  ghost predicate SearchMaps(current: string, nPlayers: nat, maxWordLen: int, wordsSet: set<string>,
                             letters: seq<char>, basis: map<string, set<string>>, nohalt: map<string, set<string>>)
  {
    && (forall p :: p in basis ==> p in ProposalSet(current, letters, Some(wordsSet)))
    && (forall p :: p in basis ==> basis[p] <= BasisWordsFor(p, current, wordsSet))
    && RemovesOnlyHalted(basis, nohalt, HaltWordsOf(current, nPlayers, wordsSet))
    && (WellFormed(current, maxWordLen, wordsSet, letters) ==>
          basis == BasisSpec(current, wordsSet, letters) && nohalt == NohaltSpec(current, nPlayers, wordsSet, letters))
  }

  /** How the outcome of the search follows from its maps. */
  ghost predicate SearchOutcome(current: string, nPlayers: nat, maxWordLen: int, wordsSet: set<string>,
                                letters: seq<char>, useMetagame: bool, basis: map<string, set<string>>,
                                nohalt: map<string, set<string>>, nhi: map<string, real>, buffer: seq<string>,
                                out: Outcome)
    requires Nested(basis, nohalt)
  {
    && (out.Raised? ==> MustStall(basis, nohalt) && exists p :: p in basis && basis[p] == {})
    && (out.Returned? ==>
          var s := out.summary;
          && (s.bestProposal.None? ==> s == ChallengeNoWordSummary(current, wordsSet))
          && (s.bestProposal.Some? ==> ProposalSummary(current, wordsSet, basis, nohalt, s))
          && (!HasBasisWords(basis) ==> s.bestProposal.None?)
          && (!useMetagame && HasBasisWords(basis) ==> s.bestProposal.Some?)
          && (HasSureWin(basis, nohalt) ==>
                s.bestProposal.Some? && SureWinIn(s.bestProposal.value, basis, nohalt) && s.bestRatio == Some(1.0))
          && (MustStall(basis, nohalt) ==>
                s.bestProposal.Some? && BestStall(basis, s.bestProposal.value) && s.bestRatio == Some(0.0))
          && (UsesMetagame(basis, nohalt, useMetagame) && nhi != map[] ==>
                && NearBestBuffer(nhi, buffer)
                && (s.bestProposal.Some? ==>
                      s.bestProposal.value in nhi && s.bestProposal.value in buffer
                      && s.bestRatio == Some(nhi[s.bestProposal.value]))
                && (s.bestProposal.None? <==> forall p :: p in nhi ==> nhi[p] == 0.0)))
    && (HasBasisWords(basis) && !MustStall(basis, nohalt) && (!UsesMetagame(basis, nohalt, useMetagame) || nhi == map[]) ==>
          && out.Returned? && out.summary.bestProposal.Some?
          && var p := out.summary.bestProposal.value;
             var ratios := BasisWordRatios(basis, nohalt);
             p in ratios && out.summary.bestRatio == Some(ratios[p]) && NearBestBuffer(ratios, buffer) && p in buffer)
    && (UsesMetagame(basis, nohalt, useMetagame) ==>
          && nhi.Keys <= basis.Keys
          && forall p :: p in basis ==> ScoredExactly(nhi, p, nohalt[p], nPlayers, maxWordLen, wordsSet, letters))
  }

  /** No proposal with basis words on well-formed input: the maps hold no empty set. */
  lemma SpecHasNoEmptySet(current: string, wordsSet: set<string>, letters: seq<char>)
    ensures forall p :: p in BasisSpec(current, wordsSet, letters) ==> BasisSpec(current, wordsSet, letters)[p] != {}
  {
  }

  /**
   * What find_best_proposal promises: the first turn for the empty string, a challenge for a
   * word, and otherwise the outcome of the search over the maps it computed; on well-formed
   * input it never raises.
   */
  ghost predicate Decides(current: string, nPlayers: nat, maxWordLen: int, wordsSet: set<string>, letters: seq<char>,
                          useMetagame: bool, out: Outcome, basis: map<string, set<string>>,
                          nohalt: map<string, set<string>>, nhi: map<string, real>, buffer: seq<string>)
  {
    && (current == "" ==> out.Returned? && IsFirstTurn(nPlayers, wordsSet, useMetagame, out.summary))
    && (current != "" && current in wordsSet ==> out == Returned(IsWordSummary))
    && (current != "" && current !in wordsSet ==>
          && SearchMaps(current, nPlayers, maxWordLen, wordsSet, letters, basis, nohalt)
          && Nested(basis, nohalt)
          && SearchOutcome(current, nPlayers, maxWordLen, wordsSet, letters, useMetagame, basis, nohalt, nhi, buffer, out))
    && (WellFormed(current, maxWordLen, wordsSet, letters) ==> out.Returned?)
  }

  /**
   * find_best_proposal.  The empty string gets the precomputed first turn, a word gets
   * challenged, and any other string is searched: the summary of the chosen proposal, or a
   * challenge that no word can be formed when none is chosen.  The basis maps, the
   * intersection scores when they were computed, and the near-best buffer of the final pick
   * are returned for the specification.
   */
  method FindBestProposal(current: string, nPlayers: nat, maxWordLen: int, wordsSet: set<string>,
                          letters: seq<char>, useMetagame: bool)
    returns (out: Outcome, ghost basis: map<string, set<string>>, ghost nohalt: map<string, set<string>>,
             ghost nhi: map<string, real>, ghost buffer: seq<string>)
    ensures Decides(current, nPlayers, maxWordLen, wordsSet, letters, useMetagame, out, basis, nohalt, nhi, buffer)
  {
    basis, nohalt, nhi, buffer := map[], map[], map[], [];
    if current == "" {
      var s := QuickFirstTurn(nPlayers, wordsSet, useMetagame);
      return Returned(s), basis, nohalt, nhi, buffer;
    }
    if current in wordsSet {
      return Returned(IsWordSummary), basis, nohalt, nhi, buffer;
    }
    var basisWordsPerProposal, basisWordsNohaltPerProposal := GetBasisWords(current, nPlayers, maxWordLen, wordsSet, letters);
    basis, nohalt := basisWordsPerProposal, basisWordsNohaltPerProposal;
    var bestProposal, bestRatio, raised;
    bestProposal, bestRatio, raised, nhi, buffer :=
      ChooseProposal(basisWordsPerProposal, basisWordsNohaltPerProposal, nPlayers, maxWordLen, wordsSet, letters, useMetagame);
    if raised {
      SpecHasNoEmptySet(current, wordsSet, letters);
      return Raised, basis, nohalt, nhi, buffer;
    }
    match bestProposal
    case None =>
      out := Returned(ChallengeNoWordSummary(current, wordsSet));
    case Some(p) =>
      ProposalIsExtension(current, letters, wordsSet, p);
      var action := GetWordntAction(current, p);
      out := Returned(Summary(Some(p), Some(bestRatio), Some(basisWordsPerProposal[p]), Some(basisWordsNohaltPerProposal[p]),
                              action));
  }
}
