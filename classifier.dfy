/**
 * Proposals and their basis words (agents/SuperAgent/best_proposal_finder.py): the one-letter
 * extensions of the current string, the dictionary words each extension can still grow into
 * ("basis words"), and those of them that no edge-matched halt word cuts short ("nohalt").
 */
module Classifier {
  import opened Wrappers
  import opened Collections
  import opened PyStrings
  import opened Matching

  /** The strings one letter from `letters` longer than `current`, on either side. */
  function Extensions(current: string, letters: seq<char>): set<string>
  {
    (set c | c in letters :: [c] + current) + (set c | c in letters :: current + [c])
  }

  /** A proposal survives when there is no word set, or it is not itself a word. */
  predicate Allowed(p: string, wordsSet: Option<set<string>>)
  {
    wordsSet.None? || p !in wordsSet.value
  }

  /** What generate_proposal_strings proposes, as a set. */
  function ProposalSet(current: string, letters: seq<char>, wordsSet: Option<set<string>>): set<string>
  {
    if current == "" then set c | c in letters :: [c]
    else set p | p in Extensions(current, letters) && Allowed(p, wordsSet)
  }

  /** The letters as one-letter strings, in order. */
  function LetterStrings(letters: seq<char>): (r: seq<string>)
    ensures |r| == |letters| && forall i :: 0 <= i < |letters| ==> r[i] == [letters[i]]
  {
    seq(|letters|, i requires 0 <= i < |letters| => [letters[i]])
  }

  /** The one-letter strings of the letters are the one-letter strings of their elements. */
  lemma LetterStringsElements(letters: seq<char>)
    ensures Elements(LetterStrings(letters)) == set c | c in letters :: [c]
  {
    var proposals := LetterStrings(letters);
    forall p ensures p in proposals <==> exists c :: c in letters && p == [c] {
      if p in proposals {
        var i :| 0 <= i < |proposals| && proposals[i] == p;
        assert letters[i] in letters;
      }
      if c :| c in letters && p == [c] {
        var i :| 0 <= i < |letters| && letters[i] == c;
        assert proposals[i] == p;
      }
    }
  }

  /** One more letter adds its two extensions. */
  lemma ExtensionsStep(current: string, letters: seq<char>, i: int)
    requires 0 <= i < |letters|
    ensures Extensions(current, letters[..i + 1]) ==
            Extensions(current, letters[..i]) + {[letters[i]] + current, current + [letters[i]]}
  {
    assert letters[..i + 1] == letters[..i] + [letters[i]];
  }

  /** The allowed extensions by one more letter are those by the earlier letters and its own two. */
  lemma AllowedStep(current: string, letters: seq<char>, i: int, wordsSet: Option<set<string>>)
    requires 0 <= i < |letters|
    ensures (set p | p in Extensions(current, letters[..i + 1]) && Allowed(p, wordsSet)) ==
            (set p | p in Extensions(current, letters[..i]) && Allowed(p, wordsSet)) +
            (set p | p in {[letters[i]] + current, current + [letters[i]]} && Allowed(p, wordsSet))
  {
    ExtensionsStep(current, letters, i);
  }

  /**
   * generate_proposal_strings: for the empty string the letters themselves, in order;
   * otherwise each letter added on the left and on the right, existing words dropped.
   */
  method GenerateProposalStrings(current: string, letters: seq<char>, wordsSet: Option<set<string>>)
    returns (proposals: seq<string>)
    ensures current == "" ==> proposals == LetterStrings(letters)
    ensures current != "" ==> Distinct(proposals)
    ensures Elements(proposals) == ProposalSet(current, letters, wordsSet)
  {
    if current == "" {
      proposals := LetterStrings(letters);
      LetterStringsElements(letters);
      return;
    }
    var proposed: set<string> := {};
    for i := 0 to |letters|
      invariant proposed == set p | p in Extensions(current, letters[..i]) && Allowed(p, wordsSet)
    {
      ghost var before := proposed;
      var letter := letters[i];
      // position "left"
      var proposal := [letter] + current;
      if wordsSet.Some? {
        if proposal !in wordsSet.value {
          proposed := proposed + {proposal};
        }
      } else {
        proposed := proposed + {proposal};
      }
      // position "right"
      proposal := current + [letter];
      if wordsSet.Some? {
        if proposal !in wordsSet.value {
          proposed := proposed + {proposal};
        }
      } else {
        proposed := proposed + {proposal};
      }
      assert proposed == before + set p | p in {[letter] + current, current + [letter]} && Allowed(p, wordsSet);
      AllowedStep(current, letters, i, wordsSet);
    }
    assert letters[..|letters|] == letters;
    proposals := Enumerate(proposed);
  }

  /**
   * Every proposal for a non-empty string is a one-letter extension of it on one side, is one
   * letter longer, contains it, and is not a word; for the empty string it is a single letter.
   */
  lemma ProposalShape(current: string, letters: seq<char>, wordsSet: Option<set<string>>, p: string)
    requires p in ProposalSet(current, letters, wordsSet)
    ensures current == "" ==> exists c :: c in letters && p == [c]
    ensures current != "" ==>
              && |p| == |current| + 1
              && (exists c :: c in letters && (p == [c] + current || p == current + [c]))
              && Contains(p, current)
              && Allowed(p, wordsSet)
  {
    if current != "" {
      var c :| c in letters && (p == [c] + current || p == current + [c]);
      if p == [c] + current {
        assert OccursAt(current, p, 1);
      } else {
        assert OccursAt(current, p, 0);
      }
    }
  }

  /** The input admits the exact analysis: non-empty, space-free words that fit the window. */
  ghost predicate WellFormed(current: string, maxWordLen: int, wordsSet: set<string>, letters: seq<char>)
  {
    && current != "" && NoSpace(current) && ' ' !in letters
    && forall w :: w in wordsSet ==> w != "" && NoSpace(w) && |w| <= maxWordLen
  }

  /** `w` contains a halt word for which the edge filter of get_matched_words_all fires. */
  ghost predicate HaltsAtEdge(w: string, p: string, haltWords: set<string>)
  {
    exists h :: h in haltWords && Contains(w, h) && EdgeMatch(w, h, p)
  }

  /** `nohalt` keeps the keys of `basis` and removes from each entry only edge-halted words. */
  ghost predicate RemovesOnlyHalted(basis: map<string, set<string>>, nohalt: map<string, set<string>>,
                                    haltWords: set<string>)
  {
    && nohalt.Keys == basis.Keys
    && (forall p :: p in basis ==> nohalt[p] <= basis[p])
    && (forall p, w :: p in basis && w in basis[p] && w !in nohalt[p] ==> HaltsAtEdge(w, p, haltWords))
  }

  /** The entry of `p` holds exactly its basis words that are not edge-halted. */
  ghost predicate NohaltExactAt(basis: map<string, set<string>>, nohalt: map<string, set<string>>,
                                haltWords: set<string>, p: string)
    requires p in basis && p in nohalt
  {
    nohalt[p] == set w | w in basis[p] && !HaltsAtEdge(w, p, haltWords)
  }

  /**
   * get_basis_words_per_proposal: the basis words of each proposal that occurs in them, and
   * the same sets with every word removed that holds an edge-matched halt word.
   */
  method GetBasisWordsPerProposal(proposals: seq<string>, haltWords: seq<string>, basisWords: seq<string>,
                                  maxWordLen: int)
    returns (basis: map<string, set<string>>, nohalt: map<string, set<string>>)
    ensures forall p :: p in basis ==> p in proposals
    ensures forall p, w :: p in basis && w in basis[p] ==> w in basisWords && Contains(w, p)
    ensures RemovesOnlyHalted(basis, nohalt, Elements(haltWords))
    ensures FitsWindows(basisWords, maxWordLen) && LongKeywords(Elements(proposals)) ==>
              && (forall p :: p in basis <==> p in proposals && exists w :: w in basisWords && Contains(w, p))
              && (forall p :: p in basis ==> basis[p] == set w | w in basisWords && Contains(w, p))
    ensures FitsWindows(basisWords, maxWordLen) && LongKeywords(Elements(haltWords)) ==>
              forall p :: p in basis ==> NohaltExactAt(basis, nohalt, Elements(haltWords), p)
  {
    basis := GetMatchedWordsPerKeyword(Elements(proposals), basisWords, maxWordLen);
    if FitsWindows(basisWords, maxWordLen) && LongKeywords(Elements(proposals)) {
      MatchedPerKeywordExact(basis, Elements(proposals), basisWords, maxWordLen);
    }
    // the deep copy
    nohalt := basis;
    if |haltWords| > 0 {
      nohalt := RemoveHaltBasisWords(basis, haltWords, basisWords, maxWordLen);
    } else {
      assert forall p, w :: !HaltsAtEdge(w, p, Elements(haltWords));
    }
  }

  /**
   * The state of the removal loop after the first `i` proposals of `items`: those are done
   * (exactly so when `exact`), the rest untouched.
   */
  ghost predicate RemovalProgress(basis: map<string, set<string>>, nohalt: map<string, set<string>>,
                                  halt: set<string>, items: seq<string>, i: int, exact: bool)
  {
    && 0 <= i <= |items|
    && Distinct(items) && Elements(items) == basis.Keys
    && RemovesOnlyHalted(basis, nohalt, halt)
    && (forall j :: i <= j < |items| ==> nohalt[items[j]] == basis[items[j]])
    && (exact ==> forall j :: 0 <= j < i ==> NohaltExactAt(basis, nohalt, halt, items[j]))
  }

  /** Removing the halted words of the next proposal advances the loop by one. */
  lemma RemovalStep(basis: map<string, set<string>>, nohalt: map<string, set<string>>, halt: set<string>,
                    items: seq<string>, i: int, exact: bool, removed: set<string>)
    requires RemovalProgress(basis, nohalt, halt, items, i, exact) && i < |items|
    requires forall w :: w in basis[items[i]] && w in removed ==> HaltsAtEdge(w, items[i], halt)
    requires exact ==> basis[items[i]] - removed == set w | w in basis[items[i]] && !HaltsAtEdge(w, items[i], halt)
    ensures RemovalProgress(basis, nohalt[items[i] := nohalt[items[i]] - removed], halt, items, i + 1, exact)
  {
    var proposal := items[i];
    var nohalt' := nohalt[proposal := nohalt[proposal] - removed];
    assert nohalt[proposal] == basis[proposal];
    assert forall j :: 0 <= j < |items| && j != i ==> items[j] != proposal;
    assert nohalt'.Keys == basis.Keys;
    forall j | i + 1 <= j < |items| ensures nohalt'[items[j]] == basis[items[j]] {
      assert items[j] != proposal;
    }
  }

  /** The `if halt_words:` loop of get_basis_words_per_proposal, over the proposals in dict order. */
  method RemoveHaltBasisWords(basis: map<string, set<string>>, haltWords: seq<string>, basisWords: seq<string>,
                              maxWordLen: int)
    returns (nohalt: map<string, set<string>>)
    requires forall p, w :: p in basis && w in basis[p] ==> w in basisWords
    ensures RemovesOnlyHalted(basis, nohalt, Elements(haltWords))
    ensures FitsWindows(basisWords, maxWordLen) && LongKeywords(Elements(haltWords)) ==>
              forall p :: p in basis ==> NohaltExactAt(basis, nohalt, Elements(haltWords), p)
  {
    var halt := Elements(haltWords);
    ghost var exact := FitsWindows(basisWords, maxWordLen) && LongKeywords(halt);
    nohalt := basis;
    var items := Enumerate(basis.Keys);
    for i := 0 to |items|
      invariant RemovalProgress(basis, nohalt, halt, items, i, exact)
    {
      var proposal := items[i];
      var basisWordsFiltered := Enumerate(basis[proposal]);
      var haltBasisWords := GetMatchedWordsAll(halt, basisWordsFiltered, maxWordLen, proposal, true);
      RemovedHaltWords(basis[proposal], basisWordsFiltered, haltBasisWords, halt, maxWordLen, proposal, basisWords);
      RemovalStep(basis, nohalt, halt, items, i, exact, haltBasisWords);
      nohalt := nohalt[proposal := nohalt[proposal] - haltBasisWords];
    }
    forall p | p in basis ensures exact ==> NohaltExactAt(basis, nohalt, halt, p) {
      var j :| 0 <= j < |items| && items[j] == p;
    }
  }

  /** What one round of the halt-word removal takes out of a proposal's basis words. */
  lemma RemovedHaltWords(words: set<string>, enumerated: seq<string>, removed: set<string>, haltWords: set<string>,
                         maxWordLen: int, proposal: string, basisWords: seq<string>)
    requires Elements(enumerated) == words
    requires RecordsKept(removed, Occurrences(haltWords, Corpus(enumerated)), Corpus(enumerated), maxWordLen,
                         Elements(enumerated), proposal, true)
    requires forall w :: w in removed ==>
               w in enumerated && exists k :: k in haltWords && Contains(w, k) && EdgeMatch(w, k, proposal)
    requires forall w :: w in words ==> w in basisWords
    ensures forall w :: w in words && w in removed ==> HaltsAtEdge(w, proposal, haltWords)
    ensures FitsWindows(basisWords, maxWordLen) && LongKeywords(haltWords) ==>
              words - removed == set w | w in words && !HaltsAtEdge(w, proposal, haltWords)
  {
    if FitsWindows(basisWords, maxWordLen) && LongKeywords(haltWords) {
      assert FitsWindows(enumerated, maxWordLen);
      MatchedAllExact(removed, haltWords, enumerated, maxWordLen, proposal, true);
    }
  }

  /** The words that can still be formed towards: longer than `len(current) + 1`. */
  function BasisWordsOf(current: string, wordsSet: set<string>): set<string>
  {
    set w | w in wordsSet && |w| > |current| + 1
  }

  /** A halt word: its length is a multiple of `len(current) + n_players + 1`. */
  predicate IsHaltWord(w: string, current: string, nPlayers: nat)
  {
    |w| % (|current| + nPlayers + 1) == 0
  }

  function HaltWordsOf(current: string, nPlayers: nat, wordsSet: set<string>): set<string>
  {
    set w | w in wordsSet && IsHaltWord(w, current, nPlayers)
  }

  /**
   * The basis words are the listed words that not even a proposal, one letter longer than
   * `current`, completes; every other listed word is at most that long.
   */
  lemma BasisWordsOutlast(current: string, wordsSet: set<string>, p: string)
    requires |p| == |current| + 1
    ensures BasisWordsOf(current, wordsSet) <= wordsSet
    ensures forall w :: w in BasisWordsOf(current, wordsSet) ==> |w| > |p| && w != p
    ensures forall w :: w in wordsSet && w !in BasisWordsOf(current, wordsSet) ==> |w| <= |p|
  {
  }

  /**
   * The empty string is a halt word, a word one full round of letters longer than `current`
   * is one, and every other halt word is at least that long.
   */
  lemma HaltWordLength(w: string, current: string, nPlayers: nat)
    ensures w == [] ==> IsHaltWord(w, current, nPlayers)
    ensures |w| == |current| + nPlayers + 1 ==> IsHaltWord(w, current, nPlayers)
    ensures IsHaltWord(w, current, nPlayers) && w != [] ==> |w| >= |current| + nPlayers + 1
  {
    if IsHaltWord(w, current, nPlayers) && w != [] {
      MultipleAtLeast(|w|, |current| + nPlayers + 1);
    }
  }

  /** The halt words are listed words, and each nonempty one is a full round longer than `current`. */
  lemma HaltWordsLong(current: string, nPlayers: nat, wordsSet: set<string>)
    ensures HaltWordsOf(current, nPlayers, wordsSet) <= wordsSet
    ensures forall w :: w in HaltWordsOf(current, nPlayers, wordsSet) && w != [] ==> |w| >= |current| + nPlayers + 1
    ensures forall w :: w in wordsSet && |w| == |current| + nPlayers + 1 ==> w in HaltWordsOf(current, nPlayers, wordsSet)
  {
    forall w | w in wordsSet ensures w in HaltWordsOf(current, nPlayers, wordsSet) && w != [] ==>
                                       |w| >= |current| + nPlayers + 1 {
      HaltWordLength(w, current, nPlayers);
    }
    forall w | w in wordsSet && |w| == |current| + nPlayers + 1
      ensures w in HaltWordsOf(current, nPlayers, wordsSet)
    {
      HaltWordLength(w, current, nPlayers);
    }
  }

  /** The basis words of one proposal: words long enough that contain it. */
  ghost function BasisWordsFor(p: string, current: string, wordsSet: set<string>): set<string>
  {
    set w | w in BasisWordsOf(current, wordsSet) && Contains(w, p)
  }

  /** The nohalt basis words of one proposal. */
  ghost function NohaltWordsFor(p: string, current: string, nPlayers: nat, wordsSet: set<string>): set<string>
  {
    set w | w in BasisWordsFor(p, current, wordsSet) && !HaltsAtEdge(w, p, HaltWordsOf(current, nPlayers, wordsSet))
  }

  /** The basis map get_basis_words is meant to compute: one entry per proposal with basis words. */
  ghost function BasisSpec(current: string, wordsSet: set<string>, letters: seq<char>): map<string, set<string>>
  {
    map p | p in ProposalSet(current, letters, Some(wordsSet)) && BasisWordsFor(p, current, wordsSet) != {} ::
      BasisWordsFor(p, current, wordsSet)
  }

  ghost function NohaltSpec(current: string, nPlayers: nat, wordsSet: set<string>, letters: seq<char>)
    : map<string, set<string>>
  {
    map p | p in BasisSpec(current, wordsSet, letters) :: NohaltWordsFor(p, current, nPlayers, wordsSet)
  }

  /** A non-empty multiple of a positive number is at least that number. */
  lemma MultipleAtLeast(x: int, d: int)
    requires x > 0 && d > 0 && x % d == 0
    ensures x >= d
  {
  }

  /** Well-formed input meets the conditions under which the matching steps are exact. */
  lemma {:induction false} WellFormedMatching(current: string, nPlayers: nat, maxWordLen: int, wordsSet: set<string>,
                                              letters: seq<char>, proposals: seq<string>, haltWords: seq<string>,
                                              basisWords: seq<string>)
    requires WellFormed(current, maxWordLen, wordsSet, letters)
    requires Elements(proposals) == ProposalSet(current, letters, Some(wordsSet))
    requires Elements(haltWords) == HaltWordsOf(current, nPlayers, wordsSet)
    requires Elements(basisWords) == BasisWordsOf(current, wordsSet)
    ensures FitsWindows(basisWords, maxWordLen)
    ensures LongKeywords(Elements(proposals)) && LongKeywords(Elements(haltWords))
  {
    forall w | w in basisWords ensures NoSpace(w) && |w| <= maxWordLen {
      assert w in Elements(basisWords);
    }
    forall p | p in Elements(proposals) ensures |p| >= 2 && NoSpace(p) {
      var c :| c in letters && (p == [c] + current || p == current + [c]);
      assert c != ' ';
    }
    forall h | h in Elements(haltWords) ensures |h| >= 2 && NoSpace(h) {
      MultipleAtLeast(|h|, |current| + nPlayers + 1);
    }
  }

  /**
   * get_basis_words: the basis and nohalt maps of the proposals for `current`.  Every recorded
   * word is a long-enough word containing its proposal, nohalt entries only lose edge-halted
   * words, and on well-formed input both maps are exactly their specifications.
   */
  method GetBasisWords(current: string, nPlayers: nat, maxWordLen: int, wordsSet: set<string>, letters: seq<char>)
    returns (basis: map<string, set<string>>, nohalt: map<string, set<string>>)
    ensures forall p :: p in basis ==> p in ProposalSet(current, letters, Some(wordsSet))
    ensures forall p :: p in basis ==> basis[p] <= BasisWordsFor(p, current, wordsSet)
    ensures RemovesOnlyHalted(basis, nohalt, HaltWordsOf(current, nPlayers, wordsSet))
    ensures WellFormed(current, maxWordLen, wordsSet, letters) ==>
              basis == BasisSpec(current, wordsSet, letters) && nohalt == NohaltSpec(current, nPlayers, wordsSet, letters)
  {
    var basisWords := Enumerate(BasisWordsOf(current, wordsSet));
    var haltWords := Enumerate(HaltWordsOf(current, nPlayers, wordsSet));
    var proposals := GenerateProposalStrings(current, letters, Some(wordsSet));
    basis, nohalt := GetBasisWordsPerProposal(proposals, haltWords, basisWords, maxWordLen);
    if WellFormed(current, maxWordLen, wordsSet, letters) {
      WellFormedMatching(current, nPlayers, maxWordLen, wordsSet, letters, proposals, haltWords, basisWords);
      SpecMaps(current, nPlayers, wordsSet, letters, proposals, basisWords, basis, nohalt);
    }
  }

  /** Assembling the two specification maps from the per-proposal facts. */
  lemma SpecMaps(current: string, nPlayers: nat, wordsSet: set<string>, letters: seq<char>, proposals: seq<string>,
                 basisWords: seq<string>, basis: map<string, set<string>>, nohalt: map<string, set<string>>)
    requires Elements(proposals) == ProposalSet(current, letters, Some(wordsSet))
    requires Elements(basisWords) == BasisWordsOf(current, wordsSet)
    requires forall p :: p in basis <==> p in proposals && exists w :: w in basisWords && Contains(w, p)
    requires forall p :: p in basis ==> basis[p] == set w | w in basisWords && Contains(w, p)
    requires RemovesOnlyHalted(basis, nohalt, HaltWordsOf(current, nPlayers, wordsSet))
    requires forall p :: p in basis ==> NohaltExactAt(basis, nohalt, HaltWordsOf(current, nPlayers, wordsSet), p)
    ensures basis == BasisSpec(current, wordsSet, letters) && nohalt == NohaltSpec(current, nPlayers, wordsSet, letters)
  {
    var spec := BasisSpec(current, wordsSet, letters);
    forall p ensures p in basis <==> p in spec {
      if p in basis {
        var w :| w in basisWords && Contains(w, p);
        assert w in BasisWordsFor(p, current, wordsSet);
      }
      if p in spec {
        var w :| w in BasisWordsFor(p, current, wordsSet);
        assert w in basisWords;
      }
    }
    forall p | p in basis ensures basis[p] == spec[p] {
      assert basis[p] == BasisWordsFor(p, current, wordsSet);
    }
    assert basis == spec;
  }
}
