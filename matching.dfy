/**
 * The multi-pattern matching step of the search engine (the helpers around the
 * Aho-Corasick automaton in agents/SuperAgent/best_proposal_finder.py).
 *
 * The automaton itself is a foreign library; only what `A.iter(text)` reports is
 * modelled: every (end index, keyword) pair of an occurrence of a non-empty keyword,
 * the end index being that of the occurrence's last character.  The stream is
 * consumed in an unspecified order; every result built from it is a union, so the
 * order does not matter.
 */
module Matching {
  import opened PyStrings
  import opened Collections

  /** `k` is a non-empty keyword whose occurrence in `text` ends at index `e`. */
  predicate EndsAt(k: string, text: string, e: int)
  {
    |k| > 0 && e < |text| && OccursAt(k, text, e + 1 - |k|)
  }

  /** The pairs that `A.iter(text)` yields for an automaton built from `keywords`. */
  function Occurrences(keywords: set<string>, text: string): set<(int, string)>
  {
    set e: int, k: string | k in keywords && 0 <= e < |text| && EndsAt(k, text, e) :: (e, k)
  }

  lemma OccurrenceOf(keywords: set<string>, text: string, e: int, k: string)
    ensures (e, k) in Occurrences(keywords, text) <==> k in keywords && EndsAt(k, text, e)
  {
  }

  /** The tokens of a window that contain the keyword and are words of the list. */
  function KeepMatching(tokens: seq<string>, keyword: string, wordsSet: set<string>): (r: seq<string>)
    ensures forall w :: w in r <==> w in tokens && Contains(w, keyword) && w in wordsSet
  {
    if |tokens| == 0 then []
    else
      var rest := KeepMatching(tokens[1..], keyword, wordsSet);
      if Contains(tokens[0], keyword) && tokens[0] in wordsSet then [tokens[0]] + rest else rest
  }

  /**
   * get_words_list_window: the words of `wordsString[end - maxWordLen : end + maxWordLen - 1]`
   * (bounds clipped as the source clips them) that contain the keyword and are in `wordsSet`.
   */
  function WordsListWindow(keyword: string, endIndex: int, maxWordLen: int, wordsString: string,
                           wordsSet: set<string>): (r: seq<string>)
    ensures forall w :: w in r ==> w in wordsSet && Contains(w, keyword)
  {
    var windowStart := Max(0, endIndex - maxWordLen);
    var windowEnd := Min(endIndex + maxWordLen - 1, |wordsString|);
    KeepMatching(Split(PySlice(wordsString, windowStart, windowEnd)), keyword, wordsSet)
  }

  /** Where a word of the list sits in the corpus: between two separators. */
  lemma CorpusPosition(words: seq<string>, i: int) returns (s: int)
    requires 0 <= i < |words|
    ensures 1 <= s && s + |words[i]| < |Corpus(words)|
    ensures OccursAt(words[i], Corpus(words), s)
    ensures Corpus(words)[s - 1] == ' ' && Corpus(words)[s + |words[i]|] == ' '
  {
    var w := words[i];
    var before, after := JoinAround(words, i);
    var text := Corpus(words);
    assert text == " " + before + w + after + " ";
    s := 1 + |before|;
    assert text[s..s + |w|] == w;
  }

  /** A slice around position `s - 1` and the `n` characters after it, cut into its four parts. */
  lemma SliceAround(text: string, a: int, b: int, s: int, n: int)
    requires 0 <= a < s && s + n <= b <= |text| && 0 <= n
    ensures text[a..b] == text[a..s - 1] + [text[s - 1]] + text[s..s + n] + text[s + n..b]
  {
    assert text[a..b] == text[a..s - 1] + text[s - 1..b];
    assert text[s - 1..b] == [text[s - 1]] + text[s..b];
    assert text[s..b] == text[s..s + n] + text[s + n..b];
  }

  /** A space-free word after the last separator is the last token. */
  lemma LastToken(x: string, w: string)
    requires NoSpace(w)
    ensures w in Split(x + " " + w)
  {
    SplitWord(w);
    SplitAtSeparator(x, w);
    assert Split(x + " " + w)[|Split(x)|] == w;
  }

  /** A space-free word between two separators is a token. */
  lemma MiddleToken(x: string, w: string, z: string)
    requires NoSpace(w)
    ensures w in Split(x + " " + (w + " " + z))
  {
    SplitWord(w);
    SplitAtSeparator(x, w + " " + z);
    SplitAtSeparator(w, z);
    assert Split(x + " " + (w + " " + z))[|Split(x)|] == w;
  }

  /** A space-free word lying between separators of a slice is one of the slice's tokens. */
  lemma TokenOfSlice(text: string, a: int, b: int, s: int, w: string)
    requires 0 <= a < s && s + |w| <= b <= |text|
    requires NoSpace(w) && OccursAt(w, text, s) && text[s - 1] == ' '
    requires b == s + |w| || text[s + |w|] == ' '
    ensures w in Split(text[a..b])
  {
    var t := text[a..b];
    var x := text[a..s - 1];
    var y := text[s + |w|..b];
    assert t == x + " " + w + y by {
      SliceAround(text, a, b, s, |w|);
    }
    if y == [] {
      assert t == x + " " + w by {
        assert x + " " + w + y == x + " " + w;
      }
      LastToken(x, w);
    } else {
      var z := y[1..];
      assert t == x + " " + (w + " " + z) by {
        assert y == " " + z;
        assert x + " " + w + y == x + " " + (w + " " + z);
      }
      MiddleToken(x, w, z);
    }
  }

  /**
   * The window around an occurrence of a keyword of length at least 2 inside a word of the
   * corpus recovers that whole word, provided the word has no space and is no longer than
   * `maxWordLen`.
   */
  lemma WindowRecoversWord(words: seq<string>, i: int, keyword: string, j: int, maxWordLen: int,
                           wordsSet: set<string>) returns (e: int)
    requires 0 <= i < |words| && NoSpace(words[i]) && |words[i]| <= maxWordLen && words[i] in wordsSet
    requires |keyword| >= 2 && OccursAt(keyword, words[i], j)
    ensures EndsAt(keyword, Corpus(words), e)
    ensures words[i] in WordsListWindow(keyword, e, maxWordLen, Corpus(words), wordsSet)
  {
    var w := words[i];
    var text := Corpus(words);
    var s := CorpusPosition(words, i);
    e := s + j + |keyword| - 1;
    assert text[s + j..s + j + |keyword|] == w[j..j + |keyword|] by {
      assert text[s..s + |w|] == w;
    }
    assert EndsAt(keyword, text, e);
    var a := Max(0, e - maxWordLen);
    var b := Min(e + maxWordLen - 1, |text|);
    assert 0 <= a < s && s + |w| <= b <= |text|;
    TokenOfSlice(text, a, b, s, w);
    assert PySlice(text, a, b) == text[a..b];
    assert Contains(w, keyword);
  }

  /** `m` maps each keyword that occurs to the union of the windows of its occurrences in `occs`. */
  ghost predicate RecordsWindows(m: map<string, set<string>>, occs: set<(int, string)>, text: string,
                                 maxWordLen: int, wordsSet: set<string>)
  {
    && (forall k :: k in m <==> exists e :: (e, k) in occs)
    && (forall k, w :: k in m ==>
          (w in m[k] <==> exists e :: (e, k) in occs && w in WordsListWindow(k, e, maxWordLen, text, wordsSet)))
  }

  /** Recording one more occurrence: its keyword's entry grows by the words of its window. */
  lemma RecordsWindowsStep(m: map<string, set<string>>, seen: set<(int, string)>, e: int, k: string,
                           entry: set<string>, text: string, maxWordLen: int, wordsSet: set<string>)
    requires RecordsWindows(m, seen, text, maxWordLen, wordsSet)
    requires entry == if k in m then m[k] + Elements(WordsListWindow(k, e, maxWordLen, text, wordsSet))
                      else Elements(WordsListWindow(k, e, maxWordLen, text, wordsSet))
    ensures RecordsWindows(m[k := entry], seen + {(e, k)}, text, maxWordLen, wordsSet)
  {
    var window := WordsListWindow(k, e, maxWordLen, text, wordsSet);
    var m' := m[k := entry];
    var seen' := seen + {(e, k)};
    forall k' ensures k' in m' <==> exists e' :: (e', k') in seen' {
      if k' == k {
        assert (e, k) in seen';
      } else {
        assert k' in m' <==> k' in m;
        assert (exists e' :: (e', k') in seen') <==> (exists e' :: (e', k') in seen);
      }
    }
    forall k', w | k' in m'
      ensures w in m'[k'] <==> exists e' :: (e', k') in seen' && w in WordsListWindow(k', e', maxWordLen, text, wordsSet)
    {
      if k' == k {
        if w in window {
          assert (e, k) in seen';
        }
        if k !in m {
          assert forall e' :: (e', k) !in seen;
        }
      } else {
        assert m'[k'] == m[k'];
      }
    }
  }

  /**
   * get_matched_words_per_keyword: for every keyword occurring in the corpus of `words`, the
   * words recovered from the windows around its occurrences.
   */
  method GetMatchedWordsPerKeyword(keywords: set<string>, words: seq<string>, maxWordLen: int)
    returns (matched: map<string, set<string>>)
    ensures RecordsWindows(matched, Occurrences(keywords, Corpus(words)), Corpus(words), maxWordLen, Elements(words))
    ensures forall k :: k in matched ==> k in keywords
    ensures forall k, w :: k in matched && w in matched[k] ==> w in words && Contains(w, k)
  {
    var wordsString := Corpus(words);
    var wordsSet := Elements(words);
    var stream := Occurrences(keywords, wordsString);
    ghost var all := stream;
    matched := map[];
    ghost var seen: set<(int, string)> := {};
    while stream != {}
      invariant stream + seen == all && stream !! seen
      invariant RecordsWindows(matched, seen, wordsString, maxWordLen, wordsSet)
      decreases |stream|
    {
      var occ :| occ in stream;
      var endIndex, keyword := occ.0, occ.1;
      var window := WordsListWindow(keyword, endIndex, maxWordLen, wordsString, wordsSet);
      var entry: set<string>;
      if keyword !in matched {
        entry := Elements(window);
      } else {
        entry := matched[keyword] + Elements(window);
      }
      RecordsWindowsStep(matched, seen, endIndex, keyword, entry, wordsString, maxWordLen, wordsSet);
      matched := matched[keyword := entry];
      MoveOne(stream, seen, all, occ);
      stream := stream - {occ};
      seen := seen + {occ};
    }
    assert seen == all;
    RecordedWindowsSound(matched, keywords, words, maxWordLen);
  }

  /** Whatever a record of windows holds is an input word containing its keyword. */
  lemma RecordedWindowsSound(m: map<string, set<string>>, keywords: set<string>, words: seq<string>, maxWordLen: int)
    requires RecordsWindows(m, Occurrences(keywords, Corpus(words)), Corpus(words), maxWordLen, Elements(words))
    ensures forall k :: k in m ==> k in keywords
    ensures forall k, w :: k in m && w in m[k] ==> w in words && Contains(w, k)
  {
    var text := Corpus(words);
    forall k | k in m ensures k in keywords {
      var e :| (e, k) in Occurrences(keywords, text);
      OccurrenceOf(keywords, text, e, k);
    }
    forall k, w | k in m && w in m[k] ensures w in words && Contains(w, k) {
      var e :| (e, k) in Occurrences(keywords, text) && w in WordsListWindow(k, e, maxWordLen, text, Elements(words));
    }
  }

  /** The halt-word edge filter of get_matched_words_all, with the source's slicing. */
  predicate EdgeMatch(haltBasisWord: string, keyword: string, proposal: string)
  {
    || haltBasisWord == keyword
    || (proposal == TakePrefix(haltBasisWord, |proposal|) && proposal == TakePrefix(keyword, |proposal|))
    || (proposal == TakeSuffix(haltBasisWord, |proposal|) && proposal == TakeSuffix(keyword, |proposal|))
  }

  /**
   * For a non-empty proposal the edge filter keeps a word exactly when it is the halt word
   * itself, or the proposal is a prefix of both, or a suffix of both.
   */
  lemma EdgeMatchMeaning(haltBasisWord: string, keyword: string, proposal: string)
    requires proposal != []
    ensures EdgeMatch(haltBasisWord, keyword, proposal) <==>
            || haltBasisWord == keyword
            || (proposal <= haltBasisWord && proposal <= keyword)
            || (IsSuffix(proposal, haltBasisWord) && IsSuffix(proposal, keyword))
  {
    TakePrefixMeaning(haltBasisWord, proposal);
    TakePrefixMeaning(keyword, proposal);
    TakeSuffixMeaning(haltBasisWord, proposal);
    TakeSuffixMeaning(keyword, proposal);
  }

  /** A word recovered from the window of an occurrence survives the (optional) edge filter. */
  ghost predicate Kept(w: string, e: int, k: string, text: string, maxWordLen: int, wordsSet: set<string>,
                       proposal: string, edgeMatchOnly: bool)
  {
    w in WordsListWindow(k, e, maxWordLen, text, wordsSet) && (edgeMatchOnly ==> EdgeMatch(w, k, proposal))
  }

  /** The words kept from the windows of the occurrences in `occs`. */
  ghost predicate RecordsKept(matched: set<string>, occs: set<(int, string)>, text: string, maxWordLen: int,
                              wordsSet: set<string>, proposal: string, edgeMatchOnly: bool)
  {
    forall w :: w in matched <==>
      exists e, k :: (e, k) in occs && Kept(w, e, k, text, maxWordLen, wordsSet, proposal, edgeMatchOnly)
  }

  lemma RecordsKeptStep(matched: set<string>, seen: set<(int, string)>, e: int, k: string, kept: seq<string>,
                        text: string, maxWordLen: int, wordsSet: set<string>, proposal: string, edgeMatchOnly: bool)
    requires RecordsKept(matched, seen, text, maxWordLen, wordsSet, proposal, edgeMatchOnly)
    requires forall w :: w in kept <==> Kept(w, e, k, text, maxWordLen, wordsSet, proposal, edgeMatchOnly)
    ensures RecordsKept(matched + Elements(kept), seen + {(e, k)}, text, maxWordLen, wordsSet, proposal, edgeMatchOnly)
  {
    var seen' := seen + {(e, k)};
    forall w ensures w in matched + Elements(kept) <==>
      exists e', k' :: (e', k') in seen' && Kept(w, e', k', text, maxWordLen, wordsSet, proposal, edgeMatchOnly)
    {
      if w in kept {
        assert (e, k) in seen';
      }
    }
  }

  /** The source's three-case filter loop over one window. */
  method FilterEdgeMatches(window: seq<string>, keyword: string, proposal: string) returns (filtered: seq<string>)
    ensures forall w :: w in filtered <==> w in window && EdgeMatch(w, keyword, proposal)
  {
    filtered := [];
    var i := 0;
    while i < |window|
      invariant 0 <= i <= |window|
      invariant forall w :: w in filtered <==> w in window[..i] && EdgeMatch(w, keyword, proposal)
    {
      var haltBasisWord := window[i];
      if haltBasisWord == keyword {
        filtered := filtered + [haltBasisWord];
      } else if proposal == TakePrefix(haltBasisWord, |proposal|) && proposal == TakePrefix(keyword, |proposal|) {
        filtered := filtered + [haltBasisWord];
      } else if proposal == TakeSuffix(haltBasisWord, |proposal|) && proposal == TakeSuffix(keyword, |proposal|) {
        filtered := filtered + [haltBasisWord];
      }
      assert window[..i + 1] == window[..i] + [window[i]];
      i := i + 1;
    }
    assert window[..|window|] == window;
  }

  /**
   * get_matched_words_all: the words recovered from the windows of all keyword occurrences in
   * the corpus of `words`, each window filtered to edge matches when `edgeMatchOnly` holds.
   */
  method GetMatchedWordsAll(keywords: set<string>, words: seq<string>, maxWordLen: int, proposal: string,
                            edgeMatchOnly: bool)
    returns (matched: set<string>)
    ensures RecordsKept(matched, Occurrences(keywords, Corpus(words)), Corpus(words), maxWordLen, Elements(words),
                        proposal, edgeMatchOnly)
    ensures forall w :: w in matched ==>
              w in words && exists k :: k in keywords && Contains(w, k) && (edgeMatchOnly ==> EdgeMatch(w, k, proposal))
  {
    var wordsString := Corpus(words);
    var wordsSet := Elements(words);
    var stream := Occurrences(keywords, wordsString);
    matched := {};
    ghost var seen: set<(int, string)> := {};
    while stream != {}
      invariant stream + seen == Occurrences(keywords, wordsString) && stream !! seen
      invariant RecordsKept(matched, seen, wordsString, maxWordLen, wordsSet, proposal, edgeMatchOnly)
      decreases |stream|
    {
      var occ :| occ in stream;
      var (endIndex, keyword) := occ;
      var window := WordsListWindow(keyword, endIndex, maxWordLen, wordsString, wordsSet);
      if edgeMatchOnly {
        window := FilterEdgeMatches(window, keyword, proposal);
      }
      RecordsKeptStep(matched, seen, endIndex, keyword, window, wordsString, maxWordLen, wordsSet, proposal, edgeMatchOnly);
      matched := matched + Elements(window);
      MoveOne(stream, seen, Occurrences(keywords, wordsString), occ);
      stream := stream - {occ};
      seen := seen + {occ};
    }
    forall w | w in matched
      ensures w in words && exists k :: k in keywords && Contains(w, k) && (edgeMatchOnly ==> EdgeMatch(w, k, proposal))
    {
      var e, k :| (e, k) in seen && Kept(w, e, k, wordsString, maxWordLen, wordsSet, proposal, edgeMatchOnly);
      OccurrenceOf(keywords, wordsString, e, k);
    }
  }

  /** The corpus words are usable by the window extraction: no spaces, none longer than `maxWordLen`. */
  ghost predicate FitsWindows(words: seq<string>, maxWordLen: int)
  {
    forall w :: w in words ==> NoSpace(w) && |w| <= maxWordLen
  }

  /** Keywords the window extraction always recovers: at least two letters, no space. */
  ghost predicate LongKeywords(keywords: set<string>)
  {
    forall k :: k in keywords ==> |k| >= 2 && NoSpace(k)
  }

  /** On well-formed input a word containing a keyword is recorded under that keyword. */
  lemma RecordedWord(m: map<string, set<string>>, keywords: set<string>, words: seq<string>, maxWordLen: int,
                     k: string, w: string)
    requires RecordsWindows(m, Occurrences(keywords, Corpus(words)), Corpus(words), maxWordLen, Elements(words))
    requires FitsWindows(words, maxWordLen) && LongKeywords(keywords)
    requires k in keywords && w in words && Contains(w, k)
    ensures k in m && w in m[k]
  {
    var text := Corpus(words);
    var i :| 0 <= i < |words| && words[i] == w;
    var j :| 0 <= j <= |w| - |k| && OccursAt(k, w, j);
    var e := WindowRecoversWord(words, i, k, j, maxWordLen, Elements(words));
    OccurrenceOf(keywords, text, e, k);
  }

  /**
   * On well-formed input the per-keyword matching is exact: the keywords recorded are those
   * contained in some word, each with exactly the words that contain it.
   */
  lemma MatchedPerKeywordExact(m: map<string, set<string>>, keywords: set<string>, words: seq<string>, maxWordLen: int)
    requires RecordsWindows(m, Occurrences(keywords, Corpus(words)), Corpus(words), maxWordLen, Elements(words))
    requires forall k :: k in m ==> k in keywords
    requires forall k, w :: k in m && w in m[k] ==> w in words && Contains(w, k)
    requires FitsWindows(words, maxWordLen) && LongKeywords(keywords)
    ensures forall k :: k in m <==> k in keywords && exists w :: w in words && Contains(w, k)
    ensures forall k :: k in m ==> m[k] == set w | w in words && Contains(w, k)
  {
    var text := Corpus(words);
    var occ := Occurrences(keywords, text);
    forall k | k in m ensures exists w :: w in words && Contains(w, k) {
      var e :| (e, k) in occ;
      OccurrenceOf(keywords, text, e, k);
      var w := SpaceFreeInCorpus(words, k, e + 1 - |k|);
    }
    forall k | k in keywords && exists w :: w in words && Contains(w, k) ensures k in m {
      var w :| w in words && Contains(w, k);
      RecordedWord(m, keywords, words, maxWordLen, k, w);
    }
    forall k | k in m ensures m[k] == set w | w in words && Contains(w, k) {
      forall w | w in words && Contains(w, k) ensures w in m[k] {
        RecordedWord(m, keywords, words, maxWordLen, k, w);
      }
    }
  }

  /**
   * On well-formed input the edge-filtered matching is exact: a word is reported exactly when
   * it contains some keyword that passes the filter.
   */
  lemma MatchedAllExact(matched: set<string>, keywords: set<string>, words: seq<string>, maxWordLen: int,
                        proposal: string, edgeMatchOnly: bool)
    requires RecordsKept(matched, Occurrences(keywords, Corpus(words)), Corpus(words), maxWordLen, Elements(words),
                         proposal, edgeMatchOnly)
    requires forall w :: w in matched ==>
               w in words && exists k :: k in keywords && Contains(w, k) && (edgeMatchOnly ==> EdgeMatch(w, k, proposal))
    requires FitsWindows(words, maxWordLen) && LongKeywords(keywords)
    ensures matched == set w | w in words && exists k :: k in keywords && Contains(w, k) &&
                                                     (edgeMatchOnly ==> EdgeMatch(w, k, proposal))
  {
    var text := Corpus(words);
    forall w | w in words && exists k :: k in keywords && Contains(w, k) && (edgeMatchOnly ==> EdgeMatch(w, k, proposal))
      ensures w in matched
    {
      var k :| k in keywords && Contains(w, k) && (edgeMatchOnly ==> EdgeMatch(w, k, proposal));
      var i :| 0 <= i < |words| && words[i] == w;
      var j :| 0 <= j <= |w| - |k| && OccursAt(k, w, j);
      var e := WindowRecoversWord(words, i, k, j, maxWordLen, Elements(words));
      OccurrenceOf(keywords, text, e, k);
      assert Kept(w, e, k, text, maxWordLen, Elements(words), proposal, edgeMatchOnly);
    }
  }
}
