# Wordn't: the game and its search bot, in Dafny

Wordn't is a word game. Players take turns adding one letter to the start or the end of a
shared string. A player loses by completing a word of at least three letters, by challenging
wrongly, or by failing to back up the string with a real word when challenged. This project
models three parts of the repository:

- **The rules** (`game_env.py`, class `WordntEnv`). The class `GameEnv.WordntEnv` keeps the
  game's fields and updates them in place. The function `GameEnv.Step` states what one move
  does to the state. `PlayAction` is proved to change the fields exactly as `Step` says, and
  `Step` is proved to keep the turn at a seat of the table while the game runs.
- **The search engine** (`agents/SuperAgent/best_proposal_finder.py`). It is split into
  modules that follow the source's own layers:
  - `Matching` covers the keyword windows around substring matches in the joined word list.
  - `Classifier` covers proposals, basis words (dictionary words a proposal can still grow
    into) and nohalt words (basis words that no edge-matched halt word cuts short).
  - `Optimizer` covers the basis-word ratio, the randomised near-best choice and the stall
    heuristic.
  - `Metagame` covers the one-ply opponent model.
  - `Finder` covers `find_best_proposal`.
  - Each loop of the source is a method with invariants, proved against a specification
    function (`ComputeBasisWordRatios` against `BasisWordRatios`, for example). The one
    exception is the walk over `difflib.ndiff`'s output in `get_wordnt_action`, which is the
    function `GetWordntAction` (see "## Left out"). The
    well-formed input is:
    - non-empty, space-free words no longer than `max_word_len`;
    - letters without a space;
    - a non-empty, space-free current string.

    On well-formed input the computed maps are proved equal to their set-comprehension
    specifications `BasisSpec` and `NohaltSpec`.
- **The bot** (`agents/SuperAgent/agent.py`, class `Agent`). `SuperAgent.Agent` keeps the basis
  words of its last proposal. It answers a challenge with a remembered word, and otherwise
  plays what `FindBestProposal` decides.

Python's behaviour is modelled explicitly:

- Slicing with clipped and negative bounds is `PySlice`, and `str.split(" ")` is `Split`.
- Iterating a set or a dict happens in an order the model leaves open (`Enumerate`, `:|`).
- `random.choice` is an unspecified pick from the list (`RandomChoice`).
- Floating-point ratios are exact reals. The 0.01 threshold of `get_random_max_ratio` is exact.
- The Aho-Corasick automaton is a foreign library. It is modelled by what `A.iter` reports:
  the set of (end index, keyword) pairs of every occurrence of a non-empty keyword.
- The ZeroDivisionError that `optimize_stall` raises on an empty basis set is the `Raised`
  outcome of the finder. It is proved impossible on well-formed input.

Some behaviour of the code is modelled as written:

- The fallback at line 357 of `best_proposal_finder.py` filters a list that has just been
  found empty, so it never yields anything. As a result a proposal gets an intersection
  score only when some opponent reply has ratio exactly 1 (`Metagame.Consolidate`,
  `ConsolidateMeaning`).
- When every intersection score is 0, `optimize_ratio` returns `None`. The finder then
  challenges that no word can be formed (lines 482-492), even though it had a proposal with
  a ratio strictly between 0 and 1. `Finder.ChooseProposal` proves that, under the metagame
  strategy with some score, no proposal is chosen exactly when every score is 0, and the
  finder then returns `ChallengeNoWordSummary` (`Finder.SearchOutcome`).
- `get_random_max_ratio` never buffers the item it popped last. When every proposal has
  ratio 1, the one sorted first is never chosen, so with two such proposals only the top one
  can be chosen (`Optimizer.PerfectTiesLoseOne`).
- `_is_valid_action` accepts `claim_word` without a preceding `challenge_no_word`
  (`GameEnv.IsValidAction`).
- `get_wordnt_action` reports an added letter at the end when the proposal extends the
  current string at both ends. That only happens for a string of one repeated letter:
  difflib aligns the current string with the earliest matching block of the proposal
  (`Finder.GetWordntAction`).

## Model

| member | source | states |
|---|---|---|
| PyStrings.PySlice | agents/SuperAgent/best_proposal_finder.py:18-21 | Python's clipped slice is always defined and equals the plain slice for in-range bounds |
| PyStrings.TakePrefixMeaning | agents/SuperAgent/best_proposal_finder.py:80 | `s[:len(p)] == p` holds exactly when `p` is a prefix of `s` |
| PyStrings.TakeSuffixMeaning | agents/SuperAgent/best_proposal_finder.py:83 | for non-empty `p`, `s[-len(p):] == p` holds exactly when `p` is a suffix of `s` |
| PyStrings.Split | agents/SuperAgent/best_proposal_finder.py:22 | `split(" ")` always yields at least one token, an empty one for the empty string |
| PyStrings.SplitJoin | agents/SuperAgent/best_proposal_finder.py:22 | joining the tokens of `split(" ")` with single spaces gives back the string |
| PyStrings.Contains | agents/SuperAgent/best_proposal_finder.py:23 | Python's `t in s` on strings: `t` occurs contiguously somewhere in `s`; its properties are the `Contains…` lemmas below |
| PyStrings.ContainsSelf | agents/SuperAgent/best_proposal_finder.py:289 | every string contains itself, so `current_string in word` keeps a word equal to the current string |
| PyStrings.ContainsAfterAdd | game_env.py:71-74 | a string with one letter added at either end still contains the old string |
| PyStrings.ContainsTransitive | agents/SuperAgent/best_proposal_finder.py:403 | `in` is transitive: a word containing a proposal contains every substring of that proposal |
| PyStrings.Join | agents/SuperAgent/best_proposal_finder.py:47 | `" ".join(words)`: the words with one space between neighbours; its meaning is stated by `JoinSplit` |
| PyStrings.JoinSplit | agents/SuperAgent/best_proposal_finder.py:47 | splitting the space-join of a non-empty list of space-free words at its spaces gives back exactly that list |
| PyStrings.Corpus | agents/SuperAgent/best_proposal_finder.py:47 | the padded corpus `" " + " ".join(words) + " "`, built again at line 64; its meaning is stated by `CorpusSplit` and `SpaceFreeInCorpus` |
| PyStrings.CorpusSplit | agents/SuperAgent/best_proposal_finder.py:64 | the padded corpus of a non-empty list of space-free words splits into an empty token, the words in order, and an empty token |
| PyStrings.SplitNoSpace | agents/SuperAgent/best_proposal_finder.py:22 | no token of `split(" ")` holds a space |
| PyStrings.SplitAtSeparator | agents/SuperAgent/best_proposal_finder.py:22 | splitting `x + " " + z` gives the tokens of `x` followed by those of `z` |
| PyStrings.SplitWord | agents/SuperAgent/best_proposal_finder.py:22 | a space-free string splits into itself alone |
| PyStrings.SpaceFreeInCorpus | agents/SuperAgent/best_proposal_finder.py:47 | a non-empty space-free substring of the padded, space-joined word list is a substring of one of the words |
| PyStrings.Upper | game_env.py:72-74 | `upper()` keeps the length, leaves no lower-case ASCII letter, replaces each one by the upper-case letter of the same place in the alphabet, and keeps every other character |
| PyStrings.UpperFixed | game_env.py:112 | a string without lower-case letters is its own upper case |
| PyStrings.UpperIdempotent | game_env.py:72-74 | upper-casing twice is upper-casing once |
| Matching.Occurrences | agents/SuperAgent/best_proposal_finder.py:52 | the pairs `(end_index, keyword)` that `A.iter(words_string)` yields, here and at line 69; its meaning is stated by `OccurrenceOf` |
| Matching.OccurrenceOf | agents/SuperAgent/best_proposal_finder.py:52 | a pair is yielded exactly when the keyword is one of the automaton's keywords, is non-empty, and its last letter sits at `end_index` of the text |
| Matching.KeepMatching | agents/SuperAgent/best_proposal_finder.py:23 | a token is kept exactly when it contains the keyword and is in the word set |
| Matching.WordsListWindow | agents/SuperAgent/best_proposal_finder.py:17-25 | every word of a window is in the word set and contains the keyword |
| Matching.WindowRecoversWord | agents/SuperAgent/best_proposal_finder.py:17-25 | the window around an occurrence of a keyword of two or more letters inside a listed word recovers that whole word, when the word is space-free and no longer than `max_word_len` |
| Matching.GetMatchedWordsPerKeyword | agents/SuperAgent/best_proposal_finder.py:46-60 | each keyword that occurs maps to the union of the windows of its occurrences, whatever order the stream has; keys are keywords; every recorded word is a listed word containing its key |
| Matching.MatchedPerKeywordExact | agents/SuperAgent/best_proposal_finder.py:46-60 | on well-formed input, the keys are exactly the keywords contained in some word, and each entry is exactly the set of words containing its key |
| Matching.EdgeMatchMeaning | agents/SuperAgent/best_proposal_finder.py:76-84 | the three cases of the filter keep a word exactly when it is the halt word itself, or the proposal is a prefix of both, or a suffix of both |
| Matching.FilterEdgeMatches | agents/SuperAgent/best_proposal_finder.py:73-87 | the filtered window holds exactly the window's words that pass the edge filter |
| Matching.GetMatchedWordsAll | agents/SuperAgent/best_proposal_finder.py:63-93 | the result is the union of the (filtered) windows of all occurrences; every word in it is a listed word containing a keyword that passes the filter |
| Matching.MatchedAllExact | agents/SuperAgent/best_proposal_finder.py:63-93 | on well-formed input, the result is exactly the set of listed words containing some keyword that passes the filter |
| Classifier.GenerateProposalStrings | agents/SuperAgent/best_proposal_finder.py:95-118 | for "" the letters in order; otherwise each letter added on the left and on the right, existing words dropped, each proposal once |
| Classifier.ProposalShape | agents/SuperAgent/best_proposal_finder.py:102-114 | a proposal for a non-empty string is one letter longer, extends it on one side, contains it, and is not a word |
| Classifier.GetBasisWordsPerProposal | agents/SuperAgent/best_proposal_finder.py:120-143 | basis keys are proposals; each basis word contains its proposal; the nohalt map has the same keys and loses only edge-halted words; on well-formed input both maps are exact |
| Classifier.RemoveHaltBasisWords | agents/SuperAgent/best_proposal_finder.py:130-141 | each nohalt entry is its basis entry minus words holding an edge-matched halt word, and exactly that on well-formed input |
| Classifier.GetBasisWords | agents/SuperAgent/best_proposal_finder.py:145-161 | recorded words are long enough and contain their proposal; nohalt only loses edge-halted words; on well-formed input the maps are `BasisSpec` and `NohaltSpec` |
| Classifier.BasisWordsOutlast | agents/SuperAgent/best_proposal_finder.py:148 | the basis words are listed words longer than any proposal, so no proposal completes one; every other listed word is at most a proposal's length |
| Classifier.HaltWordLength | agents/SuperAgent/best_proposal_finder.py:151 | the empty string and a word one full round longer than the string are halt words; any other halt word is at least that long |
| Classifier.HaltWordsLong | agents/SuperAgent/best_proposal_finder.py:151 | the halt words are listed, include every listed word one full round longer, and each non-empty one is at least that long |
| Optimizer.BasisWordRatios | agents/SuperAgent/best_proposal_finder.py:189-205 | exactly the proposals with basis words get a ratio |
| Optimizer.ComputeBasisWordRatios | agents/SuperAgent/best_proposal_finder.py:189-205 | the loop over the proposals, in any order, builds exactly the map `BasisWordRatios`: `|nohalt| / |basis|` for each proposal with basis words, the others skipped |
| Optimizer.RatioMeaning | agents/SuperAgent/best_proposal_finder.py:197-199 | a ratio lies in [0, 1]; it is 1 exactly when no basis word was removed, and 0 exactly when all were |
| Optimizer.SortByRatio | agents/SuperAgent/best_proposal_finder.py:209 | the items of the map, each key once, in ascending order of ratio |
| Optimizer.PopNearBest | agents/SuperAgent/best_proposal_finder.py:211-229 | the buffer is the top of the sorted items read downwards, each later key no better than the previous one, within the threshold of it and not 0, or all 1 after a best ratio of 1; and it stops exactly where the source's loop does: at the last item, which is never buffered, or at the first item that breaks the chain |
| Optimizer.KeepPerfect | agents/SuperAgent/best_proposal_finder.py:218-222 | from a perfect top, the loop buffers further items of ratio 1 until the next one is not 1 or is the last item |
| Optimizer.KeepNearTies | agents/SuperAgent/best_proposal_finder.py:224-229 | from a top below 1, the loop buffers further items within the threshold of the previous one and not 0, until the next one breaks that or is the last item |
| Optimizer.GetRandomMaxRatio | agents/SuperAgent/best_proposal_finder.py:207-233 | the chosen key is in the buffer that `PopNearBest` describes, read off the sorted items |
| Optimizer.BufferedRatio | agents/SuperAgent/best_proposal_finder.py:217-231 | a buffered key is within `(len(buffer) - 1) * 0.01` of every ratio; it has ratio 0 only when every ratio is at most 0, and ratio 1 whenever a ratio of 1 is the largest |
| Optimizer.ChainDrop | agents/SuperAgent/best_proposal_finder.py:224-229 | the `i`-th buffered key is no better than the top one and within `i * 0.01` of it |
| Optimizer.ClearLeader | agents/SuperAgent/best_proposal_finder.py:207-233 | a key that leads every other by at least the threshold is the whole buffer, so it is always chosen |
| Optimizer.PerfectTiesLoseOne | agents/SuperAgent/best_proposal_finder.py:218-222 | when two or more keys all have ratio 1, the buffer holds all of them but the one sorted first |
| Optimizer.OptimizeRatio | agents/SuperAgent/best_proposal_finder.py:235-265 | `(None, 1)` for an empty map; otherwise the chosen key and its ratio, dropped when the ratio is 0; a sure win is taken when one exists; without randomness the ratio is the largest; with randomness the key comes from the near-best buffer of `PopNearBest` |
| Optimizer.OptimizeStall | agents/SuperAgent/best_proposal_finder.py:268-283 | a proposal of largest average basis-word length; `None` exactly when the map is empty or some entry is empty (the source raises) |
| Collections.Enumerate | agents/SuperAgent/best_proposal_finder.py:193 | iterating a set (or a dict's keys) visits every element exactly once: the list has exactly the set's elements, no repeats, and the set's size |
| Collections.RandomChoice | agents/SuperAgent/best_proposal_finder.py:231 | the pick is an element of the list |
| Collections.MaxByValue | agents/SuperAgent/best_proposal_finder.py:243 | the key returned has the largest value |
| Collections.SumLengths | agents/SuperAgent/best_proposal_finder.py:273-274 | the loop's total is the sum of the word lengths, whatever the iteration order |
| Collections.SumValuesRemove | agents/SuperAgent/best_proposal_finder.py:274 | taking out any one key takes its value off the sum, so the order of summation is irrelevant |
| Collections.SumOverKeys | agents/SuperAgent/best_proposal_finder.py:360 | summing values read off distinct keys that cover the map gives the map's sum, whatever the order |
| Metagame.IntersectionRatio | agents/SuperAgent/best_proposal_finder.py:334-338 | the shared share lies in [0, 1]; it is 1 exactly when all their nohalt words are ours, and 0 exactly when none is |
| Metagame.SureWinPositions | agents/SuperAgent/best_proposal_finder.py:353 | the positions, in increasing order, of exactly the pairs whose first component is 1 |
| Metagame.SureWinTerms | agents/SuperAgent/best_proposal_finder.py:353 | one term per sure-win pair, in order: the second component of each pair whose first component is 1, and nothing else |
| Metagame.Consolidate | agents/SuperAgent/best_proposal_finder.py:353-360 | a score exists exactly when some pair has first component 1 |
| Metagame.MeanMeaning | agents/SuperAgent/best_proposal_finder.py:360 | the mean of numbers in [0, 1] lies in [0, 1]; it is 1 (or 0) exactly when each number is |
| Metagame.ConsolidateMeaning | agents/SuperAgent/best_proposal_finder.py:352-360 | a score exists exactly when some pair has ratio 1; it lies in [0, 1], and is 1 (or 0) exactly when every such pair scores 1 (or 0) |
| Metagame.CollectPairs | agents/SuperAgent/best_proposal_finder.py:329-346 | one pair per reply with nohalt words: its ratio and its shared share; every such reply contributes |
| Metagame.NextIntersectionPairs | agents/SuperAgent/best_proposal_finder.py:321-346 | the pairs come from the opponent's replies, their first component is 1 exactly for sure-win replies, every sure-win reply contributes, and on well-formed input the opponent's maps are exact |
| Metagame.SureWinTermsAreShares | agents/SuperAgent/best_proposal_finder.py:348-360 | the sure-win terms are the shares of the sure-win replies, each reply once: as many, with the same sum |
| Metagame.ScoreMeaning | agents/SuperAgent/best_proposal_finder.py:348-360 | the consolidated score exists exactly when the opponent has a sure-win reply, and is then the mean over those replies of the share of their nohalt words that are ours; it is 1 (or 0) exactly when every such reply's nohalt words are all (or none) ours |
| Metagame.ScoreProposal | agents/SuperAgent/best_proposal_finder.py:308-360 | the score of one proposal lies in [0, 1] and on well-formed input is the mean share over the sure-win replies, as `ScoreMeaning` states |
| Metagame.ComputeNohaltIntersectionRatios | agents/SuperAgent/best_proposal_finder.py:303-362 | keys are our proposals, scores lie in [0, 1], and each proposal that admits the exact analysis has an entry exactly when the opponent has a sure-win reply, holding the mean share of our nohalt words over those replies |
| Finder.PlainFirstTurn | agents/SuperAgent/best_proposal_finder.py:367-379 | the table's openings are single upper-case letters with a ratio strictly between 0 and 1; unlisted player counts get the default |
| Finder.MetagameFirstTurn | agents/SuperAgent/best_proposal_finder.py:381-395 | the table's openings are single upper-case letters with ratio 1 for 2 to 11 players; unlisted player counts get the default |
| Finder.FirstTurnEntry | agents/SuperAgent/best_proposal_finder.py:367-399 | the chosen entry has single-letter openings and a ratio in (0, 1]; the default `["D"], 0.95` outside 2..11 players |
| Finder.QuickFirstTurn | agents/SuperAgent/best_proposal_finder.py:365-415 | the opening is a letter of the entry, added to the start, with the words containing it as both basis sets |
| Finder.WordsContaining | agents/SuperAgent/best_proposal_finder.py:403 | exactly the words of the set that contain the string |
| Finder.WordsContainingBounds | agents/SuperAgent/best_proposal_finder.py:289 | the matching words are listed, no shorter than the string, and include the string itself when it is listed |
| Finder.WordsContainingShrinks | agents/SuperAgent/best_proposal_finder.py:289 | a string that contains `s` matches only words that `s` matches |
| Finder.WordsContainingEmpty | agents/SuperAgent/best_proposal_finder.py:403 | the empty string matches every word |
| Finder.ConfirmChallengeNoWordScenario | agents/SuperAgent/best_proposal_finder.py:288-300 | ratio 0 and the matching words when some word contains the current string, `None` for both otherwise |
| Finder.ChallengeNoWordSummary | agents/SuperAgent/best_proposal_finder.py:487-493 | no proposal and no nohalt words, the action `challenge_no_word` without a string, and ratio 0 with the words containing the string exactly when there are any |
| Finder.GetWordntAction | agents/SuperAgent/best_proposal_finder.py:27-43 | an add action of one letter that turns the current string into the proposal; at the end exactly when the proposal starts with the current string |
| Finder.ProposalIsExtension | agents/SuperAgent/best_proposal_finder.py:29 | every proposal for a non-empty string meets get_wordnt_action's assertion and is not a word |
| Finder.RatiosMeaning | agents/SuperAgent/best_proposal_finder.py:467 | the ratio map is empty exactly when no proposal has basis words; each ratio is 1 exactly for a sure win and 0 exactly for a fully halted proposal |
| Finder.ChooseProposal | agents/SuperAgent/best_proposal_finder.py:467-483 | a sure win is chosen when one exists; a best stall at ratio 0; otherwise a key of the near-best buffer of the ratios, or, with the metagame strategy and some score, a key of the near-best buffer of the scores, none exactly when every score is 0; raising only on an empty basis set |
| Finder.FindBestProposal | agents/SuperAgent/best_proposal_finder.py:419-509 | the first turn for "", `challenge_is_word` for a word, and otherwise the summary of the chosen proposal, or `challenge_no_word` when none is chosen; never raises on well-formed input |
| GameEnv.IsWord | game_env.py:105-115 | a word has at least three letters and its upper-cased form is listed |
| GameEnv.IsWordUpper | game_env.py:105-115 | whether a string is a word does not depend on its case |
| GameEnv.ActionTypePrefixes | game_env.py:125-133 | among the action types, exactly the two add actions start with "add" and exactly the two challenges with "challenge" |
| GameEnv.IsValidAction | game_env.py:117-147 | valid exactly when the type is known, an add carries one letter, any non-challenge carries a string, only a claim follows a `challenge_no_word`, and a claim contains the current string |
| GameEnv.NextTurn | game_env.py:149-163 | no turn once the game is done, and otherwise a seat at the table |
| GameEnv.NextTurnCyclic | game_env.py:149-163 | while the game runs the turn moves one seat back after `challenge_no_word` and one seat forward otherwise, modulo the number of players |
| GameEnv.Step | game_env.py:54-103 | a finished game is unchanged; otherwise the move is recorded with its seat, an invalid move loses, adds extend the string, and each kind of challenge or claim decides the loser and the loss condition, keeping the turn at a seat |
| GameEnv.Resolve | game_env.py:66-97 | the turn fields stay; an invalid move, `challenge_is_word` and `claim_word` end the game with the mover or the previous mover as loser and a loss condition; only a valid add changes the string, by one letter around it; a valid `challenge_no_word` changes nothing |
| GameEnv.WordntEnv.constructor | game_env.py:16-25 | a new environment starts in the reset state |
| GameEnv.WordntEnv.GetState | game_env.py:40-52 | the dictionary reports each of the seven fields as it is |
| GameEnv.WordntEnv.Reset | game_env.py:27-38 | seat 0 to move on the empty string, nothing played, nobody lost; the environment stays valid |
| GameEnv.WordntEnv.PlayAction | game_env.py:54-103 | the fields change exactly as `Step` says and the returned state is the new state |
| SuperAgent.MaxLength | agents/SuperAgent/agent.py:16 | the length of some word, and no word is longer |
| SuperAgent.Agent.constructor | agents/SuperAgent/agent.py:6-19 | the bot keeps its word list, its longest length and its set, and remembers no basis words |
| SuperAgent.Agent.GetAction | agents/SuperAgent/agent.py:24-66 | after `challenge_no_word` a claim of a remembered word (or a listed word when none is remembered); otherwise the finder's action under the metagame strategy, its basis words remembered when it has any |

## Left out

- Reading the word file (`open`, `strip`) is left out: the word list is a constructor parameter of `WordntEnv` and `Agent`.
- The Aho-Corasick automaton (`make_aho_automaton`) is a foreign library. Only the occurrences `A.iter` reports are modelled, not their order.
- `difflib.ndiff` is not modelled, and so neither is the `for i, s in enumerate(difflib.ndiff(...))` loop of `get_wordnt_action` (agents/SuperAgent/best_proposal_finder.py:31-41). `GetWordntAction` is a function that computes the index at which that loop would find the `+` line, using the alignment ndiff gives for a one-letter extension. SequenceMatcher's automatic junk heuristic applies only to sequences of 200 or more entries and is not modelled.
- GetWordntAction: requires a one-letter extension of the current string, which `find_best_proposal` always passes (`ProposalIsExtension`). The source's assertion failures for other proposals are not modelled.
- `get_basis_words_per_proposal_slow` is left out. It is a benchmark of the matching step, and nothing in the game calls it.
- Randomness is not modelled as a distribution. `random.choice` is an unspecified pick, and `SPRINKLE_RANDOMNESS` is a parameter of `OptimizeRatio`.
- Verbose printing and `__repr__` are left out: they are output only.
- Floating-point rounding is left out: ratios, averages and scores are exact reals.
- The commented-out recursive opponent search (lines 314-319 of `best_proposal_finder.py`) is not code and is left out.
- QuickFirstTurn: the first turn's basis words are a list in the source and a set here.
- Agent.GetAction: the ZeroDivisionError the finder can raise becomes the result `None` instead of escaping. `n_players` is a constructor parameter instead of a keyword argument defaulting to 6.
- Agent.constructor: requires a non-empty word list, because the source's `max` fails on an empty one.
- WordntEnv.constructor: requires at least one player, because the turn arithmetic of `_next_turn` needs a table. `Valid()` keeps that fact for `Reset` and `PlayAction`.
- PyStrings.Upper: upper-cases the ASCII letters only. Python's `str.upper` also maps other letters ("é" to "É") and can change the length ("ß" to "SS"). So `WordntEnv.PlayAction`, `IsValidAction` and `IsWord` (game_env.py:72, 74, 112, 144) are faithful only for ASCII input.
- WordntEnv.PlayAction: requires an add action to carry its letter. The source would fail on `len(None)` before judging the move.
- `run_game.py` (the game loop) and `agents/HumanAgent` (console input) are not part of this model.
