/**
 * The rules of Wordn't as game_env.py enforces them: class WordntEnv and its state machine.
 * Players take turns adding a letter to either end of a shared string; whoever forms a word
 * of at least three letters, or cannot back up a string when challenged, loses.
 */
module GameEnv {
  import opened Wrappers
  import opened PyStrings
  import opened Actions

  /** Words must have at least this many letters. */
  const MinWordLen: int := 3

  /** The dictionary get_state returns. */
  datatype State = State(currentTurn: Option<int>, lastTurn: Option<int>, currentString: string,
                         lastAction: Option<Action>, done: bool, loser: Option<int>,
                         lossCondition: Option<string>)

  /** The state reset starts a game in. */
  const Initial: State := State(Some(0), None, "", None, false, None, None)

  /** A state the game can be in: a seat in `[0, nPlayers)` is to move exactly while the game runs. */
  ghost predicate Playing(nPlayers: int, st: State)
  {
    && (st.done <==> st.currentTurn.None?)
    && (st.currentTurn.Some? ==> 0 <= st.currentTurn.value < nPlayers)
  }

  /** `prefix` starts `s`: Python's `s.startswith(prefix)`. */
  predicate StartsWith(s: string, prefix: string)
  {
    prefix <= s
  }

  /** Of the action types, the two add actions start with "add" and the two challenges with "challenge". */
  lemma ActionTypePrefixes()
    ensures forall k :: k in ActionTypes ==> (StartsWith(k, "add") <==> k == AddToStart || k == AddToEnd)
    ensures forall k :: k in ActionTypes ==> (StartsWith(k, "challenge") <==> k == ChallengeNoWord || k == ChallengeIsWord)
  {
    assert StartsWith(AddToStart, "add") && StartsWith(AddToEnd, "add");
    assert ChallengeNoWord[0] != 'a' && ChallengeIsWord[0] != 'a' && ClaimWord[0] != 'a';
    assert !StartsWith(ChallengeNoWord, "add") && !StartsWith(ChallengeIsWord, "add") && !StartsWith(ClaimWord, "add");
    assert AddToStart[0] != 'c' && AddToEnd[0] != 'c';
    assert StartsWith(ChallengeNoWord, "challenge") && StartsWith(ChallengeIsWord, "challenge");
    assert ClaimWord[1] != "challenge"[1];
  }

  /** _is_word: at least three letters, and in the word list once upper-cased. */
  function IsWord(words: seq<string>, s: string): (r: bool)
    ensures |s| < MinWordLen ==> !r
    ensures r <==> |s| >= MinWordLen && exists i :: 0 <= i < |words| && words[i] == Upper(s)
  {
    |s| >= MinWordLen && Upper(s) in words
  }

  /** Whether a string is a word does not depend on its case. */
  lemma IsWordUpper(words: seq<string>, s: string)
    ensures IsWord(words, Upper(s)) == IsWord(words, s)
  {
    UpperIdempotent(s);
  }

  /** The add actions, whose string the validity check measures before anything else. */
  predicate IsAdd(kind: string)
  {
    kind == AddToStart || kind == AddToEnd
  }

  /**
   * _is_valid_action on the state `st`: a known action type; one letter to add; a string for
   * every action but a challenge; only a claim right after a challenge that no word can be
   * formed; and a claimed word that contains the current string.
   */
  function IsValidAction(st: State, a: Action): (r: bool)
    requires IsAdd(a.kind) ==> a.payload.Some?
    ensures r <==>
              && a.kind in ActionTypes
              && (IsAdd(a.kind) ==> |a.payload.value| == 1)
              && (a.kind != ChallengeNoWord && a.kind != ChallengeIsWord ==> a.payload.Some?)
              && (st.lastAction.Some? && st.lastAction.value.kind == ChallengeNoWord ==> a.kind == ClaimWord)
              && (a.kind == ClaimWord ==> a.payload.Some? && Contains(Upper(a.payload.value), st.currentString))
  {
    ActionTypePrefixes();
    if a.kind !in ActionTypes then false
    else if StartsWith(a.kind, "add") && |a.payload.value| != 1 then false
    else if !StartsWith(a.kind, "challenge") && a.payload.None? then false
    else if st.lastAction.Some? && st.lastAction.value.kind == ChallengeNoWord && a.kind != ClaimWord then false
    else if a.kind == ClaimWord && !Contains(Upper(a.payload.value), st.currentString) then false
    else true
  }

  /** The seat after `turn` round a table of `n`, in Python's own terms. */
  lemma SeatAfter(turn: int, n: int)
    requires 0 <= turn < n
    ensures (turn + 1) % n == (if turn == n - 1 then 0 else turn + 1)
  {
    if turn == n - 1 {
      assert turn + 1 == 1 * n + 0;
    } else {
      assert turn + 1 == 0 * n + (turn + 1);
    }
  }

  /** The seat before `turn` round a table of `n`. */
  lemma SeatBefore(turn: int, n: int)
    requires 0 <= turn < n
    ensures (turn - 1) % n == (if turn == 0 then n - 1 else turn - 1)
  {
    if turn == 0 {
      assert turn - 1 == (-1) * n + (n - 1);
    } else {
      assert turn - 1 == 0 * n + (turn - 1);
    }
  }

  /**
   * _next_turn, from the seat `turn` that has just moved: none once the game is over, and
   * otherwise a seat at the table.
   */
  function NextTurn(nPlayers: int, done: bool, lastAction: Option<Action>, turn: int): (r: Option<int>)
    requires !done ==> lastAction.Some?
    ensures r.None? <==> done
    ensures !done && 0 <= turn < nPlayers ==> 0 <= r.value < nPlayers
  {
    if done then None
    else if lastAction.value.kind == ChallengeNoWord then
      if turn == 0 then Some(nPlayers - 1) else Some(turn - 1)
    else if turn == nPlayers - 1 then Some(0)
    else Some(turn + 1)
  }

  /**
   * While the game runs the turn goes round the table: back one seat after a challenge that
   * no word can be formed (the challenged player must answer), forward one seat otherwise.
   */
  lemma NextTurnCyclic(nPlayers: int, lastAction: Action, turn: int)
    requires 0 <= turn < nPlayers
    ensures lastAction.kind == ChallengeNoWord ==>
              NextTurn(nPlayers, false, Some(lastAction), turn) == Some((turn - 1) % nPlayers)
    ensures lastAction.kind != ChallengeNoWord ==>
              NextTurn(nPlayers, false, Some(lastAction), turn) == Some((turn + 1) % nPlayers)
  {
    SeatAfter(turn, nPlayers);
    SeatBefore(turn, nPlayers);
  }

  /**
   * The effect of the action itself, before the turn moves on: the turn fields are left alone;
   * an invalid action, a challenge that the string is a word and a claim end the game, with
   * the mover or the previous mover as the loser and a stated loss condition; a valid add is
   * the only action that changes the string, by one letter at an end; a valid challenge that no
   * word can be formed changes nothing.
   */
  function Resolve(words: seq<string>, st: State, a: Action, turn: int): (r: State)
    requires IsAdd(a.kind) ==> a.payload.Some?
    ensures r.currentTurn == st.currentTurn && r.lastTurn == st.lastTurn && r.lastAction == st.lastAction
    ensures r.done <==> st.done || !IsValidAction(st, a) || a.kind == ChallengeIsWord || a.kind == ClaimWord
    ensures IsValidAction(st, a) && IsAdd(a.kind) ==>
              |r.currentString| == |st.currentString| + 1 && Contains(r.currentString, st.currentString)
    ensures !(IsValidAction(st, a) && IsAdd(a.kind)) ==> r.currentString == st.currentString
    ensures IsValidAction(st, a) && (IsAdd(a.kind) || a.kind == ChallengeNoWord) ==>
              r.done == st.done && r.loser == st.loser && r.lossCondition == st.lossCondition
    ensures !IsValidAction(st, a) || a.kind == ChallengeIsWord || a.kind == ClaimWord ==>
              (r.loser == Some(turn) || r.loser == st.lastTurn) && r.lossCondition.Some?
  {
    ContainsAfterAdd(if a.payload.Some? then Upper(a.payload.value) else "", st.currentString);
    if !IsValidAction(st, a) then st.(done := true, loser := Some(turn), lossCondition := Some("invalid_action"))
    else if a.kind == AddToStart then st.(currentString := Upper(a.payload.value) + st.currentString)
    else if a.kind == AddToEnd then st.(currentString := st.currentString + Upper(a.payload.value))
    else if a.kind == ChallengeNoWord then st
    else if a.kind == ChallengeIsWord then
      if IsWord(words, st.currentString) then st.(done := true, loser := st.lastTurn, lossCondition := Some("formed_word"))
      else st.(done := true, loser := Some(turn), lossCondition := Some("challenge_is_word_failed"))
    else if IsWord(words, a.payload.value) then
      st.(done := true, loser := st.lastTurn, lossCondition := Some("challenge_no_word_failed"))
    else st.(done := true, loser := Some(turn), lossCondition := Some("claim_word_failed"))
  }

  /**
   * play_action, as a function of the state: nothing changes once the game is over; otherwise
   * the action is resolved, recorded as the last action of the seat that played it, and the
   * turn moves on.
   */
  function Step(nPlayers: int, words: seq<string>, st: State, a: Action): (r: State)
    requires Playing(nPlayers, st)
    requires IsAdd(a.kind) ==> a.payload.Some?
    ensures Playing(nPlayers, r)
    ensures st.done ==> r == st
    ensures !st.done ==> r.lastAction == Some(a) && r.lastTurn == st.currentTurn
    ensures !st.done && !IsValidAction(st, a) ==>
              r == st.(done := true, loser := st.currentTurn, lossCondition := Some("invalid_action"),
                       lastAction := Some(a), lastTurn := st.currentTurn, currentTurn := None)
    ensures !st.done && IsValidAction(st, a) && IsAdd(a.kind) ==>
              && r.currentString == (if a.kind == AddToStart then Upper(a.payload.value) + st.currentString
                                     else st.currentString + Upper(a.payload.value))
              && r == st.(currentString := r.currentString, lastAction := Some(a), lastTurn := st.currentTurn,
                          currentTurn := Some((st.currentTurn.value + 1) % nPlayers))
    ensures !st.done && IsValidAction(st, a) && a.kind == ChallengeNoWord ==>
              r == st.(lastAction := Some(a), lastTurn := st.currentTurn,
                       currentTurn := Some((st.currentTurn.value - 1) % nPlayers))
    ensures !st.done && IsValidAction(st, a) && a.kind == ChallengeIsWord ==>
              && r.done && r.currentTurn.None? && r.currentString == st.currentString
              && (IsWord(words, st.currentString) ==> r.loser == st.lastTurn && r.lossCondition == Some("formed_word"))
              && (!IsWord(words, st.currentString) ==>
                    r.loser == st.currentTurn && r.lossCondition == Some("challenge_is_word_failed"))
    ensures !st.done && IsValidAction(st, a) && a.kind == ClaimWord ==>
              && r.done && r.currentTurn.None? && r.currentString == st.currentString
              && (IsWord(words, a.payload.value) ==>
                    r.loser == st.lastTurn && r.lossCondition == Some("challenge_no_word_failed"))
              && (!IsWord(words, a.payload.value) ==>
                    r.loser == st.currentTurn && r.lossCondition == Some("claim_word_failed"))
  {
    if st.done then st
    else
      var turn := st.currentTurn.value;
      var resolved := Resolve(words, st, a, turn);
      NextTurnCyclic(nPlayers, a, turn);
      resolved.(lastAction := Some(a), lastTurn := Some(turn), currentTurn := NextTurn(nPlayers, resolved.done, Some(a), turn))
  }

  /** Game state of one game of Wordn't, updated in place by its moves. */
  class WordntEnv {
    const nPlayers: int
    const words: seq<string>
    var currentTurn: Option<int>
    var lastTurn: Option<int>
    var currentString: string
    var lastAction: Option<Action>
    var done: bool
    var loser: Option<int>
    var lossCondition: Option<string>

    /** get_state: the seven fields of the game, as they are. */
    function GetState(): (r: State)
      reads this
      ensures r.currentTurn == currentTurn && r.lastTurn == lastTurn && r.currentString == currentString
      ensures r.lastAction == lastAction && r.done == done && r.loser == loser && r.lossCondition == lossCondition
    {
      State(currentTurn, lastTurn, currentString, lastAction, done, loser, lossCondition)
    }

    /** A table of at least one seat, in a playable state. */
    ghost predicate Valid()
      reads this
    {
      nPlayers >= 1 && Playing(nPlayers, GetState())
    }

    /** The word list is passed in; a new game starts at once. */
    constructor (nPlayers: int, words: seq<string>)
      requires nPlayers >= 1
      ensures this.nPlayers == nPlayers && this.words == words
      ensures GetState() == Initial && Valid()
    {
      this.nPlayers := nPlayers;
      this.words := words;
      currentTurn := Some(0);
      lastTurn := None;
      currentString := "";
      lastAction := None;
      done := false;
      loser := None;
      lossCondition := None;
    }

    /** reset: seat 0 to move on the empty string, nothing played, nobody lost. */
    method Reset() returns (s: State)
      requires Valid()
      modifies this
      ensures GetState() == Initial && s == Initial && Valid()
    {
      currentTurn := Some(0);
      lastTurn := None;
      currentString := "";
      lastAction := None;
      done := false;
      loser := None;
      lossCondition := None;
      s := GetState();
    }

    /**
     * play_action: the move of the seat whose turn it is.  An add action must carry its
     * letter (the source would fail on a missing one before judging the move).
     */
    method PlayAction(actionType: string, string_: Option<string>) returns (s: State)
      requires Valid()
      requires IsAdd(actionType) ==> string_.Some?
      modifies this
      ensures GetState() == Step(nPlayers, words, old(GetState()), Action(actionType, string_))
      ensures s == GetState() && Valid()
    {
      var action := Action(actionType, string_);
      if done {
        return GetState();
      }
      ActionTypePrefixes();
      var turn := currentTurn.value;
      if !IsValidAction(GetState(), action) {
        done := true;
        loser := currentTurn;
        lossCondition := Some("invalid_action");
      } else if actionType == AddToStart {
        currentString := Upper(string_.value) + currentString;
      } else if actionType == AddToEnd {
        currentString := currentString + Upper(string_.value);
      } else if actionType == ChallengeNoWord {
        // the turn goes back to the challenged player below
      } else if actionType == ChallengeIsWord {
        if IsWord(words, currentString) {
          done := true;
          loser := lastTurn;
          lossCondition := Some("formed_word");
        } else {
          done := true;
          loser := currentTurn;
          lossCondition := Some("challenge_is_word_failed");
        }
      } else if actionType == ClaimWord {
        if IsWord(words, string_.value) {
          done := true;
          loser := lastTurn;
          lossCondition := Some("challenge_no_word_failed");
        } else {
          done := true;
          loser := currentTurn;
          lossCondition := Some("claim_word_failed");
        }
      } else {
        assert false;
      }
      lastAction := Some(action);
      lastTurn := Some(turn);
      currentTurn := NextTurn(nPlayers, done, lastAction, turn);
      s := GetState();
    }
  }
}
