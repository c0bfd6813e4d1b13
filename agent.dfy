/**
 * agents/SuperAgent/agent.py: the bot.  It answers a challenge that no word can be formed
 * with a word it remembered from its last proposal, and otherwise plays what the finder
 * decides, always with the metagame strategy.
 */
module SuperAgent {
  import opened Wrappers
  import opened Collections
  import opened PyStrings
  import opened Actions
  import opened Finder

  /** The letters the bot proposes. */
  const Letters: string := "ABCDEFGHIJKLMNOPQRSTUVWXYZ"

  /** `max([len(word) for word in words])`. */
  function MaxLength(words: seq<string>): (r: int)
    requires words != []
    ensures forall i :: 0 <= i < |words| ==> |words[i]| <= r
    ensures exists i :: 0 <= i < |words| && |words[i]| == r
  {
    if |words| == 1 then |words[0]|
    else
      var init := words[..|words| - 1];
      assert forall i :: 0 <= i < |init| ==> init[i] == words[i];
      Max(MaxLength(init), |words[|words| - 1]|)
  }

  /** The previous action calls for a claimed word. */
  predicate IsChallenged(lastAction: Option<Action>)
  {
    lastAction.Some? && lastAction.value.kind == ChallengeNoWord
  }

  /** The bot, with the word list passed in and the basis words of its last proposal. */
  class Agent {
    const name: string
    const nPlayers: nat
    const words: seq<string>
    const maxWordLen: int
    const wordsSet: set<string>
    var latestBasisWords: set<string>

    ghost predicate Valid()
      reads this
    {
      words != [] && maxWordLen == MaxLength(words) && wordsSet == Elements(words)
    }

    /** A bot for a list of words (not empty: its longest length is taken). */
    constructor (name: string, nPlayers: nat, words: seq<string>)
      requires words != []
      ensures this.name == name && this.nPlayers == nPlayers && this.words == words
      ensures Valid() && latestBasisWords == {}
    {
      this.name := name;
      this.nPlayers := nPlayers;
      this.words := words;
      maxWordLen := MaxLength(words);
      wordsSet := Elements(words);
      latestBasisWords := {};
    }

    /**
     * get_action on the state's last action and current string.  A challenge is answered with
     * a claim and nothing else happens; otherwise the finder's action is returned (`None` when
     * it raises) and its basis words, when it has any, are remembered.  The finder's outcome,
     * maps and near-best buffer are returned for the specification.
     */
    method GetAction(lastAction: Option<Action>, currentString: string)
      returns (action: Option<Action>, ghost decision: Option<Outcome>, ghost basis: map<string, set<string>>,
               ghost nohalt: map<string, set<string>>, ghost nhi: map<string, real>, ghost buffer: seq<string>)
      requires Valid()
      modifies this
      ensures Valid()
      ensures IsChallenged(lastAction) ==>
                && decision.None? && latestBasisWords == old(latestBasisWords)
                && action.Some? && action.value.kind == ClaimWord && action.value.payload.Some?
                && (old(latestBasisWords) != {} ==> action.value.payload.value in old(latestBasisWords))
                && (old(latestBasisWords) == {} ==> action.value.payload.value in words)
      ensures !IsChallenged(lastAction) ==>
                && decision.Some?
                && Decides(currentString, nPlayers, maxWordLen, wordsSet, Letters, true, decision.value, basis, nohalt, nhi,
                           buffer)
                && (decision.value.Raised? ==> action.None? && latestBasisWords == old(latestBasisWords))
                && (decision.value.Returned? ==>
                      var s := decision.value.summary;
                      && action == Some(s.action)
                      && latestBasisWords == (if s.basisWords.Some? then s.basisWords.value else old(latestBasisWords)))
    {
      basis, nohalt, nhi, buffer := map[], map[], map[], [];
      if IsChallenged(lastAction) {
        var actionString: string;
        if latestBasisWords != {} {
          var remembered := Enumerate(latestBasisWords);
          actionString := RandomChoice(remembered);
        } else {
          actionString := RandomChoice(words);
        }
        return Some(Action(ClaimWord, Some(actionString))), None, basis, nohalt, nhi, buffer;
      }
      var outputSummary;
      outputSummary, basis, nohalt, nhi, buffer :=
        FindBestProposal(currentString, nPlayers, maxWordLen, wordsSet, Letters, true);
      decision := Some(outputSummary);
      if outputSummary.Raised? {
        return None, decision, basis, nohalt, nhi, buffer;
      }
      var s := outputSummary.summary;
      if s.basisWords.Some? {
        latestBasisWords := s.basisWords.value;
      }
      action := Some(s.action);
    }
  }
}
