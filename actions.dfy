/** The moves of a game of Wordn't, named as game_env.py and the agents name them. */
module Actions {
  import opened Wrappers

  const AddToStart: string := "add_to_start"
  const AddToEnd: string := "add_to_end"
  const ChallengeNoWord: string := "challenge_no_word"
  const ChallengeIsWord: string := "challenge_is_word"
  const ClaimWord: string := "claim_word"

  /** The action types the game accepts, in the order game_env.py lists them. */
  const ActionTypes: seq<string> := [AddToStart, AddToEnd, ChallengeNoWord, ChallengeIsWord, ClaimWord]

  /**
   * An action as an agent returns it and the game records it: the action type and its
   * string (the letter to add, the claimed word, or `None` for a challenge).
   */
  datatype Action = Action(kind: string, payload: Option<string>)
}
