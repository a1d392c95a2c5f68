/** The game-state store (src/store/useGameStore.ts).

    The store is a record plus reducers that each replace part of it. The
    record holds exactly the fields the store's initial state sets; the
    remaining fields of the declared state type (room host, current player,
    difficulty) are never given a value there and are not modelled. Each
    reducer is a pure function from the old record to the new one; `Replay`
    applies a sequence of reducer calls in order. */
module GameStore {
  import opened GameTypes

  datatype GameState = GameState(
    answer: seq<int>,
    players: seq<Player>,
    currentTurn: int,
    history: seq<AnswerHistory>,
    gameStatus: GameStatus,
    winner: Option<string>)

  /** The state the store starts in and that `resetGame` restores. */
  const INITIAL_STATE: GameState :=
    GameState([], [], 0, [], Waiting, None)

  /** `setAnswer`: replaces the secret and nothing else. */
  function SetAnswer(s: GameState, answer: seq<int>): (r: GameState)
    ensures r.answer == answer
    ensures r.players == s.players && r.currentTurn == s.currentTurn && r.history == s.history
    ensures r.gameStatus == s.gameStatus && r.winner == s.winner
  {
    s.(answer := answer)
  }

  /** `addPlayer`: appends to the roster. There is no check for an id that
      is already present. */
  function AddPlayer(s: GameState, player: Player): (r: GameState)
    ensures |r.players| == |s.players| + 1
    ensures r.players[..|s.players|] == s.players
    ensures r.players[|s.players|] == player
    ensures r.answer == s.answer && r.currentTurn == s.currentTurn && r.history == s.history
    ensures r.gameStatus == s.gameStatus && r.winner == s.winner
  {
    s.(players := s.players + [player])
  }

  /** `setCurrentTurn`: replaces the turn index and nothing else. */
  function SetCurrentTurn(s: GameState, turn: int): (r: GameState)
    ensures r.currentTurn == turn
    ensures r.answer == s.answer && r.players == s.players && r.history == s.history
    ensures r.gameStatus == s.gameStatus && r.winner == s.winner
  {
    s.(currentTurn := turn)
  }

  /** `addHistory`: appends one entry to the move history. */
  function AddHistory(s: GameState, entry: AnswerHistory): (r: GameState)
    ensures |r.history| == |s.history| + 1
    ensures r.history[..|s.history|] == s.history
    ensures r.history[|s.history|] == entry
    ensures r.answer == s.answer && r.players == s.players && r.currentTurn == s.currentTurn
    ensures r.gameStatus == s.gameStatus && r.winner == s.winner
  {
    s.(history := s.history + [entry])
  }

  /** `setGameStatus`: replaces the status and nothing else. */
  function SetGameStatus(s: GameState, status: GameStatus): (r: GameState)
    ensures r.gameStatus == status
    ensures r.answer == s.answer && r.players == s.players && r.currentTurn == s.currentTurn
    ensures r.history == s.history && r.winner == s.winner
  {
    s.(gameStatus := status)
  }

  /** `setWinner`: records the winner's name and nothing else. */
  function SetWinner(s: GameState, winner: string): (r: GameState)
    ensures r.winner == Some(winner)
    ensures r.answer == s.answer && r.players == s.players && r.currentTurn == s.currentTurn
    ensures r.history == s.history && r.gameStatus == s.gameStatus
  {
    s.(winner := Some(winner))
  }

  /** `resetGame`: every field goes back to its initial value, whatever the
      state was before. */
  function ResetGame(s: GameState): (r: GameState)
    ensures r.answer == [] && r.players == [] && r.history == []
    ensures r.currentTurn == 0 && r.winner == None && r.gameStatus == Waiting
  {
    INITIAL_STATE
  }

  /** Resetting twice is the same as resetting once. */
  lemma ResetIdempotent(s: GameState)
    ensures ResetGame(ResetGame(s)) == ResetGame(s)
  {
  }

  // ---------------------------------------------------------------------
  // Sequences of reducer calls

  /** One call of a reducer, with its argument. */
  datatype Action =
    | SetAnswerAction(answer: seq<int>)
    | AddPlayerAction(player: Player)
    | SetCurrentTurnAction(turn: int)
    | AddHistoryAction(entry: AnswerHistory)
    | SetGameStatusAction(status: GameStatus)
    | SetWinnerAction(winner: string)
    | ResetGameAction

  function Dispatch(s: GameState, a: Action): GameState {
    match a
    case SetAnswerAction(answer) => SetAnswer(s, answer)
    case AddPlayerAction(player) => AddPlayer(s, player)
    case SetCurrentTurnAction(turn) => SetCurrentTurn(s, turn)
    case AddHistoryAction(entry) => AddHistory(s, entry)
    case SetGameStatusAction(status) => SetGameStatus(s, status)
    case SetWinnerAction(winner) => SetWinner(s, winner)
    case ResetGameAction => ResetGame(s)
  }

  /** The state after applying `actions` to `s`, first to last. */
  function Replay(s: GameState, actions: seq<Action>): GameState
    decreases |actions|
  {
    if actions == [] then s
    else Dispatch(Replay(s, actions[..|actions| - 1]), actions[|actions| - 1])
  }

  predicate NoReset(actions: seq<Action>) {
    forall i :: 0 <= i < |actions| ==> !actions[i].ResetGameAction?
  }

  /** The entries that the `addHistory` calls among `actions` append, in
      order. */
  function AddedEntries(actions: seq<Action>): seq<AnswerHistory>
    decreases |actions|
  {
    if actions == [] then []
    else
      var last := actions[|actions| - 1];
      AddedEntries(actions[..|actions| - 1])
        + (if last.AddHistoryAction? then [last.entry] else [])
  }

  /** Between resets the history only grows at its end: it is the old
      history followed by the `addHistory` arguments, in call order. */
  lemma {:induction false} HistoryAppendOnly(s: GameState, actions: seq<Action>)
    requires NoReset(actions)
    ensures Replay(s, actions).history == s.history + AddedEntries(actions)
    decreases |actions|
  {
    if actions != [] {
      var init := actions[..|actions| - 1];
      assert NoReset(init) by {
        forall i | 0 <= i < |init|
          ensures !init[i].ResetGameAction?
        {
          assert init[i] == actions[i];
        }
      }
      HistoryAppendOnly(s, init);
      assert !actions[|actions| - 1].ResetGameAction?;
    }
  }

  /** Consequently no existing entry is ever removed or changed between
      resets. */
  lemma {:induction false} HistoryEntriesStable(s: GameState, actions: seq<Action>)
    requires NoReset(actions)
    ensures |s.history| <= |Replay(s, actions).history|
    ensures forall i :: 0 <= i < |s.history| ==> Replay(s, actions).history[i] == s.history[i]
  {
    HistoryAppendOnly(s, actions);
  }

  /** Replaying two batches one after the other is replaying their
      concatenation. */
  lemma {:induction false} ReplayConcat(s: GameState, a: seq<Action>, b: seq<Action>)
    ensures Replay(s, a + b) == Replay(Replay(s, a), b)
    decreases |b|
  {
    if b == [] {
      assert a + b == a;
    } else {
      var ab := a + b;
      assert ab[..|ab| - 1] == a + b[..|b| - 1];
      assert ab[|ab| - 1] == b[|b| - 1];
      ReplayConcat(s, a, b[..|b| - 1]);
    }
  }

  /** A reset forgets everything before it: what follows starts from the
      initial state. */
  lemma ResetForgetsPast(s: GameState, before: seq<Action>, after: seq<Action>)
    ensures Replay(s, before + [ResetGameAction] + after) == Replay(INITIAL_STATE, after)
  {
    ReplayConcat(s, before + [ResetGameAction], after);
    ReplayConcat(s, before, [ResetGameAction]);
  }

  /** The ids in a roster, in roster order. */
  function Ids(players: seq<Player>): (ids: seq<string>)
    ensures |ids| == |players|
  {
    seq(|players|, i requires 0 <= i < |players| => players[i].id)
  }

  /** `addPlayer` does not de-duplicate: the added id occurs once more than
      before, so re-adding a present id leaves it twice in the roster. */
  lemma AddPlayerNoDedup(s: GameState, player: Player)
    ensures multiset(Ids(AddPlayer(s, player).players))[player.id]
         == multiset(Ids(s.players))[player.id] + 1
  {
    assert Ids(AddPlayer(s, player).players) == Ids(s.players) + [player.id];
  }
}
