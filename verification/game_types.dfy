/** The records of the game (src/types/game.ts). Numbers of the source are
    unbounded integers here; `string | null` is an `Option<string>`. */
module GameTypes {

  /** A value that may be absent (`null` in the source). */
  datatype Option<T> = None | Some(value: T)

  /** Status of a game. The store starts in `'waiting'`, a value the type's
      union of lobby, preparing, playing and finished does not list; the
      model keeps it as a fifth case. */
  datatype GameStatus = Lobby | Preparing | Playing | Finished | Waiting

  datatype Player = Player(
    id: string,
    name: string,
    answerCount: int,
    isCorrect: bool,
    isHost: bool,
    isSpectator: bool)

  /** One scored guess in the move history. */
  datatype AnswerHistory = AnswerHistory(
    playerId: string,
    playerName: string,
    guess: seq<int>,
    hit: int,
    blow: int,
    timestamp: int)
}
