# FutonHit core in Dafny

FutonHit is a browser game of Hit & Blow (a Mastermind variant): players guess
the order of four secret values, and each guess is scored with *hits* (right
value, right position) and *blows* (right value, wrong position). This project
models the pure, sequential parts of the client and proves properties of them:

- **Scoring and secret generation** (`GameLogic`, from `src/utils/gameLogic.ts`).
  `CalculateHitAndBlow` is the one-pass counting loop. Its counts are proved
  equal to two independently defined sets of guess positions, `HitIndices` and
  `BlowIndices`. `GenerateAnswer` draws four values without replacement from
  the pool 1..13. The random index of each draw is a parameter, and the
  reference function `Draw` defines what a sequence of indices selects.
- **The game-state store** (`GameStore`, from `src/store/useGameStore.ts`, with
  records from `src/types/game.ts` in `GameTypes`). Each reducer is a pure
  function on an immutable record. `Replay` runs a sequence of reducer calls.
- **Guess selection and countdown** (`GamePage`, from `src/pages/GamePage.tsx`):
  toggling numbers into a guess of at most four, the saturating one-second
  tick, and the submit condition.
- **Icon lookup** (`IconMapping`, from `src/utils/iconMapping.ts`): the six-entry
  table with its out-of-range fallbacks. The deployment base path is a
  parameter.
- **Entry validation** (`TopPage`, from `src/pages/TopPage.tsx`): name check,
  then password check, as an outcome value. Also the form's error message and
  the start button's enabled state.

`Sequences` holds two shared helpers: pairwise distinctness, and `RemoveAt`,
which models JavaScript's `splice(k, 1)`.

The source disagrees with itself in a few places. The model follows the
code as written in each case:

- The store starts in status `'waiting'` (src/store/useGameStore.ts:19). That
  value is not in the `GameStatus` union of lobby, preparing, playing and
  finished (src/types/game.ts:1). So `GameStatus` has a fifth case, `Waiting`.
- The declared `GameState` (src/types/game.ts:23-33) has nine fields. The
  store's initial state (src/store/useGameStore.ts:14-21) sets only six of
  them, and the model's record has just those six.
- The rules text promises six icons (src/pages/TopPage.tsx:52), and the icon
  table has six entries. But `generateAnswer` draws from 1..13
  (src/utils/gameLogic.ts:2). The model keeps both as written.
  `SecretValuesBeyondTable` shows that the values 7..13 all display icon 1.
- The rules text gives 60 seconds to answer (src/pages/TopPage.tsx:60). The
  play screen's clock starts at 20 (src/pages/GamePage.tsx:8). The model uses
  20.
- `calculateHitAndBlow` checks no lengths (src/utils/gameLogic.ts:14-30). So
  the model accepts an answer and a guess of any length. A guess position
  past the end of the answer is compared with `undefined`. It is never a hit,
  but it can still be a blow.

## Model

| member | source | states |
|---|---|---|
| GameLogic.CalculateHitAndBlow | src/utils/gameLogic.ts:14-30 | the loop's hit count is the number of positions whose value equals the answer's value at that position, its blow count is the number of other positions whose value occurs anywhere in the answer, and together they never exceed the guess length |
| GameLogic.ScoreBounded | src/utils/gameLogic.ts:21-27 | every position adds to at most one counter, so hits plus blows is at most the guess length (4 for a four-value guess) |
| GameLogic.PerfectGuess | src/utils/gameLogic.ts:22-23 | guessing the answer itself scores a hit at every position and no blow, the winning case |
| GameLogic.DistinctGuessCountsShared | src/utils/gameLogic.ts:14-30 | for a guess with no repeated value, hits plus blows equals the number of values the guess shares with the answer ("Hit: icon and position / Blow: icon only") |
| GameLogic.ExampleMixed | src/utils/gameLogic.ts:21-27 | answer [1,2,3,4] and guess [1,3,2,5] score 1 hit and 2 blows |
| GameLogic.ExampleReversed | src/utils/gameLogic.ts:21-27 | answer [1,2,3,4] and guess [4,3,2,1] score 0 hits and 4 blows |
| GameLogic.ExampleRepeatedGuess | src/utils/gameLogic.ts:24-25 | the rule counts every repetition of an answer value as a blow: guess [2,2,2,2] against [1,2,3,4] scores 1 hit and 3 blows although only one value is shared |
| GameLogic.InitialPool | src/utils/gameLogic.ts:2 | the starting pool is [1, 2, ..., 13] in that order: entry i is i + 1, so its 13 entries are distinct and are exactly the values 1..13 |
| GameLogic.Draw | src/utils/gameLogic.ts:5-9 | drawing with in-range indices and removing each drawn value yields one value per index, all taken from the pool, and pairwise distinct when the pool is |
| GameLogic.GenerateAnswer | src/utils/gameLogic.ts:1-12 | with each random index inside the shrinking pool, the secret is the reference draw from 1..13: exactly 4 values, each in 1..13, pairwise distinct |
| GameLogic.EverySecretReachable | src/utils/gameLogic.ts:1-12 | every sequence of four distinct values from 1..13 is produced by some choice of random indices |
| GameLogic.GenerateRandomGuess | src/utils/gameLogic.ts:32-34 | the automatic guess is the same draw as a secret for the same random indices: 4 distinct values in 1..13 |
| Sequences.RemoveAt | src/utils/gameLogic.ts:8 | removing index k leaves one element fewer, with the elements before k unchanged and the ones after k shifted down by one |
| GameStore.SetAnswer | src/store/useGameStore.ts:25 | the answer becomes the argument and every other field is unchanged |
| GameStore.AddPlayer | src/store/useGameStore.ts:26 | the roster grows by one, the old roster is its prefix, the new last player is the argument, and every other field is unchanged |
| GameStore.AddPlayerNoDedup | src/store/useGameStore.ts:26 | the added id occurs once more than before, so adding an id already present leaves it twice in the roster |
| GameStore.SetCurrentTurn | src/store/useGameStore.ts:27 | the turn index becomes the argument and every other field is unchanged |
| GameStore.AddHistory | src/store/useGameStore.ts:28 | the history grows by one, the old history is its prefix, the new last entry is the argument, and every other field is unchanged |
| GameStore.SetGameStatus | src/store/useGameStore.ts:29 | the status becomes the argument and every other field is unchanged |
| GameStore.SetWinner | src/store/useGameStore.ts:30 | the winner becomes the given name and every other field is unchanged |
| GameStore.ResetGame | src/store/useGameStore.ts:14-31 | from any state, reset gives `INITIAL_STATE` (the store's `initialState`): empty answer, roster and history, turn 0, no winner and status waiting |
| GameStore.ResetIdempotent | src/store/useGameStore.ts:31 | resetting twice equals resetting once |
| GameStore.HistoryAppendOnly | src/store/useGameStore.ts:28 | across any sequence of reducer calls without a reset, the history is the old history followed by the added entries in call order |
| GameStore.HistoryEntriesStable | src/store/useGameStore.ts:28 | across any sequence of reducer calls without a reset, no existing history entry is removed or changed |
| GameStore.ReplayConcat | src/store/useGameStore.ts:23-32 | applying two batches of reducer calls in turn is the same as applying their concatenation |
| GameStore.ResetForgetsPast | src/store/useGameStore.ts:31 | after a reset, the state depends only on the calls after it, which start from the initial state |
| GamePage.Without | src/pages/GamePage.tsx:20 | filtering a number out removes every occurrence of it, keeps every other value, never grows the selection and keeps a repeat-free selection repeat-free |
| GamePage.ToggleNumber | src/pages/GamePage.tsx:18-24 | a selected number is removed and the other values stay; an unselected number is appended when fewer than 4 are selected, otherwise nothing changes; at most 4 values and no repeats are preserved |
| GamePage.DeselectKeepsOrder | src/pages/GamePage.tsx:19-20 | in a repeat-free selection, deselecting the number at position k removes exactly that position and keeps the others in order |
| GamePage.ToggleTwiceRestores | src/pages/GamePage.tsx:18-24 | pressing an unselected number twice, with room for it, gives back the original selection |
| GamePage.PressesKeepSelectionValid | src/pages/GamePage.tsx:7-24 | from the empty selection (or any valid one), every sequence of presses leaves at most 4 numbers and no repeats |
| GamePage.CanSubmit | src/pages/GamePage.tsx:79 | a selection of at most 4 distinct numbers can be submitted exactly when it is full: then pressing an unselected number is ignored, and otherwise that press appends it |
| GamePage.SubmitAfterDistinctPresses | src/pages/GamePage.tsx:79 | pressing distinct numbers (at most 4) from the empty selection selects exactly them in press order, and submitting is enabled exactly when 4 were pressed |
| GamePage.Tick | src/pages/GamePage.tsx:12 | one tick takes a positive count down by one and anything else to zero, so the count is never negative |
| GamePage.TicksSaturate | src/pages/GamePage.tsx:10-16 | after k ticks a non-negative count t reads t - k while k <= t and 0 afterwards |
| GamePage.ClockRunsOut | src/pages/GamePage.tsx:8-16 | the clock that starts at 20 reads zero after 20 or more ticks |
| IconMapping.BasePath | src/utils/iconMapping.ts:2 | the base path is never empty: it is the environment's base URL when that is set and non-empty, and "/" otherwise |
| IconMapping.IconTable | src/utils/iconMapping.ts:4-11 | `ICON_MAPPING` has an entry for each of the numbers 1..6 and no other, and every entry has a non-empty label |
| IconMapping.TableWellFormed | src/utils/iconMapping.ts:4-11 | the table has exactly the keys 1..6, so its size is `TOTAL_ICONS` (6), and each entry's path is its own name's image path under the base |
| IconMapping.GetIconPath | src/utils/iconMapping.ts:15-21 | for 1..6 the path is base + "icons/" + the entry's name + ".png"; out of range it is icon 1's path |
| IconMapping.GetIconLabel | src/utils/iconMapping.ts:23-28 | for 1..6 the label is that number's non-empty label; out of range it is the empty string |
| IconMapping.LabelFromTable | src/utils/iconMapping.ts:4-11 | for every base path and every number in 1..6, the label lookup returns the label of that table entry |
| IconMapping.DistinctIconsDistinctPaths | src/utils/iconMapping.ts:4-20 | two different in-range numbers never share an image path |
| IconMapping.SecretValuesBeyondTable | src/utils/iconMapping.ts:15-28 | the secret values 7..13 have no icon of their own: each shows icon 1's image and an empty label |
| TopPage.HandleStart | src/pages/TopPage.tsx:12-26 | an empty name gives the name error whatever the password; a non-empty name with a password other than "futon" gives the password error; the lobby is entered, carrying the same name, exactly when the name is non-empty and the password is "futon" |
| TopPage.NameCheckFirst | src/pages/TopPage.tsx:13-21 | when the name is empty the name error wins over any password error |
| TopPage.StartDisabled | src/pages/TopPage.tsx:116 | disabling the start button (a field is empty) never blocks a successful start, and while it is enabled the name error cannot occur |
| TopPage.EditName | src/pages/TopPage.tsx:82-85 | editing the name replaces it, keeps the password and clears the error |
| TopPage.EditPassword | src/pages/TopPage.tsx:99-102 | editing the password replaces it, keeps the name and clears the error |
| TopPage.PressStart | src/pages/TopPage.tsx:12-21 | a press keeps both fields; a failed check shows its message; a successful one leaves the form as it was |
| TopPage.Step | src/pages/TopPage.tsx:82-116 | an edit replaces its field, keeps the other and clears the error; a press keeps both fields, shows the password message when the button is enabled and the password is wrong, and otherwise changes nothing |
| TopPage.EditClearsError | src/pages/TopPage.tsx:82-102 | whatever a press showed, the next edit of either field clears it |
| TopPage.ErrorAlwaysKnown | src/pages/TopPage.tsx:9-116 | from the empty form, with presses on a disabled button ignored, the error shown is always empty or the password message (the name message cannot appear), and it is empty after any edit |

## Left out

- The multiplayer session protocol is not modelled. That covers room creation, host authority, turn rotation, late-join roster sync, and kick or leave. None of the modelled files implements it.
- `src/hooks/useAbly.ts` is not modelled: it wraps a realtime messaging client (network connection, API key from the environment).
- `src/pages/LobbyPage.tsx` is not modelled. It calls store members that the store does not define (`createRoom`, `startGame`, `setCurrentPlayerId`). The rest of it is rendering and navigation.
- `src/pages/ResultPage.tsx` and `src/App.tsx` are not modelled: they are a timed reset, navigation and routing.
- Randomness is replaced by parameters. Each `floor(random() * numbers.length)` is the caller-supplied index `picks[i]`, required to lie in the current pool. Probabilities are not modelled.
- The environment's base URL is an `Option<string>` parameter. `localStorage` and navigation appear only as the `EnterLobby` outcome, which carries the name. The timer's scheduling (`setInterval`, cleanup) is reduced to the tick function.
- Rendering, styling and React hooks are left out.
- JavaScript numbers are modelled as unbounded integers. Fractional values, NaN and floating-point rounding are not modelled; the source only uses whole numbers here.
- The declared state fields `roomHost`, `currentPlayerId` and `difficulty` are left out: the store's initial state never sets them and no reducer writes them.
- IconMapping.GetIconPath: the console warning for an out-of-range number (src/utils/iconMapping.ts:17) is not modelled. It is logging only and does not change the returned path.
