# Tetris game-state engine in Dafny

This project models the engine of a browser Tetris game and proves properties of it. The engine has three parts:

- **The board and piece algebra** (`src/utils/tetris.ts`):
  - an empty board of 20 rows by 10 columns;
  - spawning a catalog piece;
  - clockwise rotation of a shape matrix;
  - the collision and bounds test;
  - stamping a locked piece into a copy of the board;
  - removing full rows all at once;
  - the score, level and drop-speed formulas.
- **The piece catalog and board constants** (`src/types/index.ts`): the seven shapes I, O, T, S, Z, J and L with their colours, and the board dimensions.
- **The game store** (`src/store/TetrisStore.ts`):
  - a mutable object holding the board, the current and next pieces, the score, level and cleared-line counters, and the playing, paused and game-over flags;
  - the actions start, reset, pause, game over, move, rotate, hard drop and the private lock step;
  - the top-ten high-score list.

The project is organised as five modules:

- `types.dfy` (module `Types`):
  - the records and the constants `BOARD_WIDTH = 10` and `BOARD_HEIGHT = 20`;
  - the catalog as a literal map, and `KEYS`, the catalog keys in declaration order;
  - proved facts about each catalog shape.
- `tetris.dfy` (module `Tetris`):
  - the pure operations are functions;
  - the three looping operations (`IsValidMove`, `PlacePiece` and `ClearLines`) are methods with loop invariants;
  - each method is proved equal to a reference definition (`Fits`, `Placed` or `Cleared`), and lemmas state what those definitions mean.
- `highscores.dfy` (module `HighScores`):
  - the qualification test;
  - the "push, sort by score descending, keep ten" update, with the sort written as an insertion sort;
  - the top-score getter.
- `session.dfy` (module `Session`):
  - the store's fields as a `GameState` value, with one pure transition per store action;
  - the session invariant `Inv`, which holds:
    - the board has 20 by 10 cells;
    - no board row is full;
    - `level == lines / 10`;
    - every piece shape is square with four cells;
    - game over implies not playing;
    - while playing, both pieces exist and the current piece sits at a valid place;
  - lemmas proving each transition does what the store promises and keeps the invariant.
- `store.dfy` (module `Store`):
  - class `TetrisStore` holds the same fields;
  - each method changes them in place, through the `Tetris` methods, and ensures `State() == <Transition>(old(State()), ...)`;
  - every method ensures `Valid()` when it ends, with two exceptions: the two high-score methods keep `Valid()` only when it held, and `StampAndClear`, the first half of the lock step, ends with the stamped piece still current (it sits on its own cells) and ensures only `Core`, the board, level and piece-shape part of the invariant;
  - `StartGame` and `ResetGame` accept any state; `GameOver` requires only `Core`, which holds in the lock step once the full rows are cleared; `PauseGame`, `MovePiece`, `RotatePiece`, `HardDrop` and the lock step require `Valid()`; the two helpers of `HardDrop` and the lock step require more: `DropLoop` requires `Valid() && CanAct(State())` (a current piece, playing, not paused, not over) and `StampAndClear` requires `Valid()` and a current piece; `CheckHighScore` and `AddHighScore` accept any state.

Modelling choices:

- **Cells.** A board cell is `Option<string>`, where `None` is `null`.
- **Truthiness.** The collision test uses JavaScript truthiness of a cell (`Occupied`: a colour other than the empty string). Full-row detection uses `!== null` (`IsFull`: any `Some`). The two are modelled separately, as in the code.
- **Shape entries.** A non-zero shape entry is an occupied cell.
- **Random kind.** The random choice of a piece kind is an argument, `KindIndex`, an index into `KEYS`. Every method that may draw a piece takes it.
- **High-score stamp.** The timestamp id and the locale date string of a new high-score entry are an argument, `Stamp`.

## Model

| member | source | states |
|---|---|---|
| Types.KeysAreCatalog | src/types/index.ts:49-106 | the catalog has exactly the seven keys I, O, T, S, Z, J, L, listed once each in declaration order |
| Types.ColorsDistinct | src/types/index.ts:49-106 | the seven colours are pairwise distinct |
| Types.EntryI | src/types/index.ts:50-58 | the I shape is square, 0/1, has four cells, and they lie in rows 0..1 and columns 0..3 |
| Types.EntryO | src/types/index.ts:59-65 | the same facts for the O shape |
| Types.EntryT | src/types/index.ts:66-73 | the same facts for the T shape |
| Types.EntryS | src/types/index.ts:74-81 | the same facts for the S shape |
| Types.EntryZ | src/types/index.ts:82-89 | the same facts for the Z shape |
| Types.EntryJ | src/types/index.ts:90-97 | the same facts for the J shape |
| Types.EntryL | src/types/index.ts:98-105 | the same facts for the L shape |
| Types.CatalogEntry | src/types/index.ts:50-105 | every entry is square, 0/1, has four cells in the spawn box, and is 2x2 for O, 4x4 for I and 3x3 otherwise |
| Types.CatalogShapes | src/types/index.ts:50-105 | every catalog shape satisfies those facts |
| Tetris.EmptyRow | src/utils/tetris.ts:5 | a row of 10 cells, all empty |
| Tetris.CreateEmptyBoard | src/utils/tetris.ts:3-7 | 20 rows of 10 cells, every cell empty |
| Tetris.GetRandomTetromino | src/utils/tetris.ts:9-20 | the piece's id is the chosen catalog key; its shape and colour are that entry's; it is placed at (4, 0) |
| Tetris.SpawnFits | src/utils/tetris.ts:9-20 | every spawned piece has a square four-cell shape and is valid at its spawn place on an empty board |
| Tetris.RotatePiece | src/utils/tetris.ts:22-27 | an R-by-C matrix becomes a C-by-R matrix whose row i is column i reversed, so entry (i, j) is taken from (R-1-j, i): a clockwise quarter turn |
| Tetris.RotatePieceShape | src/utils/tetris.ts:22-27 | an N-by-N matrix stays N-by-N, and a four-cell piece shape stays one |
| Tetris.RotateFourTimes | src/utils/tetris.ts:22-27 | four rotations give back the original matrix |
| Tetris.RotateIVertical | src/utils/tetris.ts:22-27 | the rotated I piece occupies exactly column 2 of all four rows |
| Tetris.RotateCount | src/utils/tetris.ts:22-27 | rotation preserves the number of occupied cells |
| Tetris.Reverse | src/utils/tetris.ts:24 | the reversed row holds the same entries in opposite order |
| Tetris.IsValidMove | src/utils/tetris.ts:29-53 | the result is true exactly when every occupied shape cell lands in columns 0..9 and above row 20, on a square that is empty or above the board |
| Tetris.FitsAboveFloor | src/utils/tetris.ts:41 | a shape with an occupied cell that passes the test is placed above row 20 |
| Tetris.Fits | src/utils/tetris.ts:34-52 | the reference definition of a legal placement: every occupied shape cell lands in columns 0..9, above row 20, and on a square that is above the board or not occupied |
| Tetris.Placed | src/utils/tetris.ts:55-75 | stamping yields a 20 by 10 board |
| Tetris.PlacePiece | src/utils/tetris.ts:55-75 | the returned board is a new value: in-bounds squares under an occupied shape cell hold the piece colour, every other square equals the input, and out-of-bounds cells are skipped |
| Tetris.PlacedSpec | src/utils/tetris.ts:59-74 | stamping is idempotent and never erases a block; for a valid piece it covers only free squares and colours every in-bounds target |
| Tetris.PlacedKeepsOtherRows | src/utils/tetris.ts:61-72 | rows outside the shape's vertical span are untouched |
| Tetris.EmptyRows | src/utils/tetris.ts:98-100 | n empty rows |
| Tetris.FullRowsMembers | src/utils/tetris.ts:84-88 | the collected indices are exactly the full rows, in increasing order |
| Tetris.KeepRowsCount | src/utils/tetris.ts:95 | the filter keeps as many rows as are not full; every kept row is a non-full row of the input |
| Tetris.KeepRowsNoFull | src/utils/tetris.ts:90-92 | with no full row the filter keeps the whole board |
| Tetris.FullRows | src/utils/tetris.ts:84-88 | the reference definition of the collected indices: the full rows, scanned top to bottom |
| Tetris.KeepRows | src/utils/tetris.ts:95 | the reference definition of the filter: the rows that are not full, in their original order |
| Tetris.Cleared | src/utils/tetris.ts:77-103 | the reference definition of the cleared board: one empty row per full row, followed by the rows that are kept |
| Tetris.ClearedShape | src/utils/tetris.ts:77-103 | the cleared board has 20 rows of 10 cells and no full row; it is the empty rows followed by the kept rows; with no full row it is the input |
| Tetris.ClearLines | src/utils/tetris.ts:77-103 | the count returned is the number of full rows; the board returned has that many empty rows on top of the non-full rows in their original order |
| Tetris.PlacedFullRows | src/store/TetrisStore.ts:158-165 | stamping a piece into a board without full rows makes at most as many full rows as the shape has rows, so the score table is never indexed past 4 |
| Tetris.CalculateScore | src/utils/tetris.ts:105-108 | for 0..4 lines the score is 0 exactly when no line was cleared, and at least 40 x (level + 1) otherwise |
| Tetris.ScoreTable | src/utils/tetris.ts:105-108 | the score is 0, 40, 100, 300 or 1200 times (level + 1) |
| Tetris.ScoreIncreasing | src/utils/tetris.ts:105-108 | the score grows with the lines cleared and with the level |
| Tetris.CalculateLevel | src/utils/tetris.ts:110-112 | the level is the number of whole tens of lines |
| Tetris.LevelMonotone | src/utils/tetris.ts:110-112 | the level never falls as lines grow, and ten more lines raise it by one |
| Tetris.GetDropSpeed | src/utils/tetris.ts:114-116 | the interval is the larger of 50 and 1000 - 50 x level |
| Tetris.DropSpeedNonIncreasing | src/utils/tetris.ts:114-116 | the interval never grows with the level and strictly shrinks until level 19 |
| HighScores.MinScore | src/store/TetrisStore.ts:263 | the minimum score is at most every score and is attained by some entry |
| HighScores.IsHighScore | src/store/TetrisStore.ts:261-268 | a score qualifies exactly when the list has fewer than ten entries or some entry scores strictly less |
| HighScores.InsertByScore | src/store/TetrisStore.ts:281 | insertion adds exactly one entry and keeps a sorted list sorted |
| HighScores.SortByScore | src/store/TetrisStore.ts:281 | the sorted list is a permutation of the input, with non-increasing scores |
| HighScores.AddHighScore | src/store/TetrisStore.ts:280-282 | the new list is sorted by non-increasing score, has min(old length + 1, 10) entries, and is drawn from the old entries plus the new one |
| HighScores.KeepsHighest | src/store/TetrisStore.ts:280-282 | an entry dropped by the truncation scores no more than any entry kept |
| HighScores.QualifyingScoreKept | src/store/TetrisStore.ts:261-284 | with at most ten entries, an entry whose score qualifies is on the list after it is added |
| HighScores.InsertLast | src/store/TetrisStore.ts:281 | an entry scoring no more than all others is appended at the end |
| HighScores.SortSorted | src/store/TetrisStore.ts:281 | sorting a sorted list leaves it unchanged |
| HighScores.AddIsInsert | src/store/TetrisStore.ts:280-282 | on a sorted list, adding is inserting in place and truncating to ten |
| HighScores.SortExample | src/store/TetrisStore.ts:280-282 | scores 500, 1000, 750 added in turn are listed as 1000, 750, 500, with top score 1000 |
| HighScores.TopScore | src/store/TetrisStore.ts:287-289 | 0 for an empty list, otherwise the first entry's score, which is the best one when the list is sorted |
| Session.ClearStep | src/store/TetrisStore.ts:158-167 | after stamping and clearing, the board has no full row, lines and score have not fallen, `level == lines / 10`, and only board, lines, score and level change |
| Session.DropFrom | src/store/TetrisStore.ts:144-150 | the piece moves straight down, keeping its shape and column; every row from the start to the stop is valid; the row below the stop is invalid, so the stop is the first such row |
| Session.DroppedState | src/store/TetrisStore.ts:144-150 | the dropped state keeps the session invariant and does not lower score or lines |
| Session.AddHighScoreStepSpec | src/store/TetrisStore.ts:270-284 | only the list changes; it ends sorted and at most ten long, drawn from the old entries plus one carrying the current score, level and lines; a qualifying entry is kept when the list held at most ten; the invariant is kept |
| Session.Initial | src/store/TetrisStore.ts:24-49 | the state of a new store: empty board, no pieces, zero counters, flags down, and the loaded high-score list |
| Session.ResetStep | src/store/TetrisStore.ts:62-73 | the transition of `resetGame`: empty board, no pieces, zero counters, flags down, list kept |
| Session.StartStep | src/store/TetrisStore.ts:52-60 | the transition of `startGame`: a reset, then playing with the two drawn pieces as current and next |
| Session.PauseStep | src/store/TetrisStore.ts:75-84 | the transition of `pauseGame`: the paused flag toggled when playing and not over, otherwise no change |
| Session.AddHighScoreStep | src/store/TetrisStore.ts:270-284 | the transition of `addHighScore`: an entry with the stamp, the name and the current score, level and lines, pushed, sorted and truncated |
| Session.CheckHighScoreStep | src/store/TetrisStore.ts:261-268 | the transition of `checkHighScore`: an entry named "Player" added when the score qualifies, otherwise no change |
| Session.GameOverStep | src/store/TetrisStore.ts:86-92 | the transition of `gameOver`: over set, playing cleared, then the high-score check |
| Session.MoveStep | src/store/TetrisStore.ts:106-128 | the transition of `movePiece`: the guard, the one-step shift when it fits, otherwise the lock step for a down move |
| Session.RotateStep | src/store/TetrisStore.ts:130-139 | the transition of `rotatePiece`: the guard, then the rotated shape when it fits at the same position |
| Session.HardDropStep | src/store/TetrisStore.ts:141-153 | the transition of `hardDrop`: the guard, then the dropped state followed by the lock step |
| Session.PromoteStep | src/store/TetrisStore.ts:169-170 | the next piece becomes current and a newly drawn piece becomes next |
| Session.LockStep | src/store/TetrisStore.ts:155-176 | the transition of the private `placePiece`: stamp and clear, promote, and the game-over step when the promoted piece does not fit |
| Session.ResetStepSpec | src/store/TetrisStore.ts:62-73 | reset gives an empty board, no pieces, zero counters and all flags false; the high scores stay |
| Session.InitialSpec | src/store/TetrisStore.ts:24-36 | a new store is in the reset state with the loaded high scores |
| Session.StartStepSpec | src/store/TetrisStore.ts:52-60 | start plays on an empty board with both pieces drawn and zero counters |
| Session.PauseStepSpec | src/store/TetrisStore.ts:75-84 | pause toggles the paused flag exactly when playing and not over, and changes nothing else |
| Session.GameOverStepSpec | src/store/TetrisStore.ts:86-92 | game over sets the over flag, clears the playing flag, changes only the high scores otherwise, and, when the list held at most ten entries, puts a qualifying score on it |
| Session.LockStepSpec | src/store/TetrisStore.ts:155-176 | locking clears at most four rows, adds them to lines, adds their score at the old level, sets the level from lines, promotes the next piece, draws a new one, and ends the game exactly when the promoted piece is invalid; the paused flag is kept; the high-score list is kept while play goes on, and when the game ends here it becomes the list with a "Player" entry for the final score added if that score qualifies |
| Session.LockStepInv | src/store/TetrisStore.ts:155-176 | locking keeps the session invariant and never lowers score or lines |
| Session.MoveStepSpec | src/store/TetrisStore.ts:106-128 | without the guard nothing changes; a valid move shifts by exactly (-1,0), (+1,0) or (0,+1) and keeps the shape; a blocked side move changes nothing; a blocked down move locks |
| Session.MoveStepInv | src/store/TetrisStore.ts:106-128 | moving keeps the session invariant and never lowers score or lines |
| Session.RotateStepSpec | src/store/TetrisStore.ts:130-139 | without the guard nothing changes; the rotated shape is committed exactly when it is valid at the unchanged position; the position never changes; the invariant holds |
| Session.HardDropStepSpec | src/store/TetrisStore.ts:141-153 | without the guard nothing changes; otherwise the piece descends in its column through rows that are all valid, stops at the first row whose next row is invalid, scores 2 per row descended, and then locks |
| Session.HardDropStepInv | src/store/TetrisStore.ts:141-153 | a hard drop keeps the session invariant and never lowers score or lines |
| Store.TetrisStore.constructor | src/store/TetrisStore.ts:45-49 | a new store holds the initial state and satisfies the invariant |
| Store.TetrisStore.StartGame | src/store/TetrisStore.ts:52-60 | the fields become the start state and satisfy the invariant |
| Store.TetrisStore.ResetGame | src/store/TetrisStore.ts:62-73 | the fields become the reset state |
| Store.TetrisStore.PauseGame | src/store/TetrisStore.ts:75-84 | the fields become the paused or resumed state |
| Store.TetrisStore.GameOver | src/store/TetrisStore.ts:86-92 | the fields become the game-over state, with the high score recorded |
| Store.TetrisStore.MovePiece | src/store/TetrisStore.ts:106-128 | the fields become the move transition's state, using the collision test |
| Store.TetrisStore.RotatePiece | src/store/TetrisStore.ts:130-139 | the fields become the rotate transition's state |
| Store.TetrisStore.HardDrop | src/store/TetrisStore.ts:141-153 | the fields become the hard-drop transition's state: the drop loop, then the lock step |
| Store.TetrisStore.DropLoop | src/store/TetrisStore.ts:144-150 | the while loop ends with the piece at its landing row and 2 points per row descended, and the invariant holds |
| Store.TetrisStore.PlacePiece | src/store/TetrisStore.ts:155-176 | the fields become the lock transition's state |
| Store.TetrisStore.StampAndClear | src/store/TetrisStore.ts:158-167 | stamping, clearing and crediting perform the first half of the lock step, after which `Core` holds again |
| Store.TetrisStore.CheckHighScore | src/store/TetrisStore.ts:261-268 | in any state, a qualifying score is added under the name "Player" and otherwise nothing changes; the invariant is kept if it held |
| Store.TetrisStore.AddHighScore | src/store/TetrisStore.ts:270-284 | in any state, the list becomes the push-sort-truncate result, sorted and at most ten long, and nothing else changes; the invariant is kept if it held |
| Store.TetrisStore.TopScore | src/store/TetrisStore.ts:287-289 | the getter returns `HighScores.TopScore` of the stored list (0 when empty, else the first entry's score, the best one in the sorted list) |

## Left out

- **Random draw** (`Math.random`, src/utils/tetris.ts:11). The kind index is an argument: statistical variety is not a provable property.
- **Timers.** The game-loop timers `startGameLoop` and `stopGameLoop` (src/store/TetrisStore.ts:179-195) are scheduling. A tick is a call of `MovePiece(Down, ...)`. `GetDropSpeed` is the formula only: the store reads it just when it arms the timer, at start (line 58) and on resume (line 82). When the lock step raises the level (line 166) the timer is not re-armed, so play keeps the old level's speed until a pause and resume. The model has no timer state and does not capture this.
- **Menu animation** (src/store/TetrisStore.ts:198-243). It is decorative, random and uses fractional coordinates.
- **Persistence and timestamps.** `localStorage` and JSON in `loadHighScores` and `saveHighScores` (src/store/TetrisStore.ts:246-259) are I/O. The loaded list is the constructor's argument. `Date.now()` and the locale date are the `Stamp` argument.
- **UI state.** Screen routing (`currentScreen`, `goToMenu`, `goToHighScores`) and the `makeAutoObservable` call are UI bookkeeping on top of the engine. So is the `gameState` getter, which only bundles the game fields; `State()` holds the same fields plus `highScores`, which the getter leaves out.
- **In-place piece mutation.** The store updates `currentPiece.position` and `currentPiece.shape` in place. The model replaces the piece value, so aliasing of a piece object shared with a caller is not captured.
- **Direct field writes.** Nothing in the application assigns the store's fields from outside, but the store's unit tests assign `score`, `level` and `lines` directly. One such state has level 5 with 20 lines, which breaks `level == lines / 10`. `CheckHighScore` and `AddHighScore` have no precondition and accept such states. The game actions `MovePiece`, `RotatePiece`, `HardDrop` and `PauseGame` require the session invariant, and `GameOver` requires `Core`, which also demands `level == lines / 10`. None of these is specified for states built that way; only `StartGame` and `ResetGame` are, besides the high-score methods.
- Tetris.RotatePiece: requires a non-empty rectangular matrix; the behaviour of `map` on ragged or empty matrices is not modelled.
- Tetris.CalculateScore: requires at most 4 cleared lines; `undefined * (level + 1)` (NaN) for more is not modelled. The lock step never produces more, as `Tetris.PlacedFullRows` proves for four-row shapes.
- HighScores.SortByScore: the insertion sort keeps equal scores in insertion order, but stability is not stated as a proved property. Its ensures also does not relate the result to `Array.prototype.sort`.
- HighScores.AddHighScore: `score` is an unbounded integer, so the JavaScript double arithmetic in the comparator `b.score - a.score` is not modelled.
- **Integer width.** Counters are unbounded naturals. JavaScript doubles lose precision only past 2^53, which is not modelled.
