/**
 * The game store (src/store/TetrisStore.ts): an object whose actions update its fields in place.
 * Each method is proved to perform exactly the corresponding transition of module Session.
 * Every method but StampAndClear ends with the session invariant; the two high-score methods
 * keep it when it held, and StampAndClear keeps its Core part.
 */
module Store {
  import opened Types
  import Tetris
  import HighScores
  import opened Session

  class TetrisStore {
    var board: Board
    var currentPiece: Option<Tetromino>
    var nextPiece: Option<Tetromino>
    var score: nat
    var level: nat
    var lines: nat
    var isGameOver: bool
    var isPaused: bool
    var isPlaying: bool
    var highScores: seq<HighScore>

    /** The store's fields as one session value. */
    function State(): GameState
      reads this
    {
      GameState(board, currentPiece, nextPiece, score, level, lines,
                isGameOver, isPaused, isPlaying, highScores)
    }

    predicate Valid()
      reads this
    {
      Inv(State())
    }

    /** A new store, holding the high-score list its persistence layer loaded. */
    constructor(saved: seq<HighScore>)
      ensures State() == Initial(saved) && Valid()
    {
      board := Tetris.CreateEmptyBoard();
      currentPiece := None;
      nextPiece := None;
      score := 0;
      level := 0;
      lines := 0;
      isGameOver := false;
      isPaused := false;
      isPlaying := false;
      highScores := saved;
      InitialSpec(saved);
    }

    method StartGame(first: KindIndex, second: KindIndex)
      modifies this
      ensures State() == StartStep(old(State()), first, second) && Valid()
    {
      ghost var s0 := State();
      ResetGame();
      isPlaying := true;
      currentPiece := Some(Tetris.GetRandomTetromino(first));
      nextPiece := Some(Tetris.GetRandomTetromino(second));
      StartStepSpec(s0, first, second);
    }

    method ResetGame()
      modifies this
      ensures State() == ResetStep(old(State())) && Valid()
    {
      ghost var s0 := State();
      board := Tetris.CreateEmptyBoard();
      currentPiece := None;
      nextPiece := None;
      score := 0;
      level := 0;
      lines := 0;
      isGameOver := false;
      isPaused := false;
      isPlaying := false;
      ResetStepSpec(s0);
    }

    method PauseGame()
      requires Valid()
      modifies this
      ensures State() == PauseStep(old(State())) && Valid()
    {
      ghost var s0 := State();
      if !isPlaying || isGameOver {
        return;
      }
      isPaused := !isPaused;
      PauseStepSpec(s0);
    }

    /** Ends the game; called by the lock step before the session invariant is restored. */
    method GameOver(stamp: Stamp)
      requires Core(State())
      modifies this
      ensures State() == GameOverStep(old(State()), stamp) && Valid()
    {
      ghost var s0 := State();
      isGameOver := true;
      isPlaying := false;
      CheckHighScore(stamp);
      GameOverStepSpec(s0, stamp);
    }

    method MovePiece(direction: Direction, draw: KindIndex, stamp: Stamp)
      requires Valid()
      modifies this
      ensures State() == MoveStep(old(State()), direction, draw, stamp) && Valid()
    {
      ghost var s0 := State();
      if currentPiece.None? || !isPlaying || isPaused || isGameOver {
        return;
      }
      var newPosition := Shift(currentPiece.value.position, direction);
      var ok := Tetris.IsValidMove(board, currentPiece.value, newPosition);
      if ok {
        currentPiece := Some(currentPiece.value.(position := newPosition));
      } else if direction == Down {
        PlacePiece(draw, stamp);
      }
      MoveStepInv(s0, direction, draw, stamp);
    }

    method RotatePiece()
      requires Valid()
      modifies this
      ensures State() == RotateStep(old(State())) && Valid()
    {
      ghost var s0 := State();
      if currentPiece.None? || !isPlaying || isPaused || isGameOver {
        return;
      }
      var rotatedShape := Tetris.RotatePiece(currentPiece.value.shape);
      var rotatedPiece := currentPiece.value.(shape := rotatedShape);
      var ok := Tetris.IsValidMove(board, rotatedPiece, currentPiece.value.position);
      if ok {
        currentPiece := Some(rotatedPiece);
      }
      RotateStepSpec(s0);
    }

    /** Moves the piece down while the next row is valid, 2 points a row, then locks it. */
    method HardDrop(draw: KindIndex, stamp: Stamp)
      requires Valid()
      modifies this
      ensures State() == HardDropStep(old(State()), draw, stamp) && Valid()
    {
      if currentPiece.None? || !isPlaying || isPaused || isGameOver {
        return;
      }
      DropLoop();
      PlacePiece(draw, stamp);
    }

    /** The loop of the hard drop: one row and 2 points per step while the row below is valid. */
    method DropLoop()
      requires Valid() && CanAct(State())
      modifies this
      ensures State() == DroppedState(old(State())) && Valid()
    {
      ghost var s0 := State();
      ghost var piece0 := currentPiece.value;
      var ok := Tetris.IsValidMove(board, currentPiece.value, Shift(currentPiece.value.position, Down));
      while ok
        invariant Inv(State()) && CanAct(State())
        invariant State() == s0.(currentPiece := currentPiece, score := score)
        invariant currentPiece.value == piece0.(position := Position(piece0.position.x, currentPiece.value.position.y))
        invariant currentPiece.value.position.y >= piece0.position.y
        invariant score == s0.score + 2 * (currentPiece.value.position.y - piece0.position.y)
        invariant ok == Tetris.Fits(board, currentPiece.value.shape, Shift(currentPiece.value.position, Down))
        invariant DropFrom(board, currentPiece.value) == DropFrom(board, piece0)
        decreases BOARD_HEIGHT - currentPiece.value.position.y
      {
        var piece := currentPiece.value;
        Tetris.FitsAboveFloor(board, piece.shape, piece.position);
        currentPiece := Some(piece.(position := Shift(piece.position, Down)));
        score := score + 2;
        ok := Tetris.IsValidMove(board, currentPiece.value, Shift(currentPiece.value.position, Down));
      }
    }

    /** The private lock step: stamp the piece, clear rows, score, promote, check for game over. */
    method PlacePiece(draw: KindIndex, stamp: Stamp)
      requires Valid()
      modifies this
      ensures State() == LockStep(old(State()), draw, stamp) && Valid()
    {
      ghost var s0 := State();
      if currentPiece.None? {
        return;
      }
      StampAndClear();
      currentPiece := nextPiece;
      nextPiece := Some(Tetris.GetRandomTetromino(draw));
      Tetris.SpawnFits(draw);
      assert State() == PromoteStep(ClearStep(s0), draw);
      if currentPiece.Some? {
        var ok := Tetris.IsValidMove(board, currentPiece.value, currentPiece.value.position);
        if !ok {
          GameOver(stamp);
        }
      }
      LockStepInv(s0, draw, stamp);
    }

    /** The first half of the lock step: stamp, clear full rows, and credit lines, score and level. */
    method StampAndClear()
      requires Valid() && currentPiece.Some?
      modifies this
      ensures State() == ClearStep(old(State())) && Core(State())
    {
      Tetris.PlacedFullRows(board, currentPiece.value);
      board := Tetris.PlacePiece(board, currentPiece.value);
      var newBoard, linesCleared := Tetris.ClearLines(board);
      board := newBoard;
      if linesCleared > 0 {
        lines := lines + linesCleared;
        score := score + Tetris.CalculateScore(linesCleared, level);
        level := Tetris.CalculateLevel(lines);
      }
    }

    /** Records the score as "Player" when it qualifies; callable in any state. */
    method CheckHighScore(stamp: Stamp)
      modifies this
      ensures State() == CheckHighScoreStep(old(State()), stamp)
      ensures old(Valid()) ==> Valid()
    {
      var isHighScore := HighScores.IsHighScore(highScores, score);
      if isHighScore {
        AddHighScore("Player", stamp);
      }
    }

    /** Records the current score under `name`; the list stays sorted and at most ten long. */
    method AddHighScore(name: string, stamp: Stamp)
      modifies this
      ensures State() == AddHighScoreStep(old(State()), name, stamp)
      ensures old(Valid()) ==> Valid()
      ensures HighScores.SortedByScore(highScores) && |highScores| <= HighScores.MAX_HIGH_SCORES
    {
      var newScore := HighScore(stamp.id, name, score, level, lines, stamp.date);
      highScores := HighScores.AddHighScore(highScores, newScore);
      AddHighScoreStepSpec(old(State()), name, stamp);
    }

    /** The `topScore` getter: the first entry's score, or 0 for an empty list. */
    function TopScore(): (r: int)
      reads this
      ensures r == HighScores.TopScore(highScores)
    {
      HighScores.TopScore(highScores)
    }
  }
}
