/**
 * The game session of TetrisStore (src/store/TetrisStore.ts) as a state value and one pure
 * transition per store action. The class in store.dfy performs these transitions in place.
 */
module Session {
  import opened Types
  import opened Tetris
  import opened HighScores

  datatype Direction = Left | Right | Down

  /** The id and date the store takes from `Date.now()` and `toLocaleDateString()` for a high-score entry. */
  datatype Stamp = Stamp(id: string, date: string)

  /** The store's game fields, plus its high-score list. */
  datatype GameState = GameState(
    board: Board,
    currentPiece: Option<Tetromino>,
    nextPiece: Option<Tetromino>,
    score: nat,
    level: nat,
    lines: nat,
    isGameOver: bool,
    isPaused: bool,
    isPlaying: bool,
    highScores: seq<HighScore>)

  // ---------------------------------------------------------------------------
  // Invariants

  /** What holds in every reachable state, and in the lock step once the full rows are cleared. */
  predicate Core(s: GameState) {
    IsBoard(s.board) && NoFullRows(s.board) &&
    s.level == CalculateLevel(s.lines) &&
    (s.currentPiece.Some? ==> IsPieceShape(s.currentPiece.value.shape)) &&
    (s.nextPiece.Some? ==> IsPieceShape(s.nextPiece.value.shape))
  }

  /** The session invariant: while playing, both pieces exist and the current one sits at a valid place. */
  predicate Inv(s: GameState) {
    Core(s) &&
    (s.isGameOver ==> !s.isPlaying) &&
    (s.isPlaying ==>
      s.currentPiece.Some? && s.nextPiece.Some? &&
      Fits(s.board, s.currentPiece.value.shape, s.currentPiece.value.position))
  }

  /** Score and cleared lines did not go down from `s` to `t`. */
  predicate NoLoss(s: GameState, t: GameState) {
    s.score <= t.score && s.lines <= t.lines
  }

  // ---------------------------------------------------------------------------
  // Transitions

  /** The state a freshly constructed store holds, given the list its persistence layer loaded. */
  function Initial(saved: seq<HighScore>): GameState {
    GameState(CreateEmptyBoard(), None, None, 0, 0, 0, false, false, false, saved)
  }

  function ResetStep(s: GameState): GameState {
    s.(board := CreateEmptyBoard(), currentPiece := None, nextPiece := None,
       score := 0, level := 0, lines := 0,
       isGameOver := false, isPaused := false, isPlaying := false)
  }

  function StartStep(s: GameState, first: KindIndex, second: KindIndex): GameState {
    ResetStep(s).(isPlaying := true,
                  currentPiece := Some(GetRandomTetromino(first)),
                  nextPiece := Some(GetRandomTetromino(second)))
  }

  function PauseStep(s: GameState): GameState {
    if !s.isPlaying || s.isGameOver then s else s.(isPaused := !s.isPaused)
  }

  function AddHighScoreStep(s: GameState, name: string, stamp: Stamp): GameState {
    var entry := HighScore(stamp.id, name, s.score, s.level, s.lines, stamp.date);
    s.(highScores := AddHighScore(s.highScores, entry))
  }

  function CheckHighScoreStep(s: GameState, stamp: Stamp): GameState {
    if IsHighScore(s.highScores, s.score) then AddHighScoreStep(s, "Player", stamp) else s
  }

  function GameOverStep(s: GameState, stamp: Stamp): GameState {
    CheckHighScoreStep(s.(isGameOver := true, isPlaying := false), stamp)
  }

  /** The guard shared by moving, rotating and dropping. */
  predicate CanAct(s: GameState) {
    s.currentPiece.Some? && s.isPlaying && !s.isPaused && !s.isGameOver
  }

  function Shift(pos: Position, direction: Direction): Position {
    match direction
    case Left => pos.(x := pos.x - 1)
    case Right => pos.(x := pos.x + 1)
    case Down => pos.(y := pos.y + 1)
  }

  /**
   * First half of the lock step: stamp the current piece, clear full rows, and credit the
   * cleared rows to `lines`, `score` (at the old level) and `level`.
   */
  function ClearStep(s: GameState): (r: GameState)
    requires Inv(s) && s.currentPiece.Some?
    ensures IsBoard(r.board) && NoFullRows(r.board) && r.level == CalculateLevel(r.lines)
    ensures NoLoss(s, r)
    ensures r == s.(board := r.board, lines := r.lines, score := r.score, level := r.level)
  {
    var piece := s.currentPiece.value;
    var placed := Placed(s.board, piece);
    PlacedFullRows(s.board, piece);
    ClearedShape(placed);
    var k := |FullRows(placed)|;
    if k > 0 then
      s.(board := Cleared(placed), lines := s.lines + k,
         score := s.score + CalculateScore(k, s.level), level := CalculateLevel(s.lines + k))
    else s.(board := Cleared(placed))
  }

  /** Second half of the lock step: the next piece becomes current and a new next piece is drawn. */
  function PromoteStep(s: GameState, draw: KindIndex): GameState {
    s.(currentPiece := s.nextPiece, nextPiece := Some(GetRandomTetromino(draw)))
  }

  /** The private `placePiece`: stamp, clear, score, promote the next piece, detect game over. */
  function LockStep(s: GameState, draw: KindIndex, stamp: Stamp): GameState
    requires Inv(s)
  {
    if s.currentPiece.None? then s
    else
      var s2 := PromoteStep(ClearStep(s), draw);
      if s2.currentPiece.Some? &&
         !Fits(s2.board, s2.currentPiece.value.shape, s2.currentPiece.value.position)
      then GameOverStep(s2, stamp)
      else s2
  }

  function MoveStep(s: GameState, direction: Direction, draw: KindIndex, stamp: Stamp): GameState
    requires Inv(s)
  {
    if !CanAct(s) then s
    else
      var piece := s.currentPiece.value;
      var newPosition := Shift(piece.position, direction);
      if Fits(s.board, piece.shape, newPosition) then
        s.(currentPiece := Some(piece.(position := newPosition)))
      else if direction == Down then LockStep(s, draw, stamp)
      else s
  }

  function RotateStep(s: GameState): GameState
    requires Inv(s)
  {
    if !CanAct(s) then s
    else
      var piece := s.currentPiece.value;
      var rotatedShape := RotatePiece(piece.shape);
      if Fits(s.board, rotatedShape, piece.position) then
        s.(currentPiece := Some(piece.(shape := rotatedShape)))
      else s
  }

  /** Where the hard-drop loop stops: the first row, going down through valid rows, whose next row is invalid. */
  function DropFrom(b: Board, p: Tetromino): (r: Tetromino)
    requires IsBoard(b) && CellCount(p.shape) > 0 && Fits(b, p.shape, p.position)
    ensures r == p.(position := Position(p.position.x, r.position.y))
    ensures r.position.y >= p.position.y
    ensures Fits(b, r.shape, r.position) && !Fits(b, r.shape, Shift(r.position, Down))
    ensures forall y :: p.position.y <= y <= r.position.y ==> Fits(b, p.shape, Position(p.position.x, y))
    decreases BOARD_HEIGHT - p.position.y
  {
    FitsAboveFloor(b, p.shape, p.position);
    var down := Shift(p.position, Down);
    if Fits(b, p.shape, down) then DropFrom(b, p.(position := down)) else p
  }

  /** The hard-drop loop's effect: the piece at its landing row, 2 points per row descended. */
  function DroppedState(s: GameState): (r: GameState)
    requires Inv(s) && CanAct(s)
    ensures Inv(r) && NoLoss(s, r)
  {
    var piece := s.currentPiece.value;
    var landed := DropFrom(s.board, piece);
    s.(currentPiece := Some(landed), score := s.score + 2 * (landed.position.y - piece.position.y))
  }

  function HardDropStep(s: GameState, draw: KindIndex, stamp: Stamp): GameState
    requires Inv(s)
  {
    if !CanAct(s) then s else LockStep(DroppedState(s), draw, stamp)
  }

  // ---------------------------------------------------------------------------
  // Lifecycle

  /** Reset yields an empty board, no pieces, zero counters and all flags down; the high scores stay. */
  lemma ResetStepSpec(s: GameState)
    ensures var r := ResetStep(s);
      Inv(r) && r.board == CreateEmptyBoard() && r.currentPiece.None? && r.nextPiece.None? &&
      r.score == 0 && r.level == 0 && r.lines == 0 &&
      !r.isGameOver && !r.isPaused && !r.isPlaying && r.highScores == s.highScores
  {
    var b := CreateEmptyBoard();
    forall row | 0 <= row < |b| ensures !IsFull(b[row]) {
      assert b[row][0] == None;
    }
  }

  /** A new store starts in the same state a reset produces. */
  lemma InitialSpec(saved: seq<HighScore>)
    ensures Inv(Initial(saved)) && Initial(saved) == ResetStep(Initial(saved))
    ensures Initial(saved).highScores == saved
  {
    ResetStepSpec(Initial(saved));
  }

  /** Starting plays on an empty board with both pieces at their spawn place and zero counters. */
  lemma StartStepSpec(s: GameState, first: KindIndex, second: KindIndex)
    ensures var r := StartStep(s, first, second);
      Inv(r) && CanAct(r) && r.nextPiece.Some? &&
      r.currentPiece.value == GetRandomTetromino(first) &&
      r.nextPiece.value == GetRandomTetromino(second) &&
      r.board == CreateEmptyBoard() && r.score == 0 && r.level == 0 && r.lines == 0 &&
      r.highScores == s.highScores
  {
    ResetStepSpec(s);
    SpawnFits(first);
    SpawnFits(second);
  }

  /** Pausing toggles the flag exactly when playing and not over, and changes nothing else. */
  lemma PauseStepSpec(s: GameState)
    requires Inv(s)
    ensures var r := PauseStep(s);
      Inv(r) && r.(isPaused := s.isPaused) == s &&
      (r.isPaused != s.isPaused <==> s.isPlaying && !s.isGameOver)
  {
  }

  /**
   * Game over raises isGameOver, lowers isPlaying, and records the score when it qualifies;
   * a qualifying score is then on the list. Board, pieces and counters are untouched.
   */
  lemma GameOverStepSpec(s: GameState, stamp: Stamp)
    requires Core(s)
    ensures var r := GameOverStep(s, stamp);
      Inv(r) && r.isGameOver && !r.isPlaying && NoLoss(s, r) &&
      r.(isGameOver := s.isGameOver, isPlaying := s.isPlaying, highScores := s.highScores) == s &&
      (!IsHighScore(s.highScores, s.score) ==> r.highScores == s.highScores) &&
      (IsHighScore(s.highScores, s.score) && |s.highScores| <= MAX_HIGH_SCORES ==>
        HighScore(stamp.id, "Player", s.score, s.level, s.lines, stamp.date) in r.highScores)
  {
    var entry := HighScore(stamp.id, "Player", s.score, s.level, s.lines, stamp.date);
    if IsHighScore(s.highScores, s.score) && |s.highScores| <= MAX_HIGH_SCORES {
      QualifyingScoreKept(s.highScores, entry);
    }
  }

  /**
   * Adding a high score changes only the list: the new entry carries the current score, level and
   * lines, the list ends sorted and at most ten long, and an entry that qualifies is kept.
   */
  lemma AddHighScoreStepSpec(s: GameState, name: string, stamp: Stamp)
    ensures var r := AddHighScoreStep(s, name, stamp);
      var entry := HighScore(stamp.id, name, s.score, s.level, s.lines, stamp.date);
      r.(highScores := s.highScores) == s && (Inv(s) ==> Inv(r)) &&
      SortedByScore(r.highScores) && |r.highScores| <= MAX_HIGH_SCORES &&
      multiset(r.highScores) <= multiset(s.highScores + [entry]) &&
      (IsHighScore(s.highScores, s.score) && |s.highScores| <= MAX_HIGH_SCORES ==> entry in r.highScores)
  {
    var entry := HighScore(stamp.id, name, s.score, s.level, s.lines, stamp.date);
    if IsHighScore(s.highScores, s.score) && |s.highScores| <= MAX_HIGH_SCORES {
      QualifyingScoreKept(s.highScores, entry);
    }
  }

  // ---------------------------------------------------------------------------
  // Locking

  /**
   * The lock step clears at most four rows, adds them to `lines`, adds their score at the old
   * level, promotes the next piece and draws a new one; the game is over exactly when the
   * promoted piece does not fit, and only then is the new score offered to the high-score list.
   */
  lemma LockStepSpec(s: GameState, draw: KindIndex, stamp: Stamp)
    requires Inv(s) && s.isPlaying
    ensures var placed := Placed(s.board, s.currentPiece.value);
      var k := |FullRows(placed)|;
      var r := LockStep(s, draw, stamp);
      k <= 4 && IsBoard(r.board) &&
      r.board == Cleared(placed) &&
      r.lines == s.lines + k && r.score == s.score + CalculateScore(k, s.level) &&
      r.level == CalculateLevel(r.lines) &&
      r.currentPiece == s.nextPiece && r.nextPiece == Some(GetRandomTetromino(draw)) &&
      (r.isGameOver <==> !Fits(r.board, r.currentPiece.value.shape, r.currentPiece.value.position)) &&
      r.isPlaying == !r.isGameOver && r.isPaused == s.isPaused &&
      (!r.isGameOver ==> r.highScores == s.highScores) &&
      (r.isGameOver ==>
        r.highScores == (if IsHighScore(s.highScores, r.score)
          then AddHighScore(s.highScores, HighScore(stamp.id, "Player", r.score, r.level, r.lines, stamp.date))
          else s.highScores))
  {
    var piece := s.currentPiece.value;
    var placed := Placed(s.board, piece);
    PlacedFullRows(s.board, piece);
    var s1 := ClearStep(s);
    assert s1.board == Cleared(placed);
    var s2 := PromoteStep(s1, draw);
    assert s2.isPlaying && !s2.isGameOver;
  }

  /** The lock step keeps the session invariant and never lowers score or lines. */
  lemma LockStepInv(s: GameState, draw: KindIndex, stamp: Stamp)
    requires Inv(s)
    ensures Inv(LockStep(s, draw, stamp)) && NoLoss(s, LockStep(s, draw, stamp))
  {
    if s.currentPiece.Some? {
      SpawnFits(draw);
      var s2 := PromoteStep(ClearStep(s), draw);
      assert Core(s2);
      if s2.currentPiece.Some? &&
         !Fits(s2.board, s2.currentPiece.value.shape, s2.currentPiece.value.position) {
        GameOverStepSpec(s2, stamp);
      }
    }
  }

  // ---------------------------------------------------------------------------
  // Moving, rotating, dropping

  /**
   * Moving does nothing unless the guard holds; a valid move shifts the position by exactly one
   * column or row and keeps the shape; a blocked side move does nothing; a blocked down move locks.
   */
  lemma MoveStepSpec(s: GameState, direction: Direction, draw: KindIndex, stamp: Stamp)
    requires Inv(s)
    ensures var r := MoveStep(s, direction, draw, stamp);
      (!CanAct(s) ==> r == s) &&
      (CanAct(s) ==>
        var piece := s.currentPiece.value;
        var target := Shift(piece.position, direction);
        target == Position(
          piece.position.x + (if direction == Left then -1 else if direction == Right then 1 else 0),
          piece.position.y + (if direction == Down then 1 else 0)) &&
        (Fits(s.board, piece.shape, target) ==>
          r == s.(currentPiece := Some(piece.(position := target)))) &&
        (!Fits(s.board, piece.shape, target) && direction != Down ==> r == s) &&
        (!Fits(s.board, piece.shape, target) && direction == Down ==> r == LockStep(s, draw, stamp)))
  {
  }

  /** Moving keeps the session invariant and never lowers score or lines. */
  lemma MoveStepInv(s: GameState, direction: Direction, draw: KindIndex, stamp: Stamp)
    requires Inv(s)
    ensures Inv(MoveStep(s, direction, draw, stamp)) && NoLoss(s, MoveStep(s, direction, draw, stamp))
  {
    if CanAct(s) {
      var piece := s.currentPiece.value;
      var target := Shift(piece.position, direction);
      if !Fits(s.board, piece.shape, target) && direction == Down {
        LockStepInv(s, draw, stamp);
      }
    }
  }

  /**
   * Rotating commits the clockwise-rotated shape exactly when it fits at the unchanged position;
   * otherwise, or when the guard fails, the state is untouched. The invariant is kept.
   */
  lemma RotateStepSpec(s: GameState)
    requires Inv(s)
    ensures var r := RotateStep(s);
      Inv(r) && NoLoss(s, r) &&
      (!CanAct(s) ==> r == s) &&
      (CanAct(s) ==>
        var piece := s.currentPiece.value;
        var rotatedShape := RotatePiece(piece.shape);
        r == (if Fits(s.board, rotatedShape, piece.position)
              then s.(currentPiece := Some(piece.(shape := rotatedShape)))
              else s) &&
        r.currentPiece.value.position == piece.position)
  {
    if CanAct(s) {
      RotatePieceShape(s.currentPiece.value.shape);
    }
  }

  /**
   * A hard drop, when the guard holds, moves the piece straight down through rows that are all
   * valid to the first row from which one lower is invalid, credits 2 points per row, and locks.
   */
  lemma HardDropStepSpec(s: GameState, draw: KindIndex, stamp: Stamp)
    requires Inv(s)
    ensures var r := HardDropStep(s, draw, stamp);
      (!CanAct(s) ==> r == s) &&
      (CanAct(s) ==>
        var piece := s.currentPiece.value;
        var dropped := DroppedState(s);
        var landed := dropped.currentPiece.value;
        dropped == s.(currentPiece := dropped.currentPiece, score := dropped.score) &&
        landed.shape == piece.shape && landed.position.x == piece.position.x &&
        landed.position.y >= piece.position.y &&
        dropped.score == s.score + 2 * (landed.position.y - piece.position.y) &&
        Fits(s.board, landed.shape, landed.position) &&
        !Fits(s.board, landed.shape, Shift(landed.position, Down)) &&
        (forall y :: piece.position.y <= y <= landed.position.y ==>
          Fits(s.board, piece.shape, Position(piece.position.x, y))) &&
        r == LockStep(dropped, draw, stamp))
  {
  }

  /** A hard drop keeps the session invariant and never lowers score or lines. */
  lemma HardDropStepInv(s: GameState, draw: KindIndex, stamp: Stamp)
    requires Inv(s)
    ensures Inv(HardDropStep(s, draw, stamp)) && NoLoss(s, HardDropStep(s, draw, stamp))
  {
    if CanAct(s) {
      LockStepInv(DroppedState(s), draw, stamp);
    }
  }
}
