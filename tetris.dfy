/** Board and piece algebra (src/utils/tetris.ts): pure helpers and the three looping operations. */
module Tetris {
  import opened Types

  // ---------------------------------------------------------------------------
  // Boards

  /** A board of BOARD_HEIGHT rows of BOARD_WIDTH cells. */
  predicate IsBoard(b: Board) {
    |b| == BOARD_HEIGHT && forall r :: 0 <= r < |b| ==> |b[r]| == BOARD_WIDTH
  }

  function EmptyRow(): (row: Row)
    ensures |row| == BOARD_WIDTH && forall c :: 0 <= c < |row| ==> row[c] == None
  {
    seq(BOARD_WIDTH, _ => None)
  }

  function CreateEmptyBoard(): (b: Board)
    ensures IsBoard(b)
    ensures forall r, c :: 0 <= r < |b| && 0 <= c < |b[r]| ==> b[r][c] == None
  {
    seq(BOARD_HEIGHT, _ => EmptyRow())
  }

  // ---------------------------------------------------------------------------
  // Spawning

  /** `getRandomTetromino` with its random draw made a parameter: `choice` indexes the catalog keys. */
  function GetRandomTetromino(choice: KindIndex): (t: Tetromino)
    ensures t.id == KEYS[choice] && t.id in TETROMINO_SHAPES
    ensures t.shape == TETROMINO_SHAPES[t.id].shape && t.color == TETROMINO_SHAPES[t.id].color
    ensures t.position == Position(4, 0)
  {
    KeysAreCatalog();
    var key := KEYS[choice];
    var data := TETROMINO_SHAPES[key];
    Tetromino(data.shape, data.color, Position(BOARD_WIDTH / 2 - 1, 0), key)
  }

  // ---------------------------------------------------------------------------
  // Rotation

  /** Clockwise quarter turn: row i of the result is column i of `m` read bottom-up. */
  function RotatePiece(m: Shape): (r: Shape)
    requires IsMatrix(m)
    ensures |r| == |m[0]|
    ensures forall i :: 0 <= i < |r| ==> |r[i]| == |m|
    ensures forall i, j :: 0 <= i < |r| && 0 <= j < |m| ==> r[i][j] == m[|m| - 1 - j][i]
  {
    seq(|m[0]|, i requires 0 <= i < |m[0]| =>
      Reverse(seq(|m|, j requires 0 <= j < |m| => m[j][i])))
  }

  /** Rotation keeps a square N-by-N piece shape square N-by-N, with the same four cells. */
  lemma RotatePieceShape(m: Shape)
    requires IsSquare(m)
    ensures IsSquare(RotatePiece(m)) && |RotatePiece(m)| == |m|
    ensures IsPieceShape(m) ==> IsPieceShape(RotatePiece(m))
  {
    if IsPieceShape(m) {
      RotateCount(m);
    }
  }

  /** Four clockwise quarter turns give back the original matrix. */
  lemma RotateFourTimes(m: Shape)
    requires IsMatrix(m) && |m[0]| > 0
    ensures RotatePiece(RotatePiece(RotatePiece(RotatePiece(m)))) == m
  {
    var n, w := |m|, |m[0]|;
    var r1 := RotatePiece(m);
    var r2 := RotatePiece(r1);
    assert |r2| == n && forall i :: 0 <= i < n ==> |r2[i]| == w;
    assert forall i, j :: 0 <= i < n && 0 <= j < w ==> r2[i][j] == m[n - 1 - i][w - 1 - j];
    var r3 := RotatePiece(r2);
    var r4 := RotatePiece(r3);
    assert forall i, j :: 0 <= i < n && 0 <= j < w ==> r4[i][j] == r2[n - 1 - i][w - 1 - j];
    forall i | 0 <= i < n ensures r4[i] == m[i] {
      assert forall j :: 0 <= j < w ==> r4[i][j] == m[i][j];
    }
  }

  /** The I piece, lying in row 1, stands upright in column 2 once rotated. */
  lemma RotateIVertical()
    ensures var r := RotatePiece(TETROMINO_SHAPES["I"].shape);
      |r| == 4 && (forall i :: 0 <= i < 4 ==> |r[i]| == 4 && r[i][2] == 1) &&
      (forall i, j :: 0 <= i < 4 && 0 <= j < 4 && j != 2 ==> r[i][j] == 0)
  {
    var m := TETROMINO_SHAPES["I"].shape;
    assert m == [[0, 0, 0, 0], [1, 1, 1, 1], [0, 0, 0, 0], [0, 0, 0, 0]];
  }

  /** Rotation preserves the number of occupied cells. */
  lemma RotateCount(m: Shape)
    requires IsMatrix(m)
    ensures CellCount(RotatePiece(m)) == CellCount(m)
  {
    var w := |m[0]|;
    var t := Transpose(m, w);
    var r := RotatePiece(m);
    TransposeCount(m, w);
    forall i | 0 <= i < w ensures RowCount(r[i]) == RowCount(t[i]) {
      assert r[i] == Reverse(t[i]);
      RowCountReverse(t[i]);
    }
    CountSameRows(r, t);
  }

  function Reverse(s: seq<int>): (r: seq<int>)
    ensures |r| == |s| && forall j :: 0 <= j < |s| ==> r[j] == s[|s| - 1 - j]
  {
    seq(|s|, j requires 0 <= j < |s| => s[|s| - 1 - j])
  }

  predicate HasWidth(m: Shape, w: nat) {
    forall i :: 0 <= i < |m| ==> |m[i]| == w
  }

  function Transpose(m: Shape, w: nat): (t: Shape)
    requires HasWidth(m, w)
  {
    seq(w, i requires 0 <= i < w => seq(|m|, j requires 0 <= j < |m| => m[j][i]))
  }

  lemma {:induction false} RowCountFront(s: seq<int>)
    requires |s| > 0
    ensures RowCount(s) == Bit(s[0]) + RowCount(s[1..])
    decreases |s|
  {
    if |s| > 1 {
      var p := s[..|s| - 1];
      RowCountFront(p);
      assert p[1..] == s[1..][..|s[1..]| - 1];
    } else {
      assert s[..0] == [] && s[1..] == [];
    }
  }

  lemma {:induction false} RowCountReverse(s: seq<int>)
    ensures RowCount(Reverse(s)) == RowCount(s)
    decreases |s|
  {
    if |s| > 0 {
      var r := Reverse(s);
      RowCountReverse(s[1..]);
      assert r[..|r| - 1] == Reverse(s[1..]);
      RowCountFront(s);
    }
  }

  lemma {:induction false} CountSameRows(a: Shape, b: Shape)
    requires |a| == |b| && forall i :: 0 <= i < |a| ==> RowCount(a[i]) == RowCount(b[i])
    ensures CellCount(a) == CellCount(b)
    decreases |a|
  {
    if |a| > 0 {
      CountSameRows(a[..|a| - 1], b[..|b| - 1]);
    }
  }

  lemma {:induction false} CountEmptyRows(c: Shape)
    requires forall i :: 0 <= i < |c| ==> c[i] == []
    ensures CellCount(c) == 0
    decreases |c|
  {
    if |c| > 0 {
      CountEmptyRows(c[..|c| - 1]);
    }
  }

  /** Adding one entry to every row adds the count of the added column. */
  lemma {:induction false} SumColumn(a: Shape, c: Shape, l: seq<int>)
    requires |a| == |c| == |l|
    requires forall i :: 0 <= i < |a| ==> RowCount(c[i]) == RowCount(a[i]) + Bit(l[i])
    ensures CellCount(c) == CellCount(a) + RowCount(l)
    decreases |a|
  {
    if |a| > 0 {
      var n := |a|;
      SumColumn(a[..n - 1], c[..n - 1], l[..n - 1]);
    }
  }

  lemma {:induction false} TransposeCount(m: Shape, w: nat)
    requires HasWidth(m, w)
    ensures CellCount(Transpose(m, w)) == CellCount(m)
    decreases |m|
  {
    var t := Transpose(m, w);
    var n := |m|;
    if n == 0 {
      CountEmptyRows(t);
    } else {
      var p := m[..n - 1];
      var tp := Transpose(p, w);
      TransposeCount(p, w);
      forall i | 0 <= i < w ensures RowCount(t[i]) == RowCount(tp[i]) + Bit(m[n - 1][i]) {
        assert t[i][..n - 1] == tp[i];
      }
      SumColumn(tp, t, m[n - 1]);
    }
  }

  // ---------------------------------------------------------------------------
  // Collision and bounds

  /** JavaScript truthiness of a cell: a colour that is not the empty string. */
  predicate Occupied(c: Cell) {
    c.Some? && c.value != ""
  }

  /** The board square in column `col`, row `row`, may receive an occupied piece cell. */
  predicate CellFree(b: Board, col: int, row: int)
    requires IsBoard(b)
  {
    0 <= col < BOARD_WIDTH && row < BOARD_HEIGHT && (row >= 0 ==> !Occupied(b[row][col]))
  }

  /** Reference definition of a legal placement: every occupied shape cell lands on a free square. */
  predicate Fits(b: Board, shape: Shape, pos: Position)
    requires IsBoard(b)
  {
    forall y, x :: 0 <= y < |shape| && 0 <= x < |shape[y]| && shape[y][x] != 0 ==>
      CellFree(b, pos.x + x, pos.y + y)
  }

  method IsValidMove(board: Board, piece: Tetromino, newPosition: Position) returns (ok: bool)
    requires IsBoard(board)
    ensures ok == Fits(board, piece.shape, newPosition)
  {
    var shape := piece.shape;
    var y := 0;
    while y < |shape|
      invariant 0 <= y <= |shape|
      invariant forall dy, dx :: 0 <= dy < y && 0 <= dx < |shape[dy]| && shape[dy][dx] != 0 ==>
        CellFree(board, newPosition.x + dx, newPosition.y + dy)
    {
      var x := 0;
      while x < |shape[y]|
        invariant 0 <= x <= |shape[y]|
        invariant forall dy, dx :: 0 <= dy < y && 0 <= dx < |shape[dy]| && shape[dy][dx] != 0 ==>
          CellFree(board, newPosition.x + dx, newPosition.y + dy)
        invariant forall dx :: 0 <= dx < x && shape[y][dx] != 0 ==>
          CellFree(board, newPosition.x + dx, newPosition.y + y)
      {
        if shape[y][x] != 0 {
          var boardX := newPosition.x + x;
          var boardY := newPosition.y + y;
          if boardX < 0 || boardX >= BOARD_WIDTH || boardY >= BOARD_HEIGHT {
            return false;
          }
          if boardY >= 0 && Occupied(board[boardY][boardX]) {
            return false;
          }
        }
        x := x + 1;
      }
      y := y + 1;
    }
    return true;
  }

  /** A shape with an occupied cell never fits at or below the floor. */
  lemma FitsAboveFloor(b: Board, shape: Shape, pos: Position)
    requires IsBoard(b) && Fits(b, shape, pos) && CellCount(shape) > 0
    ensures pos.y < BOARD_HEIGHT
  {
    var y, x := OccupiedCell(shape);
    assert CellFree(b, pos.x + x, pos.y + y);
  }

  /** A shape with a positive count has an occupied entry. */
  lemma {:induction false} OccupiedCell(m: Shape) returns (y: int, x: int)
    requires CellCount(m) > 0
    ensures 0 <= y < |m| && 0 <= x < |m[y]| && m[y][x] != 0
  {
    var n := |m|;
    if RowCount(m[n - 1]) > 0 {
      y := n - 1;
      x := OccupiedEntry(m[n - 1]);
    } else {
      y, x := OccupiedCell(m[..n - 1]);
      assert m[..n - 1][y] == m[y];
    }
  }

  lemma {:induction false} OccupiedEntry(s: seq<int>) returns (x: int)
    requires RowCount(s) > 0
    ensures 0 <= x < |s| && s[x] != 0
  {
    var n := |s|;
    if s[n - 1] != 0 {
      x := n - 1;
    } else {
      x := OccupiedEntry(s[..n - 1]);
      assert s[..n - 1][x] == s[x];
    }
  }

  /** Every catalog piece is a valid piece shape and fits at its spawn position on an empty board. */
  lemma SpawnFits(choice: KindIndex)
    ensures var t := GetRandomTetromino(choice);
      IsPieceShape(t.shape) && Fits(CreateEmptyBoard(), t.shape, t.position)
  {
    var t := GetRandomTetromino(choice);
    CatalogEntry(t.id);
  }

  // ---------------------------------------------------------------------------
  // Locking a piece into the board

  /** The occupied shape cell of `p` that lands on board square (r, c), if any. */
  predicate Covers(p: Tetromino, r: int, c: int) {
    var dy, dx := r - p.position.y, c - p.position.x;
    0 <= dy < |p.shape| && 0 <= dx < |p.shape[dy]| && p.shape[dy][dx] != 0
  }

  /** Reference definition of stamping: covered squares take the colour, all others are unchanged. */
  function Placed(b: Board, p: Tetromino): (r: Board)
    requires IsBoard(b)
    ensures IsBoard(r)
  {
    seq(BOARD_HEIGHT, row requires 0 <= row < BOARD_HEIGHT =>
      seq(BOARD_WIDTH, col requires 0 <= col < BOARD_WIDTH =>
        if Covers(p, row, col) then Some(p.color) else b[row][col]))
  }

  /** Covers restricted to the shape cells visited before (y, x) in row-major order. */
  predicate CoveredBefore(p: Tetromino, r: int, c: int, y: int, x: int) {
    Covers(p, r, c) &&
    (r - p.position.y < y || (r - p.position.y == y && c - p.position.x < x))
  }

  method PlacePiece(board: Board, piece: Tetromino) returns (newBoard: Board)
    requires IsBoard(board)
    ensures newBoard == Placed(board, piece)
  {
    newBoard := board;
    var y := 0;
    while y < |piece.shape|
      invariant 0 <= y <= |piece.shape|
      invariant IsBoard(newBoard)
      invariant forall r, c :: 0 <= r < BOARD_HEIGHT && 0 <= c < BOARD_WIDTH ==>
        newBoard[r][c] == if CoveredBefore(piece, r, c, y, 0) then Some(piece.color) else board[r][c]
    {
      var x := 0;
      while x < |piece.shape[y]|
        invariant 0 <= x <= |piece.shape[y]|
        invariant IsBoard(newBoard)
        invariant forall r, c :: 0 <= r < BOARD_HEIGHT && 0 <= c < BOARD_WIDTH ==>
          newBoard[r][c] == if CoveredBefore(piece, r, c, y, x) then Some(piece.color) else board[r][c]
      {
        if piece.shape[y][x] != 0 {
          var boardY := piece.position.y + y;
          var boardX := piece.position.x + x;
          if 0 <= boardY < BOARD_HEIGHT && 0 <= boardX < BOARD_WIDTH {
            newBoard := newBoard[boardY := newBoard[boardY][boardX := Some(piece.color)]];
          }
        }
        x := x + 1;
      }
      y := y + 1;
    }
    forall r | 0 <= r < BOARD_HEIGHT ensures newBoard[r] == Placed(board, piece)[r] {
      assert forall c :: 0 <= c < BOARD_WIDTH ==> newBoard[r][c] == Placed(board, piece)[r][c];
    }
  }

  /** Stamping leaves every row that the shape's rows do not reach untouched. */
  lemma PlacedKeepsOtherRows(b: Board, p: Tetromino, r: int)
    requires IsBoard(b) && 0 <= r < BOARD_HEIGHT
    requires r < p.position.y || r >= p.position.y + |p.shape|
    ensures Placed(b, p)[r] == b[r]
  {
  }

  /**
   * Stamping twice is stamping once; it never erases a block; and for a piece at a valid place
   * it only covers free squares and colours every in-bounds target of an occupied shape cell.
   */
  lemma PlacedSpec(b: Board, p: Tetromino)
    requires IsBoard(b)
    ensures Placed(Placed(b, p), p) == Placed(b, p)
    ensures p.color != "" ==> forall r, c ::
      0 <= r < BOARD_HEIGHT && 0 <= c < BOARD_WIDTH && Occupied(b[r][c]) ==> Occupied(Placed(b, p)[r][c])
    ensures Fits(b, p.shape, p.position) ==> forall r, c ::
      0 <= r < BOARD_HEIGHT && 0 <= c < BOARD_WIDTH && Covers(p, r, c) ==> !Occupied(b[r][c])
    ensures Fits(b, p.shape, p.position) ==> forall y, x ::
      0 <= y < |p.shape| && 0 <= x < |p.shape[y]| && p.shape[y][x] != 0 && p.position.y + y >= 0 ==>
        Placed(b, p)[p.position.y + y][p.position.x + x] == Some(p.color)
  {
    var once := Placed(b, p);
    forall r | 0 <= r < BOARD_HEIGHT ensures Placed(once, p)[r] == once[r] {
      assert forall c :: 0 <= c < BOARD_WIDTH ==> Placed(once, p)[r][c] == once[r][c];
    }
    if Fits(b, p.shape, p.position) {
      forall r, c | 0 <= r < BOARD_HEIGHT && 0 <= c < BOARD_WIDTH && Covers(p, r, c)
        ensures !Occupied(b[r][c])
      {
        assert CellFree(b, p.position.x + (c - p.position.x), p.position.y + (r - p.position.y));
      }
      forall y, x | 0 <= y < |p.shape| && 0 <= x < |p.shape[y]| && p.shape[y][x] != 0 && p.position.y + y >= 0
        ensures once[p.position.y + y][p.position.x + x] == Some(p.color)
      {
        assert CellFree(b, p.position.x + x, p.position.y + y);
        assert Covers(p, p.position.y + y, p.position.x + x);
      }
    }
  }

  // ---------------------------------------------------------------------------
  // Line clearing


  /** A row with no `null` cell. */
  predicate IsFull(row: Row) {
    forall c :: 0 <= c < |row| ==> row[c].Some?
  }

  predicate NoFullRows(b: Board) {
    forall r :: 0 <= r < |b| ==> !IsFull(b[r])
  }

  /** Indices of the full rows of `b`, in increasing order. */
  function FullRows(b: Board): seq<int>
    decreases |b|
  {
    if |b| == 0 then []
    else FullRows(b[..|b| - 1]) + (if IsFull(b[|b| - 1]) then [|b| - 1] else [])
  }

  /** The rows of `b` that are not full, in their original order. */
  function KeepRows(b: Board): Board
    decreases |b|
  {
    if |b| == 0 then []
    else KeepRows(b[..|b| - 1]) + (if IsFull(b[|b| - 1]) then [] else [b[|b| - 1]])
  }

  function EmptyRows(n: nat): (rows: Board)
    ensures |rows| == n && forall i :: 0 <= i < n ==> rows[i] == EmptyRow()
  {
    seq(n, _ => EmptyRow())
  }

  /** The board after removing all full rows at once and topping up with empty rows. */
  function Cleared(b: Board): Board {
    EmptyRows(|FullRows(b)|) + KeepRows(b)
  }

  lemma {:induction false} FullRowsMembers(b: Board)
    ensures forall j :: j in FullRows(b) <==> 0 <= j < |b| && IsFull(b[j])
    ensures forall i, j :: 0 <= i < j < |FullRows(b)| ==> FullRows(b)[i] < FullRows(b)[j]
    ensures forall i :: 0 <= i < |FullRows(b)| ==> 0 <= FullRows(b)[i] < |b|
    decreases |b|
  {
    if |b| > 0 {
      var p := b[..|b| - 1];
      FullRowsMembers(p);
      forall j | 0 <= j < |p| ensures p[j] == b[j] { }
    }
  }

  lemma {:induction false} KeepRowsCount(b: Board)
    ensures |KeepRows(b)| + |FullRows(b)| == |b|
    ensures forall i :: 0 <= i < |KeepRows(b)| ==> !IsFull(KeepRows(b)[i]) && KeepRows(b)[i] in b
    decreases |b|
  {
    if |b| > 0 {
      var p := b[..|b| - 1];
      KeepRowsCount(p);
      forall i | 0 <= i < |KeepRows(p)| ensures KeepRows(p)[i] in b {
        var j :| 0 <= j < |p| && p[j] == KeepRows(p)[i];
        assert b[j] == p[j];
      }
    }
  }

  /** With no full row, clearing keeps the rows exactly. */
  lemma {:induction false} KeepRowsNoFull(b: Board)
    requires FullRows(b) == []
    ensures KeepRows(b) == b
    decreases |b|
  {
    if |b| > 0 {
      var p := b[..|b| - 1];
      FullRowsMembers(b);
      assert !IsFull(b[|b| - 1]);
      assert FullRows(p) == [];
      KeepRowsNoFull(p);
      assert p + [b[|b| - 1]] == b;
    }
  }

  /**
   * The cleared board is again 20 by 10, has no full row, and is the count of full rows
   * of empty rows followed by the other rows in order; with no full row it is the input.
   */
  lemma ClearedShape(b: Board)
    requires IsBoard(b)
    ensures IsBoard(Cleared(b)) && NoFullRows(Cleared(b))
    ensures |FullRows(b)| <= BOARD_HEIGHT
    ensures forall i :: 0 <= i < |FullRows(b)| ==> Cleared(b)[i] == EmptyRow()
    ensures Cleared(b)[|FullRows(b)|..] == KeepRows(b)
    ensures FullRows(b) == [] ==> Cleared(b) == b
  {
    KeepRowsCount(b);
    var k := |FullRows(b)|;
    var c := Cleared(b);
    forall r | 0 <= r < |c| ensures |c[r]| == BOARD_WIDTH && !IsFull(c[r]) {
      if r < k {
        assert c[r] == EmptyRow();
        assert c[r][0] == None;
      } else {
        assert c[r] == KeepRows(b)[r - k];
        assert c[r] in b;
      }
    }
    if FullRows(b) == [] {
      KeepRowsNoFull(b);
    }
  }

  method ClearLines(board: Board) returns (newBoard: Board, linesCleared: nat)
    requires IsBoard(board)
    ensures linesCleared == |FullRows(board)|
    ensures newBoard == Cleared(board)
  {
    // Collect the indices of full rows, top to bottom
    var fullLines: seq<int> := [];
    var y := 0;
    while y < BOARD_HEIGHT
      invariant 0 <= y <= BOARD_HEIGHT
      invariant fullLines == FullRows(board[..y])
    {
      assert board[..y + 1][..y] == board[..y];
      if IsFull(board[y]) {
        fullLines := fullLines + [y];
      }
      y := y + 1;
    }
    assert board[..BOARD_HEIGHT] == board;
    FullRowsMembers(board);

    if |fullLines| == 0 {
      ClearedShape(board);
      return board, 0;
    }

    // Keep the rows whose index was not collected
    newBoard := [];
    var i := 0;
    while i < |board|
      invariant 0 <= i <= |board|
      invariant newBoard == KeepRows(board[..i])
    {
      assert board[..i + 1][..i] == board[..i];
      if i !in fullLines {
        newBoard := newBoard + [board[i]];
      }
      i := i + 1;
    }
    assert board[..|board|] == board;

    // One fresh empty row in front for each collected index
    i := 0;
    while i < |fullLines|
      invariant 0 <= i <= |fullLines|
      invariant newBoard == EmptyRows(i) + KeepRows(board)
    {
      newBoard := [EmptyRow()] + newBoard;
      i := i + 1;
    }
    linesCleared := |fullLines|;
  }

  /**
   * Stamping a piece whose shape has N rows into a board with no full row creates at most
   * N full rows: every full row of the result is one the piece's rows reach.
   */
  lemma PlacedFullRows(b: Board, p: Tetromino)
    requires IsBoard(b) && NoFullRows(b)
    ensures |FullRows(Placed(b, p))| <= |p.shape|
  {
    var placed := Placed(b, p);
    var f := FullRows(placed);
    FullRowsMembers(placed);
    forall i | 0 <= i < |f| ensures p.position.y <= f[i] < p.position.y + |p.shape| {
      var r := f[i];
      if r < p.position.y || r >= p.position.y + |p.shape| {
        PlacedKeepsOtherRows(b, p, r);
        assert false;
      }
    }
    IncreasingWithin(f, p.position.y, p.position.y + |p.shape|);
  }

  lemma {:induction false} IncreasingWithin(s: seq<int>, lo: int, hi: int)
    requires forall i, j :: 0 <= i < j < |s| ==> s[i] < s[j]
    requires forall i :: 0 <= i < |s| ==> lo <= s[i] < hi
    ensures |s| > 0 ==> |s| <= hi - lo
    decreases |s|
  {
    if |s| > 0 {
      IncreasingWithin(s[1..], s[0] + 1, hi);
    }
  }

  // ---------------------------------------------------------------------------
  // Scoring, level and speed

  const BASE_SCORES: seq<nat> := [0, 40, 100, 300, 1200]

  function CalculateScore(linesCleared: nat, level: nat): (r: nat)
    requires linesCleared <= 4
    ensures r == 0 <==> linesCleared == 0
    ensures linesCleared > 0 ==> r >= 40 * (level + 1)
  {
    BASE_SCORES[linesCleared] * (level + 1)
  }

  function CalculateLevel(lines: nat): (r: nat)
    ensures 10 * r <= lines < 10 * r + 10
  {
    lines / 10
  }

  function GetDropSpeed(level: nat): (r: int)
    ensures r >= 50 && r >= 1000 - level * 50
    ensures r == 50 || r == 1000 - level * 50
  {
    if 1000 - level * 50 > 50 then 1000 - level * 50 else 50
  }

  /** The score table, and a few values of it at particular levels. */
  lemma ScoreTable(level: nat)
    ensures CalculateScore(0, level) == 0
    ensures CalculateScore(1, level) == 40 * (level + 1)
    ensures CalculateScore(2, level) == 100 * (level + 1)
    ensures CalculateScore(3, level) == 300 * (level + 1)
    ensures CalculateScore(4, level) == 1200 * (level + 1)
    ensures CalculateScore(1, 1) == 80 && CalculateScore(4, 2) == 3600 && CalculateScore(0, 5) == 0
  {
  }

  /** More lines at once score strictly more, and a higher level scores strictly more. */
  lemma ScoreIncreasing(k1: nat, k2: nat, l1: nat, l2: nat)
    requires k1 <= k2 <= 4 && l1 <= l2
    ensures CalculateScore(k1, l1) <= CalculateScore(k2, l2)
    ensures k1 < k2 ==> CalculateScore(k1, l1) < CalculateScore(k2, l1)
    ensures 0 < k1 && l1 < l2 ==> CalculateScore(k1, l1) < CalculateScore(k1, l2)
  {
    var b1, b2 := BASE_SCORES[k1], BASE_SCORES[k2];
    assert b1 <= b2;
    assert b1 * (l1 + 1) <= b2 * (l1 + 1);
    assert b2 * (l1 + 1) <= b2 * (l2 + 1);
  }

  /** The level rises by exactly one every ten lines, and never falls as lines grow. */
  lemma LevelMonotone(a: nat, b: nat)
    requires a <= b
    ensures CalculateLevel(a) <= CalculateLevel(b)
    ensures CalculateLevel(a + 10) == CalculateLevel(a) + 1
    ensures CalculateLevel(0) == 0 && CalculateLevel(9) == 0 && CalculateLevel(10) == 1
    ensures CalculateLevel(25) == 2 && CalculateLevel(100) == 10
  {
  }

  /** The drop interval never grows with the level and strictly shrinks until it reaches 50. */
  lemma DropSpeedNonIncreasing(a: nat, b: nat)
    requires a <= b
    ensures GetDropSpeed(b) <= GetDropSpeed(a)
    ensures a < b && a < 19 ==> GetDropSpeed(b) < GetDropSpeed(a)
  {
  }
}
