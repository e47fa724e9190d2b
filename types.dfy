/** Records, constants and the piece catalog of the game (src/types/index.ts). */
module Types {

  /** A nullable value: `None` plays the role of JavaScript's `null`. */
  datatype Option<T> = None | Some(value: T)

  const BOARD_WIDTH: int := 10
  const BOARD_HEIGHT: int := 20

  /** Colours are CSS colour strings such as "#00FFFF". */
  type Color = string

  /** A board cell is empty (`null`) or holds the colour of a locked block. */
  type Cell = Option<Color>
  type Row = seq<Cell>
  type Board = seq<Row>

  /** A shape matrix: row-major numbers, where a non-zero entry is an occupied cell. */
  type Shape = seq<seq<int>>

  datatype Position = Position(x: int, y: int)

  datatype TetrominoShape = TetrominoShape(shape: Shape, color: Color)

  /** A piece instance: its shape, colour, board offset and the catalog key it came from. */
  datatype Tetromino = Tetromino(shape: Shape, color: Color, position: Position, id: string)

  datatype HighScore = HighScore(id: string, name: string, score: int, level: int, lines: int, date: string)

  const TETROMINO_SHAPES: map<string, TetrominoShape> := map[
    "I" := TetrominoShape([[0, 0, 0, 0], [1, 1, 1, 1], [0, 0, 0, 0], [0, 0, 0, 0]], "#00FFFF"),
    "O" := TetrominoShape([[1, 1], [1, 1]], "#FFFF00"),
    "T" := TetrominoShape([[0, 1, 0], [1, 1, 1], [0, 0, 0]], "#800080"),
    "S" := TetrominoShape([[0, 1, 1], [1, 1, 0], [0, 0, 0]], "#00FF00"),
    "Z" := TetrominoShape([[1, 1, 0], [0, 1, 1], [0, 0, 0]], "#FF0000"),
    "J" := TetrominoShape([[1, 0, 0], [1, 1, 1], [0, 0, 0]], "#0000FF"),
    "L" := TetrominoShape([[0, 0, 1], [1, 1, 1], [0, 0, 0]], "#FFA500")
  ]

  /** The catalog's keys in declaration order, as `Object.keys` lists them. */
  const KEYS: seq<string> := ["I", "O", "T", "S", "Z", "J", "L"]

  /** An index into KEYS: the value the random draw produces. */
  type KindIndex = i: nat | i < 7

  // ---------------------------------------------------------------------------
  // Shape matrices

  /** A non-empty rectangular matrix (every row as long as the first). */
  predicate IsMatrix(m: Shape) {
    |m| > 0 && forall i :: 0 <= i < |m| ==> |m[i]| == |m[0]|
  }

  /** An N-by-N matrix with N > 0. */
  predicate IsSquare(m: Shape) {
    |m| > 0 && forall i :: 0 <= i < |m| ==> |m[i]| == |m|
  }

  function Bit(v: int): nat {
    if v != 0 then 1 else 0
  }

  /** Number of occupied entries of one row. */
  function RowCount(s: seq<int>): nat {
    if |s| == 0 then 0 else RowCount(s[..|s| - 1]) + Bit(s[|s| - 1])
  }

  /** Number of occupied entries of a matrix. */
  function CellCount(m: Shape): nat {
    if |m| == 0 then 0 else CellCount(m[..|m| - 1]) + RowCount(m[|m| - 1])
  }

  /** Every entry is 0 or 1. */
  predicate IsBinary(m: Shape) {
    forall i, j :: 0 <= i < |m| && 0 <= j < |m[i]| ==> m[i][j] == 0 || m[i][j] == 1
  }

  /** Every occupied entry lies in rows 0..1 and columns 0..3. */
  predicate InSpawnBox(m: Shape) {
    forall i, j :: 0 <= i < |m| && 0 <= j < |m[i]| && m[i][j] != 0 ==> i <= 1 && j <= 3
  }

  /** What every shape the game handles satisfies: square, at most 4 wide, four cells. */
  predicate IsPieceShape(m: Shape) {
    IsSquare(m) && |m| <= 4 && CellCount(m) == 4
  }

  // ---------------------------------------------------------------------------
  // Facts about the catalog data

  lemma {:induction false} KeysAreCatalog()
    ensures |KEYS| == 7
    ensures forall i, j :: 0 <= i < j < |KEYS| ==> KEYS[i] != KEYS[j]
    ensures forall i :: 0 <= i < |KEYS| ==> KEYS[i] in TETROMINO_SHAPES
    ensures forall k :: k in TETROMINO_SHAPES <==> k in KEYS
  {
  }

  lemma {:induction false} ColorsDistinct()
    ensures forall i, j :: 0 <= i < j < |KEYS| ==>
      TETROMINO_SHAPES[KEYS[i]].color != TETROMINO_SHAPES[KEYS[j]].color
  {
  }

  lemma RowCount2(a: int, b: int)
    ensures RowCount([a, b]) == Bit(a) + Bit(b)
  {
    assert [a, b][..1] == [a];
    assert [a][..0] == [];
    assert RowCount([a]) == RowCount([]) + Bit(a);
  }

  lemma RowCount3(a: int, b: int, c: int)
    ensures RowCount([a, b, c]) == Bit(a) + Bit(b) + Bit(c)
  {
    assert [a, b, c][..2] == [a, b];
    RowCount2(a, b);
  }

  lemma RowCount4(a: int, b: int, c: int, d: int)
    ensures RowCount([a, b, c, d]) == Bit(a) + Bit(b) + Bit(c) + Bit(d)
  {
    assert [a, b, c, d][..3] == [a, b, c];
    RowCount3(a, b, c);
  }

  lemma CellCount2(r0: seq<int>, r1: seq<int>)
    ensures CellCount([r0, r1]) == RowCount(r0) + RowCount(r1)
  {
    assert [r0, r1][..1] == [r0];
    assert [r0][..0] == [];
    assert CellCount([r0]) == CellCount([]) + RowCount(r0);
  }

  lemma CellCount3(r0: seq<int>, r1: seq<int>, r2: seq<int>)
    ensures CellCount([r0, r1, r2]) == RowCount(r0) + RowCount(r1) + RowCount(r2)
  {
    assert [r0, r1, r2][..2] == [r0, r1];
    CellCount2(r0, r1);
  }

  lemma CellCount4(r0: seq<int>, r1: seq<int>, r2: seq<int>, r3: seq<int>)
    ensures CellCount([r0, r1, r2, r3]) == RowCount(r0) + RowCount(r1) + RowCount(r2) + RowCount(r3)
  {
    assert [r0, r1, r2, r3][..3] == [r0, r1, r2];
    CellCount3(r0, r1, r2);
  }

  /** The facts every catalog entry satisfies. */
  predicate CatalogFacts(m: Shape) {
    IsBinary(m) && InSpawnBox(m) && IsPieceShape(m)
  }

  lemma EntryI()
    ensures CatalogFacts(TETROMINO_SHAPES["I"].shape)
  {
    var m := TETROMINO_SHAPES["I"].shape;
    assert m == [[0, 0, 0, 0], [1, 1, 1, 1], [0, 0, 0, 0], [0, 0, 0, 0]];
    RowCount4(0, 0, 0, 0); RowCount4(1, 1, 1, 1); RowCount4(0, 0, 0, 0); RowCount4(0, 0, 0, 0);
    CellCount4([0, 0, 0, 0], [1, 1, 1, 1], [0, 0, 0, 0], [0, 0, 0, 0]);
  }

  lemma EntryO()
    ensures CatalogFacts(TETROMINO_SHAPES["O"].shape)
  {
    var m := TETROMINO_SHAPES["O"].shape;
    assert m == [[1, 1], [1, 1]];
    RowCount2(1, 1); RowCount2(1, 1);
    CellCount2([1, 1], [1, 1]);
  }

  lemma EntryT()
    ensures CatalogFacts(TETROMINO_SHAPES["T"].shape)
  {
    var m := TETROMINO_SHAPES["T"].shape;
    assert m == [[0, 1, 0], [1, 1, 1], [0, 0, 0]];
    RowCount3(0, 1, 0); RowCount3(1, 1, 1); RowCount3(0, 0, 0);
    CellCount3([0, 1, 0], [1, 1, 1], [0, 0, 0]);
  }

  lemma EntryS()
    ensures CatalogFacts(TETROMINO_SHAPES["S"].shape)
  {
    var m := TETROMINO_SHAPES["S"].shape;
    assert m == [[0, 1, 1], [1, 1, 0], [0, 0, 0]];
    RowCount3(0, 1, 1); RowCount3(1, 1, 0); RowCount3(0, 0, 0);
    CellCount3([0, 1, 1], [1, 1, 0], [0, 0, 0]);
  }

  lemma EntryZ()
    ensures CatalogFacts(TETROMINO_SHAPES["Z"].shape)
  {
    var m := TETROMINO_SHAPES["Z"].shape;
    assert m == [[1, 1, 0], [0, 1, 1], [0, 0, 0]];
    RowCount3(1, 1, 0); RowCount3(0, 1, 1); RowCount3(0, 0, 0);
    CellCount3([1, 1, 0], [0, 1, 1], [0, 0, 0]);
  }

  lemma EntryJ()
    ensures CatalogFacts(TETROMINO_SHAPES["J"].shape)
  {
    var m := TETROMINO_SHAPES["J"].shape;
    assert m == [[1, 0, 0], [1, 1, 1], [0, 0, 0]];
    RowCount3(1, 0, 0); RowCount3(1, 1, 1); RowCount3(0, 0, 0);
    CellCount3([1, 0, 0], [1, 1, 1], [0, 0, 0]);
  }

  lemma EntryL()
    ensures CatalogFacts(TETROMINO_SHAPES["L"].shape)
  {
    var m := TETROMINO_SHAPES["L"].shape;
    assert m == [[0, 0, 1], [1, 1, 1], [0, 0, 0]];
    RowCount3(0, 0, 1); RowCount3(1, 1, 1); RowCount3(0, 0, 0);
    CellCount3([0, 0, 1], [1, 1, 1], [0, 0, 0]);
  }

  lemma CatalogEntry(k: string)
    requires k in TETROMINO_SHAPES
    ensures CatalogFacts(TETROMINO_SHAPES[k].shape)
    ensures |TETROMINO_SHAPES[k].shape| == (if k == "O" then 2 else if k == "I" then 4 else 3)
  {
    if k == "I" { EntryI(); }
    else if k == "O" { EntryO(); }
    else if k == "T" { EntryT(); }
    else if k == "S" { EntryS(); }
    else if k == "Z" { EntryZ(); }
    else if k == "J" { EntryJ(); }
    else { EntryL(); }
  }

  /** All seven shapes are square, 0/1, four cells, and occupy only rows 0..1 and columns 0..3. */
  lemma CatalogShapes()
    ensures forall k :: k in TETROMINO_SHAPES ==> CatalogFacts(TETROMINO_SHAPES[k].shape)
  {
    forall k | k in TETROMINO_SHAPES
      ensures CatalogFacts(TETROMINO_SHAPES[k].shape)
    {
      CatalogEntry(k);
    }
  }
}
