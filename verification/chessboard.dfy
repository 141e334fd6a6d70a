/** The chessboard of the knight's-tour engine: squares, the knight's
    offset table, the n-by-n grid of step indices, and the construction
    of an engine. */
module Chessboard {
  import opened Results

  /** A (row, column) pair. Coordinates are unbounded integers because a
      candidate move is formed before it is checked against the board. */
  datatype Square = Square(row: int, col: int)

  /** The eight knight offsets (drow, dcol), counterclockwise. Their order
      is the tie-break order of the Warnsdorff ranking. */
  const KnightMoves: seq<(int, int)> :=
    [(2, 1), (1, 2), (-1, 2), (-2, 1), (-2, -1), (-1, -2), (1, -2), (2, -1)]

  /** The square reached from `s` by offset number `k` of the table. */
  function Target(s: Square, k: nat): Square
    requires k < |KnightMoves|
  {
    Square(s.row + KnightMoves[k].0, s.col + KnightMoves[k].1)
  }

  /** `b` is one entry of the offset table away from `a`. */
  predicate KnightStep(a: Square, b: Square)
  {
    exists k: nat :: k < |KnightMoves| && Target(a, k) == b
  }

  /** The number of the first table entry leading from `a` to `b`, or
      |KnightMoves| when no entry does; searched from entry `k` on. */
  function OffsetFrom(a: Square, b: Square, k: nat): (j: nat)
    requires k <= |KnightMoves|
    ensures k <= j <= |KnightMoves|
    ensures j < |KnightMoves| ==> Target(a, j) == b
    ensures forall i: nat :: k <= i < j ==> Target(a, i) != b
    decreases |KnightMoves| - k
  {
    if k == |KnightMoves| then k
    else if Target(a, k) == b then k
    else OffsetFrom(a, b, k + 1)
  }

  /** The position in the offset table of the move from `a` to `b`, or
      |KnightMoves| when `b` is not a knight's move away. */
  function OffsetOf(a: Square, b: Square): (j: nat)
    ensures j <= |KnightMoves|
    ensures j < |KnightMoves| <==> KnightStep(a, b)
    ensures forall k: nat :: k < |KnightMoves| && Target(a, k) == b ==> j == k
  {
    var j := OffsetFrom(a, b, 0);
    assert forall k: nat :: k < |KnightMoves| && Target(a, k) == b ==> j == k by {
      forall k: nat | k < |KnightMoves| && Target(a, k) == b ensures j == k {
        TargetsDistinct(a, j, k);
      }
    }
    j
  }

  function Abs(x: int): nat
  {
    if x < 0 then -x else x
  }

  /** The offset table is exactly the knight's geometry: one coordinate
      changes by 1 and the other by 2, in any combination of signs. */
  lemma KnightStepGeometry(a: Square, b: Square)
    ensures KnightStep(a, b) <==>
              (Abs(b.row - a.row) == 1 && Abs(b.col - a.col) == 2) ||
              (Abs(b.row - a.row) == 2 && Abs(b.col - a.col) == 1)
  {
    var dr, dc := b.row - a.row, b.col - a.col;
    if (Abs(dr) == 1 && Abs(dc) == 2) || (Abs(dr) == 2 && Abs(dc) == 1) {
      var k: nat :=
        if dr == 2 && dc == 1 then 0
        else if dr == 1 && dc == 2 then 1
        else if dr == -1 && dc == 2 then 2
        else if dr == -2 && dc == 1 then 3
        else if dr == -2 && dc == -1 then 4
        else if dr == -1 && dc == -2 then 5
        else if dr == 1 && dc == -2 then 6
        else 7;
      assert Target(a, k) == b;
    }
  }

  /** Different entries of the table lead to different squares. */
  lemma TargetsDistinct(s: Square, i: nat, j: nat)
    requires i < |KnightMoves| && j < |KnightMoves|
    ensures Target(s, i) == Target(s, j) ==> i == j
  {
  }

  /** What a board cell holds before the knight has visited it; every
      visited cell holds a step index, which is never negative. */
  const Unvisited: int := -1

  /** Rows of cells; `board[r][c]` is the cell of square (r, c). */
  type Board = seq<seq<int>>

  /** `board` is an n-by-n grid. */
  predicate WellFormed(n: int, board: Board)
  {
    |board| == n && forall r :: 0 <= r < |board| ==> |board[r]| == n
  }

  /** The square lies on the n-by-n board. */
  predicate InBounds(n: int, s: Square)
  {
    0 <= s.row < n && 0 <= s.col < n
  }

  /** The square lies on the board and the knight has not visited it. */
  predicate IsFree(n: int, board: Board, s: Square)
    requires WellFormed(n, board)
  {
    InBounds(n, s) && board[s.row][s.col] == Unvisited
  }

  /** A fresh n-by-n board: every square is free. */
  function EmptyBoard(n: nat): (board: Board)
    ensures WellFormed(n, board)
    ensures forall s :: InBounds(n, s) ==> IsFree(n, board, s)
  {
    seq(n, _ => seq(n, _ => Unvisited))
  }

  /** Records that the knight stood on `s` at step `step`. */
  function Mark(n: int, board: Board, s: Square, step: int): (board': Board)
    requires WellFormed(n, board) && InBounds(n, s)
    ensures WellFormed(n, board')
    ensures board'[s.row][s.col] == step
    ensures forall t :: InBounds(n, t) && t != s ==> board'[t.row][t.col] == board[t.row][t.col]
  {
    board[s.row := board[s.row][s.col := step]]
  }

  /** The squares of rows 0 .. rows-1 of an n-column board, row by row. */
  function Rows(n: nat, rows: nat): (squares: seq<Square>)
    ensures |squares| == rows * n
    ensures forall s :: s in squares <==> 0 <= s.row < rows && 0 <= s.col < n
  {
    if rows == 0 then []
    else
      var earlier := Rows(n, rows - 1);
      var last := seq(n, c => Square(rows - 1, c));
      assert (rows - 1) * n + n == rows * n;
      assert forall s: Square :: s.row == rows - 1 && 0 <= s.col < n ==> last[s.col] == s;
      assert forall s :: s in last ==> s.row == rows - 1 && 0 <= s.col < n;
      earlier + last
  }

  /** The squares of the n-by-n board, row by row: n*n entries. */
  function AllSquares(n: nat): (squares: seq<Square>)
    ensures |squares| == n * n
    ensures forall s :: s in squares <==> InBounds(n, s)
  {
    Rows(n, n)
  }

  /** Why the engine refused to be built. */
  datatype ConfigError = BoardTooSmall(n: int)

  /** The engine's state: board size, start square, and the board. */
  datatype Engine = Engine(n: int, start: Square, board: Board)

  /** Builds an engine. Only the size is validated; the start square is
      stored as given. */
  function NewEngine(n: int, start: Square): (r: Result<Engine, ConfigError>)
    ensures r.Err? <==> n < 1
    ensures r.Err? ==> r.error == BoardTooSmall(n)
    ensures r.Ok? ==> r.value.n == n && r.value.start == start
    ensures r.Ok? ==> WellFormed(n, r.value.board)
    ensures r.Ok? ==> forall s :: InBounds(n, s) ==> IsFree(n, r.value.board, s)
  {
    if n < 1 then Err(BoardTooSmall(n)) else Ok(Engine(n, start, EmptyBoard(n)))
  }
}
