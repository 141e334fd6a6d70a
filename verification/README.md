# Knight's tour by Warnsdorff's heuristic, modelled in Dafny

This project models the `KnightsTour` engine of `main.py`. The engine looks for a
knight's tour of an n-by-n board, a walk that visits every square exactly once.
It uses Warnsdorff's heuristic: from the current square it moves to the free square
with the fewest onward moves. Ties go to the earlier entry of the fixed offset table
`KNIGHT_MOVES`. It never backtracks. The engine returns the full tour, or `None` at
the first square with no free move.

The model is pure functional Dafny, apart from one imperative loop:

- `results.dfy`, module `Results`: `Option` (the path or `None`) and `Result`
  (an engine or the constructor's `ValueError`).
- `chessboard.dfy`, module `Chessboard`: squares, the offset table `KnightMoves`,
  the board as rows of integer cells, the bounds test and the free test, marking a
  cell, and the constructor `NewEngine`. A cell holds `-1` (`Unvisited`) or the step
  at which the knight stood there, as in the source.
- `moves.dfy`, module `Moves`: `_neighbors`, as `Neighbors`, plus the onward count
  used as the sort key.
- `stable_sort.dfy`, module `StableSort`: Python's stable `list.sort(key=...)`,
  written as an insertion sort over any key. The module proves that any stable sort
  gives the same result.
- `ranking.dfy`, module `Ranking`: `_warnsdorff_sort`, as `WarnsdorffSort`, and
  Warnsdorff's rule for the first ranked move.
- `paths.dfy`, module `Paths`: how a path of squares and the board of step indices
  describe each other, and the counting argument for "n*n distinct squares cover
  the board".
- `solver.dfy`, module `Solver`: `solve_warnsdorff`. The loop appears twice:
  - `Walk`, a recursive function that the lemmas reason about;
  - `Solve`, the imperative loop, proved to return what `Walk` returns.

  `Attempt` resets the board (main.py:49) and then runs `Walk` from the start
  square, so it is the whole search as a function.

The model follows the code's order inside each step. The current square is marked
first, then the candidates are ranked (main.py:54 before main.py:58). So the onward
counts are taken on a board where the current square is already visited.

## Model

| member | source | states |
|---|---|---|
| Chessboard.KnightStepGeometry | main.py:16-17 | A square is one table entry away from another exactly when one coordinate differs by 1 and the other by 2, in any signs. The table holds the eight knight moves. |
| Chessboard.OffsetOf | main.py:17 | Gives the table position of a knight move. That position is below 8 exactly when the two squares are a knight's move apart. It is the only entry that leads there, because the eight offsets are distinct. |
| Chessboard.AllSquares | main.py:28-30 | The squares that pass the bounds test (row and column both in 0..n-1) are exactly the n*n squares of the grid. |
| Chessboard.EmptyBoard | main.py:26 | A reset board is n by n, and every square on it is free. |
| Chessboard.NewEngine | main.py:20-26 | Construction fails exactly when n < 1, with the board-size error. Otherwise it keeps n and the start square unchanged, and the board is n by n with every square free. |
| Chessboard.Mark | main.py:54 | Writing the step index into a cell sets that cell and leaves every other cell of the board unchanged. |
| Moves.Neighbors | main.py:36-38 | The candidate moves are exactly the free squares one table entry away: each listed square is free and a knight step, every table entry leading to a free square contributes its square, and there are at most eight. |
| Moves.OnwardCount | main.py:43 | The sort key: at most eight, and zero exactly when no table entry from the square leads to a free square, so the square is a dead end. |
| Moves.FreeOffsets | main.py:36-38 | Lists exactly the table positions whose target square is free. Each position is listed once, in increasing order. |
| Moves.PositionsComplete | main.py:38 | The comprehension's filter keeps every table entry whose test passes. |
| Moves.PositionsIncreasing | main.py:38 | The comprehension's filter keeps the entries it passes in table order. |
| Moves.NeighborsAreFreeMoves | main.py:36-38 | Every returned square is in bounds, unvisited and one table entry from the given square. There are at most eight. |
| Moves.NeighborsComplete | main.py:36-38 | Every table entry that leads to a free square contributes that square to the result. |
| Moves.NeighborsInTableOrder | main.py:36-38 | The returned squares follow the order of `KNIGHT_MOVES`, and no square appears twice. |
| Paths.FreeIffOffTrail | main.py:32-34 | On the board left by a path, a square is free exactly when it is in bounds and not on the path. |
| Ranking.Onward | main.py:43 | The key passed to the sort gives every square the number of its candidate moves on the board as it stands. |
| StableSort.SortBy | main.py:43 | The sort returns a permutation of its input, ordered by non-decreasing key. |
| StableSort.SortIsStable | main.py:43 | For every key value, the elements with that key come out in their input order. |
| StableSort.StableSortUnique | main.py:43 | Two key-sorted sequences that hold the same elements, in the same order, at every key are equal. So every stable sort, Python's included, gives the model's result. |
| Ranking.WarnsdorffSort | main.py:40-44 | The ranking is a permutation of the legal moves, ordered by non-decreasing onward-move count. |
| Ranking.WarnsdorffStable | main.py:40-44 | Moves with equal onward counts keep their `KNIGHT_MOVES` order. |
| Ranking.WarnsdorffLeast | main.py:58-62 | The move taken is a legal move, and no legal move has fewer onward moves. |
| Ranking.WarnsdorffTieBreak | main.py:58-62 | Every other legal move with the same onward count comes later in `KNIGHT_MOVES` than the move taken. |
| Ranking.RankingHeadIsChoice | main.py:58-62 | The first ranked move satisfies Warnsdorff's rule in full: a legal move, with no legal move having fewer onward moves, and earlier in `KNIGHT_MOVES` than every tied move. |
| Ranking.WarnsdorffChoiceUnique | main.py:58-62 | At most one square satisfies Warnsdorff's rule, so the rule alone fixes the move the loop makes. |
| Paths.IndexOf | main.py:53-55 | Gives the value a cell records on a path of distinct squares: the step at which the path visits the square, -1 exactly when the path misses it. It returns the first visit, which on a distinct path is the only one. |
| Paths.BoardOfCells | main.py:53-55 | On the board a path of distinct squares leaves, a cell holds i exactly when the path's i-th square is that cell. A cell holds -1 exactly when the path misses it. |
| Paths.MarkExtends | main.py:54-55 | Marking a new square with the next step index gives the board of the path extended by that square. |
| Paths.FullPathCovers | main.py:53-57 | A legal path of n*n distinct in-bounds squares visits every square of the board. |
| Solver.Walk | main.py:53-62 | Each run of the loop extends the path it was given and ends with at most n*n squares. It returns a tour exactly when the path reaches n*n squares. The loop therefore makes at most n*n turns. |
| Solver.WalkFollowsWarnsdorff | main.py:53-62 | Every move the loop makes is the one Warnsdorff's rule picks, judged on the board as it stands at that step: a legal move with the fewest onward moves, the earliest in `KNIGHT_MOVES` among ties. |
| Solver.AttemptFollowsWarnsdorff | main.py:46-63 | Every move of a search from the start square follows Warnsdorff's rule on the board recording the squares visited before it. |
| Solver.StepKeepsReached | main.py:53-62 | A turn keeps the loop state consistent. The board equals the board of the path, the path stays legal, and the next square is free and one knight move on. |
| Solver.WalkKeepsTrail | main.py:53-62 | At the end of the loop, the path is legal and the board records it step by step. |
| Solver.WalkStopsAtDeadEnd | main.py:58-60 | The loop gives up only on a square that has no free knight move. |
| Solver.AttemptOutcome | main.py:46-63 | A search starts on the start square and leaves a legal, recorded path. A found path is a knight's tour: n*n distinct squares, each one knight move from the last, covering the board. A failed search has fewer squares and ends at a dead end. |
| Solver.SingleSquare | main.py:53-57 | On a 1-by-1 board the result is the start square alone, returned at step 0 before any move is ranked. |
| Solver.Solve | main.py:46-63 | The imperative loop returns the tour exactly when the search finds one, and `None` only at a dead end. A returned tour is a knight's tour from the start square in which every move follows Warnsdorff's rule. The engine keeps n, the start square and the board of the search. The result depends on n and the start square alone, not on the board before the call. |
| Solver.SolveTwice | main.py:46-49 | Solving a second time on the engine the first call left gives the same result, because the board is reset first. |

## Left out

- `print_board`, `print_path` (main.py:65-76): text rendering and console output only.
- `parse_args` and `main` (main.py:79-110): command-line handling. `--method` has only one choice, and the rest is I/O.
- The default start square `(0, 0)` of the constructor (main.py:20): `NewEngine` always takes the start square explicitly. A default argument is a calling convenience with no behaviour of its own.
- Out-of-range start squares: the constructor stores the start square unchecked (main.py:25). `Solve` takes an in-bounds start as a precondition instead of modelling Python's negative-index wraparound or `IndexError`.
- The failure result: `solve_warnsdorff` returns plain `None` at a dead end (main.py:59-60). It does not return a failure value carrying the partial path. The model does the same. The partial path stays visible as the engine's board after `Solve`, and `Walk`'s `Stuck` outcome carries it for the proofs.
- Which board sizes and start squares lead to a full tour: this is an empirical property of the heuristic, not something the code promises. The model proves only "full tour, or `None` at a dead end".
- Python's `list.sort` algorithm (Timsort) is not modelled step by step. The model uses an insertion sort, and `StableSort.StableSortUnique` shows that every stable sort gives the same output.
