/** The construction loop: Warnsdorff's heuristic without backtracking. */
module Solver {
  import opened Results
  import opened Chessboard
  import opened Moves
  import opened Ranking
  import opened Paths

  /** How a search ends, with the board and the trail at that moment: a
      full tour, or a dead end. */
  datatype Outcome = Found(board: Board, path: seq<Square>) | Stuck(board: Board, path: seq<Square>)

  /** The loop from step |path| on, with the knight standing on `cur`:
      mark the square, stop once n*n squares are marked, otherwise move to
      the first ranked move, or stop when there is none. */
  function Walk(n: int, board: Board, path: seq<Square>, cur: Square): (o: Outcome)
    requires WellFormed(n, board) && InBounds(n, cur) && |path| < n * n
    ensures |path| < |o.path| <= n * n
    ensures path + [cur] <= o.path
    ensures o.Found? <==> |o.path| == n * n
    ensures WellFormed(n, o.board)
    decreases n * n - |path|
  {
    var step := |path|;
    var marked := Mark(n, board, cur, step);
    var trail := path + [cur];
    if step == n * n - 1 then Found(marked, trail)
    else
      var ranked := WarnsdorffSort(n, marked, cur);
      if ranked == [] then Stuck(marked, trail)
      else
        assert ranked[0] in Neighbors(n, marked, cur);
        var o := Walk(n, marked, trail, ranked[0]);
        assert trail <= trail + [ranked[0]] <= o.path;
        o
  }

  /** A search from `start` on a freshly reset board. */
  function Attempt(n: int, start: Square): Outcome
    requires n >= 1 && InBounds(n, start)
  {
    Walk(n, EmptyBoard(n), [], start)
  }

  /** `tour` is a knight's tour of the n-by-n board starting on `start`. */
  ghost predicate IsTour(n: int, start: Square, tour: seq<Square>)
  {
    && |tour| == n * n && |tour| > 0 && tour[0] == start
    && ValidPath(n, tour)
    && forall s :: InBounds(n, s) ==> s in tour
  }

  /** The state at the top of the loop: the board records exactly the
      trail so far, the trail is legal, and the knight stands on a free
      square one knight move past its end. */
  ghost predicate Reached(n: int, board: Board, path: seq<Square>, cur: Square)
  {
    && n >= 1 && |path| < n * n
    && board == BoardOf(n, path)
    && ValidPath(n, path)
    && InBounds(n, cur) && cur !in path
    && (path != [] ==> KnightStep(path[|path| - 1], cur))
  }

  /** One iteration keeps the loop's state consistent. */
  lemma StepKeepsReached(n: int, board: Board, path: seq<Square>, cur: Square)
    requires Reached(n, board, path, cur)
    ensures var marked := Mark(n, board, cur, |path|);
            var trail := path + [cur];
            && marked == BoardOf(n, trail)
            && ValidPath(n, trail)
            && (|trail| < n * n && WarnsdorffSort(n, marked, cur) != [] ==>
                  Reached(n, marked, trail, WarnsdorffSort(n, marked, cur)[0]))
  {
    var marked := Mark(n, board, cur, |path|);
    var trail := path + [cur];
    MarkExtends(n, path, cur);
    assert ValidPath(n, trail) by {
      forall i | 0 < i < |trail| ensures KnightStep(trail[i - 1], trail[i]) {
        if i < |path| {
          assert trail[i - 1] == path[i - 1] && trail[i] == path[i];
        }
      }
    }
    if |trail| < n * n && WarnsdorffSort(n, marked, cur) != [] {
      var next := WarnsdorffSort(n, marked, cur)[0];
      assert next in Neighbors(n, marked, cur);
      NeighborsAreFreeMoves(n, marked, cur);
      BoardOfCells(n, trail, next, 0);
      assert trail[|trail| - 1] == cur;
    }
  }

  /** Every run of the loop ends with a legal trail, recorded on the board
      step by step. */
  lemma {:induction false} WalkKeepsTrail(n: int, board: Board, path: seq<Square>, cur: Square)
    requires Reached(n, board, path, cur)
    ensures Recorded(n, Walk(n, board, path, cur))
    decreases n * n - |path|
  {
    StepKeepsReached(n, board, path, cur);
    var marked := Mark(n, board, cur, |path|);
    var trail := path + [cur];
    if |path| != n * n - 1 {
      var ranked := WarnsdorffSort(n, marked, cur);
      if ranked != [] {
        WalkKeepsTrail(n, marked, trail, ranked[0]);
      }
    }
  }

  /** A search that gave up did so on a square with no free knight move:
      the last square of its trail. */
  ghost predicate StopsAtDeadEnd(n: int, o: Outcome)
  {
    o.Stuck? ==> WellFormed(n, o.board) && |o.path| > 0 && Neighbors(n, o.board, o.path[|o.path| - 1]) == []
  }

  /** The trail of a search is legal and the board records it: each cell
      holds the step at which the knight stood on it, or Unvisited. */
  ghost predicate Recorded(n: int, o: Outcome)
  {
    n >= 0 && ValidPath(n, o.path) && o.board == BoardOf(n, o.path)
  }

  /** One turn of the loop, case by case. */
  lemma WalkTurn(n: int, board: Board, path: seq<Square>, cur: Square)
    requires WellFormed(n, board) && InBounds(n, cur) && |path| < n * n
    ensures var marked := Mark(n, board, cur, |path|);
            var trail := path + [cur];
            var ranked := WarnsdorffSort(n, marked, cur);
            && (|path| == n * n - 1 ==> Walk(n, board, path, cur) == Found(marked, trail))
            && (|path| != n * n - 1 && ranked == [] ==>
                  Walk(n, board, path, cur) == Stuck(marked, trail) && Neighbors(n, marked, cur) == [])
            && (|path| != n * n - 1 && ranked != [] ==>
                  InBounds(n, ranked[0]) && Walk(n, board, path, cur) == Walk(n, marked, trail, ranked[0]))
  {
    var marked := Mark(n, board, cur, |path|);
    var ranked := WarnsdorffSort(n, marked, cur);
    if ranked != [] {
      assert ranked[0] in Neighbors(n, marked, cur);
    }
  }

  /** The loop gives up only on a square from which no free square is one
      knight move away. */
  lemma {:induction false} WalkStopsAtDeadEnd(n: int, board: Board, path: seq<Square>, cur: Square)
    requires WellFormed(n, board) && InBounds(n, cur) && |path| < n * n
    ensures StopsAtDeadEnd(n, Walk(n, board, path, cur))
    decreases n * n - |path|
  {
    WalkTurn(n, board, path, cur);
    var marked := Mark(n, board, cur, |path|);
    var trail := path + [cur];
    var ranked := WarnsdorffSort(n, marked, cur);
    if |path| != n * n - 1 {
      if ranked == [] {
        assert trail[|trail| - 1] == cur;
      } else {
        WalkStopsAtDeadEnd(n, marked, trail, ranked[0]);
      }
    }
  }

  /** Move `i` of `path` is the one Warnsdorff's rule picks from the
      square before it, on the board recording the first `i` squares. */
  ghost predicate ChosenAt(n: nat, path: seq<Square>, i: int)
    requires 0 < i < |path|
  {
    WarnsdorffChoice(n, BoardOf(n, path[..i]), path[i - 1], path[i])
  }

  /** Every move of `path` after the first `k` squares follows
      Warnsdorff's rule. */
  ghost predicate FollowsFrom(n: nat, path: seq<Square>, k: nat)
  {
    forall i :: k < i < |path| ==> ChosenAt(n, path, i)
  }

  /** A move Warnsdorff's rule picks on the board of `trail` stays picked
      in any longer trail that continues with it. */
  lemma MoveChosen(n: nat, trail: seq<Square>, next: Square, later: seq<Square>)
    requires trail != [] && trail + [next] <= later
    requires WarnsdorffChoice(n, BoardOf(n, trail), trail[|trail| - 1], next)
    ensures ChosenAt(n, later, |trail|)
  {
    var i := |trail|;
    assert later[..i] == trail;
    assert later[i - 1] == trail[i - 1] && later[i] == next;
  }

  /** A trail that ends within one square of `k` has no move to check. */
  lemma FollowsFromEnd(n: nat, path: seq<Square>, k: nat)
    requires |path| <= k + 1
    ensures FollowsFrom(n, path, k)
  {
  }

  /** Extending by one move at the front of the checked part. */
  lemma FollowsExtend(n: nat, path: seq<Square>, k: nat)
    requires k + 1 < |path| ==> ChosenAt(n, path, k + 1)
    requires FollowsFrom(n, path, k + 1)
    ensures FollowsFrom(n, path, k)
  {
  }

  /** A turn that moves on: the loop state stays consistent, the rest of
      the loop is the walk from the next square, and the next square is
      the one Warnsdorff's rule picks on the board of the trail. */
  lemma MoveOn(n: int, board: Board, path: seq<Square>, cur: Square)
    requires Reached(n, board, path, cur) && |path| != n * n - 1
    requires WarnsdorffSort(n, Mark(n, board, cur, |path|), cur) != []
    ensures var marked := Mark(n, board, cur, |path|);
            var trail := path + [cur];
            var next := WarnsdorffSort(n, marked, cur)[0];
            && Reached(n, marked, trail, next)
            && Walk(n, board, path, cur) == Walk(n, marked, trail, next)
            && WarnsdorffChoice(n, BoardOf(n, trail), cur, next)
  {
    StepKeepsReached(n, board, path, cur);
    WalkTurn(n, board, path, cur);
    RankingHeadIsChoice(n, Mark(n, board, cur, |path|), cur);
  }

  /** Every move the loop makes after `cur` follows Warnsdorff's rule on
      the board as it stands at that step. */
  lemma {:induction false} WalkFollowsWarnsdorff(n: int, board: Board, path: seq<Square>, cur: Square)
    requires Reached(n, board, path, cur)
    ensures FollowsFrom(n, Walk(n, board, path, cur).path, |path|)
    decreases n * n - |path|
  {
    var marked := Mark(n, board, cur, |path|);
    var trail := path + [cur];
    if |path| != n * n - 1 && WarnsdorffSort(n, marked, cur) != [] {
      var next := WarnsdorffSort(n, marked, cur)[0];
      MoveOn(n, board, path, cur);
      WalkFollowsWarnsdorff(n, marked, trail, next);
      var o := Walk(n, marked, trail, next);
      assert trail[|trail| - 1] == cur;
      MoveChosen(n, trail, next, o.path);
      FollowsExtend(n, o.path, |path|);
    } else {
      WalkTurn(n, board, path, cur);
      assert Walk(n, board, path, cur).path == trail;
      FollowsFromEnd(n, trail, |path|);
    }
  }

  /** Every move of a search from `start` follows Warnsdorff's rule. */
  lemma AttemptFollowsWarnsdorff(n: int, start: Square)
    requires n >= 1 && InBounds(n, start)
    ensures FollowsFrom(n, Attempt(n, start).path, 0)
  {
    EmptyBoardIsUntrodden(n);
    WalkFollowsWarnsdorff(n, EmptyBoard(n), [], start);
  }

  /** What a search from `start` yields: a legal trail from `start`,
      recorded on the board step by step, which is either a knight's tour
      (Found) or ends on a square with no free knight move (Stuck). */
  lemma AttemptOutcome(n: int, start: Square)
    requires n >= 1 && InBounds(n, start)
    ensures Recorded(n, Attempt(n, start))
    ensures Attempt(n, start).path[0] == start
    ensures Attempt(n, start).Found? ==> IsTour(n, start, Attempt(n, start).path)
    ensures Attempt(n, start).Stuck? ==> |Attempt(n, start).path| < n * n
    ensures StopsAtDeadEnd(n, Attempt(n, start))
  {
    EmptyBoardIsUntrodden(n);
    WalkKeepsTrail(n, EmptyBoard(n), [], start);
    WalkStopsAtDeadEnd(n, EmptyBoard(n), [], start);
    var o := Attempt(n, start);
    assert [start] <= o.path;
    if o.Found? {
      FullPathCovers(n, o.path);
    }
  }

  /** On a 1-by-1 board the tour is the start square alone, reached
      without ranking any move. */
  lemma SingleSquare(start: Square)
    requires InBounds(1, start)
    ensures Attempt(1, start) == Found(Mark(1, EmptyBoard(1), start, 0), [start])
  {
  }

  /** `solve_warnsdorff`: reset the board, then walk. Returns the tour, or
      None at the first dead end; the engine keeps the board of the walk. */
  method Solve(e: Engine) returns (tour: Option<seq<Square>>, e': Engine)
    requires e.n >= 1 && InBounds(e.n, e.start)
    ensures e' == e.(board := Attempt(e.n, e.start).board)
    ensures tour.Some? <==> Attempt(e.n, e.start).Found?
    ensures tour.Some? ==> tour.value == Attempt(e.n, e.start).path
    ensures tour.Some? ==> IsTour(e.n, e.start, tour.value)
    ensures tour.Some? ==> FollowsFrom(e.n, tour.value, 0)
    ensures tour.None? ==> Attempt(e.n, e.start).Stuck? && StopsAtDeadEnd(e.n, Attempt(e.n, e.start))
  {
    var n := e.n;
    var board := EmptyBoard(n);
    var path: seq<Square> := [];
    var cur := e.start;
    EmptyBoardIsUntrodden(n);
    AttemptOutcome(n, e.start);
    AttemptFollowsWarnsdorff(n, e.start);
    for step := 0 to n * n
      invariant step == |path| < n * n
      invariant Reached(n, board, path, cur)
      invariant Walk(n, board, path, cur) == Attempt(n, e.start)
    {
      StepKeepsReached(n, board, path, cur);
      WalkTurn(n, board, path, cur);
      board := Mark(n, board, cur, step);
      path := path + [cur];
      if step == n * n - 1 {
        return Some(path), e.(board := board);
      }
      var ranked := WarnsdorffSort(n, board, cur);
      if ranked == [] {
        return None, e.(board := board);
      }
      cur := ranked[0];
    }
    return None, e.(board := board);
  }

  /** Solving again on the engine the first call left behind gives the
      same answer, because each call starts by resetting the board. */
  method SolveTwice(e: Engine) returns (first: Option<seq<Square>>, second: Option<seq<Square>>)
    requires e.n >= 1 && InBounds(e.n, e.start)
    ensures first == second
  {
    var once, twice;
    first, once := Solve(e);
    second, twice := Solve(once);
    assert once == twice;
  }
}
