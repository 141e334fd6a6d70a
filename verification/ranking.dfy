/** Warnsdorff's ranking: the legal moves stably sorted by how many onward
    moves each one leaves. */
module Ranking {
  import opened Chessboard
  import opened Moves
  import opened StableSort

  /** The sort key of the ranking on a given board. */
  function Onward(n: int, board: Board): (key: Square -> nat)
    requires WellFormed(n, board)
    ensures forall s :: key(s) == |Neighbors(n, board, s)|
  {
    s => OnwardCount(n, board, s)
  }

  /** The legal moves from `s`, fewest onward moves first; ties keep the
      order of the offset table. Onward counts are taken on `board` as it
      stands, with the candidate itself still free. */
  function WarnsdorffSort(n: int, board: Board, s: Square): (ranked: seq<Square>)
    requires WellFormed(n, board)
    ensures multiset(ranked) == multiset(Neighbors(n, board, s))
    ensures |ranked| == |Neighbors(n, board, s)|
    ensures forall m :: m in ranked <==> m in Neighbors(n, board, s)
    ensures SortedBy(ranked, Onward(n, board))
  {
    var moves := Neighbors(n, board, s);
    var ranked := SortBy(moves, Onward(n, board));
    assert forall m :: m in ranked <==> m in multiset(moves);
    assert |ranked| == |multiset(ranked)|;
    ranked
  }

  /** Candidates with equal onward counts keep the order of the offset
      table. */
  lemma WarnsdorffStable(n: int, board: Board, s: Square, k: nat)
    requires WellFormed(n, board)
    ensures WithKey(WarnsdorffSort(n, board, s), Onward(n, board), k) ==
            WithKey(Neighbors(n, board, s), Onward(n, board), k)
  {
    SortIsStable(Neighbors(n, board, s), Onward(n, board), k);
  }

  /** Warnsdorff's rule, first half: the first ranked move is a legal move
      with the fewest onward moves. */
  lemma WarnsdorffLeast(n: int, board: Board, s: Square)
    requires WellFormed(n, board)
    ensures WarnsdorffSort(n, board, s) != [] ==> WarnsdorffSort(n, board, s)[0] in Neighbors(n, board, s)
    ensures WarnsdorffSort(n, board, s) != [] ==>
              forall m :: m in Neighbors(n, board, s) ==>
                OnwardCount(n, board, WarnsdorffSort(n, board, s)[0]) <= OnwardCount(n, board, m)
  {
    if WarnsdorffSort(n, board, s) != [] {
      StableHead(Neighbors(n, board, s), Onward(n, board));
    }
  }

  /** Warnsdorff's rule, second half: among the legal moves with the
      fewest onward moves, the first ranked one is the earliest in the
      offset table. */
  lemma WarnsdorffTieBreak(n: int, board: Board, s: Square)
    requires WellFormed(n, board)
    ensures WarnsdorffSort(n, board, s) != [] ==>
            var best := WarnsdorffSort(n, board, s)[0];
            var moves := Neighbors(n, board, s);
            forall j :: 0 <= j < |moves| && moves[j] != best &&
                        OnwardCount(n, board, moves[j]) == OnwardCount(n, board, best) ==>
                          OffsetOf(s, best) < OffsetOf(s, moves[j])
  {
    if WarnsdorffSort(n, board, s) != [] {
      TieBreakForHead(n, board, s);
    }
  }

  /** The tie-break for a nonempty ranking. */
  lemma TieBreakForHead(n: int, board: Board, s: Square)
    requires WellFormed(n, board) && WarnsdorffSort(n, board, s) != []
    ensures var best := WarnsdorffSort(n, board, s)[0];
            var moves := Neighbors(n, board, s);
            forall j :: 0 <= j < |moves| && moves[j] != best &&
                        OnwardCount(n, board, moves[j]) == OnwardCount(n, board, best) ==>
                          OffsetOf(s, best) < OffsetOf(s, moves[j])
  {
    var key := Onward(n, board);
    var moves := Neighbors(n, board, s);
    var best := WarnsdorffSort(n, board, s)[0];
    assert best == SortBy(moves, key)[0];
    StableHead(moves, key);
    NeighborsInTableOrder(n, board, s);
    forall j | 0 <= j < |moves| && moves[j] != best && OnwardCount(n, board, moves[j]) == OnwardCount(n, board, best)
      ensures OffsetOf(s, best) < OffsetOf(s, moves[j])
    {
      assert key(moves[j]) == key(best);
      TieBreakAt(moves, best, j, s);
    }
  }

  /** `next` is the square Warnsdorff's rule picks from `s` on `board`: a
      legal move with the fewest onward moves, and the earliest in the
      offset table among the moves tied with it. */
  ghost predicate WarnsdorffChoice(n: int, board: Board, s: Square, next: Square)
    requires WellFormed(n, board)
  {
    && next in Neighbors(n, board, s)
    && (forall m :: m in Neighbors(n, board, s) ==> OnwardCount(n, board, next) <= OnwardCount(n, board, m))
    && (forall m :: m in Neighbors(n, board, s) && m != next && OnwardCount(n, board, m) == OnwardCount(n, board, next) ==>
          OffsetOf(s, next) < OffsetOf(s, m))
  }

  /** The first ranked move is the one Warnsdorff's rule picks. */
  lemma RankingHeadIsChoice(n: int, board: Board, s: Square)
    requires WellFormed(n, board)
    ensures WarnsdorffSort(n, board, s) != [] ==> WarnsdorffChoice(n, board, s, WarnsdorffSort(n, board, s)[0])
  {
    if WarnsdorffSort(n, board, s) != [] {
      var moves := Neighbors(n, board, s);
      var best := WarnsdorffSort(n, board, s)[0];
      WarnsdorffLeast(n, board, s);
      WarnsdorffTieBreak(n, board, s);
      forall m | m in moves && m != best && OnwardCount(n, board, m) == OnwardCount(n, board, best)
        ensures OffsetOf(s, best) < OffsetOf(s, m)
      {
        var j :| 0 <= j < |moves| && moves[j] == m;
      }
    }
  }


  /** Warnsdorff's rule leaves no choice: at most one square satisfies it. */
  lemma WarnsdorffChoiceUnique(n: int, board: Board, s: Square, a: Square, b: Square)
    requires WellFormed(n, board)
    ensures WarnsdorffChoice(n, board, s, a) && WarnsdorffChoice(n, board, s, b) ==> a == b
  {
    if WarnsdorffChoice(n, board, s, a) && WarnsdorffChoice(n, board, s, b) {
      assert OnwardCount(n, board, a) == OnwardCount(n, board, b);
    }
  }

  /** The step of the tie-break proof for one tied move `moves[j]`. */
  lemma TieBreakAt(moves: seq<Square>, best: Square, j: nat, s: Square)
    requires j < |moves|
    requires forall i, i' :: 0 <= i < i' < |moves| ==> OffsetOf(s, moves[i]) < OffsetOf(s, moves[i'])
    requires best in moves[..j + 1] && best != moves[j]
    ensures OffsetOf(s, best) < OffsetOf(s, moves[j])
  {
    var i :| 0 <= i < j + 1 && moves[..j + 1][i] == best;
    assert moves[i] == best;
    assert i < j;
  }
}
