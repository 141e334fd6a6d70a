/** Enumeration of the knight's legal moves from a square. */
module Moves {
  import opened Chessboard

  /** For each entry of the offset table, whether its target from `s` is
      free. */
  function FreeFlags(n: int, board: Board, s: Square): (flags: seq<bool>)
    requires WellFormed(n, board)
    ensures |flags| == |KnightMoves|
  {
    seq(|KnightMoves|, j requires 0 <= j < |KnightMoves| => IsFree(n, board, Target(s, j)))
  }

  /** The positions j >= k at which `flags` holds, in increasing order. */
  function Positions(flags: seq<bool>, k: nat): (ks: seq<nat>)
    requires k <= |flags|
    ensures forall i :: 0 <= i < |ks| ==> k <= ks[i] < |flags| && flags[ks[i]]
    ensures |ks| <= |flags| - k
    decreases |flags| - k
  {
    if k == |flags| then []
    else if flags[k] then [k] + Positions(flags, k + 1)
    else Positions(flags, k + 1)
  }

  /** Every position from `k` on at which `flags` holds is listed. */
  lemma {:induction false} PositionsComplete(flags: seq<bool>, k: nat)
    requires k <= |flags|
    ensures forall j :: k <= j < |flags| && flags[j] ==> j in Positions(flags, k)
    decreases |flags| - k
  {
    if k < |flags| {
      PositionsComplete(flags, k + 1);
      assert forall j :: j in Positions(flags, k + 1) ==> j in Positions(flags, k);
    }
  }

  /** The numbers of `ks` strictly increase along the sequence. */
  predicate Increasing(ks: seq<nat>)
  {
    forall i, i' :: 0 <= i < i' < |ks| ==> ks[i] < ks[i']
  }

  /** The positions are listed in strictly increasing order. */
  lemma {:induction false} PositionsIncreasing(flags: seq<bool>, k: nat)
    requires k <= |flags|
    ensures Increasing(Positions(flags, k))
    decreases |flags| - k
  {
    if k < |flags| {
      PositionsIncreasing(flags, k + 1);
      var rest := Positions(flags, k + 1);
      if flags[k] {
        var ks := [k] + rest;
        forall i, i' | 0 <= i < i' < |ks| ensures ks[i] < ks[i'] {
          assert ks[i'] == rest[i' - 1];
          if i > 0 {
            assert ks[i] == rest[i - 1];
            assert rest[i - 1] < rest[i' - 1];
          }
        }
      }
    }
  }

  /** The numbers of the table entries whose target from `s` is free, in
      table order. */
  function FreeOffsets(n: int, board: Board, s: Square): (ks: seq<nat>)
    requires WellFormed(n, board)
    ensures |ks| <= |KnightMoves|
    ensures forall i :: 0 <= i < |ks| ==> ks[i] < |KnightMoves| && IsFree(n, board, Target(s, ks[i]))
    ensures forall j: nat :: j < |KnightMoves| && IsFree(n, board, Target(s, j)) ==> j in ks
    ensures Increasing(ks)
  {
    var flags := FreeFlags(n, board, s);
    PositionsComplete(flags, 0);
    PositionsIncreasing(flags, 0);
    Positions(flags, 0)
  }

  /** The free squares one knight move from `s`, in the order of the
      offset table. The square `s` itself need not be on the board. */
  function Neighbors(n: int, board: Board, s: Square): (moves: seq<Square>)
    requires WellFormed(n, board)
    ensures |moves| <= |KnightMoves|
    ensures forall m :: m in moves ==> IsFree(n, board, m) && KnightStep(s, m)
    ensures forall k: nat :: k < |KnightMoves| && IsFree(n, board, Target(s, k)) ==> Target(s, k) in moves
  {
    var ks := FreeOffsets(n, board, s);
    MovesAreFreeSteps(n, board, s, ks);
    FreeTargetsListed(n, board, s, ks);
    Targets(s, ks)
  }

  /** Every move is a free square one entry of the offset table away, so
      there are at most eight. */
  lemma NeighborsAreFreeMoves(n: int, board: Board, s: Square)
    requires WellFormed(n, board)
    ensures |Neighbors(n, board, s)| <= |KnightMoves|
    ensures forall m :: m in Neighbors(n, board, s) ==> IsFree(n, board, m) && KnightStep(s, m)
  {
    MovesAreFreeSteps(n, board, s, FreeOffsets(n, board, s));
  }

  /** Every entry of the offset table that leads to a free square yields
      a move. */
  lemma NeighborsComplete(n: int, board: Board, s: Square)
    requires WellFormed(n, board)
    ensures forall k: nat :: k < |KnightMoves| && IsFree(n, board, Target(s, k)) ==> Target(s, k) in Neighbors(n, board, s)
  {
    FreeTargetsListed(n, board, s, FreeOffsets(n, board, s));
  }

  /** The moves come in the order of the offset table, each listed once. */
  lemma NeighborsInTableOrder(n: int, board: Board, s: Square)
    requires WellFormed(n, board)
    ensures var moves := Neighbors(n, board, s);
            forall i, j :: 0 <= i < j < |moves| ==> OffsetOf(s, moves[i]) < OffsetOf(s, moves[j])
    ensures var moves := Neighbors(n, board, s);
            forall i, j :: 0 <= i < j < |moves| ==> moves[i] != moves[j]
  {
    MovesInTableOrder(n, board, s, FreeOffsets(n, board, s));
  }

  /** The squares the offsets `ks` lead to from `s`, in the order of `ks`. */
  function Targets(s: Square, ks: seq<nat>): (moves: seq<Square>)
    requires forall i :: 0 <= i < |ks| ==> ks[i] < |KnightMoves|
  {
    seq(|ks|, i requires 0 <= i < |ks| => Target(s, ks[i]))
  }

  lemma MovesAreFreeSteps(n: int, board: Board, s: Square, ks: seq<nat>)
    requires WellFormed(n, board) && ks == FreeOffsets(n, board, s)
    ensures forall m :: m in Targets(s, ks) ==> IsFree(n, board, m) && KnightStep(s, m)
  {
    var moves := Targets(s, ks);
    forall m | m in moves ensures IsFree(n, board, m) && KnightStep(s, m) {
      var i :| 0 <= i < |moves| && moves[i] == m;
      assert Target(s, ks[i]) == m;
    }
  }

  lemma FreeTargetsListed(n: int, board: Board, s: Square, ks: seq<nat>)
    requires WellFormed(n, board) && ks == FreeOffsets(n, board, s)
    ensures forall k: nat :: k < |KnightMoves| && IsFree(n, board, Target(s, k)) ==> Target(s, k) in Targets(s, ks)
  {
    var moves := Targets(s, ks);
    forall k: nat | k < |KnightMoves| && IsFree(n, board, Target(s, k))
      ensures Target(s, k) in moves
    {
      var i :| 0 <= i < |ks| && ks[i] == k;
      assert moves[i] == Target(s, k);
    }
  }

  lemma MovesInTableOrder(n: int, board: Board, s: Square, ks: seq<nat>)
    requires WellFormed(n, board) && ks == FreeOffsets(n, board, s)
    ensures var moves := Targets(s, ks);
            forall i, j :: 0 <= i < j < |moves| ==> OffsetOf(s, moves[i]) < OffsetOf(s, moves[j])
  {
    var moves := Targets(s, ks);
    assert forall i :: 0 <= i < |moves| ==> OffsetOf(s, moves[i]) == ks[i];
  }

  /** Warnsdorff's key: how many free squares the knight could move on to
      from `s`. */
  function OnwardCount(n: int, board: Board, s: Square): (count: nat)
    requires WellFormed(n, board)
    ensures count <= |KnightMoves|
    ensures count == 0 <==> forall k: nat :: k < |KnightMoves| ==> !IsFree(n, board, Target(s, k))
  {
    var moves := Neighbors(n, board, s);
    if moves == [] then 0
    else
      SomeFreeTarget(n, board, s);
      |moves|
  }

  lemma SomeFreeTarget(n: int, board: Board, s: Square)
    requires WellFormed(n, board) && Neighbors(n, board, s) != []
    ensures exists k: nat :: k < |KnightMoves| && IsFree(n, board, Target(s, k))
  {
    var m := Neighbors(n, board, s)[0];
    assert m in Neighbors(n, board, s);
    var k: nat :| k < |KnightMoves| && Target(s, k) == m;
  }
}
