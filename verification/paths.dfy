/** The knight's trail: how a path of squares and the board of step
    indices describe each other, and when a path covers the board. */
module Paths {
  import opened Chessboard

  /** No element occurs twice. */
  predicate Distinct<T(==)>(xs: seq<T>)
  {
    forall i, j :: 0 <= i < j < |xs| ==> xs[i] != xs[j]
  }

  /** A trail the knight can walk on an n-by-n board: every square is on
      the board, none is visited twice, and consecutive squares are one
      knight move apart. */
  predicate ValidPath(n: int, path: seq<Square>)
  {
    && (forall i :: 0 <= i < |path| ==> InBounds(n, path[i]))
    && Distinct(path)
    && (forall i :: 0 < i < |path| ==> KnightStep(path[i - 1], path[i]))
  }

  /** The step at which the knight stood on `s`, or Unvisited if it never
      did: the value a board cell records. */
  function IndexOf(path: seq<Square>, s: Square): (i: int)
    ensures i == Unvisited <==> s !in path
    ensures i != Unvisited ==> 0 <= i < |path| && path[i] == s && s !in path[..i]
  {
    if path == [] then Unvisited
    else if path[0] == s then 0
    else
      var j := IndexOf(path[1..], s);
      assert path == [path[0]] + path[1..];
      if j == Unvisited then Unvisited
      else
        assert path[..j + 1] == [path[0]] + path[1..][..j];
        j + 1
  }

  /** The board a trail leaves behind. */
  function BoardOf(n: nat, path: seq<Square>): (board: Board)
    ensures WellFormed(n, board)
  {
    seq(n, r => seq(n, c => IndexOf(path, Square(r, c))))
  }

  /** On the board a trail of distinct squares leaves behind, a cell holds
      i exactly when the i-th square of the trail is that cell, and is
      unvisited exactly when the trail misses it. */
  lemma BoardOfCells(n: nat, path: seq<Square>, s: Square, i: int)
    requires Distinct(path) && InBounds(n, s)
    ensures BoardOf(n, path)[s.row][s.col] == Unvisited <==> s !in path
    ensures 0 <= i ==> (BoardOf(n, path)[s.row][s.col] == i <==> i < |path| && path[i] == s)
  {
    var cell := BoardOf(n, path)[s.row][s.col];
    assert cell == IndexOf(path, s);
    if 0 <= i < |path| && path[i] == s {
      assert path[cell] == path[i];
    }
  }

  /** On the board a trail leaves behind, a square is free exactly when it
      is on the board and off the trail. */
  lemma FreeIffOffTrail(n: nat, path: seq<Square>, s: Square)
    requires Distinct(path)
    ensures IsFree(n, BoardOf(n, path), s) <==> InBounds(n, s) && s !in path
  {
    if InBounds(n, s) {
      BoardOfCells(n, path, s, 0);
    }
  }

  /** The fresh board is the board of the empty trail. */
  lemma EmptyBoardIsUntrodden(n: nat)
    ensures EmptyBoard(n) == BoardOf(n, [])
  {
    var e, b := EmptyBoard(n), BoardOf(n, []);
    forall r | 0 <= r < n ensures e[r] == b[r] {
    }
  }

  /** Marking the next square with the next step index extends the trail. */
  lemma MarkExtends(n: nat, path: seq<Square>, s: Square)
    requires InBounds(n, s) && s !in path
    ensures Mark(n, BoardOf(n, path), s, |path|) == BoardOf(n, path + [s])
  {
    var before, after := Mark(n, BoardOf(n, path), s, |path|), BoardOf(n, path + [s]);
    forall r | 0 <= r < n ensures before[r] == after[r] {
      forall c | 0 <= c < n ensures before[r][c] == after[r][c] {
        var t := Square(r, c);
        var i := IndexOf(path + [s], t);
        if t in path {
          var j := IndexOf(path, t);
          assert (path + [s])[j] == t;
          assert (path + [s])[..|path|] == path;
        } else if t == s {
          assert (path + [s])[|path|] == t;
        }
      }
    }
  }

  /** The distinct elements of a sequence number as many as the sequence. */
  lemma {:induction false} DistinctCard<T>(xs: seq<T>)
    requires Distinct(xs)
    ensures |set x | x in xs| == |xs|
  {
    if xs != [] {
      var init := xs[..|xs| - 1];
      DistinctCard(init);
      assert (set x | x in xs) == (set x | x in init) + {xs[|xs| - 1]};
      assert xs[|xs| - 1] !in init;
    }
  }

  /** A sequence has at most as many distinct elements as entries. */
  lemma {:induction false} ElementsCard<T>(xs: seq<T>)
    ensures |set x | x in xs| <= |xs|
  {
    if xs != [] {
      var init := xs[..|xs| - 1];
      ElementsCard(init);
      assert (set x | x in xs) == (set x | x in init) + {xs[|xs| - 1]};
    }
  }

  /** A subset is no larger than its superset. */
  lemma {:induction false} SubsetCard<T>(a: set<T>, b: set<T>)
    requires a <= b
    ensures |a| <= |b|
    decreases a
  {
    if a != {} {
      var x :| x in a;
      SubsetCard(a - {x}, b - {x});
    }
  }

  /** A trail of n*n distinct squares of the board visits every square. */
  lemma FullPathCovers(n: nat, path: seq<Square>)
    requires ValidPath(n, path) && |path| == n * n
    ensures forall s :: InBounds(n, s) ==> s in path
  {
    var visited := set x | x in path;
    var board := set x | x in AllSquares(n);
    DistinctCard(path);
    ElementsCard(AllSquares(n));
    forall s | InBounds(n, s) ensures s in path {
      if s !in path {
        assert visited <= board - {s};
        SubsetCard(visited, board - {s});
        assert false;
      }
    }
  }
}
